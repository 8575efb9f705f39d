/** The receive loop's effect on the maps: `processPacket` applied once per received
    packet, in arrival order, until a call runs into undefined behaviour. */
module Run {
  import opened CInt
  import opened Wire
  import opened Reassembly

  /** After a run: the maps and what each call handed to the decoder (`None` when that
      call completed nothing); or the position of the call whose behaviour is undefined. */
  datatype Trace = Ran(state: State, delivered: seq<Option<Delivery>>) | Stopped(at: nat, fault: Fault)

  predicate AllWellFormed(ps: seq<Packet>) {
    forall i | 0 <= i < |ps| :: WellFormed(ps[i])
  }

  /** The keys the packets `ps` address. */
  function Addressed(ps: seq<Packet>): set<int> {
    set i | 0 <= i < |ps| :: Key(ps[i].header.nframe)
  }

  /** One `processPacket` call per packet. Entries are only ever added, never erased,
      and every counter only grows. */
  function Run(s: State, ps: seq<Packet>): (t: Trace)
    requires AllWellFormed(ps)
    ensures t.Ran? ==> |t.delivered| == |ps|
    ensures t.Stopped? ==> t.at < |ps|
    ensures t.Ran? ==> t.state.Keys == s.Keys + Addressed(ps)
    ensures t.Ran? ==> forall k | k in s :: s[k].count <= t.state[k].count
    decreases |ps|
  {
    if ps == [] then Ran(s, [])
    else
      var front, last := ps[..|ps| - 1], ps[|ps| - 1];
      assert Addressed(ps) == Addressed(front) + {Key(last.header.nframe)};
      match Run(s, front)
      case Stopped(at, f) => Stopped(at, f)
      case Ran(s1, d) =>
        match Step(s1, last)
        case Undefined(f) => Stopped(|ps| - 1, f)
        case Stepped(s2, e) => Ran(s2, d + [e])
  }

  /** A run without undefined behaviour, extended by one packet whose call has none
      either, is that run followed by the call. */
  lemma RunSnoc(s: State, ps: seq<Packet>, p: Packet, s1: State, d: seq<Option<Delivery>>)
    requires AllWellFormed(ps) && WellFormed(p)
    requires Run(s, ps) == Ran(s1, d)
    requires Step(s1, p).Stepped?
    ensures AllWellFormed(ps + [p])
    ensures Run(s, ps + [p]) == Ran(Step(s1, p).state, d + [Step(s1, p).delivered])
  {
    assert (ps + [p])[..|ps|] == ps;
  }

  /** Every packet is a fragment of one frame and agrees on its metadata, with a
      fragment index below `nfrags`. */
  predicate FragmentOf(p: Packet, nframe: U32, nfrags: U32, framesize: U32) {
    && WellFormed(p)
    && p.header.nframe == nframe
    && p.header.nfrags == nfrags
    && p.header.framesize == framesize
    && p.header.nfrag < nfrags
  }

  predicate FragmentsOf(ps: seq<Packet>, nframe: U32, nfrags: U32, framesize: U32) {
    forall i | 0 <= i < |ps| :: FragmentOf(ps[i], nframe, nfrags, framesize)
  }

  /** No fragment index occurs twice. */
  predicate DistinctSlots(ps: seq<Packet>) {
    forall a, b | 0 <= a < b < |ps| :: ps[a].header.nfrag != ps[b].header.nfrag
  }

  /** Byte `o` of slot `j` once the packets `ps` were copied in order: the payload of the
      last packet for that slot, or an unwritten byte. */
  function SlotByte(ps: seq<Packet>, j: int, o: nat): U8
    requires AllWellFormed(ps)
    requires o < PacketSize
  {
    if ps == [] then 0
    else if ps[|ps| - 1].header.nfrag == j then ps[|ps| - 1].payload[o]
    else SlotByte(ps[..|ps| - 1], j, o)
  }

  /** The buffer of a frame of `nfrags` fragments once the packets `ps` were copied into
      it in order. */
  function Assembled(ps: seq<Packet>, nfrags: nat): (b: seq<U8>)
    requires AllWellFormed(ps)
    ensures |b| == nfrags * PacketSize
  {
    seq(nfrags * PacketSize, i => SlotByte(ps, i / PacketSize, i % PacketSize))
  }

  /** Byte `i` lies in slot `j` exactly when `j` is its quotient by the slot size. */
  lemma SlotOfByte(i: nat, j: nat)
    ensures j * PacketSize <= i < j * PacketSize + PacketSize <==> i / PacketSize == j
    ensures i / PacketSize == j ==> i % PacketSize == i - j * PacketSize
  {
  }

  /** Nothing written yet: the buffer is the freshly allocated one. */
  lemma AssembledNothing(nfrags: nat)
    ensures Assembled([], nfrags) == Unwritten(nfrags * PacketSize)
  {
  }

  /** Copying one more packet into the assembled buffer is the same as assembling the
      longer sequence. */
  lemma AssembledAppend(ps: seq<Packet>, p: Packet, nfrags: nat)
    requires AllWellFormed(ps) && WellFormed(p)
    requires p.header.nfrag < nfrags
    ensures AllWellFormed(ps + [p])
    ensures Assembled(ps + [p], nfrags) ==
              Overwrite(Assembled(ps, nfrags), p.header.nfrag * PacketSize, p.payload)
  {
    var loc := p.header.nfrag * PacketSize;
    var a, b := Assembled(ps + [p], nfrags), Overwrite(Assembled(ps, nfrags), loc, p.payload);
    assert (ps + [p])[..|ps|] == ps;
    forall i | 0 <= i < nfrags * PacketSize
      ensures a[i] == b[i]
    {
      SlotOfByte(i, p.header.nfrag);
      if loc <= i < loc + PacketSize {
        assert b[i] == b[loc..loc + PacketSize][i - loc];
      }
    }
  }

  /** What the call that has copied the fragments `ps` of a frame hands to the decoder:
      the assembled buffer and the frame's size when the count `|ps|` equals `nfrags`,
      nothing otherwise. */
  function Completion(ps: seq<Packet>, nframe: U32, nfrags: U32, framesize: U32): Option<Delivery>
    requires AllWellFormed(ps)
  {
    if |ps| == nfrags then Some(Delivery(Key(nframe), Assembled(ps, nfrags), ToInt32(framesize))) else None
  }

  /** The state a single-frame run is expected to reach. */
  function Tracking(s: State, ps: seq<Packet>, nframe: U32, nfrags: U32, framesize: U32): State
    requires AllWellFormed(ps)
  {
    s[Key(nframe) := Frame(Assembled(ps, nfrags), framesize, |ps|)]
  }

  /** One more fragment of a frame whose entry holds the fragments `ps` copied so far
      (or, before the first one, is absent). */
  lemma StepAssembled(s: State, ps: seq<Packet>, p: Packet, nframe: U32, nfrags: U32, framesize: U32)
    requires FragmentsOf(ps, nframe, nfrags, framesize) && FragmentOf(p, nframe, nfrags, framesize)
    requires nfrags * PacketSize <= IntMax
    requires Key(nframe) in s ==> s[Key(nframe)] == Frame(Assembled(ps, nfrags), framesize, |ps|)
    requires Key(nframe) !in s ==> ps == []
    ensures AllWellFormed(ps) && AllWellFormed(ps + [p])
    ensures Step(s, p) ==
              Stepped(s[Key(nframe) := Frame(Assembled(ps + [p], nfrags), framesize, |ps| + 1)],
                      Completion(ps + [p], nframe, nfrags, framesize))
  {
    AssembledAppend(ps, p, nfrags);
    if Key(nframe) !in s {
      AssembledNothing(nfrags);
    }
  }

  /** The step of a single-frame run, from one expected state to the next. */
  lemma StepTracking(s: State, ps: seq<Packet>, p: Packet, nframe: U32, nfrags: U32, framesize: U32)
    requires FragmentsOf(ps, nframe, nfrags, framesize) && FragmentOf(p, nframe, nfrags, framesize)
    requires nfrags * PacketSize <= IntMax
    ensures AllWellFormed(ps) && AllWellFormed(ps + [p])
    ensures Step(Tracking(s, ps, nframe, nfrags, framesize), p) ==
              Stepped(Tracking(s, ps + [p], nframe, nfrags, framesize), Completion(ps + [p], nframe, nfrags, framesize))
  {
    var t := Tracking(s, ps, nframe, nfrags, framesize);
    StepAssembled(t, ps, p, nframe, nfrags, framesize);
    assert t[Key(nframe) := Frame(Assembled(ps + [p], nfrags), framesize, |ps| + 1)] ==
           Tracking(s, ps + [p], nframe, nfrags, framesize);
  }

  /** What the decoder receives along the run of one frame's fragments: nothing, except
      on the call whose count reaches `nfrags`. */
  function Handed(ps: seq<Packet>, nframe: U32, nfrags: U32, framesize: U32): (d: seq<Option<Delivery>>)
    requires AllWellFormed(ps)
    ensures |d| == |ps|
  {
    seq(|ps|, i requires 0 <= i < |ps| => Completion(ps[..i + 1], nframe, nfrags, framesize))
  }

  /** Extending a run by one call extends what is handed over by that call's delivery. */
  lemma HandedSnoc(ps: seq<Packet>, p: Packet, nframe: U32, nfrags: U32, framesize: U32)
    requires AllWellFormed(ps) && WellFormed(p)
    ensures AllWellFormed(ps + [p])
    ensures Handed(ps + [p], nframe, nfrags, framesize) ==
              Handed(ps, nframe, nfrags, framesize) + [Completion(ps + [p], nframe, nfrags, framesize)]
  {
    var q := ps + [p];
    var a, b := Handed(q, nframe, nfrags, framesize), Handed(ps, nframe, nfrags, framesize);
    forall i | 0 <= i < |ps|
      ensures a[i] == b[i]
    {
      assert q[..i + 1] == ps[..i + 1];
    }
    assert q[..|q|] == q;
  }

  /** The first call of a single-frame run. */
  lemma FirstFragment(s: State, p: Packet, nframe: U32, nfrags: U32, framesize: U32)
    requires FragmentOf(p, nframe, nfrags, framesize)
    requires Key(nframe) !in s
    requires nfrags * PacketSize <= IntMax
    ensures AllWellFormed([p])
    ensures Run(s, [p]) == Ran(Tracking(s, [p], nframe, nfrags, framesize), Handed([p], nframe, nfrags, framesize))
  {
    StepAssembled(s, [], p, nframe, nfrags, framesize);
    HandedSnoc([], p, nframe, nfrags, framesize);
    assert Run(s, []) == Ran(s, []);
    RunSnoc(s, [], p, s, []);
    assert [] + [p] == [p];
  }

  /** A later call of a single-frame run. */
  lemma NextFragment(s: State, ps: seq<Packet>, p: Packet, nframe: U32, nfrags: U32, framesize: U32)
    requires FragmentsOf(ps, nframe, nfrags, framesize) && FragmentOf(p, nframe, nfrags, framesize)
    requires nfrags * PacketSize <= IntMax
    requires AllWellFormed(ps)
    requires Run(s, ps) == Ran(Tracking(s, ps, nframe, nfrags, framesize), Handed(ps, nframe, nfrags, framesize))
    ensures AllWellFormed(ps + [p])
    ensures Run(s, ps + [p]) ==
              Ran(Tracking(s, ps + [p], nframe, nfrags, framesize), Handed(ps + [p], nframe, nfrags, framesize))
  {
    StepTracking(s, ps, p, nframe, nfrags, framesize);
    HandedSnoc(ps, p, nframe, nfrags, framesize);
    RunSnoc(s, ps, p, Tracking(s, ps, nframe, nfrags, framesize), Handed(ps, nframe, nfrags, framesize));
  }

  /** The run of the fragments of one frame that the maps do not track yet: no undefined
      behaviour, the frame's buffer is the assembled one, its size is the frame's, its
      counter is the number of calls, every other entry is untouched, and the decoder is
      called exactly on the call whose count equals `nfrags`. */
  lemma {:induction false} SingleFrameRun(s: State, ps: seq<Packet>, nframe: U32, nfrags: U32, framesize: U32)
    requires FragmentsOf(ps, nframe, nfrags, framesize)
    requires Key(nframe) !in s
    requires nfrags * PacketSize <= IntMax
    requires |ps| > 0
    ensures AllWellFormed(ps)
    ensures Run(s, ps) == Ran(Tracking(s, ps, nframe, nfrags, framesize), Handed(ps, nframe, nfrags, framesize))
    decreases |ps|
  {
    var front, last := ps[..|ps| - 1], ps[|ps| - 1];
    assert front + [last] == ps;
    if front == [] {
      FirstFragment(s, last, nframe, nfrags, framesize);
    } else {
      SingleFrameRun(s, front, nframe, nfrags, framesize);
      NextFragment(s, front, last, nframe, nfrags, framesize);
    }
  }

  /** With distinct fragment indices, a slot holds the payload of the packet for it. */
  lemma {:induction false} SlotByteOfPacket(ps: seq<Packet>, i: nat, o: nat)
    requires AllWellFormed(ps) && DistinctSlots(ps)
    requires i < |ps| && o < PacketSize
    ensures SlotByte(ps, ps[i].header.nfrag, o) == ps[i].payload[o]
    decreases |ps|
  {
    if i < |ps| - 1 {
      var front := ps[..|ps| - 1];
      assert ps[|ps| - 1].header.nfrag != ps[i].header.nfrag;
      assert front[i] == ps[i];
      SlotByteOfPacket(front, i, o);
    }
  }

  /** A slot no packet addresses stays unwritten. */
  lemma {:induction false} SlotByteUnwritten(ps: seq<Packet>, j: int, o: nat)
    requires AllWellFormed(ps) && o < PacketSize
    requires forall i | 0 <= i < |ps| :: ps[i].header.nfrag != j
    ensures SlotByte(ps, j, o) == 0
    decreases |ps|
  {
    if ps != [] {
      SlotByteUnwritten(ps[..|ps| - 1], j, o);
    }
  }

  /** Slot by slot, the assembled buffer of a frame with distinct fragment indices holds
      each packet's payload at `nfrag * PACKET_SIZE`. */
  lemma AssembledSlot(ps: seq<Packet>, nfrags: nat, i: nat)
    requires AllWellFormed(ps) && DistinctSlots(ps)
    requires i < |ps| && ps[i].header.nfrag < nfrags
    ensures var loc := ps[i].header.nfrag * PacketSize;
            Assembled(ps, nfrags)[loc..loc + PacketSize] == ps[i].payload
  {
    var j := ps[i].header.nfrag;
    var loc := j * PacketSize;
    var a := Assembled(ps, nfrags);
    forall o | 0 <= o < PacketSize
      ensures a[loc..loc + PacketSize][o] == ps[i].payload[o]
    {
      SlotOfByte(loc + o, j);
      SlotByteOfPacket(ps, i, o);
    }
  }

  /** Two arrival orders of the same fragments, each index at most once, assemble the
      same buffer. */
  lemma AssembledOrderIndependent(ps: seq<Packet>, qs: seq<Packet>, nfrags: nat)
    requires AllWellFormed(ps) && DistinctSlots(ps)
    requires AllWellFormed(qs) && DistinctSlots(qs)
    requires multiset(ps) == multiset(qs)
    ensures Assembled(ps, nfrags) == Assembled(qs, nfrags)
  {
    var a, b := Assembled(ps, nfrags), Assembled(qs, nfrags);
    forall x | 0 <= x < nfrags * PacketSize
      ensures a[x] == b[x]
    {
      var j, o := x / PacketSize, x % PacketSize;
      if i :| 0 <= i < |ps| && ps[i].header.nfrag == j {
        assert ps[i] in multiset(qs);
        var k :| 0 <= k < |qs| && qs[k] == ps[i];
        SlotByteOfPacket(ps, i, o);
        SlotByteOfPacket(qs, k, o);
      } else {
        forall k | 0 <= k < |qs|
          ensures qs[k].header.nfrag != j
        {
          assert qs[k] in multiset(ps);
        }
        SlotByteUnwritten(ps, j, o);
        SlotByteUnwritten(qs, j, o);
      }
    }
  }

  /** Counter-based completion: for the fragments of one untracked frame, the decoder is
      called on exactly the call whose number is `nfrags`, whether or not the indices
      delivered so far are distinct. Fewer calls never complete the frame, and calls
      after completion do not complete it again. */
  lemma CompletionCountsCalls(s: State, ps: seq<Packet>, nframe: U32, nfrags: U32, framesize: U32)
    requires FragmentsOf(ps, nframe, nfrags, framesize)
    requires Key(nframe) !in s
    requires nfrags * PacketSize <= IntMax
    ensures AllWellFormed(ps)
    ensures Run(s, ps).Ran?
    ensures ps != [] ==> Run(s, ps).state[Key(nframe)].count == |ps|
    ensures forall i | 0 <= i < |ps| :: Run(s, ps).delivered[i].Some? <==> i + 1 == nfrags
  {
    if ps != [] {
      SingleFrameRun(s, ps, nframe, nfrags, framesize);
      var d := Handed(ps, nframe, nfrags, framesize);
      forall i | 0 <= i < |ps|
        ensures d[i].Some? <==> i + 1 == nfrags
      {
        assert |ps[..i + 1]| == i + 1;
      }
    }
  }

  /** A complete set of fragments, each index once, in any order: the frame completes on
      the last arrival and not before, and the decoder gets a buffer of `nfrags * 1400`
      bytes holding every fragment's payload in its slot, with the first fragment's
      `framesize`; that size lies within the buffer exactly when `framesize` does not
      exceed `nfrags * 1400`. The entry stays in the maps. */
  lemma FullFrameDelivered(s: State, ps: seq<Packet>, nframe: U32, nfrags: U32, framesize: U32)
    requires FragmentsOf(ps, nframe, nfrags, framesize) && DistinctSlots(ps)
    requires |ps| == nfrags > 0
    requires Key(nframe) !in s
    requires nfrags * PacketSize <= IntMax
    ensures AllWellFormed(ps)
    ensures Run(s, ps).Ran?
    ensures Key(nframe) in Run(s, ps).state
    ensures forall i | 0 <= i < |ps| - 1 :: Run(s, ps).delivered[i] == None
    ensures Run(s, ps).delivered[|ps| - 1].Some?
    ensures var d := Run(s, ps).delivered[|ps| - 1].value;
            && d.frame == Key(nframe)
            && |d.data| == nfrags * PacketSize
            && (forall i | 0 <= i < |ps| ::
                  d.data[ps[i].header.nfrag * PacketSize..ps[i].header.nfrag * PacketSize + PacketSize] == ps[i].payload)
            && d.size == ToInt32(framesize)
            && (0 <= d.size <= |d.data| <==> framesize <= nfrags * PacketSize)
  {
    SingleFrameRun(s, ps, nframe, nfrags, framesize);
    var h := Handed(ps, nframe, nfrags, framesize);
    forall i | 0 <= i < |ps| - 1
      ensures h[i] == None
    {
      assert |ps[..i + 1]| == i + 1;
    }
    assert ps[..|ps|] == ps;
    assert h[|ps| - 1] == Some(Delivery(Key(nframe), Assembled(ps, nfrags), ToInt32(framesize)));
    forall i | 0 <= i < |ps|
      ensures var loc := ps[i].header.nfrag * PacketSize;
              Assembled(ps, nfrags)[loc..loc + PacketSize] == ps[i].payload
    {
      AssembledSlot(ps, nfrags, i);
    }
  }

  /** Runs of the same length `nfrags` that assemble the same buffer hand the same
      things to the decoder. */
  lemma HandedSameAssembly(ps: seq<Packet>, qs: seq<Packet>, nframe: U32, nfrags: U32, framesize: U32)
    requires AllWellFormed(ps) && AllWellFormed(qs)
    requires |ps| == |qs| == nfrags
    requires Assembled(ps, nfrags) == Assembled(qs, nfrags)
    ensures Handed(ps, nframe, nfrags, framesize) == Handed(qs, nframe, nfrags, framesize)
  {
    var a, b := Handed(ps, nframe, nfrags, framesize), Handed(qs, nframe, nfrags, framesize);
    forall i | 0 <= i < |ps|
      ensures a[i] == b[i]
    {
      assert |ps[..i + 1]| == |qs[..i + 1]| == i + 1;
      if i + 1 == |ps| {
        assert ps[..i + 1] == ps && qs[..i + 1] == qs;
      }
    }
  }

  /** Order independence: two arrival orders of the same complete set of fragments, each
      index once, produce the same maps and the same hand-offs. */
  lemma FullFrameOrderIndependent(s: State, ps: seq<Packet>, qs: seq<Packet>, nframe: U32, nfrags: U32, framesize: U32)
    requires FragmentsOf(ps, nframe, nfrags, framesize) && DistinctSlots(ps)
    requires FragmentsOf(qs, nframe, nfrags, framesize) && DistinctSlots(qs)
    requires multiset(ps) == multiset(qs)
    requires |ps| == nfrags
    requires Key(nframe) !in s
    requires nfrags * PacketSize <= IntMax
    ensures AllWellFormed(ps) && AllWellFormed(qs)
    ensures Run(s, ps) == Run(s, qs)
  {
    assert |qs| == |multiset(qs)| == |multiset(ps)| == |ps|;
    if ps != [] {
      SingleFrameRun(s, ps, nframe, nfrags, framesize);
      SingleFrameRun(s, qs, nframe, nfrags, framesize);
      AssembledOrderIndependent(ps, qs, nfrags);
      HandedSameAssembly(ps, qs, nframe, nfrags, framesize);
      assert Tracking(s, ps, nframe, nfrags, framesize) == Tracking(s, qs, nframe, nfrags, framesize);
    }
  }

  /** Duplicates complete a frame early: two copies of fragment 0 of a two-fragment frame
      are counted as two arrivals, so the second copy completes the frame and the decoder
      gets a buffer whose second slot was never received. */
  lemma DuplicateCompletesEarly(s: State, p: Packet, nframe: U32, framesize: U32)
    requires FragmentOf(p, nframe, 2, framesize) && p.header.nfrag == 0
    requires Key(nframe) !in s
    ensures AllWellFormed([p, p])
    ensures Run(s, [p, p]).Ran?
    ensures Run(s, [p, p]).delivered[0] == None
    ensures Run(s, [p, p]).delivered[1].Some?
    ensures |Run(s, [p, p]).delivered[1].value.data| == 2 * PacketSize
    ensures Run(s, [p, p]).delivered[1].value.data[PacketSize..2 * PacketSize] == Unwritten(PacketSize)
  {
    var ps := [p, p];
    SingleFrameRun(s, ps, nframe, 2, framesize);
    assert ps[..1] == [p] && ps[..2] == ps;
    var a := Assembled(ps, 2);
    forall x | PacketSize <= x < 2 * PacketSize
      ensures a[x] == 0
    {
      SlotOfByte(x, 1);
      SlotByteUnwritten(ps, 1, x % PacketSize);
    }
  }

  /** A call only reads and writes the entry of its own frame: two states that agree on
      that entry give the same outcome for it. */
  lemma StepLocal(s1: State, s2: State, p: Packet)
    requires WellFormed(p)
    requires Key(p.header.nframe) in s1 <==> Key(p.header.nframe) in s2
    requires Key(p.header.nframe) in s1 ==> s1[Key(p.header.nframe)] == s2[Key(p.header.nframe)]
    ensures Step(s1, p).Stepped? <==> Step(s2, p).Stepped?
    ensures Step(s1, p).Stepped? ==>
              && Step(s1, p).state[Key(p.header.nframe)] == Step(s2, p).state[Key(p.header.nframe)]
              && Step(s1, p).delivered == Step(s2, p).delivered
  {
    StepDefinedIff(s1, p);
    StepDefinedIff(s2, p);
  }

  /** A run leaves alone every frame none of its packets addresses. */
  lemma {:induction false} RunLeavesOtherFrames(s: State, ps: seq<Packet>, k: int)
    requires AllWellFormed(ps)
    requires forall i | 0 <= i < |ps| :: Key(ps[i].header.nframe) != k
    requires Run(s, ps).Ran?
    ensures k in Run(s, ps).state <==> k in s
    ensures k in s ==> Run(s, ps).state[k] == s[k]
    decreases |ps|
  {
    if ps != [] {
      var front, last := ps[..|ps| - 1], ps[|ps| - 1];
      RunLeavesOtherFrames(s, front, k);
      StepChangesOnlyItsSlot(Run(s, front).state, last);
    }
  }

  /** The packets of a run addressed to the frame with key `k`, in arrival order. */
  function Only(ps: seq<Packet>, k: int): (r: seq<Packet>)
    ensures |r| <= |ps|
    ensures forall i | 0 <= i < |r| :: Key(r[i].header.nframe) == k
    ensures forall i | 0 <= i < |r| :: r[i] in ps
  {
    if ps == [] then []
    else
      var rest := Only(ps[..|ps| - 1], k);
      if Key(ps[|ps| - 1].header.nframe) == k then rest + [ps[|ps| - 1]] else rest
  }

  /** Frames in flight at the same time do not interfere: whatever other frames' packets
      are interleaved with them, the packets of frame `k` leave that frame's entry as they
      would on their own. */
  lemma {:induction false} RunProjects(s: State, ps: seq<Packet>, k: int)
    requires AllWellFormed(ps)
    requires Run(s, ps).Ran?
    ensures AllWellFormed(Only(ps, k))
    ensures Run(s, Only(ps, k)).Ran?
    ensures k in Run(s, ps).state <==> k in Run(s, Only(ps, k)).state
    ensures k in Run(s, ps).state ==> Run(s, ps).state[k] == Run(s, Only(ps, k)).state[k]
    decreases |ps|
  {
    if ps != [] {
      var front, last := ps[..|ps| - 1], ps[|ps| - 1];
      RunProjects(s, front, k);
      var t1, t2 := Run(s, front), Run(s, Only(front, k));
      if Key(last.header.nframe) == k {
        StepLocal(t1.state, t2.state, last);
        RunSnoc(s, Only(front, k), last, t2.state, t2.delivered);
      } else {
        StepChangesOnlyItsSlot(t1.state, last);
      }
    }
  }
}
