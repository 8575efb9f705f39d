/** One call of `processPacket`: the receiver's three global maps (`frameMap`,
    `frameSize`, `fragsReceived`) and the change one received packet makes to them.
    Nothing is ever erased from the maps, duplicates are not detected, and the whole
    1400-byte payload is copied for every fragment, the last one included. */
module Reassembly {
  import opened CInt
  import opened Wire

  datatype Option<+T> = None | Some(value: T)

  /** One tracked frame: its entry in `frameMap` (`buf`), in `frameSize` (`size`) and in
      `fragsReceived` (`count`). The three maps are only ever extended together, under
      the same key, so one record per key stands for all three. */
  datatype Frame = Frame(buf: seq<U8>, size: U32, count: nat)

  /** The three maps, keyed by the frame id stored in an `int` (`currentFrame`). */
  type State = map<int, Frame>

  /** `currentFrame`: the packet's `uint32_t` frame id converted to the maps' `int` key
      type. The conversion loses nothing: distinct ids give distinct keys. */
  function Key(nframe: U32): (k: int)
    ensures IntMin <= k <= IntMax
    ensures Wrap32(k) == nframe
  {
    ToInt32(nframe)
  }

  /** What `decodeFrame` gives the decoder when a frame completes: the frame's buffer as
      `packet->data` and its stored size, converted to `int`, as `packet->size`. */
  datatype Delivery = Delivery(frame: int, data: seq<U8>, size: int)

  /** Undefined behaviour in the C code. The model stops there. */
  datatype Fault =
    // `fragmentCount * PACKET_SIZE` overflows `int` (undefined behaviour), or is negative
    // without overflow, so `malloc` is asked for about `SIZE_MAX` bytes, returns NULL, and
    // the copy then targets an address derived from that NULL
    | NoAllocation
    | WriteOutOfBounds  // the 1400-byte copy does not lie inside the frame's buffer

  /** The result of one call: the new maps and, when the frame completed on this call,
      what was handed to the decoder; or the undefined behaviour the call runs into. */
  datatype Outcome = Stepped(state: State, delivered: Option<Delivery>) | Undefined(fault: Fault)

  /** The byte count `malloc(fragmentCount * PACKET_SIZE)` receives, where
      `fragmentCount` is `nfrags` stored in an `int`; None when that `int` product is
      negative or overflows. */
  function AllocationSize(nfrags: U32): (r: Option<nat>)
    ensures r.Some? <==> nfrags * PacketSize <= IntMax
    ensures r.Some? ==> r.value == nfrags * PacketSize
  {
    var bytes := ToInt32(nfrags) * PacketSize;
    if 0 <= bytes <= IntMax then Some(bytes) else None
  }

  /** The contents the model gives a freshly allocated buffer. C leaves them
      indeterminate. */
  function Unwritten(n: nat): (b: seq<U8>)
    ensures |b| == n
    ensures forall i | 0 <= i < n :: b[i] == 0
  {
    seq(n, _ => 0)
  }

  /** The first fragment of an unseen frame id registers it in all three maps at once:
      a buffer of `nfrags * PACKET_SIZE` bytes, the packet's `framesize`, and a count of
      zero. A tracked id is left as it is: nothing is reallocated, and `emplace` would
      not overwrite. */
  function Admit(s: State, h: Header): (r: Option<State>)
    ensures Key(h.nframe) in s ==> r == Some(s)
    ensures Key(h.nframe) !in s ==> (r.Some? <==> h.nfrags * PacketSize <= IntMax)
    ensures r.Some? ==> r.value.Keys == s.Keys + {Key(h.nframe)}
    ensures r.Some? ==> forall k | k in s :: r.value[k] == s[k]
    ensures r.Some? && Key(h.nframe) !in s ==>
              && |r.value[Key(h.nframe)].buf| == h.nfrags * PacketSize
              && r.value[Key(h.nframe)].size == h.framesize
              && r.value[Key(h.nframe)].count == 0
  {
    if Key(h.nframe) in s then Some(s)
    else
      match AllocationSize(h.nfrags)
      case None => None
      case Some(n) => Some(s[Key(h.nframe) := Frame(Unwritten(n), h.framesize, 0)])
  }

  /** `loc = nfrag * PACKET_SIZE`: a `uint32_t` product, reduced modulo 2^32, stored in
      an `int`. It is the true product exactly when that fits in an `int`. */
  function SlotOffset(nfrag: U32): (loc: int)
    ensures IntMin <= loc <= IntMax
    ensures nfrag * PacketSize <= IntMax <==> loc == nfrag * PacketSize
    ensures Wrap32(loc) == Wrap32(nfrag * PacketSize)
  {
    ToInt32(Wrap32(nfrag * PacketSize))
  }

  /** The 1400 bytes at `loc` lie inside `buf`. */
  predicate SlotFits(loc: int, buf: seq<U8>) {
    0 <= loc && loc + PacketSize <= |buf|
  }

  /** `memcpy_s` of `data` to offset `loc` of `buf`. */
  function Overwrite(buf: seq<U8>, loc: nat, data: seq<U8>): (r: seq<U8>)
    requires loc + |data| <= |buf|
    ensures |r| == |buf|
    ensures r[loc..loc + |data|] == data
    ensures forall i | 0 <= i < |buf| && !(loc <= i < loc + |data|) :: r[i] == buf[i]
  {
    buf[..loc] + data + buf[loc + |data|..]
  }

  /** `decodeFrame`'s view of a tracked frame: its buffer, and its stored size as `int`. */
  function HandOff(s: State, id: int): Delivery
    requires id in s
  {
    Delivery(id, s[id].buf, ToInt32(s[id].size))
  }

  /** The buffer a fragment is copied into: the tracked one, or the one its first
      fragment allocates. */
  function Capacity(s: State, h: Header): nat {
    if Key(h.nframe) in s then |s[Key(h.nframe)].buf| else h.nfrags * PacketSize
  }

  /** `processPacket`: register an unseen frame, copy the payload to its slot, bump the
      frame's counter, and hand the frame to the decoder when the counter equals the
      CURRENT packet's `nfrags`. */
  function Step(s: State, p: Packet): (o: Outcome)
    requires WellFormed(p)
    ensures o == Undefined(NoAllocation) <==>
              Key(p.header.nframe) !in s && p.header.nfrags * PacketSize > IntMax
    ensures o.Stepped? ==> o.state.Keys == s.Keys + {Key(p.header.nframe)}
    ensures o.Stepped? ==>
              o.state[Key(p.header.nframe)].count ==
                (if Key(p.header.nframe) in s then s[Key(p.header.nframe)].count else 0) + 1
    ensures o.Stepped? ==>
              (o.delivered.Some? <==> o.state[Key(p.header.nframe)].count == p.header.nfrags)
    ensures o.Stepped? && o.delivered.Some? ==>
              o.delivered.value.frame == Key(p.header.nframe) &&
              o.delivered.value.data == o.state[Key(p.header.nframe)].buf &&
              o.delivered.value.size == ToInt32(o.state[Key(p.header.nframe)].size)
  {
    var h := p.header;
    var id := Key(h.nframe);
    match Admit(s, h)
    case None => Undefined(NoAllocation)
    case Some(s1) =>
      var f := s1[id];
      var loc := SlotOffset(h.nfrag);
      if !SlotFits(loc, f.buf) then Undefined(WriteOutOfBounds)
      else
        var g := Frame(Overwrite(f.buf, loc, p.payload), f.size, f.count + 1);
        var s2 := s1[id := g];
        assert s2[id] == g;
        Stepped(s2, if g.count == h.nfrags then Some(HandOff(s2, id)) else None)
  }

  /** A call is free of undefined behaviour exactly when the frame has (or gets) a buffer
      and the 1400 bytes at `loc` lie inside it. */
  lemma StepDefinedIff(s: State, p: Packet)
    requires WellFormed(p)
    ensures Step(s, p).Stepped? <==>
              && (Key(p.header.nframe) in s || p.header.nfrags * PacketSize <= IntMax)
              && 0 <= SlotOffset(p.header.nfrag)
              && SlotOffset(p.header.nfrag) + PacketSize <= Capacity(s, p.header)
  {
  }

  /** A fragment of an already tracked frame never reallocates it: the buffer keeps its
      length and the stored size is kept, whatever `nfrags` and `framesize` this packet
      carries. */
  lemma LaterFragmentKeepsAllocation(s: State, p: Packet)
    requires WellFormed(p)
    requires Key(p.header.nframe) in s
    requires Step(s, p).Stepped?
    ensures |Step(s, p).state[Key(p.header.nframe)].buf| == |s[Key(p.header.nframe)].buf|
    ensures Step(s, p).state[Key(p.header.nframe)].size == s[Key(p.header.nframe)].size
  {
  }

  /** A call writes exactly the 1400 bytes at `loc` of its frame's buffer, with the
      packet's whole payload; every other byte of that buffer, and every other frame,
      is left unchanged. */
  lemma StepChangesOnlyItsSlot(s: State, p: Packet)
    requires WellFormed(p)
    requires Step(s, p).Stepped?
    ensures var id, loc, t := Key(p.header.nframe), SlotOffset(p.header.nfrag), Step(s, p).state;
            var before := if id in s then s[id].buf else Unwritten(p.header.nfrags * PacketSize);
            && 0 <= loc
            && |t[id].buf| == |before|
            && loc + PacketSize <= |before|
            && t[id].buf[loc..loc + PacketSize] == p.payload
            && (forall i | 0 <= i < |before| && !(loc <= i < loc + PacketSize) :: t[id].buf[i] == before[i])
            && (forall k | k in s && k != id :: t[k] == s[k])
  {
  }

  /** The value line 289 computes for the last fragment, `framesize - PACKET_SIZE *
      (nfrags - 1)` in `uint32_t` arithmetic, stored in an `int` that shadows the copy
      length and goes out of scope unused. */
  function ShadowedFragSize(h: Header): int {
    ToInt32(Wrap32(h.framesize - PacketSize * Wrap32(h.nfrags - 1)))
  }

  /** The trimmed size of the last fragment is never used: its copy still takes the full
      1400 bytes, so the padding after the frame's last valid byte is written into the
      buffer too. */
  lemma LastFragmentCopiedWhole(s: State, p: Packet)
    requires WellFormed(p)
    requires p.header.nfrag == Wrap32(p.header.nfrags - 1)
    requires Step(s, p).Stepped?
    ensures var h := p.header;
            1 <= h.nfrags && (h.nfrags - 1) * PacketSize <= h.framesize <= IntMax ==>
              ShadowedFragSize(h) == h.framesize - (h.nfrags - 1) * PacketSize
    ensures var loc, t := SlotOffset(p.header.nfrag), ShadowedFragSize(p.header);
            0 <= t < PacketSize ==>
              Step(s, p).state[Key(p.header.nframe)].buf[loc + t..loc + PacketSize] == p.payload[t..]
  {
    StepChangesOnlyItsSlot(s, p);
  }

  /** Without wrap-around of the offset, the copy stays inside a buffer allocated for
      `nfrags` fragments exactly when the fragment index is below `nfrags`. */
  lemma SlotWithinAllocation(nfrag: U32, nfrags: U32)
    requires nfrags * PacketSize <= IntMax
    requires nfrag * PacketSize < Two32
    ensures var loc := SlotOffset(nfrag);
            0 <= loc && loc + PacketSize <= nfrags * PacketSize <==> nfrag < nfrags
  {
  }

  /** The offset wraps: fragment index 3067834 of a frame whose buffer was allocated for
      two fragments passes the bounds the copy relies on and overwrites bytes 304 to 1703,
      the tail of fragment 0 and most of fragment 1. */
  lemma WrappedIndexAliasesSlot(s: State, p: Packet)
    requires WellFormed(p)
    requires Key(p.header.nframe) in s && |s[Key(p.header.nframe)].buf| == 2 * PacketSize
    requires p.header.nfrag == 3067834
    ensures SlotOffset(p.header.nfrag) == 304
    ensures Step(s, p).Stepped?
    ensures Step(s, p).state[Key(p.header.nframe)].buf[304..1704] == p.payload
  {
    StepDefinedIff(s, p);
    StepChangesOnlyItsSlot(s, p);
  }

  /** The counter counts calls, not distinct fragments: delivering the same packet again
      leaves the buffer as it was but advances the counter once more. */
  lemma DuplicateAdvancesCounter(s: State, p: Packet)
    requires WellFormed(p)
    requires Step(s, p).Stepped?
    ensures var s1 := Step(s, p).state;
            && Step(s1, p).Stepped?
            && Step(s1, p).state[Key(p.header.nframe)].buf == s1[Key(p.header.nframe)].buf
            && Step(s1, p).state[Key(p.header.nframe)].count == s1[Key(p.header.nframe)].count + 1
  {
    var id := Key(p.header.nframe);
    var s1 := Step(s, p).state;
    StepChangesOnlyItsSlot(s, p);
    StepDefinedIff(s1, p);
    StepChangesOnlyItsSlot(s1, p);
    var b1, b2 := s1[id].buf, Step(s1, p).state[id].buf;
    assert |b1| == |b2|;
    var loc := SlotOffset(p.header.nfrag);
    forall i | 0 <= i < |b1|
      ensures b2[i] == b1[i]
    {
      if loc <= i < loc + PacketSize {
        assert b2[i] == b2[loc..loc + PacketSize][i - loc];
        assert b1[i] == b1[loc..loc + PacketSize][i - loc];
      }
    }
  }

  /** One iteration of the receive loop: the receive buffer read as a `UDPPacket`, then
      processed. */
  function Receive(s: State, b: seq<U8>): Outcome
    requires |b| == DatagramSize
  {
    Step(s, Decode(b))
  }

  /** A datagram laid out by the sender is processed as the packet it encodes. */
  lemma ReceiveEncoded(s: State, p: Packet)
    requires WellFormed(p)
    ensures Receive(s, Encode(p)) == Step(s, p)
  {
    DecodeEncode(p);
  }
}
