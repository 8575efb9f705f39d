# Frame reassembly of the CGA client, in Dafny

This project models the receiving side of the CGA client's video channel. Each UDP
datagram carries one fragment of an encoded frame: a 16-byte header (`nframe`,
`nfrag`, `nfrags`, `framesize`, each a `uint32_t`) and a 1400-byte payload. The
receiver reads a datagram as this struct and passes it to `processPacket`. That
function keeps three global maps keyed by frame id: the frame's buffer, its declared
size, and a count of fragments received. It copies each payload into its slot and
hands the frame to the decoder when the count equals the packet's `nfrags`.

The model describes the code as written, quirks included:

- nothing is ever erased from the maps;
- a repeated fragment index is counted again;
- the trimmed size of the last fragment is computed into a shadowing local and never
  used, so all 1400 payload bytes are copied every time;
- completion compares the counter with the current packet's `nfrags`, not the one the
  buffer was allocated for.

The code detects no duplicates, evicts nothing, never trims the copy of the last
fragment, rejects no mismatched fragment, and never removes a completed frame.

Modules:

- `CInt` (`cint.dfy`): the 32-bit C conversions the code relies on. `uint32_t`
  arithmetic wraps modulo 2^32. A `uint32_t` stored in an `int` is read as two's
  complement.
- `Wire` (`wire.dfy`): the `UDPHeader`/`UDPPacket` layout, with a decoder and an
  encoder for the 1416-byte receive buffer. The receiver is a Winsock program on
  x86/x64 Windows, so host byte order is little-endian.
- `Reassembly` (`reassembly.dfy`): one `processPacket` call as a pure function
  `Step(state, packet)`.
  - The state is one map from frame key to a record `Frame(buf, size, count)`. The
    record stands for the three C++ maps, which are always extended together under the
    same key.
  - Keys are the `int` that the code converts `nframe` to.
  - Undefined behaviour ends the model's run with an explicit outcome:
    `NoAllocation` when the `int` product `fragmentCount * PACKET_SIZE` overflows
    (`nfrags` from 1533917 to 0xFFE89823: undefined behaviour) or is negative
    without overflow (`nfrags` from 0xFFE89824 up: `malloc` is asked for about
    `SIZE_MAX` bytes and returns NULL, and the copy at line 294 then targets an
    address derived from that NULL), and `WriteOutOfBounds` when the 1400-byte copy
    does not lie inside the buffer.
  - When a frame completes, the outcome carries the hand-off that `decodeFrame` makes:
    the buffer, and the stored size as `int`.
- `Run` (`run.dfy`): the receive loop's effect on the maps, as a sequence of calls.
  It contains the theorems about whole frames.

The offset `loc = nfrag * PACKET_SIZE` is a `uint32_t` product stored in an `int`, and
the model computes it that way. As a result, fragment index 3067834 of a frame that
was allocated for two fragments does not fault. It overwrites bytes 304 to 1703 of
that frame (`WrappedIndexAliasesSlot`).

## Model

| member | source | states |
|---|---|---|
| CInt.Wrap32 | Source.cpp:293 | a `uint32_t` computation yields its mathematical result reduced modulo 2^32: unchanged when it is in range, and always congruent to it |
| CInt.ToInt32 | Source.cpp:270-271 | a `uint32_t` stored in an `int` is its two's-complement reading: in `int` range, congruent to the unsigned value modulo 2^32, equal to it exactly when it is at most `INT_MAX`, and negative exactly when it exceeds `INT_MAX` |
| Wire.WordBytes | Source.cpp:20-26 | the four host-order (little-endian) bytes of a `uint32_t` field decode back to that field |
| Wire.WordBytesOfWord | Source.cpp:20-26 | every four bytes of the buffer are the encoding of the field value read from them |
| Wire.Decode | Source.cpp:20-31 | reading the receive buffer as a `UDPPacket` takes `nframe`, `nfrag`, `nfrags` and `framesize` from bytes 0-3, 4-7, 8-11 and 12-15, and the 1400-byte payload from bytes 16-1415 |
| Wire.Encode | Source.cpp:20-31 | a packet is laid out in 1416 bytes, with each field readable at its offset and the payload from byte 16 |
| Wire.DecodeEncode | Source.cpp:20-31 | decoding an encoded packet gives the packet back |
| Wire.EncodeDecode | Source.cpp:55 | every 1416-byte receive buffer is the encoding of the packet it is read as, so no byte is lost or reordered |
| Reassembly.Key | Source.cpp:270 | the `int` key of a frame id is its two's-complement reading, so distinct ids give distinct keys |
| Reassembly.AllocationSize | Source.cpp:271-275 | the allocation is `nfrags * 1400` bytes exactly when that `int` product is non-negative and does not overflow; otherwise the call cannot get a buffer: for `nfrags` from 1533917 to 0xFFE89823 the product overflows (undefined behaviour), and from 0xFFE89824 up it is negative without overflow, so `malloc` is asked for about `SIZE_MAX` bytes, returns NULL, and the copy at line 294 then targets an address derived from that NULL |
| Reassembly.Admit | Source.cpp:273-282 | an unseen frame id is added to all three maps at once, with a buffer of `nfrags * 1400` bytes, size `framesize` and count 0, and nothing else changes; a tracked id is left as it is |
| Reassembly.SlotOffset | Source.cpp:293 | the copy offset equals `nfrag * 1400` exactly when that product fits an `int`, and otherwise agrees with it modulo 2^32 |
| Reassembly.Overwrite | Source.cpp:294 | the copy puts the data at the offset and leaves every other byte of the buffer unchanged |
| Reassembly.Step | Source.cpp:268-303 | a call faults on allocation exactly for an unseen frame whose `nfrags * 1400` exceeds `INT_MAX`. Otherwise the key set becomes the old one plus the frame, the frame's counter goes up by exactly one, and the decoder is called exactly when the new count equals the current packet's `nfrags`, receiving that frame's buffer and stored size |
| Reassembly.StepDefinedIff | Source.cpp:274-294 | a call has defined behaviour exactly when the frame has or gets a buffer and the 1400 bytes at `loc` lie inside it |
| Reassembly.LaterFragmentKeepsAllocation | Source.cpp:274-279 | a fragment of a tracked frame keeps the buffer length and stored size, whatever its own `nfrags` and `framesize` are |
| Reassembly.StepChangesOnlyItsSlot | Source.cpp:292-295 | a call writes the whole payload to bytes `[loc, loc+1400)` of its frame's buffer and changes no other byte and no other frame |
| Reassembly.LastFragmentCopiedWhole | Source.cpp:284-294 | the last fragment's trimmed size is `framesize - (nfrags-1)*1400` but goes unused: the padding after it is copied into the buffer as well |
| Reassembly.SlotWithinAllocation | Source.cpp:275-294 | without offset wrap-around, the copy fits a buffer allocated for `nfrags` fragments exactly when `nfrag < nfrags` |
| Reassembly.WrappedIndexAliasesSlot | Source.cpp:293-294 | index 3067834 wraps to offset 304, so for a two-fragment buffer the call is defined and overwrites bytes 304-1703 |
| Reassembly.DuplicateAdvancesCounter | Source.cpp:294-295 | processing the same packet again leaves the buffer unchanged but advances the counter once more |
| Reassembly.ReceiveEncoded | Source.cpp:236 | a received datagram laid out by the sender is processed as the packet it encodes |
| Run.Run | Source.cpp:34-36 | over any sequence of calls, entries are only added and never erased: the final key set is the initial one plus the keys the packets address. No counter ever decreases |
| Run.RunSnoc | Source.cpp:310-316 | a run extended by one packet is the run followed by one more call |
| Run.AssembledAppend | Source.cpp:293-294 | copying one more fragment into the assembled buffer gives the buffer assembled from the longer sequence |
| Run.SingleFrameRun | Source.cpp:268-303 | for the fragments of one untracked frame: no fault, the entry holds the assembled buffer, the first size and the number of calls, the other entries are untouched, and the hand-offs are as `Handed` says |
| Run.CompletionCountsCalls | Source.cpp:295-302 | the decoder is called exactly on call number `nfrags`, duplicates included: fewer calls never complete a frame, later calls never complete it again, and the count equals the number of calls |
| Run.FullFrameDelivered | Source.cpp:268-303 | a complete set of distinct fragments completes on the last arrival and not before. The decoder gets an `nfrags * 1400`-byte buffer with each payload in its slot, plus the first fragment's `framesize`, as `decodeFrame` passes them on (lines 177-178). That size lies within the buffer iff `framesize <= nfrags * 1400`, and the entry stays tracked |
| Run.AssembledOrderIndependent | Source.cpp:293-294 | two arrival orders of the same fragments, each index once, assemble the same buffer |
| Run.FullFrameOrderIndependent | Source.cpp:268-303 | two arrival orders of the same complete fragment set produce the same maps and the same hand-offs |
| Run.DuplicateCompletesEarly | Source.cpp:295-301 | two copies of fragment 0 of a two-fragment frame complete it, and the decoder gets a buffer whose second slot was never received |
| Run.StepLocal | Source.cpp:270-298 | a call reads and writes only its own frame's entry: two states that agree on it give the same outcome for it |
| Run.RunLeavesOtherFrames | Source.cpp:274-295 | a run leaves alone every frame that none of its packets addresses |
| Run.RunProjects | Source.cpp:268-303 | packets of other frames interleaved with a frame's packets do not affect that frame's entry: it ends as if its packets had arrived alone |

## Left out

- ffmpeg decoding (`initDecoder`, and the `avcodec_*` calls in `decodeFrame`): foreign library calls. Only the hand-off of buffer and size (Source.cpp:177-178) is modelled, as the `Delivery` in a step's outcome.
- Process exit inside the decoder: a completing call reaches `decodeFrame` through `renderFrame` (Source.cpp:301, 243), and `decodeFrame` calls `exit(EXIT_FAILURE)` when `av_packet_alloc` or `av_frame_alloc` fails or `avcodec_send_packet` returns a negative value (Source.cpp:171-196). The model assumes the decoder returns after every hand-off. `Run`, `CompletionCountsCalls` and `DuplicateCompletesEarly` describe calls after a delivery, which the program reaches only when that decode did not exit.
- SDL windowing and rendering (`initRenderer`, `renderFrame`, `closeRenderer`): user interface. `renderFrame` appears only as the delivery event.
- Winsock setup, the blocking `recvfrom`, `renderLoop`/`main`, and the `printf` logging of a new frame (Source.cpp:281): socket I/O, console output and an endless loop. A run is a finite sequence of received packets.
- Short datagrams: `nextPacket` only checks `ret < 0`, so after a datagram shorter than 1416 bytes the buffer still holds bytes of the previous one. The model takes the whole 1416-byte buffer as its input and does not track leftover bytes.
- Allocation failure for sizes that fit an `int` (`malloc` returning `NULL` for lack of memory): the environment's behaviour, not the program's. Only the sizes the `int` arithmetic makes unusable are modelled.
- Contents of a fresh `malloc` buffer are indeterminate in C. The model fills them with zero bytes (`Unwritten`). For a complete set of distinct fragments every byte is overwritten, so `FullFrameDelivered` does not depend on this choice. `DuplicateCompletesEarly` (its never-written slot equals `Unwritten`) and `AssembledOrderIndependent` for an incomplete fragment set do depend on it: in C those bytes are indeterminate.
- The `fragsReceived` counter is an `int`, and it would overflow after 2^31 calls for one frame. The model's counter is unbounded.
- What happens after undefined behaviour (a write outside the buffer, or a write through an unusable allocation) is not modelled. The run stops with the fault.
- `decodeFrame` reading `packet->size` bytes from a buffer that may be shorter: the model states when the size lies within the buffer (`FullFrameDelivered`), but not what the decoder reads.
- InputServer.cpp: every line is commented out. It is not part of this model.
