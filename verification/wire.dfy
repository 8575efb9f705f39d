/** The fixed datagram layout of the frame channel (`UDPHeader` / `UDPPacket`):
    four unsigned 32-bit fields followed by a 1400-byte payload, 1416 bytes in all.
    The receiver reinterprets its receive buffer as this struct, so fields are read
    in host byte order; the receiver is a Winsock (Windows, x86/x64) program, so host
    order is little-endian. */
module Wire {
  import opened CInt

  /** `PACKET_SIZE`: payload bytes carried by every datagram. */
  const PacketSize: nat := 1400
  /** `sizeof(UDPHeader)`: four `uint32_t` fields, no padding. */
  const HeaderSize: nat := 16
  /** `PACKET_SIZE + sizeof(UDPHeader)`: the size of the receive buffer. */
  const DatagramSize: nat := HeaderSize + PacketSize

  /** `UDPHeader`: frame id, fragment index, fragment count, frame byte size. */
  datatype Header = Header(nframe: U32, nfrag: U32, nfrags: U32, framesize: U32)

  /** `UDPPacket`: a header and the payload array. */
  datatype Packet = Packet(header: Header, payload: seq<U8>)

  /** The payload is a fixed `char[PACKET_SIZE]` array. */
  predicate WellFormed(p: Packet) {
    |p.payload| == PacketSize
  }

  /** The `uint32_t` stored little-endian in four bytes. */
  function Word(b: seq<U8>): U32
    requires |b| == 4
  {
    b[0] as int + 0x100 * (b[1] as int + 0x100 * (b[2] as int + 0x100 * b[3] as int))
  }

  /** Splitting off the low byte of a number: `x == 0x100 * q + r` with `r` a byte
      determines quotient and remainder. */
  lemma LowByte(x: int, q: int, r: int)
    requires x == 0x100 * q + r && 0 <= r < 0x100
    ensures x / 0x100 == q && x % 0x100 == r
  {
  }

  /** The four little-endian bytes of a `uint32_t`. */
  function WordBytes(w: U32): (b: seq<U8>)
    ensures |b| == 4
    ensures Word(b) == w
  {
    var q1 := w / 0x100;
    var q2 := q1 / 0x100;
    var q3 := q2 / 0x100;
    assert w == w % 0x100 + 0x100 * q1;
    assert q1 == q1 % 0x100 + 0x100 * q2;
    assert q2 == q2 % 0x100 + 0x100 * q3;
    [w % 0x100, q1 % 0x100, q2 % 0x100, q3]
  }

  /** Every four-byte sequence is the encoding of the word it decodes to. */
  lemma WordBytesOfWord(b: seq<U8>)
    requires |b| == 4
    ensures WordBytes(Word(b)) == b
  {
    var q2 := b[2] as int + 0x100 * (b[3] as int);
    var q1 := b[1] as int + 0x100 * q2;
    LowByte(Word(b), q1, b[0]);
    LowByte(q1, q2, b[1]);
    LowByte(q2, b[3], b[2]);
  }

  /** Reading a received buffer as a `UDPPacket`: `nframe`, `nfrag`, `nfrags` and
      `framesize` occupy bytes 0-3, 4-7, 8-11 and 12-15, the payload bytes 16-1415. */
  function Decode(b: seq<U8>): (p: Packet)
    requires |b| == DatagramSize
    ensures WellFormed(p)
    ensures WordBytes(p.header.nframe) == b[0..4]
    ensures WordBytes(p.header.nfrag) == b[4..8]
    ensures WordBytes(p.header.nfrags) == b[8..12]
    ensures WordBytes(p.header.framesize) == b[12..16]
    ensures p.payload == b[HeaderSize..DatagramSize]
  {
    WordBytesOfWord(b[0..4]);
    WordBytesOfWord(b[4..8]);
    WordBytesOfWord(b[8..12]);
    WordBytesOfWord(b[12..16]);
    Packet(Header(Word(b[0..4]), Word(b[4..8]), Word(b[8..12]), Word(b[12..16])), b[HeaderSize..])
  }

  /** The bytes a sender lays out for a packet, in the same host order. */
  function Encode(p: Packet): (b: seq<U8>)
    requires WellFormed(p)
    ensures |b| == DatagramSize
    ensures Word(b[0..4]) == p.header.nframe
    ensures Word(b[4..8]) == p.header.nfrag
    ensures Word(b[8..12]) == p.header.nfrags
    ensures Word(b[12..16]) == p.header.framesize
    ensures b[HeaderSize..] == p.payload
  {
    var h := p.header;
    var w0, w1, w2, w3 := WordBytes(h.nframe), WordBytes(h.nfrag), WordBytes(h.nfrags), WordBytes(h.framesize);
    var fields := w0 + w1 + w2 + w3;
    var b := fields + p.payload;
    assert b[..HeaderSize] == fields;
    assert fields[..8] == w0 + w1;
    assert fields[0..4] == w0;
    assert fields[4..8] == (w0 + w1)[4..8] == w1;
    assert fields[8..12] == w2;
    assert fields[12..16] == w3;
    b
  }

  /** Decoding what was encoded gives back the packet. */
  lemma DecodeEncode(p: Packet)
    requires WellFormed(p)
    ensures Decode(Encode(p)) == p
  {
  }

  /** Every received buffer is the encoding of the packet it decodes to: the
      layout covers all 1416 bytes and loses nothing. */
  lemma EncodeDecode(b: seq<U8>)
    requires |b| == DatagramSize
    ensures Encode(Decode(b)) == b
  {
    var e := Encode(Decode(b));
    assert e[0..4] == b[0..4];
    assert e[4..8] == b[4..8];
    assert e[8..12] == b[8..12];
    assert e[12..16] == b[12..16];
    assert e == e[0..4] + e[4..8] + e[8..12] + e[12..16] + e[16..];
    assert b == b[0..4] + b[4..8] + b[8..12] + b[12..16] + b[16..];
  }
}
