/** The 32-bit C integer conversions the receiver relies on: `uint32_t` arithmetic
    wraps modulo 2^32, and storing a `uint32_t` value in an `int` reinterprets it
    as two's complement. */
module CInt {

  const Two32: nat := 0x1_0000_0000
  const IntMin: int := -0x8000_0000
  const IntMax: int := 0x7FFF_FFFF

  /** The values of an 8-bit byte (`char`/`byte` storage in the receiver). */
  type U8 = x: int | 0 <= x < 0x100

  /** The values of a `uint32_t`. */
  type U32 = x: int | 0 <= x < 0x1_0000_0000

  /** The value of an unsigned 32-bit computation whose mathematical result is `x`. */
  function Wrap32(x: int): (r: U32)
    ensures 0 <= x < Two32 ==> r == x
    ensures (x - r) % Two32 == 0
  {
    x % Two32
  }

  /** The `int` obtained by converting the `uint32_t` value `u`. */
  function ToInt32(u: U32): (r: int)
    ensures IntMin <= r <= IntMax
    ensures Wrap32(r) == u
    ensures u <= IntMax <==> r == u
    ensures r < 0 <==> u > IntMax
  {
    if u <= IntMax then u else u - Two32
  }
}
