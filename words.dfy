/** Fixed-width integers: Go's uint64 and int64 as ranges of `int`, and the
    wrap-around of unsigned 64-bit arithmetic made explicit. */
module Words {

  const TWO64: nat := 0x1_0000_0000_0000_0000

  type u64 = x: int | 0 <= x < 0x1_0000_0000_0000_0000
  type i64 = x: int | -0x8000_0000_0000_0000 <= x < 0x8000_0000_0000_0000

  /** The uint64 result of an addition or multiplication whose exact value is `x`. */
  function Wrap(x: nat): (r: u64)
    ensures x < TWO64 ==> r == x
    ensures x >= TWO64 ==> r < x
  {
    x % TWO64
  }

  /** `uint64(x)` for an int64 `x`: the same two's-complement bits read as
      unsigned, so the same value modulo 2^64. */
  function Unsigned(x: i64): (r: u64)
    ensures r % TWO64 == x % TWO64
  {
    if x < 0 then x + TWO64 else x
  }
}
