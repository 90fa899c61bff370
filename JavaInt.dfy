/** Java's fixed-width integers, as far as the resource helper uses them:
    `long` range bounds, `int` ports, the narrowing cast `(int)` and `int` addition. */
module JavaInt {

  const TWO_32: int := 0x1_0000_0000
  const MIN_INT: int := -0x8000_0000
  const MAX_INT: int := 0x7fff_ffff

  /** A Java `int`. */
  type Int32 = x: int | -0x8000_0000 <= x < 0x8000_0000

  /** A Java `long`. */
  type Int64 = x: int | -0x8000_0000_0000_0000 <= x < 0x8000_0000_0000_0000

  /** The `int` that keeps the low 32 bits of `x` in two's complement: what Java's
      narrowing conversion `(int) x` yields, and what `int` addition yields on overflow. */
  function Wrap32(x: int): (r: Int32)
    ensures (r - x) % TWO_32 == 0
    ensures MIN_INT <= x <= MAX_INT ==> r == x
  {
    var low := x % TWO_32;
    if low <= MAX_INT then low else low - TWO_32
  }

  /** `(int) x` for a `long` x. */
  function Narrow(x: Int64): (r: Int32)
    ensures (r - x) % TWO_32 == 0
    ensures MIN_INT <= x <= MAX_INT ==> r == x
  {
    Wrap32(x)
  }

  /** `x + 1` evaluated in `int`: wraps from the largest `int` to the smallest. */
  function Successor(x: Int32): (r: Int32)
    ensures x < MAX_INT ==> r == x + 1
    ensures x == MAX_INT ==> r == MIN_INT
  {
    Wrap32(x + 1)
  }
}
