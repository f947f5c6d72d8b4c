/** The integer operators of the source language.

    `/` and `%` round toward zero there and are Euclidean in Dafny; a cast to a
    32-bit integer wraps.
 */
module CppArithmetic {

  const INT32_MIN := -0x8000_0000
  const INT32_MAX := 0x7fff_ffff

  /** `a / b` rounded toward zero. */
  function Quot(a: int, b: int): int
    requires b > 0
  {
    if a >= 0 then a / b else -((-a) / b)
  }

  /** `a % b`, with the sign of `a`. */
  function Rem(a: int, b: int): (r: int)
    requires b > 0
    ensures -b < r < b
    ensures a >= 0 ==> r >= 0
    ensures a <= 0 ==> r <= 0
  {
    if a >= 0 then a % b else -((-a) % b)
  }

  predicate IsInt32(x: int) {
    INT32_MIN <= x <= INT32_MAX
  }

  /** A cast to a 32-bit signed integer keeps the low 32 bits. */
  function ToInt32(x: int): (r: int)
    ensures IsInt32(r)
    ensures IsInt32(x) ==> r == x
  {
    var low := x % 0x1_0000_0000;
    if low <= INT32_MAX then low else low - 0x1_0000_0000
  }
}
