/** The C++ `int` of the original: its range, and its division and remainder,
    which truncate toward zero (Dafny's own `/` and `%` are Euclidean). */
module CppInt {

  const INT_MIN: int := -0x8000_0000
  const INT_MAX: int := 0x7FFF_FFFF

  /** `x` is representable as a 32-bit `int`. */
  predicate InInt(x: int) {
    INT_MIN <= x <= INT_MAX
  }

  /** C++ `a / b` for a positive divisor: the quotient rounded toward zero, so that what
      is left over is smaller than `b` and has the sign of `a`. */
  function CDiv(a: int, b: int): (q: int)
    requires b > 0
    ensures a >= 0 ==> 0 <= a - b * q < b
    ensures a < 0 ==> -b < a - b * q <= 0
  {
    if a >= 0 then a / b else -((-a) / b)
  }

  /** C++ `a % b` for a positive divisor: the remainder takes the sign of `a`. */
  function CMod(a: int, b: int): (r: int)
    requires b > 0
    ensures b * CDiv(a, b) + r == a
    ensures a >= 0 ==> 0 <= r < b
    ensures a < 0 ==> -b < r <= 0
  {
    a - b * CDiv(a, b)
  }
}
