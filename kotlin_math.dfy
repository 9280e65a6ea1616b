/**
 * Kotlin's integer division and Float-to-Int conversion both round toward
 * zero, whereas Dafny's `/` on `int` is Euclidean and `.Floor` rounds down.
 * These two functions make the rounding of the source explicit.
 */
module KotlinMath {

  /** Kotlin's `a / b` on `Int` for a positive divisor: the quotient rounded toward zero. */
  function TruncDiv(a: int, b: int): (q: int)
    requires b > 0
    ensures 0 <= a ==> 0 <= q && q * b <= a < q * b + b
    ensures a < 0 ==> q <= 0 && q * b - b < a <= q * b
  {
    if a >= 0 then a / b else -((-a) / b)
  }

  /** Kotlin's `Float.toInt()`: drops the fractional part, rounding toward zero. */
  function TruncToInt(x: real): (n: int)
    ensures 0.0 <= x ==> 0 <= n && n as real <= x < n as real + 1.0
    ensures x < 0.0 ==> n <= 0 && n as real - 1.0 < x <= n as real
  {
    if x >= 0.0 then x.Floor else -((-x).Floor)
  }
}
