/** Python's integer `//` and `%`. Python rounds the quotient toward negative
    infinity, so the remainder takes the sign of the divisor; Dafny's `/` and
    `%` are Euclidean (the remainder is never negative). The two agree when the
    divisor is positive. */
module FloorDivision {

  /** Python's `x // d`. */
  function FloorDiv(x: int, d: int): (q: int)
    requires d != 0
    ensures d > 0 ==> d * q <= x < d * q + d
    ensures d < 0 ==> d * q + d < x <= d * q
  {
    if d > 0 || x % d == 0 then x / d else x / d - 1
  }

  /** Python's `x % d`. */
  function FloorMod(x: int, d: int): (r: int)
    requires d != 0
    ensures d > 0 ==> 0 <= r < d
    ensures d < 0 ==> d < r <= 0
    ensures x == d * FloorDiv(x, d) + r
  {
    x - d * FloorDiv(x, d)
  }

  /** For a positive divisor Python's operators are Dafny's. */
  lemma FloorAgreesForPositiveDivisor(x: int, d: int)
    requires d > 0
    ensures FloorDiv(x, d) == x / d && FloorMod(x, d) == x % d
  {
  }
}
