/**
 * C integer conversions used by the component.  For a positive divisor
 * Dafny's `/` rounds towards negative infinity; a C cast of a `double`
 * quotient to `int` truncates towards zero, and the two differ on negative
 * operands.
 */
module CInt {

  /**
   * `(int)((double)n / d)` for a positive integer divisor, i.e. the quotient
   * rounded towards zero.  (The `double` quotient of two 32-bit integers is
   * never close enough to the next integer for rounding to change the result.)
   */
  function TruncDiv(n: int, d: nat): (q: int)
    requires d > 0
    ensures n >= 0 ==> 0 <= q && q * d <= n < q * d + d
    ensures n < 0 ==> q <= 0 && q * d - d < n <= q * d
  {
    var m: nat := if n >= 0 then n else -n;
    DivBounds(m, d);
    if n >= 0 then m / d
    else
      NegMul(m / d, d);
      -(m / d)
  }

  lemma DivBounds(m: nat, d: nat)
    requires d > 0
    ensures 0 <= m / d && (m / d) * d <= m < (m / d) * d + d
  {
  }

  lemma NegMul(x: int, d: int)
    ensures (-x) * d == -(x * d)
  {
  }
}
