/**
 * Go's integer division and remainder. Dafny's `/` and `%` are Euclidean;
 * Go's truncate toward zero. The two agree on non-negative dividends and
 * differ on negative ones, which arise in the split tool when an end
 * timecode precedes its start.
 */
module GoInt {

  /** Go's `a / b` for a positive divisor. */
  function Quot(a: int, b: int): int
    requires b > 0
  {
    if a >= 0 then a / b else -((-a) / b)
  }

  /** Go's `a % b` for a positive divisor. */
  function Rem(a: int, b: int): int
    requires b > 0
  {
    a - b * Quot(a, b)
  }

  /**
   * The quotient is rounded toward zero, so the remainder takes the sign of
   * the dividend and is smaller than the divisor in magnitude.
   */
  lemma QuotRem(a: int, b: int)
    requires b > 0
    ensures a == b * Quot(a, b) + Rem(a, b)
    ensures a >= 0 ==> Quot(a, b) >= 0 && 0 <= Rem(a, b) < b
    ensures a <= 0 ==> Quot(a, b) <= 0 && -b < Rem(a, b) <= 0
  {
  }

  /** Multiplying by a positive factor keeps an integer's distance from zero. */
  lemma MulBound(b: int, d: int)
    requires b > 0
    ensures d >= 1 ==> b * d >= b
    ensures d <= -1 ==> b * d <= -b
    ensures 0 <= d ==> 0 <= b * d
    ensures d <= 0 ==> b * d <= 0
  {
  }

  /** A quotient rounded toward zero is the unique one whose remainder lies
      between 0 and the divisor, on the side of the dividend's sign. */
  lemma QuotUnique(a: int, b: int, q: int)
    requires b > 0
    requires a >= 0 ==> 0 <= a - b * q < b
    requires a < 0 ==> -b < a - b * q <= 0
    ensures Quot(a, b) == q
  {
    QuotRem(a, b);
    var d := Quot(a, b) - q;
    assert a - b * q == (a - b * Quot(a, b)) + b * d;
    MulBound(b, d);
  }

  /** Dividing twice, each time rounding toward zero, is dividing once by
      the product: Go's `(n / 25) / 60 == n / 1500`. */
  lemma QuotQuot(a: int, b: int, c: int)
    requires b > 0 && c > 0
    ensures Quot(Quot(a, b), c) == Quot(a, b * c)
  {
    var q1 := Quot(a, b);
    var q2 := Quot(q1, c);
    QuotRem(a, b);
    QuotRem(q1, c);
    var r1 := a - b * q1;
    var r2 := q1 - c * q2;
    Distribute(b, c, q1, q2, r2);
    assert a - (b * c) * q2 == b * r2 + r1;
    if a >= 0 {
      DigitPairBound(b, c, r1, r2);
    } else {
      DigitPairBound(b, c, -r1, -r2);
    }
    QuotUnique(a, b * c, q2);
  }

  /** Two remainders in mixed radix form one remainder below the product. */
  lemma DigitPairBound(b: int, c: int, r1: int, r2: int)
    requires 0 <= r1 < b && 0 <= r2 < c
    ensures 0 <= b * r2 + r1 < b * c
    ensures -(b * c) < b * (-r2) + (-r1) <= 0
  {
    MulBound(b, r2);
    MulBound(b, c - 1 - r2);
    assert b * (c - 1 - r2) == b * c - b - b * r2;
    assert b * (-r2) == -(b * r2);
  }

  lemma Distribute(b: int, c: int, q1: int, q2: int, r2: int)
    requires q1 == c * q2 + r2
    ensures b * q1 == (b * c) * q2 + b * r2
  {
  }
}
