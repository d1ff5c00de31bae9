/**
 * The two corners of Go's fmt package that the split tool relies on:
 * printing an integer with the `%d` and `%0Nd` verbs, and scanning a run of
 * decimal digits with the `%d` and `%Nd` verbs.
 */
module GoFmt {

  predicate IsDigit(c: char) {
    '0' <= c <= '9'
  }

  predicate AllDigits(s: string) {
    forall i :: 0 <= i < |s| ==> IsDigit(s[i])
  }

  function DigitValue(c: char): nat
    requires IsDigit(c)
  {
    c as int - '0' as int
  }

  function DigitChar(d: nat): (c: char)
    requires d < 10
    ensures IsDigit(c) && DigitValue(c) == d
  {
    ('0' as int + d) as char
  }

  /** The number a string of decimal digits denotes, most significant first. */
  function DigitsValue(s: string): nat
    requires AllDigits(s)
  {
    if s == [] then 0 else 10 * DigitsValue(s[..|s| - 1]) + DigitValue(s[|s| - 1])
  }

  function Pow10(k: nat): (p: nat)
    ensures p >= 1
  {
    if k == 0 then 1 else 10 * Pow10(k - 1)
  }

  /** The shortest decimal rendering of `n`: what `%d` prints for a non-negative value. */
  function NatDigits(n: nat): (r: string)
    ensures |r| >= 1 && AllDigits(r)
    ensures DigitsValue(r) == n
    ensures (r[0] == '0') == (n == 0)
  {
    if n < 10 then [DigitChar(n)]
    else
      var r := NatDigits(n / 10) + [DigitChar(n % 10)];
      assert r[..|r| - 1] == NatDigits(n / 10);
      r
  }

  /** A number below 10^k needs at most k digits. */
  lemma {:induction false} NatDigitsLength(n: nat, k: nat)
    requires 1 <= k && n < Pow10(k)
    ensures |NatDigits(n)| <= k
  {
    if n >= 10 {
      assert Pow10(k) == 10 * Pow10(k - 1);
      if k == 1 {
        assert false;
      }
      NatDigitsLength(n / 10, k - 1);
    }
  }

  function Zeros(k: nat): (z: string)
    ensures |z| == k && AllDigits(z)
  {
    if k == 0 then [] else Zeros(k - 1) + ['0']
  }

  /** Leading zeros do not change the number a digit string denotes. */
  lemma {:induction false} LeadingZeros(k: nat, d: string)
    requires AllDigits(d)
    ensures AllDigits(Zeros(k) + d) && DigitsValue(Zeros(k) + d) == DigitsValue(d)
  {
    var s := Zeros(k) + d;
    if d == [] {
      assert s == Zeros(k);
      ZerosValue(k);
    } else {
      LeadingZeros(k, d[..|d| - 1]);
      assert s[..|s| - 1] == Zeros(k) + d[..|d| - 1];
    }
  }

  lemma {:induction false} ZerosValue(k: nat)
    ensures DigitsValue(Zeros(k)) == 0
  {
    if k > 0 {
      ZerosValue(k - 1);
      assert Zeros(k)[..k - 1] == Zeros(k - 1);
    }
  }

  /** `d` padded on the left with '0' to at least `width` characters. */
  function ZeroPad(d: string, width: nat): (r: string)
    requires AllDigits(d)
    ensures AllDigits(r) && DigitsValue(r) == DigitsValue(d)
    ensures |r| == if |d| >= width then |d| else width
  {
    if |d| >= width then d
    else
      LeadingZeros(width - |d|, d);
      Zeros(width - |d|) + d
  }

  /**
   * What Go's fmt prints for the integer `n` under `%0<width>d`, and under
   * `%d` when `width` is 0: the digits of |n|, preceded by '-' when n is
   * negative, with zeros inserted after the sign until the whole text is
   * `width` characters long.
   */
  function FormatInt(n: int, width: nat): (r: string)
    ensures n >= 0 ==> AllDigits(r) && DigitsValue(r) == n
    ensures n >= 0 ==> |r| == if |NatDigits(n)| >= width then |NatDigits(n)| else width
    ensures n < 0 ==> |r| >= 2 && r[0] == '-' && AllDigits(r[1..]) && DigitsValue(r[1..]) == -n
    ensures n < 0 ==> |r| == if |NatDigits(-n)| + 1 >= width then |NatDigits(-n)| + 1 else width
  {
    if n >= 0 then ZeroPad(NatDigits(n), width)
    else
      var r := "-" + ZeroPad(NatDigits(-n), if width > 0 then width - 1 else 0);
      assert r[1..] == ZeroPad(NatDigits(-n), if width > 0 then width - 1 else 0);
      r
  }

  /**
   * How many characters `%d` (width = |s|) or `%<width>d` consumes from the
   * front of `s`: the digits there, but no more than `width` of them.
   */
  function LeadingDigits(s: string, width: nat): (k: nat)
    ensures k <= width && k <= |s| && AllDigits(s[..k])
    ensures k < width && k < |s| ==> !IsDigit(s[k])
  {
    if width == 0 || s == [] || !IsDigit(s[0]) then 0
    else
      var k := 1 + LeadingDigits(s[1..], width - 1);
      assert s[..k] == [s[0]] + s[1..][..k - 1];
      k
  }

  /** The scanner consumes exactly a digit run that the format's width or a
      non-digit ends. */
  lemma {:induction false} LeadingDigitsOf(d: string, rest: string, width: nat)
    requires AllDigits(d) && |d| <= width
    requires |d| == width || rest == [] || !IsDigit(rest[0])
    ensures LeadingDigits(d + rest, width) == |d|
  {
    if d != [] {
      assert (d + rest)[1..] == d[1..] + rest;
      LeadingDigitsOf(d[1..], rest, width - 1);
    }
  }
}
