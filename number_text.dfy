/** The number-to-text conversions the studio relies on: JavaScript's
    decimal text of a non-negative integer, `toFixed(2)` of a value held as
    a count of hundredths, and the shorter text that
    `parseFloat(x.toFixed(2))` prints. Each has a reader that inverts it. */
module NumberText {
  import opened Types

  predicate IsDigit(c: char)
  {
    '0' <= c <= '9'
  }

  predicate AllDigits(s: string)
  {
    forall i :: 0 <= i < |s| ==> IsDigit(s[i])
  }

  function DigitValue(c: char): (d: nat)
    requires IsDigit(c)
    ensures d < 10
  {
    c as int - '0' as int
  }

  function DigitChar(d: nat): (c: char)
    requires d < 10
    ensures IsDigit(c) && DigitValue(c) == d
  {
    ('0' as int + d) as char
  }

  /** The value of a string of decimal digits, most significant first. */
  function DigitsValue(s: string): nat
    requires AllDigits(s)
  {
    if s == [] then 0 else 10 * DigitsValue(s[..|s| - 1]) + DigitValue(s[|s| - 1])
  }

  /** Decimal text of a non-negative integer: digits only, and a leading
      zero only for zero itself. */
  function NatToString(n: nat): (s: string)
    ensures |s| > 0 && AllDigits(s)
    ensures s[0] == '0' <==> n == 0
  {
    if n < 10 then [DigitChar(n)] else NatToString(n / 10) + [DigitChar(n % 10)]
  }

  /** Reading the text back gives the number. */
  lemma {:induction false} NatToStringValue(n: nat)
    ensures DigitsValue(NatToString(n)) == n
  {
    if n >= 10 {
      NatToStringValue(n / 10);
      var s := NatToString(n);
      assert s[..|s| - 1] == NatToString(n / 10);
    }
  }

  lemma NatToStringInjective(a: nat, b: nat)
    requires NatToString(a) == NatToString(b)
    ensures a == b
  {
    NatToStringValue(a);
    NatToStringValue(b);
  }

  /** The integer nearest to n / d, a half rounded up (JavaScript's
      `Math.round`, and `toFixed` on a value it holds exactly). */
  function RoundHalfUp(n: nat, d: nat): (r: nat)
    requires d > 0
    ensures 2 * d * r <= 2 * n + d < 2 * d * (r + 1)
  {
    var q := (2 * n + d) / (2 * d);
    assert (2 * d) * q <= 2 * n + d < (2 * d) * (q + 1) by {
      var m := (2 * n + d) % (2 * d);
      assert 2 * n + d == (2 * d) * q + m && 0 <= m < 2 * d;
    }
    q
  }

  /** `toFixed(2)` of h / 100: the whole part, a point, exactly two digits. */
  function FixedTwo(h: nat): (s: string)
    ensures |s| >= 4 && s[|s| - 3] == '.'
    ensures AllDigits(s[..|s| - 3]) && IsDigit(s[|s| - 2]) && IsDigit(s[|s| - 1])
  {
    NatToString(h / 100) + "." + [DigitChar(h % 100 / 10), DigitChar(h % 10)]
  }

  /** What `parseFloat` of that text prints again: trailing zeros of the
      fraction dropped, and the point with them when nothing is left. */
  function ShortHundredths(h: nat): (s: string)
    ensures var k := |NatToString(h / 100)|;
      && |s| >= k && s[..k] == NatToString(h / 100)
      && (|s| == k <==> h % 100 == 0)
      && (|s| == k + 2 <==> h % 100 != 0 && h % 10 == 0)
      && (|s| == k + 3 <==> h % 10 != 0)
  {
    var whole := NatToString(h / 100);
    if h % 100 == 0 then whole
    else if h % 10 == 0 then whole + "." + [DigitChar(h % 100 / 10)]
    else whole + "." + [DigitChar(h % 100 / 10), DigitChar(h % 10)]
  }

  /** Reads digits, optionally followed by a point and one or two digits,
      as a count of hundredths. */
  function ParseHundredths(s: string): Option<nat>
  {
    var n := |s|;
    if n >= 4 && s[n - 3] == '.' && AllDigits(s[..n - 3]) && IsDigit(s[n - 2]) && IsDigit(s[n - 1]) then
      Some(100 * DigitsValue(s[..n - 3]) + 10 * DigitValue(s[n - 2]) + DigitValue(s[n - 1]))
    else if n >= 3 && s[n - 2] == '.' && AllDigits(s[..n - 2]) && IsDigit(s[n - 1]) then
      Some(100 * DigitsValue(s[..n - 2]) + 10 * DigitValue(s[n - 1]))
    else if n >= 1 && AllDigits(s) then
      Some(100 * DigitsValue(s))
    else
      None
  }

  lemma FixedTwoRoundTrip(h: nat)
    ensures ParseHundredths(FixedTwo(h)) == Some(h)
    ensures FixedTwo(h)[|FixedTwo(h)| - 3] == '.'
  {
    var w := NatToString(h / 100);
    var s := FixedTwo(h);
    assert s[..|s| - 3] == w;
    NatToStringValue(h / 100);
  }

  lemma WholeRoundTrip(h: nat)
    requires h % 100 == 0
    ensures ParseHundredths(ShortHundredths(h)) == Some(h)
    ensures '.' !in ShortHundredths(h)
  {
    var w := NatToString(h / 100);
    NatToStringValue(h / 100);
    assert ShortHundredths(h) == w;
    assert !IsDigit('.');
  }

  lemma OneDecimalRoundTrip(h: nat)
    requires h % 100 != 0 && h % 10 == 0
    ensures ParseHundredths(ShortHundredths(h)) == Some(h)
    ensures ShortHundredths(h)[|ShortHundredths(h)| - 1] != '0'
  {
    var w := NatToString(h / 100);
    var s := ShortHundredths(h);
    NatToStringValue(h / 100);
    assert s == w + "." + [DigitChar(h % 100 / 10)];
    assert s[..|s| - 2] == w;
    assert h % 100 / 10 != 0;
  }

  /** The short text reads back as the same number, has at most two
      decimals and never ends in a fractional zero. */
  lemma ShortHundredthsRoundTrip(h: nat)
    ensures ParseHundredths(ShortHundredths(h)) == Some(h)
    ensures '.' in ShortHundredths(h) ==> ShortHundredths(h)[|ShortHundredths(h)| - 1] != '0'
  {
    if h % 100 == 0 {
      WholeRoundTrip(h);
    } else if h % 10 == 0 {
      OneDecimalRoundTrip(h);
    } else {
      assert ShortHundredths(h) == FixedTwo(h);
      FixedTwoRoundTrip(h);
    }
  }

  /** The short text opens with the whole part's plain digits, so it has
      no leading zero unless the whole part is zero. */
  lemma ShortHundredthsLeads(h: nat)
    ensures ShortHundredths(h)[..|NatToString(h / 100)|] == NatToString(h / 100)
    ensures ShortHundredths(h)[0] == '0' ==> h < 100
  {
    var w := NatToString(h / 100);
    assert ShortHundredths(h)[0] == w[0];
  }

  /** A whole number of units prints with no point at all. */
  lemma ShortHundredthsWhole(n: nat)
    ensures ShortHundredths(100 * n) == NatToString(n)
  {
    assert (100 * n) / 100 == n;
  }

  /** A non-zero multiple of n is at least n away from zero. */
  lemma MultipleBound(d: int, n: int)
    requires n > 0
    ensures d >= 1 ==> d * n >= n
    ensures d <= -1 ==> d * n <= -n
  {
    if d >= 1 {
      assert d * n == (d - 1) * n + n;
    } else if d <= -1 {
      assert d * n == (d + 1) * n - n;
    }
  }

  /** Quotient and remainder are the one pair with a == q * n + r and
      0 <= r < n. */
  lemma ModUnique(a: int, n: int, q: int, r: int)
    requires n > 0 && a == q * n + r && 0 <= r < n
    ensures a % n == r && a / n == q
  {
    var q2, r2 := a / n, a % n;
    assert a == q2 * n + r2 && 0 <= r2 < n;
    assert (q - q2) * n == r2 - r;
    MultipleBound(q - q2, n);
  }
}
