/**
  Python's number conversions as the repository uses them: `float(s)` on decimal
  text, `int(x)` truncation, `round(x)` (half to even) and the arithmetic mean
  that pandas computes for a column. Numbers are exact `real`s, not IEEE doubles.
 */
module Numeric {
  import opened Wrappers
  import Text

  predicate IsDigit(c: char) {
    '0' <= c <= '9'
  }

  predicate AllDigits(s: string) {
    forall i :: 0 <= i < |s| ==> IsDigit(s[i])
  }

  /** The natural number written by the decimal digits `s` (0 for no digits). */
  function DigitsValue(s: string): nat
    requires AllDigits(s)
  {
    if |s| == 0 then 0 else 10 * DigitsValue(s[..|s| - 1]) + (s[|s| - 1] as int - '0' as int)
  }

  function Pow10(n: nat): (r: nat)
    ensures r >= 1
  {
    if n == 0 then 1 else 10 * Pow10(n - 1)
  }

  /**
    The value of unsigned decimal text: digits, optionally one '.', optionally
    more digits, with at least one digit in all ("5", "5.", ".5", "4.1").
   */
  function ParseUnsigned(s: string): (r: Option<real>)
    ensures r.Some? ==> r.value >= 0.0
    ensures r.Some? ==> |s| > 0 && forall i :: 0 <= i < |s| ==> IsDigit(s[i]) || s[i] == '.'
  {
    var d := Text.FirstIndexIn(s, {'.'});
    var whole := s[..d];
    var frac := if d < |s| then s[d + 1..] else "";
    if AllDigits(whole) && AllDigits(frac) && |whole| + |frac| > 0 then
      assert forall i :: d < i < |s| ==> s[i] == frac[i - d - 1];
      Some(DigitsValue(whole) as real + DigitsValue(frac) as real / Pow10(|frac|) as real)
    else
      None
  }

  /**
    Python's `float(s)` on text that carries no surrounding whitespace, restricted
    to a plain decimal with an optional sign (no exponent, "inf", "nan" or '_').
   */
  function ParseDecimal(s: string): (r: Option<real>)
    ensures r.Some? ==> |s| > 0 && !Text.IsSpace(s[0]) && !Text.IsSpace(s[|s| - 1])
  {
    if |s| > 0 && (s[0] == '+' || s[0] == '-') then
      match ParseUnsigned(s[1..])
      case Some(v) => Some(if s[0] == '-' then -v else v)
      case None => None
    else
      ParseUnsigned(s)
  }

  /** Python's `float(s)` on a string: surrounding whitespace is ignored. */
  function ParseFloat(s: string): Option<real> {
    ParseDecimal(Text.Strip(s))
  }

  /** The decimal digits of `n`, without leading zeros. */
  function FormatNat(n: nat): (s: string)
    ensures |s| > 0 && AllDigits(s) && DigitsValue(s) == n
    ensures s[0] != '0' || n == 0
  {
    var last := ['0' + (n % 10) as char];
    if n < 10 then
      last
    else
      var s := FormatNat(n / 10) + last;
      assert s[..|s| - 1] == FormatNat(n / 10);
      s
  }

  /** Python's `str(i)` for an int. */
  function FormatInt(i: int): string {
    if i < 0 then "-" + FormatNat(-i) else FormatNat(i)
  }

  /** Decimal text parses back to the number it was written from. */
  lemma ParseUnsignedFormatNat(n: nat)
    ensures ParseUnsigned(FormatNat(n)) == Some(n as real)
  {
    var s := FormatNat(n);
    assert Text.FirstIndexIn(s, {'.'}) == |s| by {
      assert forall i :: 0 <= i < |s| ==> s[i] != '.';
    }
    assert s[..|s|] == s;
  }

  /** `float(str(i)) == i`: the text of an int reads back as that int. */
  lemma ParseFloatFormatInt(i: int)
    ensures ParseFloat(FormatInt(i)) == Some(i as real)
  {
    ParseDecimalFormatInt(i);
    ParsedIsStripped(FormatInt(i));
  }

  /** Text that parses as a decimal carries no surrounding whitespace, so `strip` keeps it. */
  lemma ParsedIsStripped(s: string)
    requires ParseDecimal(s).Some?
    ensures Text.Strip(s) == s
  {
    Text.StripCharsKeeps(s, Text.IsSpace);
  }

  /** The text of an int holds only a sign and digits. */
  lemma FormatIntChars(i: int)
    ensures forall k :: 0 <= k < |FormatInt(i)| ==> FormatInt(i)[k] == '-' || IsDigit(FormatInt(i)[k])
  {
    if i < 0 {
      var d := FormatNat(-i);
      assert FormatInt(i) == "-" + d;
      assert forall k :: 1 <= k < |FormatInt(i)| ==> FormatInt(i)[k] == d[k - 1];
    }
  }

  lemma ParseDecimalFormatInt(i: int)
    ensures ParseDecimal(FormatInt(i)) == Some(i as real)
  {
    if i < 0 {
      ParseDecimalNegative(-i);
      assert FormatInt(i) == "-" + FormatNat(-i);
    } else {
      ParseDecimalFormatNat(i);
    }
  }

  /** A minus sign before the digits of `n` reads as `-n`. */
  lemma ParseDecimalNegative(n: nat)
    ensures ParseDecimal("-" + FormatNat(n)) == Some(-(n as real))
  {
    var d := FormatNat(n);
    var s := "-" + d;
    ParseUnsignedFormatNat(n);
    assert s[0] == '-' && s[1..] == d;
  }

  /** The digits of `n` read as `n`: they carry no sign. */
  lemma ParseDecimalFormatNat(n: nat)
    ensures ParseDecimal(FormatNat(n)) == Some(n as real)
  {
    var d := FormatNat(n);
    ParseUnsignedFormatNat(n);
    assert IsDigit(d[0]);
  }

  /** Python's `int(x)` for a float: truncation toward zero. */
  function Trunc(x: real): (r: int)
    ensures 0.0 <= x ==> r as real <= x < r as real + 1.0
    ensures x < 0.0 ==> r as real - 1.0 < x <= r as real
  {
    if x >= 0.0 then x.Floor else -((-x).Floor)
  }

  /** Python's `round(x)`: the nearest integer, ties going to the even one. */
  function RoundHalfEven(x: real): (r: int)
    ensures -0.5 <= x - r as real <= 0.5
    ensures x - r as real == 0.5 || x - r as real == -0.5 ==> r % 2 == 0
  {
    var f := x.Floor;
    var d := x - f as real;
    if d < 0.5 then f
    else if d > 0.5 then f + 1
    else if f % 2 == 0 then f
    else f + 1
  }

  /** `round` picks a nearest integer: no integer is strictly closer to `x`. */
  lemma RoundHalfEvenNearest(x: real, n: int)
    ensures Distance(x, RoundHalfEven(x) as real) <= Distance(x, n as real)
  {
    var f := x.Floor;
    var r := RoundHalfEven(x);
    assert f as real <= x < f as real + 1.0;
    assert r == f || r == f + 1;
    if n <= f {
      assert n as real <= f as real;
    } else {
      assert n as real >= f as real + 1.0;
    }
  }

  function Distance(x: real, y: real): real {
    if x < y then y - x else x - y
  }

  function Sum(xs: seq<real>): real {
    if |xs| == 0 then 0.0 else xs[0] + Sum(xs[1..])
  }

  function Min(xs: seq<real>): (m: real)
    requires |xs| > 0
    ensures m in xs && forall i :: 0 <= i < |xs| ==> m <= xs[i]
  {
    if |xs| == 1 then xs[0]
    else var m := Min(xs[1..]); if xs[0] <= m then xs[0] else m
  }

  function Max(xs: seq<real>): (m: real)
    requires |xs| > 0
    ensures m in xs && forall i :: 0 <= i < |xs| ==> xs[i] <= m
  {
    if |xs| == 1 then xs[0]
    else var m := Max(xs[1..]); if xs[0] >= m then xs[0] else m
  }

  /** pandas' `mean()` of a column's non-null values: `None` (NaN) when there are none. */
  function Mean(xs: seq<real>): (r: Option<real>)
    ensures r.None? <==> |xs| == 0
  {
    if |xs| == 0 then None else Some(Sum(xs) / |xs| as real)
  }

  /** A sum of values between `lo` and `hi` lies between `n * lo` and `n * hi`. */
  lemma {:induction false} SumBounds(xs: seq<real>, lo: real, hi: real)
    requires forall i :: 0 <= i < |xs| ==> lo <= xs[i] <= hi
    ensures |xs| as real * lo <= Sum(xs) <= |xs| as real * hi
  {
    if |xs| > 0 {
      SumBounds(xs[1..], lo, hi);
      assert |xs| as real * lo == (|xs| - 1) as real * lo + lo;
      assert |xs| as real * hi == (|xs| - 1) as real * hi + hi;
    }
  }

  /** Dividing `n * lo <= s <= n * hi` by a positive `n`. */
  lemma DivideBounds(s: real, n: real, lo: real, hi: real)
    requires n > 0.0 && n * lo <= s <= n * hi
    ensures lo <= s / n <= hi
  {
    var q := s / n;
    assert q * n == s;
  }

  /** A mean of values between `lo` and `hi` lies between them too. */
  lemma MeanBounds(xs: seq<real>, lo: real, hi: real)
    requires |xs| > 0
    requires forall i :: 0 <= i < |xs| ==> lo <= xs[i] <= hi
    ensures lo <= Mean(xs).value <= hi
  {
    SumBounds(xs, lo, hi);
    DivideBounds(Sum(xs), |xs| as real, lo, hi);
  }

  /** A mean lies between the least and the greatest of its values. */
  lemma MeanBetweenMinMax(xs: seq<real>)
    requires |xs| > 0
    ensures Min(xs) <= Mean(xs).value <= Max(xs)
  {
    MeanBounds(xs, Min(xs), Max(xs));
  }
}
