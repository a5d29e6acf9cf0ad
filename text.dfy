/**
 * String helpers shared by the core: Python's whitespace stripping, digit strings,
 * decimal numerals and the one-decimal labels that name the progression stages.
 */
module Text {
  import opened Wrappers

  /** Characters for which Python's `str.isspace()` holds (the set `str.strip()` removes). */
  predicate IsSpace(c: char)
  {
    ('\t' <= c <= '\r') || ('\U{1C}' <= c <= ' ') || c == '\U{85}' || c == '\U{A0}'
    || c == '\U{1680}' || ('\U{2000}' <= c <= '\U{200A}') || c == '\U{2028}' || c == '\U{2029}'
    || c == '\U{202F}' || c == '\U{205F}' || c == '\U{3000}'
  }

  /** The end of the run of whitespace that starts at `i`. */
  function SkipSpaces(s: string, i: nat): (k: nat)
    requires i <= |s|
    ensures i <= k <= |s|
    ensures forall m :: i <= m < k ==> IsSpace(s[m])
    ensures k < |s| ==> !IsSpace(s[k])
    decreases |s| - i
  {
    if i < |s| && IsSpace(s[i]) then SkipSpaces(s, i + 1) else i
  }

  /** The start of the run of whitespace that ends at `j`, going no further back than `lo`. */
  function SkipSpacesBack(s: string, lo: nat, j: nat): (k: nat)
    requires lo <= j <= |s|
    ensures lo <= k <= j
    ensures forall m :: k <= m < j ==> IsSpace(s[m])
    ensures lo < k ==> !IsSpace(s[k - 1])
  {
    if lo < j && IsSpace(s[j - 1]) then SkipSpacesBack(s, lo, j - 1) else j
  }

  /** `s.strip()`: what lies between the leading and the trailing whitespace. */
  function Strip(s: string): (r: string)
    ensures r == [] || (!IsSpace(r[0]) && !IsSpace(r[|r| - 1]))
  {
    var lo := SkipSpaces(s, 0);
    s[lo..SkipSpacesBack(s, lo, |s|)]
  }

  /** A string that neither starts nor ends with whitespace is its own `strip()`. */
  lemma StripUnpadded(s: string)
    requires s == [] || (!IsSpace(s[0]) && !IsSpace(s[|s| - 1]))
    ensures Strip(s) == s
  {
  }

  predicate IsDigit(c: char)
  {
    '0' <= c <= '9'
  }

  /** Every character is an ASCII digit (the empty string included). */
  predicate AllDigits(s: string)
  {
    forall i :: 0 <= i < |s| ==> IsDigit(s[i])
  }

  /** Python's `s.isdigit()` on ASCII text: non-empty and all digits. */
  predicate IsDigits(s: string)
  {
    |s| > 0 && AllDigits(s)
  }

  function DigitValue(c: char): (d: nat)
    requires IsDigit(c)
    ensures d < 10
  {
    c as int - '0' as int
  }

  function DigitChar(d: nat): (c: char)
    requires d < 10
    ensures IsDigit(c) && DigitValue(c) == d
  {
    (d + '0' as int) as char
  }

  /** `int(s)` for a string of decimal digits. */
  function DigitsValue(s: string): nat
    requires AllDigits(s)
  {
    if s == [] then 0 else DigitsValue(s[..|s| - 1]) * 10 + DigitValue(s[|s| - 1])
  }

  /** `str(n)` for a natural number: its shortest decimal numeral. */
  function NatToDigits(n: nat): (r: string)
    ensures IsDigits(r) && DigitsValue(r) == n
    ensures r[0] != '0' || n == 0
  {
    if n < 10 then [DigitChar(n)]
    else
      var r := NatToDigits(n / 10) + [DigitChar(n % 10)];
      assert r[..|r| - 1] == NatToDigits(n / 10);
      r
  }

  /** The value of the digits after a decimal point: `0.d1d2...`. */
  function FractionValue(s: string): (v: real)
    requires AllDigits(s)
    ensures 0.0 <= v < 1.0
  {
    if s == [] then 0.0 else (DigitValue(s[0]) as real + FractionValue(s[1..])) / 10.0
  }

  /** The position of the first `c` in `s`, or `|s|` when there is none. */
  function IndexOf(s: string, c: char): (k: nat)
    ensures k <= |s|
    ensures k < |s| ==> s[k] == c
    ensures forall i :: 0 <= i < k ==> s[i] != c
  {
    if s == [] then 0 else if s[0] == c then 0 else 1 + IndexOf(s[1..], c)
  }

  /** An unsigned decimal numeral `ddd`, `ddd.`, `.ddd` or `ddd.ddd`. */
  function ParseUnsigned(t: string): Option<real>
  {
    var k := IndexOf(t, '.');
    var whole := t[..k];
    var frac := if k < |t| then t[k + 1..] else "";
    if AllDigits(whole) && AllDigits(frac) && |whole| + |frac| > 0 then
      Some(DigitsValue(whole) as real + FractionValue(frac))
    else
      None
  }

  /**
   * Python's `float(s)` for decimal numerals: surrounding whitespace is stripped and one
   * optional sign is accepted; anything else does not parse.
   */
  function ParseDecimal(s: string): Option<real>
  {
    var t := Strip(s);
    if |t| > 0 && (t[0] == '-' || t[0] == '+') then
      match ParseUnsigned(t[1..])
      case None => None
      case Some(v) => Some(if t[0] == '-' then -v else v)
    else
      ParseUnsigned(t)
  }

  /** `f"{t / 10:.1f}"` for a count of tenths `t`: digits, a point and one digit. */
  function FormatTenths(t: nat): (r: string)
  {
    NatToDigits(t / 10) + "." + [DigitChar(t % 10)]
  }

  /** A label with exactly one decimal place: digits, then `.`, then one digit. */
  predicate OneDecimal(s: string)
  {
    |s| >= 3 && s[|s| - 2] == '.' && IsDigits(s[..|s| - 2]) && IsDigit(s[|s| - 1])
  }

  lemma FormatTenthsShape(t: nat)
    ensures OneDecimal(FormatTenths(t))
  {
    var r := FormatTenths(t);
    assert r[..|r| - 2] == NatToDigits(t / 10);
  }

  /** A point between a digit string and a (possibly empty) digit string reads back as their value. */
  lemma {:induction false} ParseUnsignedPoint(whole: string, frac: string)
    requires IsDigits(whole) && AllDigits(frac)
    ensures ParseUnsigned(whole + "." + frac)
         == Some(DigitsValue(whole) as real + FractionValue(frac))
  {
    var r := whole + "." + frac;
    assert forall i :: 0 <= i < |whole| ==> r[i] == whole[i] && r[i] != '.';
    assert r[|whole|] == '.';
    assert IndexOf(r, '.') == |whole|;
    assert r[..|whole|] == whole;
    assert r[|whole| + 1..] == frac;
  }

  /** A numeral that starts with a digit and has no padding parses as its unsigned reading. */
  lemma ParseDecimalUnsigned(s: string)
    requires |s| > 0 && IsDigit(s[0]) && IsDigit(s[|s| - 1])
    ensures ParseDecimal(s) == ParseUnsigned(s)
  {
    StripUnpadded(s);
  }

  /** Reading a one-decimal label back gives the number of tenths it was written from. */
  lemma {:induction false} ParseFormatTenths(t: nat)
    ensures ParseDecimal(FormatTenths(t)) == Some(t as real / 10.0)
  {
    var whole := NatToDigits(t / 10);
    var frac := [DigitChar(t % 10)];
    FormatTenthsParts(t);
    ParseDecimalUnsigned(FormatTenths(t));
    ParseUnsignedPoint(whole, frac);
    OneDigitFraction(t % 10);
    TenthsValue(t);
  }

  lemma FormatTenthsParts(t: nat)
    ensures var r := FormatTenths(t);
      r == NatToDigits(t / 10) + "." + [DigitChar(t % 10)] && |r| > 0 && IsDigit(r[0]) && IsDigit(r[|r| - 1])
  {
    var r := FormatTenths(t);
    assert r[0] == NatToDigits(t / 10)[0];
  }

  lemma OneDigitFraction(d: nat)
    requires d < 10
    ensures FractionValue([DigitChar(d)]) == d as real / 10.0
  {
    assert [DigitChar(d)][1..] == [];
  }

  lemma TenthsValue(t: nat)
    ensures (t / 10) as real + (t % 10) as real / 10.0 == t as real / 10.0
  {
    var q, m := t / 10, t % 10;
    assert t == 10 * q + m;
    assert t as real == 10.0 * (q as real) + m as real;
  }
}
