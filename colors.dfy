/** The hexadecimal colour codec and colour interpolation of table/colors.py. */
module Colors {
  import opened Wrappers
  import Text
  import Numbers

  datatype Rgb = Rgb(r: int, g: int, b: int)

  predicate IsHexDigit(c: char)
  {
    ('0' <= c <= '9') || ('a' <= c <= 'f') || ('A' <= c <= 'F')
  }

  function HexDigitValue(c: char): (d: nat)
    requires IsHexDigit(c)
    ensures d < 16
  {
    if '0' <= c <= '9' then c as int - '0' as int
    else if 'a' <= c <= 'f' then c as int - 'a' as int + 10
    else c as int - 'A' as int + 10
  }

  /** The lower-case hexadecimal digit for `d`, as format specifier `x` writes it. */
  function HexChar(d: nat): (c: char)
    requires d < 16
    ensures IsHexDigit(c) && HexDigitValue(c) == d
    ensures !('A' <= c <= 'F')
  {
    if d < 10 then (d + '0' as int) as char else (d - 10 + 'a' as int) as char
  }

  predicate AllHex(s: string)
  {
    forall i :: 0 <= i < |s| ==> IsHexDigit(s[i])
  }

  function HexValue(s: string): nat
    requires AllHex(s)
  {
    if s == [] then 0 else HexValue(s[..|s| - 1]) * 16 + HexDigitValue(s[|s| - 1])
  }

  /**
   * Python's `int(s, 16)` on the at most two characters `hex_to_rgb` hands it: surrounding
   * whitespace is ignored and one sign is allowed before at least one hexadecimal digit;
   * anything else raises.
   */
  function ParseHex(s: string): (r: Option<int>)
    requires |s| <= 2
    ensures r.Some? ==> -15 <= r.value <= 255
  {
    if |s| == 1 then
      if IsHexDigit(s[0]) then Some(HexDigitValue(s[0])) else None
    else if |s| == 2 then
      if IsHexDigit(s[0]) && IsHexDigit(s[1]) then Some(HexDigitValue(s[0]) * 16 + HexDigitValue(s[1]))
      else if IsHexDigit(s[1]) && (Text.IsSpace(s[0]) || s[0] == '+') then Some(HexDigitValue(s[1]))
      else if IsHexDigit(s[1]) && s[0] == '-' then Some(-(HexDigitValue(s[1]) as int))
      else if IsHexDigit(s[0]) && Text.IsSpace(s[1]) then Some(HexDigitValue(s[0]))
      else None
    else None
  }

  /** `s.lstrip('#')`: the suffix after the longest prefix of `#`. */
  function StripHashes(s: string): (r: string)
    ensures |r| <= |s| && r == s[|s| - |r|..]
    ensures r == [] || r[0] != '#'
    ensures forall i :: 0 <= i < |s| - |r| ==> s[i] == '#'
  {
    if |s| > 0 && s[0] == '#' then StripHashes(s[1..]) else s
  }

  /** Python's slice `s[i:j]` for `0 <= i <= j`, which stops at the end of `s`. */
  function Slice(s: string, i: nat, j: nat): (r: string)
    requires i <= j
    ensures |r| <= j - i
  {
    if |s| <= i then "" else if |s| <= j then s[i..] else s[i..j]
  }

  /** One channel of `hex_to_rgb`: `int(h[i:i + 2], 16)`. */
  function Channel(h: string, i: nat): Option<int>
  {
    ParseHex(Slice(h, i, i + 2))
  }

  /** `hex_to_rgb`: `None` where `int(..., 16)` raises. */
  function HexToRgb(hex: string): Option<Rgb>
  {
    var h := StripHashes(hex);
    match (Channel(h, 0), Channel(h, 2), Channel(h, 4))
    case (Some(r), Some(g), Some(b)) => Some(Rgb(r, g, b))
    case _ => None
  }

  /** The lower-case hexadecimal numeral of `n`. */
  function HexOf(n: nat): (s: string)
    ensures |s| > 0 && AllHex(s) && HexValue(s) == n
  {
    if n < 16 then [HexChar(n)]
    else
      var s := HexOf(n / 16) + [HexChar(n % 16)];
      assert s[..|s| - 1] == HexOf(n / 16);
      s
  }

  /** `f"{n:02x}"`: zero-padded to width two; a minus sign counts toward the width. */
  function Hex2(n: int): string
  {
    if n < 0 then "-" + HexOf(-n)
    else if n < 16 then "0" + HexOf(n)
    else HexOf(n)
  }

  /** `rgb_to_hex`. */
  function RgbToHex(r: int, g: int, b: int): string
  {
    "#" + Hex2(r) + Hex2(g) + Hex2(b)
  }

  predicate IsByte(n: int)
  {
    0 <= n <= 255
  }

  /** A channel in 0..255 is written as exactly two lower-case hexadecimal digits. */
  lemma Hex2Byte(n: int)
    requires IsByte(n)
    ensures Hex2(n) == [HexChar(n / 16), HexChar(n % 16)]
  {
    if n >= 16 {
      assert HexOf(n / 16) == [HexChar(n / 16)];
    }
  }

  /** Canonical colour text: `#` followed by six lower-case hexadecimal digits. */
  predicate IsCanonicalHex(s: string)
  {
    |s| == 7 && s[0] == '#' && forall i :: 1 <= i < 7 ==> IsHexDigit(s[i]) && !('A' <= s[i] <= 'F')
  }

  /** Three channels in 0..255 are written as `#` and six lower-case digits, two per channel. */
  lemma RgbToHexDigits(r: int, g: int, b: int)
    requires IsByte(r) && IsByte(g) && IsByte(b)
    ensures var s := RgbToHex(r, g, b);
      |s| == 7 && s[0] == '#' && s[1] == HexChar(r / 16) && s[2] == HexChar(r % 16)
      && s[3] == HexChar(g / 16) && s[4] == HexChar(g % 16) && s[5] == HexChar(b / 16) && s[6] == HexChar(b % 16)
  {
    Hex2Byte(r);
    Hex2Byte(g);
    Hex2Byte(b);
  }

  lemma RgbToHexCanonical(r: int, g: int, b: int)
    requires IsByte(r) && IsByte(g) && IsByte(b)
    ensures IsCanonicalHex(RgbToHex(r, g, b))
  {
    RgbToHexDigits(r, g, b);
    var s := RgbToHex(r, g, b);
    forall i | 1 <= i < 7
      ensures IsHexDigit(s[i]) && !('A' <= s[i] <= 'F')
    {
      SevenCases(i);
    }
  }

  /** An index below seven is one of 0..6. */
  lemma SevenCases(i: int)
    requires 0 <= i < 7
    ensures i == 0 || i == 1 || i == 2 || i == 3 || i == 4 || i == 5 || i == 6
  {
  }

  /** A two-digit value splits back into its digits. */
  lemma DivMod16(hi: nat, lo: nat)
    requires hi < 16 && lo < 16
    ensures (hi * 16 + lo) / 16 == hi && (hi * 16 + lo) % 16 == lo
  {
  }

  /** Two hexadecimal digits at `i` decode to their value. */
  lemma ChannelOfDigits(h: string, i: nat)
    requires i + 2 <= |h| && IsHexDigit(h[i]) && IsHexDigit(h[i + 1])
    ensures Channel(h, i) == Some(HexDigitValue(h[i]) * 16 + HexDigitValue(h[i + 1]))
  {
    assert Slice(h, i, i + 2) == [h[i], h[i + 1]];
  }

  /** A single leading `#` is all that `lstrip('#')` removes from canonical colour text. */
  lemma StripHashesCanonical(s: string)
    requires IsCanonicalHex(s)
    ensures StripHashes(s) == s[1..]
  {
    assert !('A' <= s[1] <= 'F') && IsHexDigit(s[1]);
    assert StripHashes(s[1..]) == s[1..];
  }

  /** Canonical colour text decodes to the values of its three digit pairs. */
  lemma DecodeCanonical(s: string)
    requires IsCanonicalHex(s)
    ensures HexToRgb(s) == Some(Rgb(HexDigitValue(s[1]) * 16 + HexDigitValue(s[2]),
      HexDigitValue(s[3]) * 16 + HexDigitValue(s[4]), HexDigitValue(s[5]) * 16 + HexDigitValue(s[6])))
  {
    StripHashesCanonical(s);
    var h := s[1..];
    assert h[0] == s[1] && h[1] == s[2] && h[2] == s[3] && h[3] == s[4] && h[4] == s[5] && h[5] == s[6];
    ChannelOfDigits(h, 0);
    ChannelOfDigits(h, 2);
    ChannelOfDigits(h, 4);
  }

  /** The two digits written for a channel carry its value. */
  lemma ChannelValue(n: int)
    requires IsByte(n)
    ensures HexDigitValue(HexChar(n / 16)) * 16 + HexDigitValue(HexChar(n % 16)) == n
  {
  }

  /** Decoding what `rgb_to_hex` writes gives back the channels. */
  lemma {:induction false} RgbRoundTrip(r: int, g: int, b: int)
    requires IsByte(r) && IsByte(g) && IsByte(b)
    ensures HexToRgb(RgbToHex(r, g, b)) == Some(Rgb(r, g, b))
  {
    RgbToHexDigits(r, g, b);
    RgbToHexCanonical(r, g, b);
    DecodeDigits(RgbToHex(r, g, b), r, g, b);
  }

  /** Canonical colour text holding the digits of three channels decodes to those channels. */
  lemma DecodeDigits(s: string, r: int, g: int, b: int)
    requires IsCanonicalHex(s) && IsByte(r) && IsByte(g) && IsByte(b)
    requires s[1] == HexChar(r / 16) && s[2] == HexChar(r % 16) && s[3] == HexChar(g / 16)
    requires s[4] == HexChar(g % 16) && s[5] == HexChar(b / 16) && s[6] == HexChar(b % 16)
    ensures HexToRgb(s) == Some(Rgb(r, g, b))
  {
    DecodeCanonical(s);
    ChannelValue(r);
    ChannelValue(g);
    ChannelValue(b);
  }

  /** Encoding what canonical colour text decodes to gives back the text. */
  lemma {:induction false} HexRoundTrip(s: string)
    requires IsCanonicalHex(s)
    ensures HexToRgb(s).Some?
    ensures var c := HexToRgb(s).value; IsByte(c.r) && IsByte(c.g) && IsByte(c.b) && RgbToHex(c.r, c.g, c.b) == s
  {
    DecodeCanonical(s);
    var c := HexToRgb(s).value;
    ChannelDigits(s[1], s[2], c.r);
    ChannelDigits(s[3], s[4], c.g);
    ChannelDigits(s[5], s[6], c.b);
    RgbToHexDigits(c.r, c.g, c.b);
    var t := RgbToHex(c.r, c.g, c.b);
    forall i | 0 <= i < 7
      ensures t[i] == s[i]
    {
      SevenCases(i);
    }
    assert t == s;
  }

  /** The channel read from two lower-case digits is written back as those digits. */
  lemma ChannelDigits(c: char, d: char, v: int)
    requires IsHexDigit(c) && !('A' <= c <= 'F') && IsHexDigit(d) && !('A' <= d <= 'F')
    requires v == HexDigitValue(c) * 16 + HexDigitValue(d)
    ensures IsByte(v) && HexChar(v / 16) == c && HexChar(v % 16) == d
  {
    DivMod16(HexDigitValue(c), HexDigitValue(d));
    LowerHexChar(c);
    LowerHexChar(d);
  }

  /** A lower-case hexadecimal digit is the one `HexChar` writes for its value. */
  lemma LowerHexChar(c: char)
    requires IsHexDigit(c) && !('A' <= c <= 'F')
    ensures HexChar(HexDigitValue(c)) == c
  {
  }

  predicate Between(x: int, a: int, b: int)
  {
    (a <= x <= b) || (b <= x <= a)
  }

  /** One channel of `interpolate_color`: `int(c1 + (c2 - c1) * factor)`. */
  function Blend(c1: int, c2: int, factor: real): int
  {
    Numbers.Trunc(c1 as real + (c2 - c1) as real * factor)
  }

  /** `interpolate_color`; `None` where either colour fails to decode. */
  function InterpolateColor(startColor: string, endColor: string, factor: real): Option<string>
  {
    match (HexToRgb(startColor), HexToRgb(endColor))
    case (Some(c1), Some(c2)) =>
      Some(RgbToHex(Blend(c1.r, c2.r, factor), Blend(c1.g, c2.g, factor), Blend(c1.b, c2.b, factor)))
    case _ => None
  }

  lemma ScaleBetween(d: real, factor: real)
    requires 0.0 <= d && 0.0 <= factor <= 1.0
    ensures 0.0 <= d * factor <= d
  {
    assert d * factor <= d * 1.0;
  }

  lemma TruncBetween(x: real, lo: int, hi: int)
    requires 0 <= lo && lo as real <= x <= hi as real
    ensures lo <= Numbers.Trunc(x) <= hi
  {
  }

  /** A rising channel: the blended value lies between the start and the end. */
  lemma ScaleUp(c1: int, c2: int, factor: real)
    requires c1 <= c2 && 0.0 <= factor <= 1.0
    ensures c1 as real <= c1 as real + (c2 - c1) as real * factor <= c2 as real
  {
    var d := (c2 - c1) as real;
    ScaleBetween(d, factor);
  }

  /** A falling channel: the blended value lies between the end and the start. */
  lemma ScaleDown(c1: int, c2: int, factor: real)
    requires c2 < c1 && 0.0 <= factor <= 1.0
    ensures c2 as real <= c1 as real + (c2 - c1) as real * factor <= c1 as real
  {
    var e := (c1 - c2) as real;
    ScaleBetween(e, factor);
    NegMul(e, factor);
    assert (c2 - c1) as real == -e;
  }

  lemma NegMul(e: real, factor: real)
    ensures (-e) * factor == -(e * factor)
  {
  }

  /** For a factor in [0, 1] a blended channel lies between the two input channels. */
  lemma BlendBetween(c1: int, c2: int, factor: real)
    requires 0 <= c1 && 0 <= c2 && 0.0 <= factor <= 1.0
    ensures Between(Blend(c1, c2, factor), c1, c2)
  {
    var v := c1 as real + (c2 - c1) as real * factor;
    assert Blend(c1, c2, factor) == Numbers.Trunc(v);
    if c1 <= c2 {
      ScaleUp(c1, c2, factor);
      TruncBetween(v, c1, c2);
    } else {
      ScaleDown(c1, c2, factor);
      TruncBetween(v, c2, c1);
    }
  }

  /** Factor 0 keeps the first channel and factor 1 gives the second. */
  lemma BlendEnds(c1: int, c2: int)
    ensures Blend(c1, c2, 0.0) == c1 && Blend(c1, c2, 1.0) == c2
  {
  }

  /** Factor 0 yields the start colour and factor 1 the end colour, each in canonical form. */
  lemma InterpolateEnds(startColor: string, endColor: string)
    requires HexToRgb(startColor).Some? && HexToRgb(endColor).Some?
    ensures var c1, c2 := HexToRgb(startColor).value, HexToRgb(endColor).value;
      InterpolateColor(startColor, endColor, 0.0) == Some(RgbToHex(c1.r, c1.g, c1.b))
      && InterpolateColor(startColor, endColor, 1.0) == Some(RgbToHex(c2.r, c2.g, c2.b))
  {
    var c1, c2 := HexToRgb(startColor).value, HexToRgb(endColor).value;
    BlendEnds(c1.r, c2.r);
    BlendEnds(c1.g, c2.g);
    BlendEnds(c1.b, c2.b);
  }

  /** For canonical colours the ends are the colours themselves. */
  lemma InterpolateCanonicalEnds(startColor: string, endColor: string)
    requires IsCanonicalHex(startColor) && IsCanonicalHex(endColor)
    ensures InterpolateColor(startColor, endColor, 0.0) == Some(startColor)
    ensures InterpolateColor(startColor, endColor, 1.0) == Some(endColor)
  {
    HexRoundTrip(startColor);
    HexRoundTrip(endColor);
    InterpolateEnds(startColor, endColor);
  }

  /** For canonical colours and a factor in [0, 1] each decoded output channel lies between the inputs. */
  lemma {:induction false} InterpolateBetween(startColor: string, endColor: string, factor: real)
    requires IsCanonicalHex(startColor) && IsCanonicalHex(endColor) && 0.0 <= factor <= 1.0
    ensures InterpolateColor(startColor, endColor, factor).Some?
    ensures var c1, c2 := HexToRgb(startColor).value, HexToRgb(endColor).value;
      var out := HexToRgb(InterpolateColor(startColor, endColor, factor).value);
      out.Some? && Between(out.value.r, c1.r, c2.r) && Between(out.value.g, c1.g, c2.g)
      && Between(out.value.b, c1.b, c2.b)
  {
    HexRoundTrip(startColor);
    HexRoundTrip(endColor);
    BlendedChannels(HexToRgb(startColor).value, HexToRgb(endColor).value, factor);
  }

  /** Blending two byte colours gives a byte colour that decodes back, channel by channel between them. */
  lemma BlendedChannels(c1: Rgb, c2: Rgb, factor: real)
    requires IsByte(c1.r) && IsByte(c1.g) && IsByte(c1.b) && IsByte(c2.r) && IsByte(c2.g) && IsByte(c2.b)
    requires 0.0 <= factor <= 1.0
    ensures var r, g, b := Blend(c1.r, c2.r, factor), Blend(c1.g, c2.g, factor), Blend(c1.b, c2.b, factor);
      Between(r, c1.r, c2.r) && Between(g, c1.g, c2.g) && Between(b, c1.b, c2.b)
      && HexToRgb(RgbToHex(r, g, b)) == Some(Rgb(r, g, b))
  {
    BlendBetween(c1.r, c2.r, factor);
    BlendBetween(c1.g, c2.g, factor);
    BlendBetween(c1.b, c2.b, factor);
    RgbRoundTrip(Blend(c1.r, c2.r, factor), Blend(c1.g, c2.g, factor), Blend(c1.b, c2.b, factor));
  }
}
