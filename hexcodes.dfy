/**
 * The hex colour codes of the palette generator. `hslToHex` prints each RGB
 * channel with `toString(16)`, pads it to two digits, joins the three and
 * upper-cases the result behind a `#`; `hexToHsl` reads the channels back
 * with `parseInt(..., 16)` from the fixed positions 1-2, 3-4 and 5-6.
 */
module HexCodes {
  import opened Colors

  const LowerDigits: string := "0123456789abcdef"
  const UpperDigits: string := "0123456789ABCDEF"

  predicate IsHexDigit(ch: char) {
    '0' <= ch <= '9' || 'a' <= ch <= 'f' || 'A' <= ch <= 'F'
  }

  predicate AllHexDigits(s: string) {
    forall i :: 0 <= i < |s| ==> IsHexDigit(s[i])
  }

  /** The digit that `toString(16)` prints for a value below 16. */
  function LowerDigit(d: int): char
    requires 0 <= d < 16
  {
    LowerDigits[d]
  }

  /**
   * `n.toString(16)` for a non-negative integer: lower-case hex digits with
   * no leading zero; one digit exactly below 16, at most two below 256.
   */
  function ToHex(n: nat): (s: string)
    ensures 1 <= |s|
    ensures n < 16 <==> |s| == 1
    ensures n < 256 ==> |s| <= 2
    ensures s[0] == '0' <==> n == 0
    ensures AllHexDigits(s)
    decreases n
  {
    if n < 16 then [LowerDigit(n)] else ToHex(n / 16) + [LowerDigit(n % 16)]
  }

  /**
   * `hex.length === 1 ? '0' + hex : hex`: one or two digits become two, the
   * last digit kept in place and a single digit preceded by a zero.
   */
  function PadHex(s: string): (r: string)
    ensures 1 <= |s| <= 2 ==> |r| == 2 && r[1] == s[|s| - 1]
    ensures |s| == 1 ==> r[0] == '0'
    ensures |s| != 1 ==> r == s
    ensures AllHexDigits(s) ==> AllHexDigits(r)
  {
    if |s| == 1 then "0" + s else s
  }

  /** `toUpperCase` on one character, for the ASCII letters that hex digits use. */
  function UpperChar(ch: char): char {
    if 'a' <= ch <= 'z' then (ch as int - 32) as char else ch
  }

  /** `toUpperCase` on a string of ASCII characters: the same length, and hex digits stay hex digits. */
  function ToUpper(s: string): (r: string)
    ensures |r| == |s|
    ensures AllHexDigits(s) ==> AllHexDigits(r)
  {
    seq(|s|, i requires 0 <= i < |s| => UpperChar(s[i]))
  }

  /** The value of one hex digit, in either case. */
  function DigitValue(ch: char): (v: int)
    requires IsHexDigit(ch)
    ensures 0 <= v < 16
  {
    if '0' <= ch <= '9' then ch as int - '0' as int
    else if 'a' <= ch <= 'f' then ch as int - 'a' as int + 10
    else ch as int - 'A' as int + 10
  }

  /** `parseInt(s, 16)` on a non-empty string made only of hex digits. */
  function ParseHex(s: string): (n: nat)
    requires 1 <= |s| && AllHexDigits(s)
    ensures |s| == 1 ==> n < 16
    ensures |s| == 2 ==> n < 256
    decreases |s|
  {
    if |s| == 1 then DigitValue(s[0])
    else 16 * ParseHex(s[..|s| - 1]) + DigitValue(s[|s| - 1])
  }

  /** The two characters `hslToHex` emits for one channel, before upper-casing. */
  function ChannelHex(x: nat): (r: string)
    ensures x < 256 ==> |r| == 2 && AllHexDigits(r)
  {
    PadHex(ToHex(x))
  }

  /** The code of three channels: `#` and two upper-case hex digits per channel. */
  function RgbToHex(c: Rgb): (hex: string)
    requires IsByteRgb(c)
    ensures |hex| == 7 && hex[0] == '#' && IsHexCode(hex)
  {
    var digits := ChannelHex(c.r) + ChannelHex(c.g) + ChannelHex(c.b);
    assert AllHexDigits(digits);
    "#" + ToUpper(digits)
  }

  /** `hslToHex`: the hex code of a colour of the gamut. */
  function HslToHex(c: Color): (hex: string)
    requires InGamut(c)
    ensures |hex| == 7 && hex[0] == '#' && IsHexCode(hex)
  {
    HslToRgbChannels(c);
    RgbToHex(HslToRgb(c))
  }

  /** What `hexToHsl` reads: hex digits at positions 1 to 6 (position 0 is not looked at). */
  predicate IsHexCode(s: string) {
    |s| >= 7 && forall i :: 1 <= i < 7 ==> IsHexDigit(s[i])
  }

  /** The channel parsing of `hexToHsl`: `parseInt` of the slices [1,3), [3,5) and [5,7). */
  function HexToRgb(s: string): (c: Rgb)
    requires IsHexCode(s)
    ensures IsByteRgb(c)
  {
    Rgb(ParseHex(s[1..3]), ParseHex(s[3..5]), ParseHex(s[5..7]))
  }

  /** `hexToHsl`: the colour read back from a hex code lies in the gamut. */
  function HexToHsl(s: string): (c: Color)
    requires IsHexCode(s)
    ensures InGamut(c)
  {
    RgbToHslInGamut(HexToRgb(s));
    RgbToHsl(HexToRgb(s))
  }

  /** Two upper-case digits for a channel: the reference form of its code. */
  function CanonicalChannel(x: int): string
    requires IsChannel(x)
  {
    [UpperDigits[x / 16], UpperDigits[x % 16]]
  }

  /** Upper-casing a printed digit gives the upper-case digit of the same value. */
  lemma UpperOfLowerDigit(d: int)
    requires 0 <= d < 16
    ensures UpperChar(LowerDigit(d)) == UpperDigits[d]
  {
    if d < 10 {
      assert LowerDigits[d] == UpperDigits[d];
    } else {
      assert LowerDigits[d] as int - 32 == UpperDigits[d] as int;
    }
  }

  /** Every digit of either case reads back as its own value. */
  lemma DigitValues(d: int)
    requires 0 <= d < 16
    ensures IsHexDigit(LowerDigit(d)) && DigitValue(LowerDigit(d)) == d
    ensures IsHexDigit(UpperDigits[d]) && DigitValue(UpperDigits[d]) == d
  {
  }

  /** Upper-casing leaves no lower-case letter and changes no other character. */
  lemma ToUpperLetters(s: string)
    ensures forall i :: 0 <= i < |s| ==> !('a' <= ToUpper(s)[i] <= 'z')
    ensures forall i :: 0 <= i < |s| && !('a' <= s[i] <= 'z') ==> ToUpper(s)[i] == s[i]
  {
  }

  /** Upper-casing a concatenation upper-cases each part. */
  lemma ToUpperConcat(a: string, b: string)
    ensures ToUpper(a + b) == ToUpper(a) + ToUpper(b)
  {
  }

  /** A channel prints as its high and its low hex digit, the high one padded to a zero below 16. */
  lemma ChannelDigits(x: int)
    requires IsChannel(x)
    ensures ChannelHex(x) == [LowerDigit(x / 16), LowerDigit(x % 16)]
  {
    if x < 16 {
      assert ToHex(x) == [LowerDigit(x % 16)];
    } else {
      assert ToHex(x / 16) == [LowerDigit(x / 16)];
    }
  }

  /**
   * The code `hslToHex` emits for a channel is exactly its two upper-case
   * hex digits, the high nibble first.
   */
  lemma ChannelHexCanonical(x: int)
    requires IsChannel(x)
    ensures ToUpper(ChannelHex(x)) == CanonicalChannel(x)
  {
    var hi, lo := x / 16, x % 16;
    UpperOfLowerDigit(hi);
    UpperOfLowerDigit(lo);
    ChannelDigits(x);
    assert ToUpper([LowerDigit(hi), LowerDigit(lo)]) == [UpperChar(LowerDigit(hi)), UpperChar(LowerDigit(lo))];
  }

  /** `parseInt(_, 16)` reads a channel's two-digit code back as the channel. */
  lemma ParseCanonicalChannel(x: int)
    requires IsChannel(x)
    ensures AllHexDigits(CanonicalChannel(x)) && ParseHex(CanonicalChannel(x)) == x
  {
    DigitValues(x / 16);
    DigitValues(x % 16);
    assert CanonicalChannel(x)[..1] == [UpperDigits[x / 16]];
  }

  /** `parseInt(n.toString(16), 16) == n` for every non-negative integer. */
  lemma {:induction false} ParseToHex(n: nat)
    ensures ParseHex(ToHex(n)) == n
    decreases n
  {
    DigitValues(n % 16);
    if n >= 16 {
      ParseToHex(n / 16);
      assert ToHex(n)[..|ToHex(n)| - 1] == ToHex(n / 16);
    }
  }

  /** The hex code of three channels is `#` followed by their two-digit upper-case codes. */
  lemma RgbToHexCanonical(c: Rgb)
    requires IsByteRgb(c)
    ensures RgbToHex(c) == "#" + CanonicalChannel(c.r) + CanonicalChannel(c.g) + CanonicalChannel(c.b)
  {
    ToUpperConcat(ChannelHex(c.r) + ChannelHex(c.g), ChannelHex(c.b));
    ToUpperConcat(ChannelHex(c.r), ChannelHex(c.g));
    ChannelHexCanonical(c.r);
    ChannelHexCanonical(c.g);
    ChannelHexCanonical(c.b);
  }

  /**
   * The hex code of three channels has length 7, starts with `#`, and the
   * fixed slices that `hexToHsl` parses give the channels back.
   */
  lemma RgbHexRoundTrip(c: Rgb)
    requires IsByteRgb(c)
    ensures var hex := RgbToHex(c);
            |hex| == 7 && hex[0] == '#' && IsHexCode(hex) && HexToRgb(hex) == c
  {
    RgbToHexCanonical(c);
    ParseCanonicalChannel(c.r);
    ParseCanonicalChannel(c.g);
    ParseCanonicalChannel(c.b);
    var hex := RgbToHex(c);
    assert hex[1..3] == CanonicalChannel(c.r);
    assert hex[3..5] == CanonicalChannel(c.g);
    assert hex[5..7] == CanonicalChannel(c.b);
  }

  /** The code of every colour of the gamut is well formed and parses back to the colour's channels. */
  lemma HslHexRoundTrip(c: Color)
    requires InGamut(c)
    ensures var hex := HslToHex(c);
            |hex| == 7 && hex[0] == '#' && IsHexCode(hex) && HexToRgb(hex) == HslToRgb(c)
  {
    HslToRgbChannels(c);
    RgbHexRoundTrip(HslToRgb(c));
  }

  /** Two colours have the same code exactly when they convert to the same channels. */
  lemma HslHexSameCode(c: Color, d: Color)
    requires InGamut(c) && InGamut(d)
    ensures HslToHex(c) == HslToHex(d) <==> HslToRgb(c) == HslToRgb(d)
  {
    HslHexRoundTrip(c);
    HslHexRoundTrip(d);
  }
}
