/**
 * The colour code shown in a palette slot (`formatColor`): the hex code, the
 * rounded channels as `rgb(r,g,b)`, or the rounded HSL values as `hsl(h,s%,l%)`.
 */
module Formatting {
  import opened Colors

  /** The values `codeFormat` is switched on, and any other value the field may hold. */
  datatype CodeFormat = HexFormat | RgbFormat | HslFormat | OtherFormat

  const DecimalDigits: string := "0123456789"

  predicate IsDecimalDigit(ch: char) {
    '0' <= ch <= '9'
  }

  predicate AllDecimal(s: string) {
    forall i :: 0 <= i < |s| ==> IsDecimalDigit(s[i])
  }

  /** A non-negative integer as JavaScript prints it: decimal digits, no leading zero. */
  function NatToDecimal(n: nat): (s: string)
    ensures 1 <= |s| && AllDecimal(s)
    ensures s[0] == '0' <==> n == 0
    decreases n
  {
    if n < 10 then [DecimalDigits[n]] else NatToDecimal(n / 10) + [DecimalDigits[n % 10]]
  }

  /** The text of an integer: an optional minus sign and at least one digit. */
  predicate IsIntegerText(s: string) {
    1 <= |s| && (if s[0] == '-' then 2 <= |s| && AllDecimal(s[1..]) else AllDecimal(s))
  }

  /** An integer as a template literal prints it: a minus sign exactly before a negative one. */
  function IntToDecimal(n: int): (s: string)
    ensures IsIntegerText(s)
    ensures s[0] == '-' <==> n < 0
  {
    if n < 0 then
      var d := NatToDecimal(-n);
      assert ("-" + d)[1..] == d;
      "-" + d
    else NatToDecimal(n)
  }

  /** The value of a string of decimal digits. */
  function ParseDecimal(s: string): nat
    requires 1 <= |s| && AllDecimal(s)
    decreases |s|
  {
    var last := s[|s| - 1] as int - '0' as int;
    if |s| == 1 then last else 10 * ParseDecimal(s[..|s| - 1]) + last
  }

  /** The value of the text of an integer. */
  function ParseInteger(s: string): int
    requires IsIntegerText(s)
  {
    if s[0] == '-' then 0 - ParseDecimal(s[1..]) else ParseDecimal(s)
  }

  /** The template `rgb(${r},${g},${b})` filled with three printed fields. */
  function RgbCode(r: string, g: string, b: string): (code: string)
    ensures |code| == |r| + |g| + |b| + 7
    ensures code[..4] == "rgb(" && code[|code| - 1] == ')'
  {
    "rgb(" + (r + ([','] + (g + ([','] + (b + ")")))))
  }

  /** The template `hsl(${h},${s}%,${l}%)` filled with three printed fields. */
  function HslCode(h: string, s: string, l: string): (code: string)
    ensures |code| == |h| + |s| + |l| + 9
    ensures code[..4] == "hsl(" && code[|code| - 2..] == "%)"
  {
    "hsl(" + (h + ([','] + (s + (['%'] + ([','] + (l + "%)"))))))
  }

  /**
   * `formatColor`: the code of a colour in the active format: the hex code
   * for the hex format and for a format the switch does not know, otherwise
   * a functional notation `rgb(...)` or `hsl(...)` closed by a parenthesis.
   */
  function FormatColor(c: Color, rgb: Rgb, hex: string, format: CodeFormat): (code: string)
    ensures format == HexFormat || format == OtherFormat ==> code == hex
    ensures format == RgbFormat ==> 7 <= |code| && code[..4] == "rgb(" && code[|code| - 1] == ')'
    ensures format == HslFormat ==> 9 <= |code| && code[..4] == "hsl(" && code[|code| - 2..] == "%)"
  {
    match format
    case HexFormat => hex
    case RgbFormat => RgbCode(IntToDecimal(rgb.r), IntToDecimal(rgb.g), IntToDecimal(rgb.b))
    case HslFormat => HslCode(IntToDecimal(Round(c.h)), IntToDecimal(Round(c.s)), IntToDecimal(Round(c.l)))
    case OtherFormat => hex
  }

  /** Reading back a printed non-negative integer gives the integer. */
  lemma {:induction false} NatDecimalRoundTrip(n: nat)
    ensures ParseDecimal(NatToDecimal(n)) == n
    decreases n
  {
    if n >= 10 {
      NatDecimalRoundTrip(n / 10);
      var s := NatToDecimal(n);
      assert s[..|s| - 1] == NatToDecimal(n / 10);
    }
  }

  /** Every printed integer is the text of an integer and reads back as itself. */
  lemma IntDecimalRoundTrip(n: int)
    ensures IsIntegerText(IntToDecimal(n)) && ParseInteger(IntToDecimal(n)) == n
  {
    if n < 0 {
      var d := NatToDecimal(-n);
      NatDecimalRoundTrip(-n);
      assert IntToDecimal(n)[1..] == d;
    } else {
      NatDecimalRoundTrip(n);
    }
  }

  /** Two integers print the same exactly when they are equal. */
  lemma IntDecimalInjective(a: int, b: int)
    ensures IntToDecimal(a) == IntToDecimal(b) <==> a == b
  {
    IntDecimalRoundTrip(a);
    IntDecimalRoundTrip(b);
  }

  /** A printed integer holds only digits and a minus sign: no comma and no percent sign. */
  lemma DecimalHasNoSeparator(n: int)
    ensures ',' !in IntToDecimal(n) && '%' !in IntToDecimal(n)
  {
    var s := IntToDecimal(n);
    if n < 0 {
      assert forall i :: 1 <= i < |s| ==> s[i] == NatToDecimal(-n)[i - 1];
    }
  }

  /** Text after a common prefix is equal when the whole texts are. */
  lemma DropPrefix(prefix: string, x: string, y: string)
    requires prefix + x == prefix + y
    ensures x == y
  {
    assert x == (prefix + x)[|prefix|..];
    assert y == (prefix + y)[|prefix|..];
  }

  /** Text before a common suffix is equal when the whole texts are. */
  lemma DropSuffix(x: string, y: string, suffix: string)
    requires x + suffix == y + suffix
    ensures x == y
  {
    assert x == (x + suffix)[..|x|];
    assert y == (y + suffix)[..|y|];
  }

  /** Text split at the first occurrence of a separator that the first parts do not hold. */
  lemma SplitAtSeparator(x: string, y: string, x': string, y': string, sep: char)
    requires sep !in x && sep !in x'
    requires x + ([sep] + y) == x' + ([sep] + y')
    ensures x == x' && y == y'
  {
    var s := x + ([sep] + y);
    assert s[|x|] == sep;
    assert (x' + ([sep] + y'))[|x'|] == sep;
    if |x| < |x'| {
      assert false;
    } else if |x'| < |x| {
      assert false;
    }
    assert x == s[..|x|];
    assert x' == (x' + ([sep] + y'))[..|x'|];
    DropPrefix(x, [sep] + y, [sep] + y');
    DropPrefix([sep], y, y');
  }

  /** The three fields of an rgb code, none of which holds a comma, are read back from it. */
  lemma RgbTextFields(r: string, g: string, b: string, r': string, g': string, b': string)
    requires ',' !in r && ',' !in g && ',' !in r' && ',' !in g'
    requires RgbCode(r, g, b) == RgbCode(r', g', b')
    ensures r == r' && g == g' && b == b'
  {
    DropPrefix("rgb(", r + ([','] + (g + ([','] + (b + ")")))), r' + ([','] + (g' + ([','] + (b' + ")")))));
    SplitAtSeparator(r, g + ([','] + (b + ")")), r', g' + ([','] + (b' + ")")), ',');
    SplitAtSeparator(g, b + ")", g', b' + ")", ',');
    DropSuffix(b, b', ")");
  }

  /** The three fields of an hsl code, of which the first two hold no comma or percent sign, are read back from it. */
  lemma HslTextFields(h: string, s: string, l: string, h': string, s': string, l': string)
    requires ',' !in h && '%' !in s && ',' !in h' && '%' !in s'
    requires HslCode(h, s, l) == HslCode(h', s', l')
    ensures h == h' && s == s' && l == l'
  {
    var rest := s + (['%'] + ([','] + (l + "%)")));
    var rest' := s' + (['%'] + ([','] + (l' + "%)")));
    DropPrefix("hsl(", h + ([','] + rest), h' + ([','] + rest'));
    SplitAtSeparator(h, rest, h', rest', ',');
    SplitAtSeparator(s, [','] + (l + "%)"), s', [','] + (l' + "%)"), '%');
    DropPrefix([','], l + "%)", l' + "%)");
    DropSuffix(l, l', "%)");
  }

  /** Two rgb codes are the same text exactly when they show the same three channels. */
  lemma RgbCodeDeterminesChannels(c: Color, rgb: Rgb, hex: string, c': Color, rgb': Rgb, hex': string)
    ensures FormatColor(c, rgb, hex, RgbFormat) == FormatColor(c', rgb', hex', RgbFormat) <==> rgb == rgb'
  {
    if FormatColor(c, rgb, hex, RgbFormat) == FormatColor(c', rgb', hex', RgbFormat) {
      DecimalHasNoSeparator(rgb.r);
      DecimalHasNoSeparator(rgb.g);
      DecimalHasNoSeparator(rgb'.r);
      DecimalHasNoSeparator(rgb'.g);
      RgbTextFields(IntToDecimal(rgb.r), IntToDecimal(rgb.g), IntToDecimal(rgb.b),
                    IntToDecimal(rgb'.r), IntToDecimal(rgb'.g), IntToDecimal(rgb'.b));
      IntDecimalInjective(rgb.r, rgb'.r);
      IntDecimalInjective(rgb.g, rgb'.g);
      IntDecimalInjective(rgb.b, rgb'.b);
    }
  }

  /** Two hsl codes are the same text exactly when they show the same rounded hue, saturation and lightness. */
  lemma HslCodeDeterminesRounding(c: Color, rgb: Rgb, hex: string, c': Color, rgb': Rgb, hex': string)
    ensures FormatColor(c, rgb, hex, HslFormat) == FormatColor(c', rgb', hex', HslFormat) <==>
            Round(c.h) == Round(c'.h) && Round(c.s) == Round(c'.s) && Round(c.l) == Round(c'.l)
  {
    if FormatColor(c, rgb, hex, HslFormat) == FormatColor(c', rgb', hex', HslFormat) {
      DecimalHasNoSeparator(Round(c.h));
      DecimalHasNoSeparator(Round(c.s));
      DecimalHasNoSeparator(Round(c'.h));
      DecimalHasNoSeparator(Round(c'.s));
      HslTextFields(IntToDecimal(Round(c.h)), IntToDecimal(Round(c.s)), IntToDecimal(Round(c.l)),
                    IntToDecimal(Round(c'.h)), IntToDecimal(Round(c'.s)), IntToDecimal(Round(c'.l)));
      IntDecimalInjective(Round(c.h), Round(c'.h));
      IntDecimalInjective(Round(c.s), Round(c'.s));
      IntDecimalInjective(Round(c.l), Round(c'.l));
    }
  }
}
