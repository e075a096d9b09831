/**
 * The colour model of the palette generator: a colour is stored as hue,
 * saturation and lightness (HSL); its 8-bit RGB channels are derived from it,
 * and a colour read back from a hex code is rebuilt from its RGB channels.
 *
 * JavaScript numbers are modelled as exact reals, and `Math.round` as
 * "nearest integer, halves upward".
 */
module Colors {

  /** A colour as the generator stores it: hue in degrees, saturation and lightness in percent. */
  datatype Color = Color(h: real, s: real, l: real)

  /** The three channels that the HSL-to-RGB conversion produces. */
  datatype Rgb = Rgb(r: int, g: int, b: int)

  /** The range every colour of a palette stays in. */
  predicate InGamut(c: Color) {
    0.0 <= c.h <= 360.0 && 0.0 <= c.s <= 100.0 && 0.0 <= c.l <= 100.0
  }

  predicate IsChannel(x: int) {
    0 <= x <= 255
  }

  predicate IsByteRgb(c: Rgb) {
    IsChannel(c.r) && IsChannel(c.g) && IsChannel(c.b)
  }

  function Max(a: real, b: real): real {
    if a < b then b else a
  }

  function Min(a: real, b: real): real {
    if a < b then a else b
  }

  /** `Math.round`: the integer nearest to x, a half rounding upward. */
  function Round(x: real): (n: int)
    ensures n as real - 0.5 <= x < n as real + 0.5
  {
    (x + 0.5).Floor
  }

  /** The product of two non-negative numbers is non-negative. */
  lemma ProductNonNegative(x: real, y: real)
    requires 0.0 <= x && 0.0 <= y
    ensures 0.0 <= x * y
  {
  }

  /** The product of two positive numbers is positive. */
  lemma ProductPositive(x: real, y: real)
    requires 0.0 < x && 0.0 < y
    ensures 0.0 < x * y
  {
  }

  /** 0 <= a * f <= a when a is non-negative and f is a fraction. */
  lemma ScaleWithin(a: real, f: real)
    requires 0.0 <= a && 0.0 <= f <= 1.0
    ensures 0.0 <= a * f
    ensures a * f <= a
  {
    assert a * (1.0 - f) >= 0.0;
  }

  /** JavaScript's `if (t < 0) t += 1; if (t > 1) t -= 1;` in hue2rgb. */
  function WrapOffset(t0: real): real {
    var t1 := if t0 < 0.0 then t0 + 1.0 else t0;
    if t1 > 1.0 then t1 - 1.0 else t1
  }

  /** The rising sixth of `hue2rgb`: from p at t = 0 up to q at t = 1/6. */
  function Rising(p: real, q: real, t: real): real {
    p + (q - p) * 6.0 * t
  }

  /** The falling sixth of `hue2rgb`: from q at t = 1/2 down to p at t = 2/3. */
  function Falling(p: real, q: real, t: real): real {
    p + (q - p) * (2.0 / 3.0 - t) * 6.0
  }

  /**
   * The helper `hue2rgb` of hslToRgb: one channel, as a fraction, from the
   * hue offset t0. With no spread between the levels the channel is the level.
   */
  function Hue2Rgb(p: real, q: real, t0: real): (v: real)
    ensures p == q ==> v == p
  {
    var t := WrapOffset(t0);
    if t < 1.0 / 6.0 then Rising(p, q, t)
    else if t < 1.0 / 2.0 then q
    else if t < 2.0 / 3.0 then Falling(p, q, t)
    else p
  }

  /** On the rising sixth of the hue circle the channel climbs from p towards q. */
  lemma RisingBetween(p: real, q: real, t: real)
    requires p <= q && 0.0 <= t < 1.0 / 6.0
    ensures p <= Rising(p, q, t)
    ensures Rising(p, q, t) <= q
  {
    ScaleWithin(q - p, 6.0 * t);
    assert (q - p) * 6.0 * t == (q - p) * (6.0 * t);
  }

  /** Between a half and two thirds of a turn the channel falls from q towards p. */
  lemma FallingBetween(p: real, q: real, t: real)
    requires p <= q && 1.0 / 2.0 <= t < 2.0 / 3.0
    ensures p <= Falling(p, q, t)
    ensures Falling(p, q, t) <= q
  {
    ScaleWithin(q - p, (2.0 / 3.0 - t) * 6.0);
    assert (q - p) * (2.0 / 3.0 - t) * 6.0 == (q - p) * ((2.0 / 3.0 - t) * 6.0);
  }

  /** For an offset within one turn either side, a channel stays between p and q. */
  lemma Hue2RgbBetween(p: real, q: real, t0: real)
    requires p <= q && -1.0 <= t0 <= 2.0
    ensures p <= Hue2Rgb(p, q, t0)
    ensures Hue2Rgb(p, q, t0) <= q
  {
    var t := WrapOffset(t0);
    assert 0.0 <= t <= 1.0;
    if t < 1.0 / 6.0 {
      RisingBetween(p, q, t);
    } else if 1.0 / 2.0 <= t < 2.0 / 3.0 {
      FallingBetween(p, q, t);
    }
  }

  /** A fraction in [0, 1] scaled to 0..255 and rounded is a channel. */
  lemma RoundedChannel(v: real)
    requires 0.0 <= v <= 1.0
    ensures IsChannel(Round(v * 255.0))
  {
  }

  /** The intermediate value q of hslToRgb. */
  function UpperLevel(l: real, s: real): real {
    if l < 0.5 then l * (1.0 + s) else l + s - l * s
  }

  /** Below half lightness, q = l(1 + s) lies between l and 2l. */
  lemma DimLevels(l: real, s: real)
    requires 0.0 <= l < 0.5 && 0.0 <= s <= 1.0
    ensures l <= l * (1.0 + s)
    ensures l * (1.0 + s) <= 2.0 * l
  {
    ScaleWithin(l, s);
    assert l * (1.0 + s) == l + l * s;
  }

  /** From half lightness up, q = l + s - ls lies between l and 1. */
  lemma BrightLevels(l: real, s: real)
    requires 0.5 <= l <= 1.0 && 0.0 <= s <= 1.0
    ensures l <= l + s - l * s
    ensures l + s - l * s <= 1.0
  {
    var a := 1.0 - l;
    ScaleWithin(a, s);
    calc {
      l + s - l * s;
      == l + a * s;
      <= l + a;
      == 1.0;
    }
  }

  /** For fractions l and s, 0 <= p = 2l - q <= q <= 1. */
  lemma LevelsWithin(l: real, s: real)
    requires 0.0 <= l <= 1.0 && 0.0 <= s <= 1.0
    ensures 0.0 <= 2.0 * l - UpperLevel(l, s)
    ensures 2.0 * l - UpperLevel(l, s) <= UpperLevel(l, s)
    ensures UpperLevel(l, s) <= 1.0
  {
    if l < 0.5 {
      DimLevels(l, s);
    } else {
      BrightLevels(l, s);
    }
  }

  /** The three channels of a chromatic colour, from the levels p and q and the hue fraction h. */
  function ChromaticRgb(p: real, q: real, h: real): Rgb {
    Rgb(Round(Hue2Rgb(p, q, h + 1.0 / 3.0) * 255.0),
        Round(Hue2Rgb(p, q, h) * 255.0),
        Round(Hue2Rgb(p, q, h - 1.0 / 3.0) * 255.0))
  }

  lemma ChromaticRgbChannels(p: real, q: real, h: real)
    requires 0.0 <= p <= q <= 1.0 && 0.0 <= h <= 1.0
    ensures IsByteRgb(ChromaticRgb(p, q, h))
  {
    Hue2RgbBetween(p, q, h + 1.0 / 3.0);
    Hue2RgbBetween(p, q, h);
    Hue2RgbBetween(p, q, h - 1.0 / 3.0);
    RoundedChannel(Hue2Rgb(p, q, h + 1.0 / 3.0));
    RoundedChannel(Hue2Rgb(p, q, h));
    RoundedChannel(Hue2Rgb(p, q, h - 1.0 / 3.0));
  }

  /** The grey of lightness fraction l: all three channels are the rounded lightness. */
  function GreyRgb(l: real): Rgb {
    var v := Round(l * 255.0);
    Rgb(v, v, v)
  }

  /** `hslToRgb`: the standard HSL-to-RGB conversion, each channel rounded; an unsaturated colour is a grey. */
  function HslToRgb(c: Color): (rgb: Rgb)
    ensures c.s == 0.0 ==> rgb.r == rgb.g && rgb.g == rgb.b
  {
    var h := c.h / 360.0;
    var s := c.s / 100.0;
    var l := c.l / 100.0;
    if s == 0.0 then GreyRgb(l)
    else
      var q := UpperLevel(l, s);
      ChromaticRgb(2.0 * l - q, q, h)
  }

  /**
   * Every colour in the gamut converts to channels in 0..255, and a colour
   * without saturation converts to a grey whose three channels are its rounded lightness.
   */
  lemma HslToRgbChannels(c: Color)
    requires InGamut(c)
    ensures IsByteRgb(HslToRgb(c))
    ensures c.s == 0.0 ==> var rgb := HslToRgb(c); rgb.r == rgb.g == rgb.b == Round(c.l / 100.0 * 255.0)
  {
    var s := c.s / 100.0;
    var l := c.l / 100.0;
    if s == 0.0 {
      RoundedChannel(l);
      assert HslToRgb(c) == GreyRgb(l);
    } else {
      var q := UpperLevel(l, s);
      LevelsWithin(l, s);
      ChromaticRgbChannels(2.0 * l - q, q, c.h / 360.0);
      assert HslToRgb(c) == ChromaticRgb(2.0 * l - q, q, c.h / 360.0);
    }
  }

  /** x / y lies in [0, 1] when 0 <= x <= y. */
  lemma FractionWithin(x: real, y: real)
    requires 0.0 <= x <= y && 0.0 < y
    ensures 0.0 <= x / y <= 1.0
  {
    assert x / y * y == x;
  }

  /** x / y lies in [-1, 1] when |x| <= y. */
  lemma SignedFractionWithin(x: real, y: real)
    requires -y <= x <= y && 0.0 < y
    ensures -1.0 <= x / y <= 1.0
  {
    if x >= 0.0 {
      FractionWithin(x, y);
    } else {
      FractionWithin(-x, y);
      assert -x / y == -(x / y);
    }
  }

  /**
   * The hue, as a fraction of a turn, that hexToHsl derives from the three
   * channel fractions and their spread d = max - min.
   */
  function HueFraction(r: real, g: real, b: real, mx: real, d: real): real
    requires d != 0.0
  {
    if mx == r then ((g - b) / d + (if g < b then 6.0 else 0.0)) / 6.0
    else if mx == g then ((b - r) / d + 2.0) / 6.0
    else ((r - g) / d + 4.0) / 6.0
  }

  /** The saturation, as a fraction, that hexToHsl derives for a chromatic colour. */
  function SaturationFraction(mx: real, mn: real): real
    requires 0.0 <= mn < mx <= 1.0
  {
    var l := (mx + mn) / 2.0;
    if l > 0.5 then (mx - mn) / (2.0 - mx - mn) else (mx - mn) / (mx + mn)
  }

  /** The largest of three values, as `Math.max(r, g, b)`. */
  function Max3(r: real, g: real, b: real): real {
    Max(Max(r, g), b)
  }

  /** The smallest of three values, as `Math.min(r, g, b)`. */
  function Min3(r: real, g: real, b: real): real {
    Min(Min(r, g), b)
  }

  /** The hue fraction of hexToHsl, 0 for a grey. */
  function HueOf(r: real, g: real, b: real): real {
    var mx := Max3(r, g, b);
    var mn := Min3(r, g, b);
    if mx == mn then 0.0 else HueFraction(r, g, b, mx, mx - mn)
  }

  /** The saturation fraction of hexToHsl, 0 for a grey. */
  function SaturationOf(r: real, g: real, b: real): real
    requires 0.0 <= r <= 1.0 && 0.0 <= g <= 1.0 && 0.0 <= b <= 1.0
  {
    var mx := Max3(r, g, b);
    var mn := Min3(r, g, b);
    if mx == mn then 0.0 else SaturationFraction(mx, mn)
  }

  /** The lightness fraction of hexToHsl: the mean of the largest and the smallest channel. */
  function LightnessOf(r: real, g: real, b: real): real {
    (Max3(r, g, b) + Min3(r, g, b)) / 2.0
  }

  /** The last step of hexToHsl: hue in degrees, saturation and lightness in percent, each rounded. */
  function RoundedColor(hf: real, sf: real, lf: real): Color {
    Color(Round(hf * 360.0) as real, Round(sf * 100.0) as real, Round(lf * 100.0) as real)
  }

  /**
   * The HSL reconstruction of `hexToHsl`, from the three parsed channels:
   * hue, saturation and lightness each rounded to a whole number.
   */
  function RgbToHsl(rgb: Rgb): (c: Color)
    requires IsByteRgb(rgb)
    ensures c.h == c.h.Floor as real && c.s == c.s.Floor as real && c.l == c.l.Floor as real
  {
    var r := rgb.r as real / 255.0;
    var g := rgb.g as real / 255.0;
    var b := rgb.b as real / 255.0;
    RoundedColor(HueOf(r, g, b), SaturationOf(r, g, b), LightnessOf(r, g, b))
  }

  /** A quotient by a positive number is negative exactly when the dividend is. */
  lemma QuotientSign(x: real, y: real)
    requires 0.0 < y
    ensures x < 0.0 <==> x / y < 0.0
  {
    var f := x / y;
    assert f * y == x;
    if 0.0 <= f {
      ProductNonNegative(f, y);
    } else {
      ProductPositive(-f, y);
    }
  }

  /** The hue fraction of hexToHsl lies in [0, 1]. */
  lemma HueFractionWithin(r: real, g: real, b: real)
    requires 0.0 <= r <= 1.0 && 0.0 <= g <= 1.0 && 0.0 <= b <= 1.0
    requires Max3(r, g, b) != Min3(r, g, b)
    ensures var mx := Max3(r, g, b);
            0.0 <= HueFraction(r, g, b, mx, mx - Min3(r, g, b)) <= 1.0
  {
    var mx := Max3(r, g, b);
    var d := mx - Min3(r, g, b);
    if mx == r {
      SignedFractionWithin(g - b, d);
      QuotientSign(g - b, d);
    } else if mx == g {
      SignedFractionWithin(b - r, d);
    } else {
      SignedFractionWithin(r - g, d);
    }
  }

  /** The saturation fraction of hexToHsl lies in [0, 1]. */
  lemma SaturationFractionWithin(mx: real, mn: real)
    requires 0.0 <= mn < mx <= 1.0
    ensures 0.0 <= SaturationFraction(mx, mn) <= 1.0
  {
    if (mx + mn) / 2.0 > 0.5 {
      FractionWithin(mx - mn, 2.0 - mx - mn);
    } else {
      FractionWithin(mx - mn, mx + mn);
    }
  }

  /** A fraction in [0, 1] scaled by k >= 0 and rounded lies in 0..k. */
  lemma RoundedScale(v: real, k: int)
    requires 0.0 <= v <= 1.0 && 0 <= k
    ensures 0 <= Round(v * k as real) <= k
  {
    ScaleWithin(k as real, v);
    assert v * k as real == k as real * v;
  }

  /** The hue and saturation fractions of hexToHsl lie in [0, 1] and vanish for a grey. */
  lemma FractionsOfChannels(r: real, g: real, b: real)
    requires 0.0 <= r <= 1.0 && 0.0 <= g <= 1.0 && 0.0 <= b <= 1.0
    ensures 0.0 <= HueOf(r, g, b) <= 1.0
    ensures 0.0 <= SaturationOf(r, g, b) <= 1.0
    ensures r == g == b ==> HueOf(r, g, b) == 0.0 && SaturationOf(r, g, b) == 0.0
  {
    var mx := Max3(r, g, b);
    var mn := Min3(r, g, b);
    if mx != mn {
      HueFractionWithin(r, g, b);
      SaturationFractionWithin(mx, mn);
    }
  }

  /** A parsed channel divided by 255 is a fraction in [0, 1]. */
  lemma ChannelFraction(x: int)
    requires IsChannel(x)
    ensures 0.0 <= x as real / 255.0 <= 1.0
  {
    FractionWithin(x as real, 255.0);
  }

  /** The lightness fraction of hexToHsl lies in [0, 1]. */
  lemma LightnessWithin(r: real, g: real, b: real)
    requires 0.0 <= r <= 1.0 && 0.0 <= g <= 1.0 && 0.0 <= b <= 1.0
    ensures 0.0 <= LightnessOf(r, g, b) <= 1.0
  {
  }

  /** Hue, saturation and lightness fractions in [0, 1], scaled and rounded as hexToHsl does, lie inside the gamut. */
  lemma RoundedColorInGamut(hf: real, sf: real, lf: real)
    requires 0.0 <= hf <= 1.0 && 0.0 <= sf <= 1.0 && 0.0 <= lf <= 1.0
    ensures InGamut(RoundedColor(hf, sf, lf))
  {
    RoundedScale(hf, 360);
    RoundedScale(sf, 100);
    RoundedScale(lf, 100);
  }

  /** Reading a colour back from its channels gives hue, saturation and lightness inside the gamut. */
  lemma RgbToHslInGamut(rgb: Rgb)
    requires IsByteRgb(rgb)
    ensures InGamut(RgbToHsl(rgb))
  {
    var r := rgb.r as real / 255.0;
    var g := rgb.g as real / 255.0;
    var b := rgb.b as real / 255.0;
    ChannelFraction(rgb.r);
    ChannelFraction(rgb.g);
    ChannelFraction(rgb.b);
    FractionsOfChannels(r, g, b);
    LightnessWithin(r, g, b);
    RoundedColorInGamut(HueOf(r, g, b), SaturationOf(r, g, b), LightnessOf(r, g, b));
  }

  /** A grey (three equal channels) is read back with hue 0 and saturation 0. */
  lemma RgbToHslGrey(rgb: Rgb)
    requires IsByteRgb(rgb) && rgb.r == rgb.g == rgb.b
    ensures RgbToHsl(rgb).h == 0.0 && RgbToHsl(rgb).s == 0.0
  {
    var r := rgb.r as real / 255.0;
    FractionsOfChannels(r, r, r);
  }
}
