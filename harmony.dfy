/**
 * The harmony engine: from a base colour and a mode, the five colours of a
 * palette, built from hue rotations and lighter or darker variants.
 */
module Harmony {
  import opened Colors

  /** The modes the `colorMode` switch knows, and any other value the field may hold. */
  datatype Mode = Complementary | Analogous | Triadic | Tetradic | Monochromatic | Unrecognised

  /** The `amount` that getLightVariant and getDarkVariant use when none is given. */
  const DefaultAmount: real := 0.15

  /** The whole turns of 360 degrees in a non-negative angle. */
  function Turns(x: real): (k: int)
    requires 0.0 <= x
    ensures 0 <= k
    ensures 360.0 * k as real <= x < 360.0 * (k + 1) as real
    decreases x.Floor
  {
    if x < 360.0 then 0 else 1 + Turns(x - 360.0)
  }

  /** `trunc(x / 360)`, the quotient behind JavaScript's `%`. */
  function Quotient360(x: real): int {
    if x >= 0.0 then Turns(x) else -Turns(-x)
  }

  /** JavaScript's `x % 360`: the remainder of truncating division, with the sign of x. */
  function Rem360(x: real): (r: real)
    ensures 0.0 <= x ==> 0.0 <= r < 360.0
    ensures x < 0.0 ==> -360.0 < r <= 0.0
  {
    x - 360.0 * Quotient360(x) as real
  }

  /**
   * For a non-negative angle, `% 360` gives the one angle in [0, 360) that
   * differs from it by a whole number of turns.
   */
  lemma Rem360Unique(x: real, r: real, k: int)
    requires 0.0 <= x && 0.0 <= r < 360.0 && r == x + 360.0 * k as real
    ensures Rem360(x) == r
  {
    var t := Turns(x);
    assert Rem360(x) == x - 360.0 * t as real;
    assert -360.0 < 360.0 * (k + t) as real < 360.0;
    assert k + t == 0;
  }

  /** `rotate`: turns the hue by `degrees`, keeping saturation and lightness. */
  function Rotate(c: Color, degrees: real): (r: Color)
    ensures r.s == c.s && r.l == c.l
    ensures 0.0 <= c.h + degrees + 360.0 ==> 0.0 <= r.h < 360.0
  {
    Color(Rem360(c.h + degrees + 360.0), c.s, c.l)
  }

  /** `getComplementary`: the opposite hue, saturation and lightness kept. */
  function Complement(c: Color): (r: Color)
    ensures r.s == c.s && r.l == c.l
    ensures -180.0 <= c.h ==> 0.0 <= r.h < 360.0
  {
    Color(Rem360(c.h + 180.0), c.s, c.l)
  }

  /** `getLightVariant`: lightness raised by `amount` of the way to 100, capped at 95. */
  function LightVariant(c: Color, amount: real): (r: Color)
    ensures r.h == c.h && r.s == c.s
    ensures r.l <= 95.0
  {
    Color(c.h, c.s, Min(c.l + (100.0 - c.l) * amount, 95.0))
  }

  /** `getDarkVariant`: lightness lowered by `amount` of itself, floored at 10. */
  function DarkVariant(c: Color, amount: real): (r: Color)
    ensures r.h == c.h && r.s == c.s
    ensures 10.0 <= r.l
  {
    Color(c.h, c.s, Max(c.l - c.l * amount, 10.0))
  }

  /**
   * Rotating a hue of [0, 360) twice, by a and then by b, is rotating it once by a + b
   * (as long as no intermediate sum drops below zero).
   */
  lemma RotateComposes(c: Color, a: real, b: real)
    requires 0.0 <= c.h < 360.0
    requires -360.0 <= a && -360.0 <= b && -360.0 <= a + b
    ensures Rotate(Rotate(c, a), b) == Rotate(c, a + b)
  {
    var t1 := Turns(c.h + a + 360.0);
    var once := Rotate(c, a).h;
    var t2 := Turns(once + b + 360.0);
    Rem360Unique(c.h + a + b + 360.0, Rotate(Rotate(c, a), b).h, 1 - t1 - t2);
  }

  /** Rotating by a whole turn, or not at all, leaves a hue of [0, 360) where it is. */
  lemma RotateWholeTurn(c: Color, d: real)
    requires 0.0 <= c.h < 360.0 && (d == 0.0 || d == 360.0 || d == -360.0)
    ensures Rotate(c, d) == c
  {
    Rem360Unique(c.h + d + 360.0, c.h, if d == 0.0 then -1 else if d == 360.0 then -2 else 0);
  }

  /** For a hue of at least -180 degrees, the complement is the rotation by 180 degrees. */
  lemma ComplementIsHalfTurn(c: Color)
    requires -180.0 <= c.h
    ensures Complement(c) == Rotate(c, 180.0)
  {
    Rem360Unique(c.h + 540.0, Complement(c).h, -1 - Turns(c.h + 180.0));
  }

  /** The complement of the complement of a hue of [0, 360) is the hue itself. */
  lemma ComplementInvolutive(c: Color)
    requires 0.0 <= c.h < 360.0
    ensures Complement(Complement(c)) == c
  {
    var once := Complement(c).h;
    Rem360Unique(once + 180.0, c.h, Turns(c.h + 180.0) - 1);
  }

  /** For a fraction of the way to white, the light variant is no darker than the colour (up to the cap). */
  lemma LightVariantLifts(c: Color, amount: real)
    requires 0.0 <= amount <= 1.0 && 0.0 <= c.l <= 100.0
    ensures Min(c.l, 95.0) <= LightVariant(c, amount).l
  {
    ScaleWithin(100.0 - c.l, amount);
  }

  /** For a fraction of the way to black, the dark variant is no lighter than the colour (up to the floor). */
  lemma DarkVariantLowers(c: Color, amount: real)
    requires 0.0 <= amount <= 1.0 && 0.0 <= c.l
    ensures DarkVariant(c, amount).l <= Max(c.l, 10.0)
  {
    ScaleWithin(c.l, amount);
  }

  /** A larger amount gives a light variant at least as light. */
  lemma LightVariantMonotone(c: Color, a: real, b: real)
    requires 0.0 <= a <= b && c.l <= 100.0
    ensures LightVariant(c, a).l <= LightVariant(c, b).l
  {
    var w := 100.0 - c.l;
    assert w * b - w * a == w * (b - a);
    ProductNonNegative(w, b - a);
  }

  /** A larger amount gives a dark variant at least as dark. */
  lemma DarkVariantMonotone(c: Color, a: real, b: real)
    requires 0.0 <= a <= b && 0.0 <= c.l
    ensures DarkVariant(c, b).l <= DarkVariant(c, a).l
  {
    assert c.l * b - c.l * a == c.l * (b - a);
    ProductNonNegative(c.l, b - a);
  }

  /** The base colours `randomColor` draws: any hue, saturation 70..100, lightness 50..70. */
  predicate IsSampledBase(c: Color) {
    0.0 <= c.h < 360.0 && 70.0 <= c.s <= 100.0 && 50.0 <= c.l <= 70.0
  }

  /**
   * The palette the `colorMode` switch builds from the base colour: the base
   * first and four derived colours for a known mode, the base alone otherwise.
   */
  function Derive(base: Color, mode: Mode): (p: seq<Color>)
    ensures |p| == if mode == Unrecognised then 1 else 5
    ensures p[0] == base
  {
    match mode
    case Complementary =>
      [base, Complement(base), LightVariant(base, DefaultAmount), DarkVariant(base, DefaultAmount),
       Complement(LightVariant(base, DefaultAmount))]
    case Analogous =>
      [base, Rotate(base, 30.0), Rotate(base, -30.0), Rotate(base, 60.0), Rotate(base, -60.0)]
    case Triadic =>
      [base, Rotate(base, 120.0), Rotate(base, 240.0), LightVariant(base, DefaultAmount),
       DarkVariant(base, DefaultAmount)]
    case Tetradic =>
      [base, Rotate(base, 90.0), Rotate(base, 180.0), Rotate(base, 270.0), Complement(base)]
    case Monochromatic =>
      [base, LightVariant(base, 0.3), LightVariant(base, 0.6), DarkVariant(base, 0.3), DarkVariant(base, 0.6)]
    case Unrecognised =>
      [base]
  }

  /**
   * From a sampled base, every derived colour keeps the base's saturation,
   * has a hue in [0, 360) and a lightness in [10, 95], so it lies in the gamut.
   */
  lemma DerivedInRange(base: Color, mode: Mode)
    requires IsSampledBase(base)
    ensures forall c :: c in Derive(base, mode) ==>
              0.0 <= c.h < 360.0 && c.s == base.s && 10.0 <= c.l <= 95.0 && InGamut(c)
  {
    LightVariantLifts(base, DefaultAmount);
    LightVariantLifts(base, 0.3);
    LightVariantLifts(base, 0.6);
    DarkVariantLowers(base, DefaultAmount);
    DarkVariantLowers(base, 0.3);
    DarkVariantLowers(base, 0.6);
  }

  /**
   * Complementary mode: the second colour is opposite the base, the fifth has
   * the same hue as the second, and the third and fourth bracket the base's lightness.
   */
  lemma ComplementaryScheme(base: Color)
    requires 0.0 <= base.h < 360.0 && 10.0 <= base.l <= 95.0
    ensures var p := Derive(base, Complementary);
            Complement(p[1]) == base && p[4].h == p[1].h && p[4].l == p[2].l &&
            p[3].l <= base.l <= p[2].l
  {
    ComplementInvolutive(base);
    LightVariantLifts(base, DefaultAmount);
    DarkVariantLowers(base, DefaultAmount);
  }

  /**
   * Analogous mode: the four derived colours lie 30 and 60 degrees either side
   * of the base, in steps of 30 degrees, with its saturation and lightness.
   */
  lemma AnalogousScheme(base: Color)
    requires 0.0 <= base.h < 360.0
    ensures var p := Derive(base, Analogous);
            Rotate(p[1], -30.0) == base && Rotate(p[2], 30.0) == base &&
            Rotate(p[1], 30.0) == p[3] && Rotate(p[2], -30.0) == p[4]
  {
    RotateComposes(base, 30.0, -30.0);
    RotateComposes(base, -30.0, 30.0);
    RotateWholeTurn(base, 0.0);
    RotateComposes(base, 30.0, 30.0);
    RotateComposes(base, -30.0, -30.0);
  }

  /**
   * Triadic mode: the base and the next two colours are spaced evenly, 120
   * degrees apart, and the fourth and fifth bracket the base's lightness.
   */
  lemma TriadicScheme(base: Color)
    requires 0.0 <= base.h < 360.0 && 10.0 <= base.l <= 95.0
    ensures var p := Derive(base, Triadic);
            Rotate(p[1], 120.0) == p[2] && Rotate(p[2], 120.0) == base &&
            p[4].l <= base.l <= p[3].l
  {
    LightVariantLifts(base, DefaultAmount);
    DarkVariantLowers(base, DefaultAmount);
    RotateComposes(base, 120.0, 120.0);
    RotateComposes(base, 240.0, 120.0);
    RotateWholeTurn(base, 360.0);
  }

  /**
   * Tetradic mode: the base and the next three colours are spaced evenly, 90
   * degrees apart, and the fifth repeats the third (both are the opposite hue).
   */
  lemma TetradicScheme(base: Color)
    requires 0.0 <= base.h < 360.0
    ensures var p := Derive(base, Tetradic);
            Rotate(p[1], 90.0) == p[2] && Rotate(p[2], 90.0) == p[3] && Rotate(p[3], 90.0) == base &&
            p[4] == p[2]
  {
    RotateComposes(base, 90.0, 90.0);
    RotateComposes(base, 180.0, 90.0);
    RotateComposes(base, 270.0, 90.0);
    RotateWholeTurn(base, 360.0);
    ComplementIsHalfTurn(base);
  }

  /**
   * Monochromatic mode: every colour has the base's hue and saturation, and
   * their lightness runs from the darkest to the lightest as
   * fifth <= fourth <= base <= second <= third.
   */
  lemma MonochromaticScheme(base: Color)
    requires 10.0 <= base.l <= 95.0
    ensures var p := Derive(base, Monochromatic);
            (forall c :: c in p ==> c.h == base.h && c.s == base.s) &&
            p[4].l <= p[3].l <= base.l <= p[1].l <= p[2].l
  {
    LightVariantLifts(base, 0.3);
    LightVariantMonotone(base, 0.3, 0.6);
    DarkVariantLowers(base, 0.3);
    DarkVariantMonotone(base, 0.3, 0.6);
  }
}
