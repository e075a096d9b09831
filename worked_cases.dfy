/**
 * Concrete colours worked through the model: the conversions, the harmony of
 * a base colour, the code formats, and a history entry that reloads as a
 * different colour.
 */
module WorkedCases {
  import opened Colors
  import opened HexCodes
  import opened Harmony
  import opened Formatting

  const SkyBlue: Color := Color(200.0, 80.0, 60.0)

  /** hsl(200, 80%, 60%) converts to the channels (71, 180, 235). */
  lemma SkyBlueChannels()
    ensures HslToRgb(SkyBlue) == Rgb(71, 180, 235)
  {
    assert UpperLevel(0.6, 0.8) == 0.92;
    var h := 200.0 / 360.0;
    assert Hue2Rgb(0.28, 0.92, h + 1.0 / 3.0) == 0.28;
    assert Hue2Rgb(0.28, 0.92, h) == 0.28 + 0.64 * (2.0 / 3.0 - h) * 6.0;
    assert Hue2Rgb(0.28, 0.92, h - 1.0 / 3.0) == 0.92;
    assert Round(0.28 * 255.0) == 71;
    assert Round((0.28 + 0.64 * (2.0 / 3.0 - h) * 6.0) * 255.0) == 180;
    assert Round(0.92 * 255.0) == 235;
  }

  /** Its hex code is #47B4EB. */
  lemma SkyBlueHex()
    ensures InGamut(SkyBlue)
    ensures HslToHex(SkyBlue) == "#47B4EB"
  {
    SkyBlueChannels();
    RgbToHexCanonical(Rgb(71, 180, 235));
    assert CanonicalChannel(71) == "47";
    assert CanonicalChannel(180) == "B4";
    assert CanonicalChannel(235) == "EB";
  }

  /** The numbers of the sky-blue codes print as their decimal digits. */
  lemma SkyBlueDecimals()
    ensures IntToDecimal(71) == "71" && IntToDecimal(180) == "180" && IntToDecimal(235) == "235"
    ensures IntToDecimal(200) == "200" && IntToDecimal(80) == "80" && IntToDecimal(60) == "60"
  {
    assert IntToDecimal(71) == "71";
    assert IntToDecimal(180) == "180";
    assert IntToDecimal(235) == "235";
    assert IntToDecimal(200) == "200";
    assert IntToDecimal(80) == "80";
    assert IntToDecimal(60) == "60";
  }

  /** The rgb template filled with 71, 180 and 235. */
  lemma SkyBlueRgbTemplate()
    ensures RgbCode("71", "180", "235") == "rgb(71,180,235)"
  {
  }

  /** The channels (71, 180, 235) print as rgb(71,180,235), whatever colour and hex code they come with. */
  lemma SkyBlueRgbText(c: Color, hex: string)
    ensures FormatColor(c, Rgb(71, 180, 235), hex, RgbFormat) == "rgb(71,180,235)"
  {
    SkyBlueDecimals();
    SkyBlueRgbTemplate();
  }

  /** Its rgb code is rgb(71,180,235). */
  lemma SkyBlueRgbCode()
    ensures FormatColor(SkyBlue, HslToRgb(SkyBlue), HslToHex(SkyBlue), RgbFormat) == "rgb(71,180,235)"
  {
    SkyBlueChannels();
    SkyBlueRgbText(SkyBlue, HslToHex(SkyBlue));
  }

  /** hsl(200, 80%, 60%) prints as hsl(200,80%,60%), whatever channels and hex code it comes with. */
  lemma SkyBlueHslText(rgb: Rgb, hex: string)
    ensures FormatColor(SkyBlue, rgb, hex, HslFormat) == "hsl(200,80%,60%)"
  {
    assert Round(200.0) == 200 && Round(80.0) == 80 && Round(60.0) == 60;
    SkyBlueDecimals();
    assert HslCode("200", "80", "60") == "hsl(200,80%,60%)";
  }

  /** Its hsl code is hsl(200,80%,60%). */
  lemma SkyBlueHslCode()
    ensures FormatColor(SkyBlue, HslToRgb(SkyBlue), HslToHex(SkyBlue), HslFormat) == "hsl(200,80%,60%)"
  {
    SkyBlueHslText(HslToRgb(SkyBlue), HslToHex(SkyBlue));
  }

  /** The complementary palette of hsl(200, 80%, 60%). */
  lemma SkyBlueComplementary()
    ensures Derive(SkyBlue, Complementary) ==
            [SkyBlue, Color(20.0, 80.0, 60.0), Color(200.0, 80.0, 66.0), Color(200.0, 80.0, 51.0), Color(20.0, 80.0, 66.0)]
  {
    Rem360Unique(380.0, 20.0, -1);
  }

  /** #FF0000 reads as hsl(0, 100%, 50%). */
  lemma RedReads()
    ensures IsHexCode("#FF0000")
    ensures HexToHsl("#FF0000") == Color(0.0, 100.0, 50.0)
  {
    assert IsHexCode("#FF0000");
    assert ParseHex("FF") == 255;
    assert ParseHex("00") == 0;
    assert HexToRgb("#FF0000") == Rgb(255, 0, 0);
    assert HueOf(1.0, 0.0, 0.0) == 0.0;
    assert SaturationOf(1.0, 0.0, 0.0) == 1.0;
  }

  /** hsl(0, 100%, 50%) converts to the channels (255, 0, 0). */
  lemma RedChannels()
    ensures HslToRgb(Color(0.0, 100.0, 50.0)) == Rgb(255, 0, 0)
  {
    assert UpperLevel(0.5, 1.0) == 1.0;
    assert Hue2Rgb(0.0, 1.0, 1.0 / 3.0) == 1.0;
    assert Hue2Rgb(0.0, 1.0, 0.0) == 0.0;
    assert Hue2Rgb(0.0, 1.0, -1.0 / 3.0) == 0.0;
    assert Round(1.0 * 255.0) == 255;
    assert Round(0.0 * 255.0) == 0;
  }

  /** The code of hsl(0, 100%, 50%) is #FF0000. */
  lemma RedHex()
    ensures HslToHex(Color(0.0, 100.0, 50.0)) == "#FF0000"
  {
    RedChannels();
    RgbToHexCanonical(Rgb(255, 0, 0));
    assert CanonicalChannel(255) == "FF";
    assert CanonicalChannel(0) == "00";
  }

  /** Pure red survives the trip through its code: #FF0000 reads as hsl(0, 100%, 50%), whose code is #FF0000. */
  lemma RedRoundTrip()
    ensures IsHexCode("#FF0000")
    ensures HslToHex(HexToHsl("#FF0000")) == "#FF0000"
  {
    RedReads();
    RedHex();
  }

  /**
   * `hexToHsl` rounds the lightness to a whole percent: #010000, a code the
   * generator itself never records, reads as hsl(0, 100%, 0%).
   */
  lemma DarkRedReadsAsBlack()
    ensures IsHexCode("#010000")
    ensures HexToHsl("#010000") == Color(0.0, 100.0, 0.0)
  {
    assert IsHexCode("#010000");
    assert ParseHex("01") == 1;
    assert ParseHex("00") == 0;
    assert HexToRgb("#010000") == Rgb(1, 0, 0);
    var r := 1.0 / 255.0;
    assert Max3(r, 0.0, 0.0) == r && Min3(r, 0.0, 0.0) == 0.0;
    assert HueOf(r, 0.0, 0.0) == 0.0;
    assert SaturationOf(r, 0.0, 0.0) == 1.0;
    assert Round(LightnessOf(r, 0.0, 0.0) * 100.0) == 0;
  }

  /** Every colour of lightness zero is black, #000000. */
  lemma BlackCode(c: Color)
    requires InGamut(c) && c.l == 0.0
    ensures HslToRgb(c) == Rgb(0, 0, 0)
    ensures HslToHex(c) == "#000000"
  {
    if c.s != 0.0 {
      assert UpperLevel(0.0, c.s / 100.0) == 0.0;
    }
    RgbToHexCanonical(Rgb(0, 0, 0));
    assert CanonicalChannel(0) == "00";
  }

  /** A base colour that `randomColor` can sample: hsl(0, 70%, 50%). */
  const SampledRed: Color := Color(0.0, 70.0, 50.0)

  /** Its complementary palette holds, in slot 2, the light variant hsl(0, 70%, 57.5%). */
  lemma SampledRedLightVariant()
    ensures IsSampledBase(SampledRed)
    ensures Derive(SampledRed, Complementary)[2] == Color(0.0, 70.0, 57.5)
  {
  }

  /** hsl(0, 70%, 57.5%) converts to the channels (222, 71, 71). */
  lemma LightRedChannels()
    ensures HslToRgb(Color(0.0, 70.0, 57.5)) == Rgb(222, 71, 71)
  {
    assert UpperLevel(0.575, 0.7) == 0.8725;
    assert Hue2Rgb(0.2775, 0.8725, 1.0 / 3.0) == 0.8725;
    assert Hue2Rgb(0.2775, 0.8725, 0.0) == 0.2775;
    assert Hue2Rgb(0.2775, 0.8725, -1.0 / 3.0) == 0.2775;
    assert Round(0.8725 * 255.0) == 222;
    assert Round(0.2775 * 255.0) == 71;
  }

  /** ... so the history records it as #DE4747. */
  lemma LightRedHex()
    ensures HslToHex(Color(0.0, 70.0, 57.5)) == "#DE4747"
  {
    LightRedChannels();
    RgbToHexCanonical(Rgb(222, 71, 71));
    assert CanonicalChannel(222) == "DE";
    assert CanonicalChannel(71) == "47";
  }

  /** #DE4747 reads back as hsl(0, 70%, 57%): its lightness 293/510 rounds to 57 percent. */
  lemma LightRedReads()
    ensures IsHexCode("#DE4747")
    ensures HexToHsl("#DE4747") == Color(0.0, 70.0, 57.0)
  {
    assert IsHexCode("#DE4747");
    assert ParseHex("DE") == 222;
    assert ParseHex("47") == 71;
    assert HexToRgb("#DE4747") == Rgb(222, 71, 71);
    var r, g := 222.0 / 255.0, 71.0 / 255.0;
    assert Max3(r, g, g) == r && Min3(r, g, g) == g;
    assert HueOf(r, g, g) == 0.0;
    assert SaturationOf(r, g, g) == 151.0 / 217.0;
    assert Round(151.0 / 217.0 * 100.0) == 70;
    assert LightnessOf(r, g, g) == 293.0 / 510.0;
    assert Round(293.0 / 510.0 * 100.0) == 57;
  }

  /** hsl(0, 70%, 57%) converts to the channels (222, 69, 69). */
  lemma ReloadedRedChannels()
    ensures HslToRgb(Color(0.0, 70.0, 57.0)) == Rgb(222, 69, 69)
  {
    assert UpperLevel(0.57, 0.7) == 0.871;
    assert Hue2Rgb(0.269, 0.871, 1.0 / 3.0) == 0.871;
    assert Hue2Rgb(0.269, 0.871, 0.0) == 0.269;
    assert Hue2Rgb(0.269, 0.871, -1.0 / 3.0) == 0.269;
    assert Round(0.871 * 255.0) == 222;
    assert Round(0.269 * 255.0) == 69;
  }

  /** ... whose code is #DE4545. */
  lemma ReloadedRedHex()
    ensures HslToHex(Color(0.0, 70.0, 57.0)) == "#DE4545"
  {
    ReloadedRedChannels();
    RgbToHexCanonical(Rgb(222, 69, 69));
    assert CanonicalChannel(222) == "DE";
    assert CanonicalChannel(69) == "45";
  }

  /**
   * A recorded history entry can reload as a colour with a different code:
   * the light variant of the sampled base hsl(0, 70%, 50%) is recorded as
   * #DE4747 and comes back as a colour whose code is #DE4545.
   */
  lemma ReloadChangesCode()
    ensures IsSampledBase(SampledRed)
    ensures var recorded := HslToHex(Derive(SampledRed, Complementary)[2]);
            recorded == "#DE4747" && IsHexCode(recorded) && HslToHex(HexToHsl(recorded)) == "#DE4545"
  {
    SampledRedLightVariant();
    LightRedHex();
    LightRedReads();
    ReloadedRedHex();
  }
}
