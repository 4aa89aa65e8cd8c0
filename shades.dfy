/** The shade generator (`generateColorShades`): ten shades of one base colour, with a
    fixed lightness per tier, one shared hue and a saturation shaped per tier. The
    component's state it reads (`baseColor`, `vibrancy`, `hueShift`) is passed in. */
module Shades {
  import opened JsMath
  import opened HexText
  import opened Converter

  /** One shade of the palette, as the component's `ColorShade` record. */
  datatype ColorShade = ColorShade(shade: int, hex: string, hue: int, saturation: int, lightness: int)

  /** The ten tiers, lightest first. */
  const ShadeTiers: seq<int> := [50, 100, 200, 300, 400, 500, 600, 700, 800, 900]

  /** The fixed lightness of each tier, in percent. */
  const LightnessMap: map<int, int> :=
    map[50 := 96, 100 := 90, 200 := 80, 300 := 70, 400 := 60, 500 := 50, 600 := 40, 700 := 30, 800 := 20, 900 := 10]

  /** The hue of every shade: the base hue turned by the hue shift, taken `% 360`. */
  function AdjustedHue(baseHue: int, hueShift: int): int {
    IntRem(baseHue + hueShift + 360, 360)
  }

  /** The factor by which a tier scales the base saturation. */
  function SaturationCoefficient(shade: int): real {
    if shade <= 100 then 0.3 + shade as real / 500.0
    else if shade < 500 then 0.6 + shade as real / 1000.0
    else if shade < 800 then 0.9 + (shade - 500) as real / 2000.0
    else 0.95
  }

  /** The unrounded saturation of a tier: the base saturation times the vibrancy
      multiplier (vibrancy capped at 85, over 50) times the tier's factor, capped at 100. */
  function AdjustedSaturation(baseSat: int, vibrancy: int, shade: int): real {
    var saturationMultiplier := MinInt(vibrancy, 85) as real / 50.0;
    MinReal(baseSat as real * saturationMultiplier * SaturationCoefficient(shade), 100.0)
  }

  /** The record `shades.map` builds for one tier. */
  function MakeShade(shade: int, hue: int, baseSat: int, vibrancy: int): ColorShade
    requires shade in LightnessMap
  {
    var targetLightness := LightnessMap[shade];
    var saturation := AdjustedSaturation(baseSat, vibrancy, shade);
    ColorShade(shade, HslToHex(hue as real, saturation, targetLightness as real), hue, Round(saturation), targetLightness)
  }

  lemma ShadeFields(shade: int, hue: int, baseSat: int, vibrancy: int)
    requires shade in LightnessMap
    ensures var r := MakeShade(shade, hue, baseSat, vibrancy);
      r.shade == shade && r.lightness == LightnessMap[shade] && r.hue == hue
  {
  }

  lemma PaletteAt(baseColor: string, vibrancy: int, hueShift: int, i: int)
    requires IsHexColor(baseColor) && 0 <= i < 10
    ensures GenerateColorShades(baseColor, vibrancy, hueShift)[i]
      == MakeShade(ShadeTiers[i], AdjustedHue(HslOf(baseColor).h, hueShift), HslOf(baseColor).s, vibrancy)
  {
  }

  /** `generateColorShades`: one record per tier, in tier order. The base colour's own
      lightness is not used. */
  function GenerateColorShades(baseColor: string, vibrancy: int, hueShift: int): seq<ColorShade>
    requires IsHexColor(baseColor)
  {
    var base := HslOf(baseColor);
    var hue := AdjustedHue(base.h, hueShift);
    seq(|ShadeTiers|, i requires 0 <= i < |ShadeTiers| => MakeShade(ShadeTiers[i], hue, base.s, vibrancy))
  }

  function Tiers(palette: seq<ColorShade>): seq<int> {
    seq(|palette|, i requires 0 <= i < |palette| => palette[i].shade)
  }

  function Lightnesses(palette: seq<ColorShade>): seq<int> {
    seq(|palette|, i requires 0 <= i < |palette| => palette[i].lightness)
  }

  /** The tier and the lightness of each record come from the tier list and the table alone. */
  lemma PaletteFields(baseColor: string, vibrancy: int, hueShift: int)
    requires IsHexColor(baseColor)
    ensures var palette := GenerateColorShades(baseColor, vibrancy, hueShift);
      && |palette| == 10
      && forall i :: 0 <= i < 10 ==>
           palette[i].shade == ShadeTiers[i] && ShadeTiers[i] in LightnessMap
           && palette[i].lightness == LightnessMap[ShadeTiers[i]]
  {
    var palette := GenerateColorShades(baseColor, vibrancy, hueShift);
    TableValues();
    forall i | 0 <= i < 10
      ensures palette[i].shade == ShadeTiers[i] && palette[i].lightness == LightnessMap[ShadeTiers[i]]
    {
      PaletteAt(baseColor, vibrancy, hueShift, i);
      ShadeFields(ShadeTiers[i], AdjustedHue(HslOf(baseColor).h, hueShift), HslOf(baseColor).s, vibrancy);
    }
  }

  /** A palette has ten records, for tiers 50, 100, 200, ..., 900 in that order. */
  lemma PaletteTiers(baseColor: string, vibrancy: int, hueShift: int)
    requires IsHexColor(baseColor)
    ensures var palette := GenerateColorShades(baseColor, vibrancy, hueShift);
      && |palette| == 10
      && Tiers(palette) == [50, 100, 200, 300, 400, 500, 600, 700, 800, 900]
      && (forall i, j :: 0 <= i < j < |palette| ==> palette[i].shade < palette[j].shade)
  {
    PaletteFields(baseColor, vibrancy, hueShift);
    TierList(GenerateColorShades(baseColor, vibrancy, hueShift));
  }

  lemma TierList(palette: seq<ColorShade>)
    requires |palette| == 10 && forall i :: 0 <= i < 10 ==> palette[i].shade == ShadeTiers[i]
    ensures Tiers(palette) == [50, 100, 200, 300, 400, 500, 600, 700, 800, 900]
    ensures forall i, j :: 0 <= i < j < |palette| ==> palette[i].shade < palette[j].shade
  {
    assert Tiers(palette) == ShadeTiers;
  }

  /** The lightness is 96, 90, 80, ..., 10 from tier 50 to tier 900: strictly decreasing,
      whatever the base colour (whose own lightness is discarded), vibrancy and hue shift. */
  lemma PaletteLightness(baseColor: string, vibrancy: int, hueShift: int)
    requires IsHexColor(baseColor)
    ensures var palette := GenerateColorShades(baseColor, vibrancy, hueShift);
      && Lightnesses(palette) == [96, 90, 80, 70, 60, 50, 40, 30, 20, 10]
      && (forall i, j :: 0 <= i < j < |palette| ==> palette[i].lightness > palette[j].lightness)
  {
    PaletteFields(baseColor, vibrancy, hueShift);
    LightnessList(GenerateColorShades(baseColor, vibrancy, hueShift));
  }

  lemma LightnessList(palette: seq<ColorShade>)
    requires |palette| == 10
    requires forall i :: 0 <= i < 10 ==> ShadeTiers[i] in LightnessMap && palette[i].lightness == LightnessMap[ShadeTiers[i]]
    ensures Lightnesses(palette) == [96, 90, 80, 70, 60, 50, 40, 30, 20, 10]
    ensures forall i, j :: 0 <= i < j < |palette| ==> palette[i].lightness > palette[j].lightness
  {
    TableValues();
    var expected := [96, 90, 80, 70, 60, 50, 40, 30, 20, 10];
    assert forall i :: 0 <= i < 10 ==> Lightnesses(palette)[i] == expected[i];
    assert Lightnesses(palette) == expected;
  }

  /** The lightness table read in tier order. */
  lemma TableValues()
    ensures forall i :: 0 <= i < 10 ==> ShadeTiers[i] in LightnessMap
    ensures forall i :: 0 <= i < 10 ==> LightnessMap[ShadeTiers[i]] == [96, 90, 80, 70, 60, 50, 40, 30, 20, 10][i]
  {
  }

  /** The lightness of each tier does not depend on the base colour, the vibrancy or the hue shift. */
  lemma LightnessIndependentOfInputs(a: string, va: int, ha: int, b: string, vb: int, hb: int, i: int)
    requires IsHexColor(a) && IsHexColor(b) && 0 <= i < 10
    ensures GenerateColorShades(a, va, ha)[i].lightness == GenerateColorShades(b, vb, hb)[i].lightness
  {
  }

  /** Every record carries the same hue, the base hue turned by the shift; it lies in
      [0, 360) whenever the shift is at least -360. */
  lemma PaletteSharedHue(baseColor: string, vibrancy: int, hueShift: int)
    requires IsHexColor(baseColor)
    ensures var palette := GenerateColorShades(baseColor, vibrancy, hueShift);
      forall i :: 0 <= i < |palette| ==> palette[i].hue == AdjustedHue(HslOf(baseColor).h, hueShift)
    ensures hueShift >= -360 ==> 0 <= AdjustedHue(HslOf(baseColor).h, hueShift) < 360
  {
    HslBounds(baseColor);
  }

  /** The shade hue is the base hue turned by the shift, up to whole turns: it differs
      from `baseHue + hueShift` by a multiple of 360, and when that sum is at least -360
      it is the sum's remainder in [0, 360). Below that, `%` keeps the dividend's sign and
      the hue comes out negative. */
  lemma AdjustedHueIsTurn(baseHue: int, hueShift: int)
    ensures (AdjustedHue(baseHue, hueShift) - (baseHue + hueShift)) % 360 == 0
    ensures baseHue + hueShift >= -360 ==> AdjustedHue(baseHue, hueShift) == (baseHue + hueShift) % 360
    ensures baseHue + hueShift < -360 ==> -360 < AdjustedHue(baseHue, hueShift) <= 0
  {
    var a := baseHue + hueShift;
    var r := AdjustedHue(baseHue, hueShift);
    assert (a + 360 - r) % 360 == 0;
  }

  /** The saturation multiplier lies in [0, 1.7] for a non-negative vibrancy. */
  lemma MultiplierBounds(vibrancy: int)
    requires vibrancy >= 0
    ensures 0.0 <= MinInt(vibrancy, 85) as real / 50.0 <= 1.7
  {
  }

  /** For a non-negative vibrancy and a base saturation in [0, 100], the shaped
      saturation lies in [0, 100]. */
  lemma AdjustedSaturationBounds(baseSat: int, vibrancy: int, shade: int)
    requires 0 <= baseSat <= 100 && vibrancy >= 0 && shade in ShadeTiers
    ensures 0.0 <= AdjustedSaturation(baseSat, vibrancy, shade) <= 100.0
  {
    var m := MinInt(vibrancy, 85) as real / 50.0;
    var k := SaturationCoefficient(shade);
    assert 0.0 < k;
    MulNonneg(baseSat as real, m);
    MulNonneg(baseSat as real * m, k);
  }

  /** Each record's saturation is the rounded shaped saturation while its hex is computed
      from the unrounded one; for a non-negative vibrancy the saturation is in [0, 100]. */
  lemma PaletteSaturation(baseColor: string, vibrancy: int, hueShift: int)
    requires IsHexColor(baseColor)
    ensures var palette := GenerateColorShades(baseColor, vibrancy, hueShift);
      var base := HslOf(baseColor);
      forall i :: 0 <= i < |palette| ==>
        var s := AdjustedSaturation(base.s, vibrancy, ShadeTiers[i]);
        && palette[i].saturation == Round(s)
        && palette[i].hex == HslToHex(palette[i].hue as real, s, palette[i].lightness as real)
        && (vibrancy >= 0 ==> 0 <= palette[i].saturation <= 100)
  {
    var base := HslOf(baseColor);
    HslBounds(baseColor);
    if vibrancy >= 0 {
      forall i | 0 <= i < 10
        ensures 0.0 <= AdjustedSaturation(base.s, vibrancy, ShadeTiers[i]) <= 100.0
      {
        AdjustedSaturationBounds(base.s, vibrancy, ShadeTiers[i]);
      }
    }
  }

  /** For the slider ranges (vibrancy at least 0, hue shift at least -360) every shade's
      hex is a canonical `#RRGGBB` colour. */
  lemma PaletteHexCanonical(baseColor: string, vibrancy: int, hueShift: int)
    requires IsHexColor(baseColor) && vibrancy >= 0 && hueShift >= -360
    ensures var palette := GenerateColorShades(baseColor, vibrancy, hueShift);
      forall i :: 0 <= i < |palette| ==> IsCanonicalHex(palette[i].hex) && IsHexColor(palette[i].hex)
  {
    var palette := GenerateColorShades(baseColor, vibrancy, hueShift);
    var base := HslOf(baseColor);
    var hue := AdjustedHue(base.h, hueShift);
    PaletteSharedHue(baseColor, vibrancy, hueShift);
    HslBounds(baseColor);
    forall i | 0 <= i < |palette|
      ensures IsCanonicalHex(palette[i].hex) && IsHexColor(palette[i].hex)
    {
      PaletteAt(baseColor, vibrancy, hueShift, i);
      ShadeHexCanonical(i, hue, base.s, vibrancy);
    }
  }

  /** The hex of tier `i` is canonical for a hue in [0, 360), a base saturation in
      [0, 100] and a non-negative vibrancy. */
  lemma ShadeHexCanonical(i: int, hue: int, baseSat: int, vibrancy: int)
    requires 0 <= i < 10 && 0 <= hue < 360 && 0 <= baseSat <= 100 && vibrancy >= 0
    ensures ShadeTiers[i] in LightnessMap
    ensures var hex := MakeShade(ShadeTiers[i], hue, baseSat, vibrancy).hex;
      IsCanonicalHex(hex) && IsHexColor(hex)
  {
    TableValues();
    var shade := ShadeTiers[i];
    var lightness := LightnessMap[shade];
    assert 0 <= lightness <= 100;
    var s := AdjustedSaturation(baseSat, vibrancy, shade);
    AdjustedSaturationBounds(baseSat, vibrancy, shade);
    HslToHexCanonical(hue as real, s, lightness as real);
  }

  /** A base colour with saturation 0 gives a grey ramp: every saturation is 0 and every
      hex has three equal byte pairs, whatever the vibrancy and hue shift. A base with equal
      channels has saturation 0 (`HslBounds`), and so does one whose channels differ by too
      little to survive the rounding, such as `#7F7F80`. */
  lemma GreyBaseGivesGreyRamp(baseColor: string, vibrancy: int, hueShift: int)
    requires IsHexColor(baseColor) && HslOf(baseColor).s == 0
    ensures var palette := GenerateColorShades(baseColor, vibrancy, hueShift);
      forall i :: 0 <= i < |palette| ==>
        palette[i].saturation == 0 && palette[i].hex[1..3] == palette[i].hex[3..5] == palette[i].hex[5..7]
  {
    var palette := GenerateColorShades(baseColor, vibrancy, hueShift);
    var hue := AdjustedHue(HslOf(baseColor).h, hueShift);
    forall i | 0 <= i < |palette|
      ensures palette[i].saturation == 0 && palette[i].hex[1..3] == palette[i].hex[3..5] == palette[i].hex[5..7]
    {
      PaletteAt(baseColor, vibrancy, hueShift, i);
      GreyShade(i, hue, vibrancy);
    }
  }

  /** With a base saturation of 0, tier `i` has saturation 0 and three equal byte pairs,
      whatever the hue. */
  lemma GreyShade(i: int, hue: int, vibrancy: int)
    requires 0 <= i < 10
    ensures ShadeTiers[i] in LightnessMap
    ensures var r := MakeShade(ShadeTiers[i], hue, 0, vibrancy);
      r.saturation == 0 && r.hex[1..3] == r.hex[3..5] == r.hex[5..7]
  {
    TableValues();
    var shade := ShadeTiers[i];
    var lightness := LightnessMap[shade];
    assert 0 <= lightness <= 100;
    assert AdjustedSaturation(0, vibrancy, shade) == 0.0;
    GreyIgnoresHue(hue as real, lightness as real);
    GreyHslToHex(0.0, lightness as real);
  }

  /** Vibrancy is capped at 85: any two vibrancies from 85 up give the same palette. */
  lemma VibrancyCapped(baseColor: string, v1: int, v2: int, hueShift: int)
    requires IsHexColor(baseColor) && v1 >= 85 && v2 >= 85
    ensures GenerateColorShades(baseColor, v1, hueShift) == GenerateColorShades(baseColor, v2, hueShift)
  {
    var p1 := GenerateColorShades(baseColor, v1, hueShift);
    var p2 := GenerateColorShades(baseColor, v2, hueShift);
    var base := HslOf(baseColor);
    var hue := AdjustedHue(base.h, hueShift);
    forall i | 0 <= i < 10 ensures p1[i] == p2[i] {
      PaletteAt(baseColor, v1, hueShift, i);
      PaletteAt(baseColor, v2, hueShift, i);
      ShadeVibrancyCapped(ShadeTiers[i], hue, base.s, v1, v2);
    }
  }

  lemma ShadeVibrancyCapped(shade: int, hue: int, baseSat: int, v1: int, v2: int)
    requires shade in LightnessMap && v1 >= 85 && v2 >= 85
    ensures MakeShade(shade, hue, baseSat, v1) == MakeShade(shade, hue, baseSat, v2)
  {
    assert AdjustedSaturation(baseSat, v1, shade) == AdjustedSaturation(baseSat, v2, shade);
  }

  lemma HslToHex90Red()
    ensures HslToHex(0.0, 90.0, 50.0) == "#F20D0D"
  {
    assert UpperValue(0.9, 0.5) == 0.95;
    assert Hue2Rgb(0.05, 0.95, 1.0 / 3.0) == 0.95;
    assert Hue2Rgb(0.05, 0.95, 0.0) == 0.05;
    assert Hue2Rgb(0.05, 0.95, -1.0 / 3.0) == 0.05;
    assert HslChannels(0.0, 90.0, 50.0) == Rgb(0.95, 0.05, 0.05);
    assert Round(0.95 * 255.0) == 242 && Round(0.05 * 255.0) == 13;
    assert HexString(242) == "f2";
    assert HexString(13) == "d";
    assert ToHex(0.95) == "f2" && ToHex(0.05) == "0d";
    HslToHexSplit(0.0, 90.0, 50.0);
    assert Upper("f2") == "F2" && Upper("0d") == "0D";
  }

  lemma Tier500OfRed()
    ensures MakeShade(500, 0, 100, 50) == ColorShade(500, "#F20D0D", 0, 90, 50)
  {
    assert LightnessMap[500] == 50;
    assert SaturationCoefficient(500) == 0.9;
    assert AdjustedSaturation(100, 50, 500) == 90.0;
    RoundInteger(90);
    HslToHex90Red();
  }

  /** Base `#FF0000` at vibrancy 50 and no hue shift: tier 500 keeps hue 0, gets
      saturation 100 * 1 * 0.9 = 90 and lightness 50, which is `#F20D0D`. */
  lemma RedTier500()
    ensures GenerateColorShades("#FF0000", 50, 0)[5] == ColorShade(500, "#F20D0D", 0, 90, 50)
  {
    RedIsHexColor();
    HslOfRed();
    Tier500OfPureRed("#FF0000");
  }

  /** Tier 500 of any base colour whose HSL is that of pure red. */
  lemma Tier500OfPureRed(baseColor: string)
    requires IsHexColor(baseColor) && HslOf(baseColor) == Hsl(0, 100, 50)
    ensures GenerateColorShades(baseColor, 50, 0)[5] == ColorShade(500, "#F20D0D", 0, 90, 50)
  {
    PaletteAt(baseColor, 50, 0, 5);
    assert HslOf(baseColor).h == 0 && HslOf(baseColor).s == 100;
    assert AdjustedHue(0, 0) == 0 && ShadeTiers[5] == 500;
    Tier500OfRed();
  }
}
