/** The colour arithmetic of `randomizeColor`. The four `Math.random()` draws it makes are
    parameters: the first picks between a completely random colour and one related to the
    current base colour, the other three give the hue, the saturation and the lightness. */
module RandomColor {
  import opened JsMath
  import opened HexText
  import opened Converter

  /** The four draws, in the order they are made. */
  datatype Draws = Draws(branch: real, hue: real, saturation: real, lightness: real)

  /** What `Math.random()` returns: a number in [0, 1). */
  predicate ValidDraws(d: Draws) {
    && 0.0 <= d.branch < 1.0 && 0.0 <= d.hue < 1.0
    && 0.0 <= d.saturation < 1.0 && 0.0 <= d.lightness < 1.0
  }

  /** The hue, saturation and lightness handed to `hslToHex`, before rounding. */
  datatype Target = Target(hue: real, saturation: real, lightness: real)

  /** A completely random colour is chosen with probability 0.3. */
  predicate CompletelyRandom(d: Draws) {
    d.branch < 0.3
  }

  /** The hue of a related colour: the current hue turned by up to 60 degrees either way. */
  function RelatedHue(currentHue: int, draw: real): real {
    RealRem(currentHue as real + (draw * 120.0 - 60.0) + 360.0, 360.0)
  }

  /** The hue, saturation and lightness of the new colour. The current base colour is only
      read for a related colour. */
  function NewTarget(baseColor: string, d: Draws): (t: Target)
    requires CompletelyRandom(d) || IsHexColor(baseColor)
  {
    var hue :=
      if CompletelyRandom(d) then (d.hue * 360.0).Floor as real
      else RelatedHue(HslOf(baseColor).h, d.hue);
    Target(hue, 20.0 + d.saturation * 80.0, 20.0 + d.lightness * 60.0)
  }

  /** `randomizeColor`: the new base colour. */
  function RandomizeColor(baseColor: string, d: Draws): string
    requires CompletelyRandom(d) || IsHexColor(baseColor)
  {
    var t := NewTarget(baseColor, d);
    HslToHex(t.hue, t.saturation, t.lightness)
  }

  lemma ScaledDraw(x: real, k: real)
    requires 0.0 <= x < 1.0 && 0.0 < k
    ensures 0.0 <= x * k < k
  {
    assert k - x * k == (1.0 - x) * k;
  }

  /** For draws in [0, 1), the hue is in [0, 360), the saturation in [20, 100) and the
      lightness in [20, 80); a random hue is a whole number of degrees. */
  lemma TargetRanges(baseColor: string, d: Draws)
    requires CompletelyRandom(d) || IsHexColor(baseColor)
    requires ValidDraws(d)
    ensures var t := NewTarget(baseColor, d);
      && 0.0 <= t.hue < 360.0
      && 20.0 <= t.saturation < 100.0
      && 20.0 <= t.lightness < 80.0
      && (CompletelyRandom(d) ==> t.hue == t.hue.Floor as real)
  {
    ScaledDraw(d.hue, 360.0);
    ScaledDraw(d.hue, 120.0);
    ScaledDraw(d.saturation, 80.0);
    ScaledDraw(d.lightness, 60.0);
    if !CompletelyRandom(d) {
      HslBounds(baseColor);
    }
  }

  /** The new base colour is always a canonical `#RRGGBB` colour. */
  lemma RandomizeColorCanonical(baseColor: string, d: Draws)
    requires CompletelyRandom(d) || IsHexColor(baseColor)
    requires ValidDraws(d)
    ensures IsCanonicalHex(RandomizeColor(baseColor, d))
  {
    TargetRanges(baseColor, d);
    var t := NewTarget(baseColor, d);
    HslToHexCanonical(t.hue, t.saturation, t.lightness);
  }

  /** A related hue is the current hue plus the jitter, in [-60, 60), up to a whole turn. */
  lemma RelatedHueIsNear(currentHue: int, draw: real)
    requires 0 <= currentHue <= 360 && 0.0 <= draw < 1.0
    ensures var jitter := draw * 120.0 - 60.0;
      && -60.0 <= jitter < 60.0
      && var diff := RelatedHue(currentHue, draw) - (currentHue as real + jitter);
      diff == 0.0 || diff == 360.0 || diff == -360.0
  {
    ScaledDraw(draw, 120.0);
    var x := currentHue as real + (draw * 120.0 - 60.0) + 360.0;
    assert 240.0 <= x < 780.0;
    var t := Trunc(x / 360.0);
    assert x / 360.0 * 360.0 == x;
    assert 0.0 <= x / 360.0 < 3.0;
    assert t == 0 || t == 1 || t == 2;
  }

  /** A completely random colour does not depend on the current base colour. */
  lemma RandomIgnoresBase(base1: string, base2: string, d: Draws)
    requires CompletelyRandom(d)
    ensures RandomizeColor(base1, d) == RandomizeColor(base2, d)
  {
  }
}
