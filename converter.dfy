/** The colour space converter of the palette generator: hex to HSL (`hexToHSL`) and
    HSL to hex (`hslToHex` with its helpers `hue2rgb` and `toHex`). Channels are exact
    reals; every `Math.round` is JsMath.Round. */
module Converter {
  import opened JsMath
  import opened HexText

  /** Red, green and blue, each a fraction of full intensity. */
  datatype Rgb = Rgb(r: real, g: real, b: real)

  /** Hue in degrees, saturation and lightness in percent, as `hexToHSL` returns them. */
  datatype Hsl = Hsl(h: int, s: int, l: int)

  predicate InUnit(x: real) {
    0.0 <= x <= 1.0
  }

  /** The channels of a colour: each pair of hex digits parsed and divided by 255. */
  function Channels(hex: string): (c: Rgb)
    requires IsHexColor(hex)
    ensures InUnit(c.r) && InUnit(c.g) && InUnit(c.b)
  {
    var h := StripHash(hex);
    Rgb(Byte(h, 0) as real / 255.0, Byte(h, 1) as real / 255.0, Byte(h, 2) as real / 255.0)
  }

  /** The hue of a chromatic colour as a fraction of a full turn, before rounding:
      the six-sector formula keyed on which channel is largest. */
  function HueFraction(c: Rgb, mx: real, mn: real): real
    requires mn < mx
  {
    var d := mx - mn;
    var h :=
      if mx == c.r then (c.g - c.b) / d + (if c.g < c.b then 6.0 else 0.0)
      else if mx == c.g then (c.b - c.r) / d + 2.0
      else (c.r - c.g) / d + 4.0;
    h / 6.0
  }

  /** The saturation of a chromatic colour as a fraction, before rounding. */
  function SaturationFraction(mx: real, mn: real): real
    requires 0.0 <= mn < mx <= 1.0
  {
    var l := (mx + mn) / 2.0;
    if l > 0.5 then (mx - mn) / (2.0 - mx - mn) else (mx - mn) / (mx + mn)
  }

  /** What `hexToHSL` returns for a colour, written as one expression. */
  function HslOf(hex: string): Hsl
    requires IsHexColor(hex)
  {
    var c := Channels(hex);
    var mx := Max3(c.r, c.g, c.b);
    var mn := Min3(c.r, c.g, c.b);
    var l := (mx + mn) / 2.0;
    if mx == mn then Hsl(0, 0, Round(l * 100.0))
    else Hsl(Round(HueFraction(c, mx, mn) * 360.0), Round(SaturationFraction(mx, mn) * 100.0), Round(l * 100.0))
  }

  /** `hexToHSL`: the hue, saturation and lightness are updated in place, as in the source. */
  method HexToHSL(hex: string) returns (hsl: Hsl)
    requires IsHexColor(hex)
    ensures hsl == HslOf(hex)
    ensures 0 <= hsl.h <= 360 && 0 <= hsl.s <= 100 && 0 <= hsl.l <= 100
  {
    var c := Channels(hex);
    var r, g, b := c.r, c.g, c.b;
    var mx := Max3(r, g, b);
    var mn := Min3(r, g, b);
    var l := (mx + mn) / 2.0;
    var h := 0.0;
    var s := 0.0;
    if mx != mn {
      s := if l > 0.5 then (mx - mn) / (2.0 - mx - mn) else (mx - mn) / (mx + mn);
      assert s == SaturationFraction(mx, mn);
      if mx == r {
        h := (g - b) / (mx - mn) + (if g < b then 6.0 else 0.0);
      } else if mx == g {
        h := (b - r) / (mx - mn) + 2.0;
      } else {
        h := (r - g) / (mx - mn) + 4.0;
      }
      h := h / 6.0;
      assert h == HueFraction(c, mx, mn);
    }
    hsl := Hsl(Round(h * 360.0), Round(s * 100.0), Round(l * 100.0));
    assert mx == mn ==> hsl == Hsl(0, 0, Round(l * 100.0));
    HslBounds(hex);
  }

  lemma QuotientBounds(x: real, d: real)
    requires 0.0 < d && -d <= x <= d
    ensures -1.0 <= x / d <= 1.0
  {
    assert x == d * (x / d);
  }

  /** The unrounded hue lies in [0, 1]: the sector of the largest channel keeps it there. */
  lemma HueFractionBounds(c: Rgb, mx: real, mn: real)
    requires mn < mx
    requires mx == Max3(c.r, c.g, c.b) && mn == Min3(c.r, c.g, c.b)
    ensures 0.0 <= HueFraction(c, mx, mn) <= 1.0
  {
    var d := mx - mn;
    if mx == c.r {
      QuotientBounds(c.g - c.b, d);
      if c.g >= c.b {
        assert 0.0 <= (c.g - c.b) / d by {
          assert c.g - c.b == d * ((c.g - c.b) / d);
        }
      }
    } else if mx == c.g {
      QuotientBounds(c.b - c.r, d);
    } else {
      QuotientBounds(c.r - c.g, d);
    }
  }

  lemma FractionInUnit(a: real, b: real)
    requires 0.0 < a <= b
    ensures 0.0 < a / b <= 1.0
  {
    assert a == b * (a / b);
  }

  /** The unrounded saturation lies in (0, 1]; neither branch divides by zero. */
  lemma SaturationFractionBounds(mx: real, mn: real)
    requires 0.0 <= mn < mx <= 1.0
    ensures 0.0 < SaturationFraction(mx, mn) <= 1.0
  {
    var l := (mx + mn) / 2.0;
    if l > 0.5 {
      FractionInUnit(mx - mn, 2.0 - mx - mn);
    } else {
      FractionInUnit(mx - mn, mx + mn);
    }
  }

  /** `hexToHSL` returns a hue in [0, 360] (360 is reachable, see HueCanRoundTo360) and a
      saturation and lightness in [0, 100]; a grey gives hue 0 and saturation 0. */
  lemma HslBounds(hex: string)
    requires IsHexColor(hex)
    ensures var hsl := HslOf(hex); 0 <= hsl.h <= 360 && 0 <= hsl.s <= 100 && 0 <= hsl.l <= 100
    ensures var c := Channels(hex); c.r == c.g == c.b ==> HslOf(hex).h == 0 && HslOf(hex).s == 0
  {
    var c := Channels(hex);
    var mx := Max3(c.r, c.g, c.b);
    var mn := Min3(c.r, c.g, c.b);
    if mx != mn {
      HueFractionBounds(c, mx, mn);
      SaturationFractionBounds(mx, mn);
    }
  }

  lemma RedIsHexColor()
    ensures IsHexColor("#FF0000")
  {
    assert "#FF0000"[1..] == "FF0000";
  }

  /** The channels of a `#RRGGBB` colour are its three pairs of digits, parsed and divided by 255. */
  lemma ChannelsOfSlices(hex: string)
    requires |hex| == 7 && hex[0] == '#' && AllHex(hex[1..])
    ensures IsHexColor(hex)
    ensures AllHex(hex[1..3]) && AllHex(hex[3..5]) && AllHex(hex[5..7])
    ensures Channels(hex)
      == Rgb(ParseHex(hex[1..3]) as real / 255.0, ParseHex(hex[3..5]) as real / 255.0, ParseHex(hex[5..7]) as real / 255.0)
  {
    var h := hex[1..];
    assert h[0..2] == hex[1..3] && h[2..4] == hex[3..5] && h[4..6] == hex[5..7];
  }

  /** Two hex digits parse to sixteen times the first plus the second. */
  lemma ParsePair(x: char, y: char)
    requires IsHexDigit(x) && IsHexDigit(y)
    ensures AllHex([x, y]) && ParseHex([x, y]) == 16 * HexValue(x) + HexValue(y)
  {
    assert [x, y][..1] == [x];
    assert [x][..0] == [];
    assert ParseHex([x]) == HexValue(x);
    assert ParseHex([x, y]) == 16 * ParseHex([x]) + HexValue(y);
  }

  /** The channels of '#' and six given hex digits. */
  lemma ChannelsOfDigits(a0: char, a1: char, b0: char, b1: char, c0: char, c1: char)
    requires IsHexDigit(a0) && IsHexDigit(a1) && IsHexDigit(b0) && IsHexDigit(b1)
    requires IsHexDigit(c0) && IsHexDigit(c1)
    ensures IsHexColor(['#', a0, a1, b0, b1, c0, c1])
    ensures Channels(['#', a0, a1, b0, b1, c0, c1])
      == Rgb((16 * HexValue(a0) + HexValue(a1)) as real / 255.0,
             (16 * HexValue(b0) + HexValue(b1)) as real / 255.0,
             (16 * HexValue(c0) + HexValue(c1)) as real / 255.0)
  {
    var hex := ['#', a0, a1, b0, b1, c0, c1];
    assert hex[1..3] == [a0, a1] && hex[3..5] == [b0, b1] && hex[5..7] == [c0, c1];
    assert AllHex(hex[1..]) by {
      assert hex[1..] == [a0, a1, b0, b1, c0, c1];
    }
    ChannelsOfSlices(hex);
    ParsePair(a0, a1);
    ParsePair(b0, b1);
    ParsePair(c0, c1);
  }

  lemma ChannelsOfFF0000()
    ensures IsHexColor("#FF0000")
    ensures Channels("#FF0000") == Rgb(1.0, 0.0, 0.0)
  {
    ChannelsOfDigits('F', 'F', '0', '0', '0', '0');
  }

  /** Pure red is hue 0, saturation 100, lightness 50. */
  lemma HslOfRed()
    ensures HslOf("#FF0000") == Hsl(0, 100, 50)
  {
    ChannelsOfFF0000();
  }

  lemma ChannelsOfFF0001()
    ensures IsHexColor("#FF0001")
    ensures Channels("#FF0001") == Rgb(1.0, 0.0, 1.0 / 255.0)
  {
    ChannelsOfDigits('F', 'F', '0', '0', '0', '1');
  }

  /** The rounded hue can be 360 rather than 0: for `#FF0001` the unrounded hue is
      360 - 360/1530, about 359.76. */
  lemma HueCanRoundTo360()
    ensures HslOf("#FF0001").h == 360
  {
    ChannelsOfFF0001();
    var c := Rgb(1.0, 0.0, 1.0 / 255.0);
    assert HueFraction(c, 1.0, 0.0) == (-(1.0 / 255.0) + 6.0) / 6.0;
  }

  lemma ChannelsOf7F7F80()
    ensures IsHexColor("#7F7F80")
    ensures Channels("#7F7F80") == Rgb(127.0 / 255.0, 127.0 / 255.0, 128.0 / 255.0)
  {
    ChannelsOfDigits('7', 'F', '7', 'F', '8', '0');
  }

  /** Channels that differ can still give saturation 0: `#7F7F80` has an unrounded
      saturation of 100/255 percent, which rounds to 0. */
  lemma NearGreyHasNoSaturation()
    ensures IsHexColor("#7F7F80")
    ensures var c := Channels("#7F7F80"); c.b != c.r && HslOf("#7F7F80").s == 0
  {
    ChannelsOf7F7F80();
    assert SaturationFraction(128.0 / 255.0, 127.0 / 255.0) == 1.0 / 255.0;
  }

  /** `hue2rgb`: one channel from the two intermediate values `p`, `q` and a hue offset `t`,
      which is wrapped into [0, 1] once. */
  function Hue2Rgb(p: real, q: real, t: real): real {
    var t1 := if t < 0.0 then t + 1.0 else t;
    var t2 := if t1 > 1.0 then t1 - 1.0 else t1;
    if t2 < 1.0 / 6.0 then p + (q - p) * 6.0 * t2
    else if t2 < 1.0 / 2.0 then q
    else if t2 < 2.0 / 3.0 then p + (q - p) * (2.0 / 3.0 - t2) * 6.0
    else p
  }

  /** The upper intermediate value `q` of the HSL-to-RGB algorithm (fractions, not percent). */
  function UpperValue(s: real, l: real): real {
    if l < 0.5 then l * (1.0 + s) else l + s - l * s
  }

  /** The three unrounded channels `hslToHex` computes from degrees and percentages. */
  function HslChannels(h: real, s: real, l: real): Rgb {
    var h, s, l := h / 360.0, s / 100.0, l / 100.0;
    if s == 0.0 then Rgb(l, l, l)
    else
      var q := UpperValue(s, l);
      var p := 2.0 * l - q;
      Rgb(Hue2Rgb(p, q, h + 1.0 / 3.0), Hue2Rgb(p, q, h), Hue2Rgb(p, q, h - 1.0 / 3.0))
  }

  /** `toHex`: round to a byte and write it with `toString(16)`, padded to two digits.
      A negative value gets a '-' sign, as `toString` writes it. */
  function ToHex(x: real): string {
    var n := Round(x * 255.0);
    var digits := if n < 0 then "-" + HexString(-n) else HexString(n);
    if |digits| == 1 then "0" + digits else digits
  }

  /** `hslToHex`: '#' and the three channels, upper-cased. */
  function HslToHex(h: real, s: real, l: real): string {
    var c := HslChannels(h, s, l);
    Upper("#" + ToHex(c.r) + ToHex(c.g) + ToHex(c.b))
  }

  /** In range, the intermediate values satisfy 0 <= p <= q <= 1. */
  lemma IntermediateBounds(s: real, l: real)
    requires InUnit(s) && InUnit(l)
    ensures var q := UpperValue(s, l); 0.0 <= 2.0 * l - q <= q <= 1.0
  {
    if l < 0.5 {
      MulNonneg(l, s);
      MulNonneg(l, 1.0 - s);
    } else {
      MulNonneg(1.0 - s, 1.0 - l);
      MulNonneg(s, 1.0 - l);
      assert l + s - l * s == 1.0 - (1.0 - s) * (1.0 - l);
      assert l + s - l * s == l + s * (1.0 - l);
      assert 2.0 * l - (l + s - l * s) == l - s * (1.0 - l);
      assert s * (1.0 - l) <= 1.0 - l <= l;
    }
  }

  lemma MulNonneg(a: real, b: real)
    requires 0.0 <= a && 0.0 <= b
    ensures 0.0 <= a * b
  {
  }

  /** Moving from `p` towards `q` by a fraction of the way stays between them. */
  lemma Interpolate(p: real, q: real, f: real)
    requires 0.0 <= p <= q && 0.0 <= f <= 1.0
    ensures p <= p + (q - p) * f <= q
  {
    MulNonneg(q - p, f);
    MulNonneg(q - p, 1.0 - f);
    assert (q - p) * f == (q - p) - (q - p) * (1.0 - f);
  }

  /** The rising segment of `hue2rgb`, for an offset below 1/6, stays between `p` and `q`. */
  lemma RisingSegment(p: real, q: real, t2: real)
    requires 0.0 <= p <= q && 0.0 <= t2 < 1.0 / 6.0
    ensures p <= p + (q - p) * 6.0 * t2 <= q
  {
    var d, f := q - p, 6.0 * t2;
    assert d * 6.0 * t2 == d * f;
    Interpolate(p, q, f);
  }

  /** The falling segment of `hue2rgb`, for an offset in [1/2, 2/3), stays between `p` and `q`. */
  lemma FallingSegment(p: real, q: real, t2: real)
    requires 0.0 <= p <= q && 1.0 / 2.0 <= t2 < 2.0 / 3.0
    ensures p <= p + (q - p) * (2.0 / 3.0 - t2) * 6.0 <= q
  {
    var d, f := q - p, (2.0 / 3.0 - t2) * 6.0;
    assert d * (2.0 / 3.0 - t2) * 6.0 == d * f;
    Interpolate(p, q, f);
  }

  /** `hue2rgb` returns a value between `p` and `q` for any offset within one turn of [0, 1]. */
  lemma Hue2RgbBetween(p: real, q: real, t: real)
    requires 0.0 <= p <= q
    requires -1.0 <= t <= 2.0
    ensures p <= Hue2Rgb(p, q, t) <= q
  {
    var t1 := if t < 0.0 then t + 1.0 else t;
    var t2 := if t1 > 1.0 then t1 - 1.0 else t1;
    if t2 < 1.0 / 6.0 {
      RisingSegment(p, q, t2);
      assert Hue2Rgb(p, q, t) == p + (q - p) * 6.0 * t2;
    } else if t2 < 1.0 / 2.0 {
      assert Hue2Rgb(p, q, t) == q;
    } else if t2 < 2.0 / 3.0 {
      FallingSegment(p, q, t2);
      assert Hue2Rgb(p, q, t) == p + (q - p) * (2.0 / 3.0 - t2) * 6.0;
    } else {
      assert Hue2Rgb(p, q, t) == p;
    }
  }

  /** For a hue in [0, 360] and a saturation and lightness in [0, 100], every channel is in [0, 1]. */
  lemma HslChannelsInUnit(h: real, s: real, l: real)
    requires 0.0 <= h <= 360.0 && 0.0 <= s <= 100.0 && 0.0 <= l <= 100.0
    ensures var c := HslChannels(h, s, l); InUnit(c.r) && InUnit(c.g) && InUnit(c.b)
  {
    var h', s', l' := h / 360.0, s / 100.0, l / 100.0;
    if s' != 0.0 {
      IntermediateBounds(s', l');
      var q := UpperValue(s', l');
      var p := 2.0 * l' - q;
      Hue2RgbBetween(p, q, h' + 1.0 / 3.0);
      Hue2RgbBetween(p, q, h');
      Hue2RgbBetween(p, q, h' - 1.0 / 3.0);
    }
  }

  /** For a channel in [0, 1], `toHex` writes two lower-case digits whose value is the rounded byte. */
  lemma ToHexByte(x: real)
    requires InUnit(x)
    ensures var t := ToHex(x); |t| == 2 && AllHex(t) && ParseHex(t) == Round(x * 255.0)
    ensures 0 <= Round(x * 255.0) <= 255
  {
    var n := Round(x * 255.0);
    assert 0 <= n <= 255;
    HexStringLength(n);
    ParseHexString(n);
    if n < 16 {
      LeadingZero(HexString(n));
    }
  }

  /** The digits for one channel after upper-casing: two upper-case digits with the rounded byte's value. */
  lemma UpperToHexByte(x: real)
    requires InUnit(x)
    ensures var u := Upper(ToHex(x)); UpperPair(u) && AllHex(u) && ParseHex(u) == Round(x * 255.0)
  {
    ToHexByte(x);
    ParseUpper(ToHex(x));
    UpperHexDigit(ToHex(x)[0]);
    UpperHexDigit(ToHex(x)[1]);
  }

  lemma HslToHexSplit(h: real, s: real, l: real)
    ensures var c := HslChannels(h, s, l);
      HslToHex(h, s, l) == "#" + Upper(ToHex(c.r)) + Upper(ToHex(c.g)) + Upper(ToHex(c.b))
  {
    var c := HslChannels(h, s, l);
    UpperConcat("#" + ToHex(c.r) + ToHex(c.g), ToHex(c.b));
    UpperConcat("#" + ToHex(c.r), ToHex(c.g));
    UpperConcat("#", ToHex(c.r));
  }

  predicate UpperPair(a: string) {
    |a| == 2 && IsUpperHexDigit(a[0]) && IsUpperHexDigit(a[1])
  }

  lemma PairsAreCanonical(a: string, b: string, c: string)
    requires UpperPair(a) && UpperPair(b) && UpperPair(c)
    ensures IsCanonicalHex("#" + a + b + c) && IsHexColor("#" + a + b + c)
    ensures AllHex(a) && AllHex(b) && AllHex(c)
    ensures StripHash("#" + a + b + c) == a + b + c
  {
    var out := "#" + a + b + c;
    assert out == ['#', a[0], a[1], b[0], b[1], c[0], c[1]];
    CanonicalIsHexColor(out);
  }

  /** Where the three pairs sit in '#' followed by them. */
  lemma ConcatSlices(a: string, b: string, c: string)
    requires |a| == 2 && |b| == 2 && |c| == 2
    ensures var hex := "#" + a + b + c;
      && |hex| == 7 && hex[0] == '#'
      && hex[1..3] == a && hex[3..5] == b && hex[5..7] == c
  {
    var hex := "#" + a + b + c;
    assert hex == ['#', a[0], a[1], b[0], b[1], c[0], c[1]];
    assert a == [a[0], a[1]] && b == [b[0], b[1]] && c == [c[0], c[1]];
  }

  /** '#' and three pairs of upper-case digits form a canonical colour whose channels are the pairs' values. */
  lemma ChannelsOfPairs(a: string, b: string, c: string)
    requires UpperPair(a) && UpperPair(b) && UpperPair(c)
    ensures IsCanonicalHex("#" + a + b + c) && IsHexColor("#" + a + b + c)
    ensures AllHex(a) && AllHex(b) && AllHex(c)
    ensures Channels("#" + a + b + c)
      == Rgb(ParseHex(a) as real / 255.0, ParseHex(b) as real / 255.0, ParseHex(c) as real / 255.0)
  {
    PairsAreCanonical(a, b, c);
    ConcatSlices(a, b, c);
    ChannelsOfSlices("#" + a + b + c);
  }

  /** For a hue in [0, 360] and a saturation and lightness in [0, 100], `hslToHex` writes a
      canonical `#RRGGBB` colour, and reading it back gives each channel rounded to the
      nearest 1/255. */
  lemma HslToHexCanonical(h: real, s: real, l: real)
    requires 0.0 <= h <= 360.0 && 0.0 <= s <= 100.0 && 0.0 <= l <= 100.0
    ensures IsCanonicalHex(HslToHex(h, s, l)) && IsHexColor(HslToHex(h, s, l))
    ensures var c := HslChannels(h, s, l);
      Channels(HslToHex(h, s, l))
        == Rgb(Round(c.r * 255.0) as real / 255.0, Round(c.g * 255.0) as real / 255.0, Round(c.b * 255.0) as real / 255.0)
  {
    var c := HslChannels(h, s, l);
    var out := "#" + Upper(ToHex(c.r)) + Upper(ToHex(c.g)) + Upper(ToHex(c.b));
    assert HslToHex(h, s, l) == out by {
      HslToHexSplit(h, s, l);
    }
    assert IsCanonicalHex(out) && IsHexColor(out)
      && Channels(out)
        == Rgb(Round(c.r * 255.0) as real / 255.0, Round(c.g * 255.0) as real / 255.0, Round(c.b * 255.0) as real / 255.0) by {
      HslChannelsInUnit(h, s, l);
      WrittenChannels(c);
    }
  }

  /** Three channels in [0, 1], each written by `toHex` and upper-cased after a '#', form a
      canonical colour that reads back as the channels rounded to the nearest 1/255. */
  lemma WrittenChannels(c: Rgb)
    requires InUnit(c.r) && InUnit(c.g) && InUnit(c.b)
    ensures var out := "#" + Upper(ToHex(c.r)) + Upper(ToHex(c.g)) + Upper(ToHex(c.b));
      && IsCanonicalHex(out) && IsHexColor(out)
      && Channels(out)
        == Rgb(Round(c.r * 255.0) as real / 255.0, Round(c.g * 255.0) as real / 255.0, Round(c.b * 255.0) as real / 255.0)
  {
    var a, b, d := Upper(ToHex(c.r)), Upper(ToHex(c.g)), Upper(ToHex(c.b));
    UpperToHexByte(c.r);
    UpperToHexByte(c.g);
    UpperToHexByte(c.b);
    ChannelsOfPairs(a, b, d);
    var ra, rb, rd := ParseHex(a), ParseHex(b), ParseHex(d);
    assert ra == Round(c.r * 255.0) && rb == Round(c.g * 255.0) && rd == Round(c.b * 255.0);
  }

  /** A colour whose three byte pairs are equal has three equal channels. */
  lemma EqualPairsAreGrey(out: string)
    requires IsHexColor(out) && |out| == 7 && out[1..3] == out[3..5] == out[5..7]
    ensures var c := Channels(out); c.r == c.g == c.b
  {
    var h := StripHash(out);
    assert h[0..2] == out[1..3] && h[2..4] == out[3..5] && h[4..6] == out[5..7];
  }

  /** A saturation of 0 gives a grey: the three byte pairs are equal. */
  lemma GreyPairs(h: real, l: real)
    requires 0.0 <= h <= 360.0 && 0.0 <= l <= 100.0
    ensures var out := HslToHex(h, 0.0, l); |out| == 7 && out[1..3] == out[3..5] == out[5..7]
  {
    var c := HslChannels(h, 0.0, l);
    assert c.r == c.g == c.b;
    var u := Upper(ToHex(c.r));
    assert HslToHex(h, 0.0, l) == "#" + u + u + u by {
      HslToHexSplit(h, 0.0, l);
    }
    assert |u| == 2 by {
      HslChannelsInUnit(h, 0.0, l);
      UpperToHexByte(c.r);
    }
    ConcatSlices(u, u, u);
  }

  /** With a saturation of 0 the hue plays no part. */
  lemma GreyIgnoresHue(h: real, l: real)
    ensures HslToHex(h, 0.0, l) == HslToHex(0.0, 0.0, l)
  {
    assert HslChannels(h, 0.0, l) == HslChannels(0.0, 0.0, l);
  }

  /** A saturation of 0 gives a grey: the three byte pairs are equal, and converting the
      grey back to HSL gives hue 0 and saturation 0. */
  lemma GreyHslToHex(h: real, l: real)
    requires 0.0 <= h <= 360.0 && 0.0 <= l <= 100.0
    ensures var out := HslToHex(h, 0.0, l); |out| == 7 && out[1..3] == out[3..5] == out[5..7]
    ensures IsHexColor(HslToHex(h, 0.0, l))
    ensures HslOf(HslToHex(h, 0.0, l)).h == 0 && HslOf(HslToHex(h, 0.0, l)).s == 0
  {
    var out := HslToHex(h, 0.0, l);
    GreyPairs(h, l);
    HslToHexCanonical(h, 0.0, l);
    EqualPairsAreGrey(out);
    HslBounds(out);
  }

  lemma ChannelsOfRed()
    ensures HslChannels(0.0, 100.0, 50.0) == Rgb(1.0, 0.0, 0.0)
  {
    assert UpperValue(1.0, 0.5) == 1.0;
    assert Hue2Rgb(0.0, 1.0, 1.0 / 3.0) == 1.0;
    assert Hue2Rgb(0.0, 1.0, 0.0) == 0.0;
    assert Hue2Rgb(0.0, 1.0, -1.0 / 3.0) == 0.0;
  }

  /** Hue 0, saturation 100, lightness 50 is pure red. */
  lemma HslToHexRed()
    ensures HslToHex(0.0, 100.0, 50.0) == "#FF0000"
  {
    ChannelsOfRed();
    assert Round(1.0 * 255.0) == 255 && Round(0.0 * 255.0) == 0;
    assert HexString(255) == "ff";
    assert HexString(0) == "0";
    assert ToHex(1.0) == "ff" && ToHex(0.0) == "00";
    HslToHexSplit(0.0, 100.0, 50.0);
    assert Upper("ff") == "FF" && Upper("00") == "00";
  }
}
