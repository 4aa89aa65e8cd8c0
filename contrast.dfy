/** The accessibility scorer: relative luminance and contrast ratio as in WCAG 2.1
    (Understanding Success Criteria 1.4.3 and 1.4.6), the AAA / AA / AA Large / Fail
    grading, the scores of the fifteen pairs of test tiers, their ordering by ratio and the
    passing / failing split. */
module Contrast {
  import opened JsMath
  import opened HexText
  import opened Converter
  import opened Shades

  datatype Option<T> = None | Some(value: T)

  /** What the model needs of the gamma curve `x => Math.pow(x, 2.4)`: it maps [0, 1]
      into [0, 1] and 1 to 1. The curve itself is a parameter of every member using it. */
  ghost predicate PowCurve(pow: real -> real) {
    && (forall x :: 0.0 <= x <= 1.0 ==> 0.0 <= pow(x) <= 1.0)
    && pow(1.0) == 1.0
  }

  /** The sRGB linearisation of one channel: linear below 0.03928, the gamma curve above. */
  function Linearise(c: real, pow: real -> real): real {
    if c <= 0.03928 then c / 12.92 else pow((c + 0.055) / 1.055)
  }

  /** A channel in [0, 1] stays in [0, 1]; black stays 0 and full intensity stays 1. */
  lemma LineariseInUnit(c: real, pow: real -> real)
    requires InUnit(c) && PowCurve(pow)
    ensures InUnit(Linearise(c, pow))
    ensures c == 0.0 ==> Linearise(c, pow) == 0.0
    ensures c == 1.0 ==> Linearise(c, pow) == 1.0
  {
    if c > 0.03928 {
      var x := (c + 0.055) / 1.055;
      assert x * 1.055 == c + 0.055;
      assert 0.0 <= x <= 1.0;
    }
  }

  lemma LuminanceInUnit(c: Rgb, pow: real -> real)
    requires InUnit(c.r) && InUnit(c.g) && InUnit(c.b)
    ensures PowCurve(pow) ==>
      InUnit(0.2126 * Linearise(c.r, pow) + 0.7152 * Linearise(c.g, pow) + 0.0722 * Linearise(c.b, pow))
  {
    if PowCurve(pow) {
      LineariseInUnit(c.r, pow);
      LineariseInUnit(c.g, pow);
      LineariseInUnit(c.b, pow);
    }
  }

  /** `getLuminance`: the relative luminance of a colour, in [0, 1]. */
  function Luminance(hex: string, pow: real -> real): (l: real)
    requires IsHexColor(hex)
    ensures PowCurve(pow) ==> InUnit(l)
  {
    var c := Channels(hex);
    LuminanceInUnit(c, pow);
    0.2126 * Linearise(c.r, pow) + 0.7152 * Linearise(c.g, pow) + 0.0722 * Linearise(c.b, pow)
  }

  /** A quotient by a positive number lies between bounds its numerator lies between, scaled. */
  lemma QuotientBetween(x: real, y: real, lo: real, hi: real)
    requires 0.0 < y && lo * y <= x <= hi * y
    ensures lo <= x / y <= hi
  {
    var q := x / y;
    assert q * y == x;
    assert (q - lo) * y == x - lo * y;
    assert (hi - q) * y == hi * y - x;
  }

  lemma RatioBounds(a: real, b: real)
    requires 0.0 <= b <= a
    ensures 1.0 <= (a + 0.05) / (b + 0.05)
    ensures a <= 1.0 ==> (a + 0.05) / (b + 0.05) <= 21.0
  {
    if a <= 1.0 {
      QuotientBetween(a + 0.05, b + 0.05, 1.0, 21.0);
    } else {
      QuotientBetween(a + 0.05, b + 0.05, 1.0, (a + 0.05) / 0.05);
    }
  }

  /** The contrast ratio of two luminances: the lighter plus 0.05 over the darker plus
      0.05. It is at least 1, and at most 21 for luminances in [0, 1]. */
  function Ratio(l1: real, l2: real): (r: real)
    requires 0.0 <= l1 && 0.0 <= l2
    ensures 1.0 <= r
    ensures l1 <= 1.0 && l2 <= 1.0 ==> r <= 21.0
  {
    var lighter := MaxReal(l1, l2);
    var darker := MinReal(l1, l2);
    RatioBounds(lighter, darker);
    (lighter + 0.05) / (darker + 0.05)
  }

  /** `getContrastRatio`: the contrast ratio of two colours, between 1 and 21. */
  function GetContrastRatio(color1: string, color2: string, pow: real -> real): (r: real)
    requires IsHexColor(color1) && IsHexColor(color2) && PowCurve(pow)
    ensures 1.0 <= r <= 21.0
  {
    Ratio(Luminance(color1, pow), Luminance(color2, pow))
  }

  /** The ratio of two luminances does not depend on their order. */
  lemma RatioSymmetric(l1: real, l2: real)
    requires 0.0 <= l1 && 0.0 <= l2
    ensures Ratio(l1, l2) == Ratio(l2, l1)
    ensures Ratio(l1, l1) == 1.0
  {
    assert MaxReal(l1, l2) == MaxReal(l2, l1);
    assert MinReal(l1, l2) == MinReal(l2, l1);
    var d := l1 + 0.05;
    assert Ratio(l1, l1) == d / d;
    QuotientBetween(d, d, 1.0, 1.0);
  }

  /** The ratio does not depend on the order of the two colours, and a colour against
      itself has ratio 1. */
  lemma ContrastSymmetric(color1: string, color2: string, pow: real -> real)
    requires IsHexColor(color1) && IsHexColor(color2) && PowCurve(pow)
    ensures GetContrastRatio(color1, color2, pow) == GetContrastRatio(color2, color1, pow)
    ensures GetContrastRatio(color1, color1, pow) == 1.0
  {
    var l1 := Luminance(color1, pow);
    var l2 := Luminance(color2, pow);
    RatioSymmetric(l1, l2);
    assert GetContrastRatio(color1, color2, pow) == Ratio(l1, l2);
    assert GetContrastRatio(color2, color1, pow) == Ratio(l2, l1);
    assert GetContrastRatio(color1, color1, pow) == Ratio(l1, l1);
  }

  lemma ChannelsOfBlackAndWhite()
    ensures IsHexColor("#000000") && IsHexColor("#FFFFFF")
    ensures Channels("#000000") == Rgb(0.0, 0.0, 0.0)
    ensures Channels("#FFFFFF") == Rgb(1.0, 1.0, 1.0)
  {
    ChannelsOfDigits('0', '0', '0', '0', '0', '0');
    ChannelsOfDigits('F', 'F', 'F', 'F', 'F', 'F');
  }

  /** Black has luminance 0 whatever the gamma curve; white has luminance 1; and white
      on black reaches the maximum ratio, 21. */
  lemma BlackAndWhite(pow: real -> real)
    requires PowCurve(pow)
    ensures IsHexColor("#000000") && IsHexColor("#FFFFFF")
    ensures Luminance("#000000", pow) == 0.0
    ensures Luminance("#FFFFFF", pow) == 1.0
    ensures GetContrastRatio("#FFFFFF", "#000000", pow) == 21.0
  {
    ChannelsOfBlackAndWhite();
    LineariseInUnit(0.0, pow);
    LineariseInUnit(1.0, pow);
  }

  /** The grade of a ratio and whether it passes. */
  datatype Verdict = Verdict(level: string, pass: bool)

  /** The grading by the 7 / 4.5 / 3 thresholds: every grade but "Fail" passes, and a
      ratio passes exactly when it reaches 3. */
  function Classify(ratio: real): (v: Verdict)
    ensures v.pass <==> v.level != "Fail"
    ensures v.pass <==> ratio >= 3.0
    ensures v.level == "AAA" <==> ratio >= 7.0
    ensures v.level == "AA" <==> 4.5 <= ratio < 7.0
    ensures v.level == "AA Large" <==> 3.0 <= ratio < 4.5
  {
    if ratio >= 7.0 then Verdict("AAA", true)
    else if ratio >= 4.5 then Verdict("AA", true)
    else if ratio >= 3.0 then Verdict("AA Large", true)
    else Verdict("Fail", false)
  }

  /** The thresholds are inclusive: 7 is AAA, 4.5 is AA, 3 is AA Large, just below 3 fails. */
  lemma ClassifyBoundaries()
    ensures Classify(7.0) == Verdict("AAA", true)
    ensures Classify(4.5) == Verdict("AA", true)
    ensures Classify(3.0) == Verdict("AA Large", true)
    ensures Classify(2.99) == Verdict("Fail", false)
    ensures Classify(21.0) == Verdict("AAA", true)
  {
  }

  /** The grades in increasing order of demand. */
  function Rank(level: string): (n: nat)
    ensures n <= 3
  {
    if level == "AAA" then 3 else if level == "AA" then 2 else if level == "AA Large" then 1 else 0
  }

  /** A higher ratio never gets a lower grade. */
  lemma ClassifyMonotone(r1: real, r2: real)
    requires r1 <= r2
    ensures Rank(Classify(r1).level) <= Rank(Classify(r2).level)
    ensures Classify(r1).pass ==> Classify(r2).pass
  {
  }

  /** One scored pair: the background and foreground shades, their ratio and its grade. */
  datatype ContrastScore = ContrastScore(
    background: ColorShade, foreground: ColorShade, ratio: real, level: string, pass: bool)

  /** The tiers that are tested against each other. */
  const TestShades: seq<int> := [50, 100, 200, 500, 700, 900]

  lemma TestShadesIncreasing()
    ensures forall i, j :: 0 <= i < j < |TestShades| ==> TestShades[i] < TestShades[j]
  {
  }

  /** `colorShades.find((s) => s.shade === tier)`: the first shade of that tier, if any. */
  function Find(shades: seq<ColorShade>, tier: int): (r: Option<ColorShade>)
    ensures r.Some? ==> r.value in shades && r.value.shade == tier
    ensures r.None? <==> forall k :: 0 <= k < |shades| ==> shades[k].shade != tier
  {
    if shades == [] then None
    else if shades[0].shade == tier then Some(shades[0])
    else Find(shades[1..], tier)
  }

  /** What `find` returns is the first shade of the tier: no earlier shade has it. */
  lemma {:induction false} FindFirst(shades: seq<ColorShade>, tier: int)
    ensures Find(shades, tier).Some? ==> exists k :: (0 <= k < |shades| && shades[k] == Find(shades, tier).value
      && forall m :: 0 <= m < k ==> shades[m].shade != tier)
  {
    if shades != [] && shades[0].shade != tier {
      var r := Find(shades[1..], tier);
      FindFirst(shades[1..], tier);
      if r.Some? {
        var k :| 0 <= k < |shades| - 1 && shades[1..][k] == r.value
          && forall m :: 0 <= m < k ==> shades[1..][m].shade != tier;
        assert shades[k + 1] == r.value;
        forall m | 0 <= m < k + 1 ensures shades[m].shade != tier {
          if m > 0 {
            assert shades[m] == shades[1..][m - 1];
          }
        }
      }
    } else if shades != [] {
      assert shades[0] == Find(shades, tier).value;
    }
  }

  /** Every shade carries a colour `getLuminance` can read. */
  predicate ValidShades(shades: seq<ColorShade>) {
    forall k :: 0 <= k < |shades| ==> IsHexColor(shades[k].hex)
  }

  /** The record pushed for a background and a foreground shade. */
  function ScoreOf(bg: ColorShade, fg: ColorShade, pow: real -> real): (s: ContrastScore)
    requires IsHexColor(bg.hex) && IsHexColor(fg.hex) && PowCurve(pow)
    ensures 1.0 <= s.ratio <= 21.0
    ensures Verdict(s.level, s.pass) == Classify(s.ratio)
    ensures s.background == bg && s.foreground == fg
  {
    var ratio := GetContrastRatio(bg.hex, fg.hex, pow);
    var v := Classify(ratio);
    ContrastScore(bg, fg, ratio, v.level, v.pass)
  }

  /** The scores the loop pushes for test tiers `i` and `j`: one when both tiers are
      found, none otherwise. */
  function PairScore(shades: seq<ColorShade>, pow: real -> real, i: nat, j: nat): (r: seq<ContrastScore>)
    requires i < |TestShades| && j < |TestShades| && ValidShades(shades) && PowCurve(pow)
    ensures |r| <= 1
  {
    var bg := Find(shades, TestShades[i]);
    var fg := Find(shades, TestShades[j]);
    if bg.Some? && fg.Some? then [ScoreOf(bg.value, fg.value, pow)] else []
  }

  /** The scores pushed for background tier `i` and foreground tiers `i + 1` to `j - 1`. */
  function Row(shades: seq<ColorShade>, pow: real -> real, i: nat, j: nat): seq<ContrastScore>
    requires i < j <= |TestShades| && ValidShades(shades) && PowCurve(pow)
    decreases j
  {
    if j == i + 1 then [] else Row(shades, pow, i, j - 1) + PairScore(shades, pow, i, j - 1)
  }

  /** The scores pushed for background tiers `0` to `i - 1`, in the order of the loops. */
  function Rows(shades: seq<ColorShade>, pow: real -> real, i: nat): seq<ContrastScore>
    requires i <= |TestShades| && ValidShades(shades) && PowCurve(pow)
  {
    if i == 0 then [] else Rows(shades, pow, i - 1) + Row(shades, pow, i - 1, |TestShades|)
  }

  predicate SortedByRatio(s: seq<ContrastScore>) {
    forall i, j :: 0 <= i < j < |s| ==> s[i].ratio >= s[j].ratio
  }

  /** Places a score before the first one whose ratio it reaches. */
  function InsertByRatio(x: ContrastScore, t: seq<ContrastScore>): (r: seq<ContrastScore>)
    ensures multiset(r) == multiset(t) + multiset{x}
  {
    if t == [] || x.ratio >= t[0].ratio then [x] + t
    else
      assert t == [t[0]] + t[1..];
      [t[0]] + InsertByRatio(x, t[1..])
  }

  lemma {:induction false} InsertKeepsSorted(x: ContrastScore, t: seq<ContrastScore>)
    requires SortedByRatio(t)
    ensures SortedByRatio(InsertByRatio(x, t))
  {
    if t != [] && x.ratio < t[0].ratio {
      var rest := InsertByRatio(x, t[1..]);
      InsertKeepsSorted(x, t[1..]);
      forall k | 0 <= k < |rest| ensures rest[k].ratio <= t[0].ratio {
        assert rest[k] in multiset(rest);
        assert rest[k] in multiset(t[1..]) + multiset{x};
        if rest[k] != x {
          assert rest[k] in t[1..];
        }
      }
    }
  }

  /** `results.sort((a, b) => b.ratio - a.ratio)`: a stable sort by ratio, highest first. */
  function SortByRatio(s: seq<ContrastScore>): (r: seq<ContrastScore>)
    ensures multiset(r) == multiset(s)
    ensures SortedByRatio(r)
  {
    if s == [] then []
    else
      assert s == [s[0]] + s[1..];
      InsertKeepsSorted(s[0], SortByRatio(s[1..]));
      InsertByRatio(s[0], SortByRatio(s[1..]))
  }

  /** One more foreground tier extends the row by that pair's scores. */
  lemma RowStep(shades: seq<ColorShade>, pow: real -> real, i: nat, j: nat, before: seq<ContrastScore>)
    requires i < j < |TestShades| && ValidShades(shades) && PowCurve(pow)
    ensures before + Row(shades, pow, i, j) + PairScore(shades, pow, i, j) == before + Row(shades, pow, i, j + 1)
  {
  }

  /** The grading step of the loop body: the level and the pass flag are set by the
      chain of thresholds, and agree with Classify. */
  method GradeRatio(ratio: real) returns (level: string, pass: bool)
    ensures Verdict(level, pass) == Classify(ratio)
  {
    level := "";
    pass := false;
    if ratio >= 7.0 {
      level := "AAA";
      pass := true;
    } else if ratio >= 4.5 {
      level := "AA";
      pass := true;
    } else if ratio >= 3.0 {
      level := "AA Large";
      pass := true;
    } else {
      level := "Fail";
      pass := false;
    }
  }

  /** `calculatePaletteAccessibility`: scores every pair of test tiers, background tier
      before foreground tier, that the palette has, then sorts the scores by ratio. */
  method CalculatePaletteAccessibility(colorShades: seq<ColorShade>, pow: real -> real)
    returns (scores: seq<ContrastScore>)
    requires ValidShades(colorShades) && PowCurve(pow)
    ensures scores == SortByRatio(Rows(colorShades, pow, |TestShades|))
    ensures multiset(scores) == multiset(Rows(colorShades, pow, |TestShades|))
    ensures SortedByRatio(scores)
  {
    var results: seq<ContrastScore> := [];
    var i := 0;
    while i < |TestShades|
      invariant 0 <= i <= |TestShades|
      invariant results == Rows(colorShades, pow, i)
    {
      results := ScoreBackground(colorShades, pow, i, results);
      i := i + 1;
    }
    scores := SortByRatio(results);
  }

  /** The inner loop of `calculatePaletteAccessibility`: test tier `i` as the background
      against every darker test tier, pushing one score for each pair the palette has. */
  method ScoreBackground(colorShades: seq<ColorShade>, pow: real -> real, i: nat, results: seq<ContrastScore>)
    returns (extended: seq<ContrastScore>)
    requires i < |TestShades| && ValidShades(colorShades) && PowCurve(pow)
    ensures extended == results + Row(colorShades, pow, i, |TestShades|)
  {
    var testShades := TestShades;
    extended := results;
    var j := i + 1;
    while j < |testShades|
      invariant i + 1 <= j <= |testShades|
      invariant extended == results + Row(colorShades, pow, i, j)
    {
      ghost var before := extended;
      var bgShade := Find(colorShades, testShades[i]);
      var fgShade := Find(colorShades, testShades[j]);
      if bgShade.Some? && fgShade.Some? {
        var ratio := GetContrastRatio(bgShade.value.hex, fgShade.value.hex, pow);
        var level, pass := GradeRatio(ratio);
        extended := extended + [ContrastScore(bgShade.value, fgShade.value, ratio, level, pass)];
        assert extended == before + [ScoreOf(bgShade.value, fgShade.value, pow)];
      }
      assert extended == before + PairScore(colorShades, pow, i, j);
      assert extended == results + Row(colorShades, pow, i, j + 1) by {
        RowStep(colorShades, pow, i, j, results);
      }
      j := j + 1;
    }
  }

  /** What every score satisfies: both shades come from the palette and from the test
      tiers, the background tier is the lighter one, the ratio is that of the two colours
      and the grade is the grading of the ratio. */
  predicate WellFormedScore(shades: seq<ColorShade>, pow: real -> real, s: ContrastScore)
    requires ValidShades(shades) && PowCurve(pow)
  {
    && s.background in shades && s.foreground in shades
    && s.background.shade in TestShades && s.foreground.shade in TestShades
    && s.background.shade < s.foreground.shade
    && s.ratio == GetContrastRatio(s.background.hex, s.foreground.hex, pow)
    && Verdict(s.level, s.pass) == Classify(s.ratio)
  }

  lemma {:induction false} RowWellFormed(shades: seq<ColorShade>, pow: real -> real, i: nat, j: nat)
    requires i < j <= |TestShades| && ValidShades(shades) && PowCurve(pow)
    ensures forall s :: s in Row(shades, pow, i, j) ==> WellFormedScore(shades, pow, s)
    decreases j
  {
    if j > i + 1 {
      var front, last := Row(shades, pow, i, j - 1), PairScore(shades, pow, i, j - 1);
      assert Row(shades, pow, i, j) == front + last;
      RowWellFormed(shades, pow, i, j - 1);
      PairWellFormed(shades, pow, i, j - 1);
      forall s | s in front + last ensures WellFormedScore(shades, pow, s) {
        if s !in front {
          assert s in last;
        }
      }
    }
  }

  lemma PairWellFormed(shades: seq<ColorShade>, pow: real -> real, i: nat, j: nat)
    requires i < j < |TestShades| && ValidShades(shades) && PowCurve(pow)
    ensures forall s :: s in PairScore(shades, pow, i, j) ==> WellFormedScore(shades, pow, s)
  {
    TestShadesIncreasing();
  }

  lemma {:induction false} RowsWellFormed(shades: seq<ColorShade>, pow: real -> real, i: nat)
    requires i <= |TestShades| && ValidShades(shades) && PowCurve(pow)
    ensures forall s :: s in Rows(shades, pow, i) ==> WellFormedScore(shades, pow, s)
  {
    if i > 0 {
      RowsWellFormed(shades, pow, i - 1);
      RowWellFormed(shades, pow, i - 1, |TestShades|);
    }
  }

  /** Every score of the scorer is well formed, and one passes exactly when its ratio reaches 3. */
  lemma ScoresWellFormed(shades: seq<ColorShade>, pow: real -> real)
    requires ValidShades(shades) && PowCurve(pow)
    ensures forall s :: s in SortByRatio(Rows(shades, pow, |TestShades|)) ==>
      WellFormedScore(shades, pow, s) && (s.pass <==> s.ratio >= 3.0)
  {
    var u := Rows(shades, pow, |TestShades|);
    RowsWellFormed(shades, pow, |TestShades|);
    forall s | s in SortByRatio(u) ensures s in u {
      assert s in multiset(SortByRatio(u));
    }
  }

  /** A test tier the palette lacks appears in no score. */
  lemma MissingTierSkipped(shades: seq<ColorShade>, pow: real -> real, tier: int)
    requires ValidShades(shades) && PowCurve(pow)
    requires forall k :: 0 <= k < |shades| ==> shades[k].shade != tier
    ensures forall s :: s in Rows(shades, pow, |TestShades|) ==>
      s.background.shade != tier && s.foreground.shade != tier
  {
    RowsWellFormed(shades, pow, |TestShades|);
  }

  /** How many pairs backgrounds `0` to `i - 1` have among the six test tiers. */
  function PairsBefore(i: nat): nat
    requires i <= |TestShades|
  {
    if i == 0 then 0 else PairsBefore(i - 1) + (|TestShades| - i)
  }

  /** The palette has a shade of every test tier. */
  predicate HasTestTiers(shades: seq<ColorShade>) {
    forall t :: t in TestShades ==> Find(shades, t).Some?
  }

  lemma {:induction false} RowLength(shades: seq<ColorShade>, pow: real -> real, i: nat, j: nat)
    requires i < j <= |TestShades| && ValidShades(shades) && PowCurve(pow)
    ensures |Row(shades, pow, i, j)| <= j - i - 1
    ensures HasTestTiers(shades) ==> |Row(shades, pow, i, j)| == j - i - 1
    decreases j
  {
    if j > i + 1 {
      RowLength(shades, pow, i, j - 1);
      PairLength(shades, pow, i, j - 1);
      assert Row(shades, pow, i, j) == Row(shades, pow, i, j - 1) + PairScore(shades, pow, i, j - 1);
    }
  }

  /** A pair is scored once when the palette has every test tier. */
  lemma PairLength(shades: seq<ColorShade>, pow: real -> real, i: nat, j: nat)
    requires i < j < |TestShades| && ValidShades(shades) && PowCurve(pow)
    ensures HasTestTiers(shades) ==> |PairScore(shades, pow, i, j)| == 1
  {
    if HasTestTiers(shades) {
      assert TestShades[i] in TestShades && TestShades[j] in TestShades;
    }
  }

  lemma {:induction false} RowsLength(shades: seq<ColorShade>, pow: real -> real, i: nat)
    requires i <= |TestShades| && ValidShades(shades) && PowCurve(pow)
    ensures |Rows(shades, pow, i)| <= PairsBefore(i)
    ensures HasTestTiers(shades) ==> |Rows(shades, pow, i)| == PairsBefore(i)
  {
    if i > 0 {
      RowsLength(shades, pow, i - 1);
      RowLength(shades, pow, i - 1, |TestShades|);
    }
  }

  /** At most fifteen scores, and exactly fifteen when the palette has every test tier. */
  lemma ScoreCount(shades: seq<ColorShade>, pow: real -> real)
    requires ValidShades(shades) && PowCurve(pow)
    ensures |SortByRatio(Rows(shades, pow, |TestShades|))| <= 15
    ensures HasTestTiers(shades) ==>
      |SortByRatio(Rows(shades, pow, |TestShades|))| == 15
  {
    var u := Rows(shades, pow, |TestShades|);
    RowsLength(shades, pow, |TestShades|);
    assert PairsBefore(|TestShades|) == 15 by {
      assert PairsBefore(1) == 5 && PairsBefore(2) == 9 && PairsBefore(3) == 12;
      assert PairsBefore(4) == 14 && PairsBefore(5) == 15 && PairsBefore(6) == 15;
    }
    var r := SortByRatio(u);
    assert multiset(r) == multiset(u);
    assert |r| == |multiset(r)| && |u| == |multiset(u)|;
  }

  lemma {:induction false} RowContains(shades: seq<ColorShade>, pow: real -> real, i: nat, j: nat, n: nat)
    requires i < j < n <= |TestShades| && ValidShades(shades) && PowCurve(pow)
    ensures forall s :: s in PairScore(shades, pow, i, j) ==> s in Row(shades, pow, i, n)
    decreases n
  {
    var front, last := Row(shades, pow, i, n - 1), PairScore(shades, pow, i, n - 1);
    assert Row(shades, pow, i, n) == front + last;
    if n - 1 > j {
      RowContains(shades, pow, i, j, n - 1);
    }
    forall s | s in PairScore(shades, pow, i, j) ensures s in front + last {
    }
  }

  lemma {:induction false} RowsContain(shades: seq<ColorShade>, pow: real -> real, i: nat, n: nat)
    requires i < n <= |TestShades| && ValidShades(shades) && PowCurve(pow)
    ensures forall s :: s in Row(shades, pow, i, |TestShades|) ==> s in Rows(shades, pow, n)
  {
    if n - 1 > i {
      RowsContain(shades, pow, i, n - 1);
    }
  }

  /** Every pair of test tiers `i < j` that the palette has is scored, with the first
      shade of each tier. */
  lemma PairScored(shades: seq<ColorShade>, pow: real -> real, i: nat, j: nat)
    requires i < j < |TestShades| && ValidShades(shades) && PowCurve(pow)
    requires Find(shades, TestShades[i]).Some? && Find(shades, TestShades[j]).Some?
    ensures ScoreOf(Find(shades, TestShades[i]).value, Find(shades, TestShades[j]).value, pow)
      in Rows(shades, pow, |TestShades|)
  {
    RowContains(shades, pow, i, j, |TestShades|);
    RowsContain(shades, pow, i, |TestShades|);
  }

  /** A palette carrying the ten tiers in order has every test tier. */
  lemma TiersHaveTestShades(palette: seq<ColorShade>)
    requires |palette| == 10 && forall i :: 0 <= i < 10 ==> palette[i].shade == ShadeTiers[i]
    ensures HasTestTiers(palette)
  {
    forall t | t in TestShades ensures Find(palette, t).Some? {
      var k := if t == 50 then 0 else if t == 100 then 1 else if t == 200 then 2
        else if t == 500 then 5 else if t == 700 then 7 else 9;
      assert palette[k].shade == t;
    }
  }

  /** A generated palette (non-negative vibrancy, hue shift of at least -360) can be
      scored and yields all fifteen pairs. */
  lemma GeneratedPaletteScores(baseColor: string, vibrancy: int, hueShift: int, pow: real -> real)
    requires IsHexColor(baseColor) && vibrancy >= 0 && hueShift >= -360 && PowCurve(pow)
    ensures ValidShades(GenerateColorShades(baseColor, vibrancy, hueShift))
    ensures |SortByRatio(Rows(GenerateColorShades(baseColor, vibrancy, hueShift), pow, |TestShades|))| == 15
  {
    var palette := GenerateColorShades(baseColor, vibrancy, hueShift);
    PaletteHexCanonical(baseColor, vibrancy, hueShift);
    PaletteFields(baseColor, vibrancy, hueShift);
    TiersHaveTestShades(palette);
    ScoreCount(palette, pow);
  }

  /** `filter((score) => score.pass)`: the passing scores, in order. */
  function Passing(scores: seq<ContrastScore>): (r: seq<ContrastScore>)
    ensures |r| <= |scores|
  {
    if scores == [] then []
    else (if scores[0].pass then [scores[0]] else []) + Passing(scores[1..])
  }

  /** `filter((score) => !score.pass)`: the failing scores, in order. */
  function Failing(scores: seq<ContrastScore>): (r: seq<ContrastScore>)
    ensures |r| <= |scores|
  {
    if scores == [] then []
    else (if scores[0].pass then [] else [scores[0]]) + Failing(scores[1..])
  }

  /** A score is kept by the passing filter iff it is one of the scores and passes. */
  lemma {:induction false} PassingMembers(scores: seq<ContrastScore>)
    ensures forall s :: s in Passing(scores) <==> s in scores && s.pass
  {
    if scores != [] {
      PassingMembers(scores[1..]);
      assert scores == [scores[0]] + scores[1..];
    }
  }

  /** A score is kept by the failing filter iff it is one of the scores and fails. */
  lemma {:induction false} FailingMembers(scores: seq<ContrastScore>)
    ensures forall s :: s in Failing(scores) <==> s in scores && !s.pass
  {
    if scores != [] {
      FailingMembers(scores[1..]);
      assert scores == [scores[0]] + scores[1..];
    }
  }

  /** The two filters split the scores: together they hold every score exactly as often. */
  lemma {:induction false} FiltersPartition(scores: seq<ContrastScore>)
    ensures multiset(Passing(scores)) + multiset(Failing(scores)) == multiset(scores)
  {
    if scores != [] {
      var rest := scores[1..];
      FiltersPartition(rest);
      assert scores == [scores[0]] + rest;
      assert multiset(scores) == multiset{scores[0]} + multiset(rest);
      if scores[0].pass {
        PassingCons(scores);
        assert multiset(Passing(scores)) == multiset{scores[0]} + multiset(Passing(rest));
      } else {
        FailingCons(scores);
        assert multiset(Failing(scores)) == multiset{scores[0]} + multiset(Failing(rest));
      }
    }
  }

  lemma {:induction false} NonePass(scores: seq<ContrastScore>)
    requires forall k :: 0 <= k < |scores| ==> !scores[k].pass
    ensures Passing(scores) == [] && Failing(scores) == scores
  {
    if scores != [] {
      NonePass(scores[1..]);
    }
  }

  /** In scores sorted by ratio whose pass flag is the 3:1 threshold, the passing ones
      come first: the list is the passing filter followed by the failing filter. */
  lemma {:induction false} PassingFirst(scores: seq<ContrastScore>)
    requires SortedByRatio(scores)
    requires forall k :: 0 <= k < |scores| ==> (scores[k].pass <==> scores[k].ratio >= 3.0)
    ensures scores == Passing(scores) + Failing(scores)
  {
    if scores != [] {
      if scores[0].pass {
        var rest := scores[1..];
        SortedTail(scores);
        PassingFirst(rest);
        PassingCons(scores);
        ConsAppend(scores[0], Passing(rest), Failing(rest));
        assert scores == [scores[0]] + rest;
      } else {
        forall k | 0 <= k < |scores| ensures !scores[k].pass {
          if k > 0 {
            assert scores[0].ratio >= scores[k].ratio;
          }
        }
        NonePass(scores);
      }
    }
  }

  lemma SortedTail(scores: seq<ContrastScore>)
    requires scores != [] && SortedByRatio(scores)
    ensures SortedByRatio(scores[1..])
  {
    var rest := scores[1..];
    forall a, b | 0 <= a < b < |rest| ensures rest[a].ratio >= rest[b].ratio {
      assert rest[a] == scores[a + 1] && rest[b] == scores[b + 1];
    }
  }

  /** A passing head is kept by the passing filter and dropped by the failing one. */
  lemma PassingCons(scores: seq<ContrastScore>)
    requires scores != [] && scores[0].pass
    ensures Passing(scores) == [scores[0]] + Passing(scores[1..])
    ensures Failing(scores) == Failing(scores[1..])
  {
    assert [scores[0]] + [] == [scores[0]];
  }

  /** A failing head is dropped by the passing filter and kept by the failing one. */
  lemma FailingCons(scores: seq<ContrastScore>)
    requires scores != [] && !scores[0].pass
    ensures Passing(scores) == Passing(scores[1..])
    ensures Failing(scores) == [scores[0]] + Failing(scores[1..])
  {
    assert [scores[0]] + [] == [scores[0]];
  }

  lemma ConsAppend(x: ContrastScore, a: seq<ContrastScore>, b: seq<ContrastScore>)
    ensures [x] + (a + b) == ([x] + a) + b
  {
  }

  /** The scorer's result is its passing scores followed by its failing scores. */
  lemma AccessibilitySplit(shades: seq<ColorShade>, pow: real -> real)
    requires ValidShades(shades) && PowCurve(pow)
    ensures var scores := SortByRatio(Rows(shades, pow, |TestShades|));
      scores == Passing(scores) + Failing(scores)
  {
    var scores := SortByRatio(Rows(shades, pow, |TestShades|));
    ScoresWellFormed(shades, pow);
    PassingFirst(scores);
  }
}
