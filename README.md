# Colour palette generator: the colour engine in Dafny

This project models the colour engine of a palette generator web component
(`components/color-palette-generator.tsx`). The user picks a base colour, a vibrancy and a
hue shift. The engine then:

- repairs free text typed as a colour into `#RRGGBB` (`formatHexValue`);
- converts between hex and HSL (`hexToHSL`, `hslToHex` with `hue2rgb` and `toHex`);
- builds a ramp of ten shades, tiers 50 to 900, with a fixed lightness per tier, one shared
  hue and a saturation shaped by tier and vibrancy (`generateColorShades`);
- scores the contrast of six test tiers against each other with the WCAG 2.1 contrast ratio
  (Understanding Success Criteria 1.4.3 and 1.4.6) and grades each pair AAA / AA / AA Large /
  Fail (`getLuminance`, `getContrastRatio`, `calculatePaletteAccessibility`), sorted by ratio,
  then split into passing and failing pairs;
- writes the palette as CSS custom properties (`downloadCSS`);
- draws a new random base colour (`randomizeColor`).

Modules, one file each:

- `JsMath` (`js_math.dfy`): `Math.round`, `Math.trunc`, the `%` operator on integers and on
  reals, and `Math.min`/`Math.max`, over exact reals and unbounded integers.
- `HexText` (`hex_text.dfy`):
  - hex digits and colour strings;
  - `toString(16)`, proved to round-trip with `parseInt(…, 16)`;
  - `toUpperCase` on ASCII.
- `Converter` (`converter.dfy`):
  - `hexToHSL` is a method that updates `h`, `s` and `l` in place, as the source does. It is
    proved equal to the expression `HslOf`.
  - `hslToHex`, `hue2rgb` and `toHex` are functions.
- `Shades` (`shades.dfy`): `generateColorShades`, with the closure state (base colour,
  vibrancy, hue shift) as parameters.
- `Normalizer` (`normalizer.dfy`):
  - `formatHexValue` is a method. A loop strips the non-hex characters, then the source's
    chain of length branches runs.
  - It is proved equal to `Formatted`, which states the repair as a table: which stripped
    digit lands at each output position.
- `Contrast` (`contrast.dfy`):
  - luminance, the contrast ratio and the grading;
  - `calculatePaletteAccessibility` is a method with the source's two nested loops. It is
    proved equal to the sorted `Rows` specification;
  - the sort, and the two filters.
- `CssExport` (`css_export.dfy`): the CSS text. The method accumulates it shade by shade.
- `RandomColor` (`random_color.dfy`): the arithmetic of `randomizeColor`.

Numbers:

- All numbers are exact reals or unbounded integers.
- `Math.round(x)` is `Floor(x + 1/2)`.
- JavaScript's `%` keeps the sign of the dividend. That is written out in `IntRem` and `RealRem`.
- `Math.pow(x, 2.4)` is a parameter `pow`. The members that need its shape assume `PowCurve(pow)`: it maps [0, 1] into [0, 1] and 1 to 1.
- The `Math.random()` draws are the fields of a `Draws` value.

`getLuminance` removes the first `#` anywhere (`replace("#", "")`), while `hexToHSL` removes a
leading one. On the accepted colours, six hex digits with an optional leading `#`, both are
`StripHash`.

Three behaviours of the code that are easy to miss:

- `hexToHSL` can return hue 360, not only [0, 360): `#FF0001` gives 360 (`HueCanRoundTo360`).
- The shade hue is in [0, 360) whenever the hue shift is at least -360 (`PaletteSharedHue`).
  It can be negative only when base hue plus shift is below -360 (`AdjustedHueIsTurn`). The
  slider keeps the shift in [-180, 180].
- `formatHexValue` returns the fallback colour unchanged and unchecked when the text has no hex
  digit. So it does not always return `#[0-9A-F]{6}` (`FormatNoDigits`).

## Model

| member | source | states |
|---|---|---|
| JsMath.Round | components/color-palette-generator.tsx:80-82 | `Math.round` lands within one half of its argument |
| JsMath.IntRem | components/color-palette-generator.tsx:129 | `%` on integers: the dividend minus the remainder is a multiple of n; a non-negative dividend gives a remainder in [0, n), a negative one a remainder in (-n, 0] |
| JsMath.RealRem | components/color-palette-generator.tsx:385 | `%` on reals: the dividend minus the remainder is a whole multiple of n; a non-negative dividend gives a remainder in [0, n), a negative one a remainder in (-n, 0] |
| HexText.ParseHexString | components/color-palette-generator.tsx:116 | parsing what `toString(16)` writes gives the number back |
| HexText.HexStringLength | components/color-palette-generator.tsx:116-117 | a byte is written with one hex digit below 16 and two from 16, which is why `toHex` pads |
| HexText.ParseUpper | components/color-palette-generator.tsx:120 | upper-casing keeps every digit a hex digit and keeps the parsed value |
| HexText.Byte | components/color-palette-generator.tsx:50-52 | each pair of hex digits parses to a value below 256 |
| HexText.HexString | components/color-palette-generator.tsx:116 | `toString(16)` on a non-negative integer: its contract gives one or more lower-case hex digits; `ParseHexString` proves that parsing them gives the number back and `HexStringLength` gives their count |
| HexText.ParseHex | components/color-palette-generator.tsx:50-52 | `parseInt(…, 16)` on hex digits: the inverse of `HexString` by `ParseHexString`; kept by upper-casing by `ParseUpper` |
| HexText.Upper | components/color-palette-generator.tsx:120 | `toUpperCase` on ASCII: its contract keeps the length; `ParseUpper` proves it keeps every hex digit and the parsed value |
| HexText.StripHash | components/color-palette-generator.tsx:47 | the removal of a leading `#` (also what `replace("#", "")` does at line 409 on accepted colours): its contract leaves exactly six hex digits, which `Channels` and `Byte` read |
| Converter.Channels | components/color-palette-generator.tsx:47-52 | each decoded channel is in [0, 1] |
| Converter.HexToHSL | components/color-palette-generator.tsx:45-85 | the in-place computation equals `HslOf`; hue in [0, 360], saturation and lightness in [0, 100] |
| Converter.HslBounds | components/color-palette-generator.tsx:55-82 | hue in [0, 360], saturation and lightness in [0, 100]; equal channels give hue 0 and saturation 0, with no division by zero |
| Converter.HslOfRed | components/color-palette-generator.tsx:45-85 | `#FF0000` converts to (0, 100, 50) |
| Converter.HueCanRoundTo360 | components/color-palette-generator.tsx:69-80 | `#FF0001` converts to hue 360: the rounded hue can reach 360 |
| Converter.NearGreyHasNoSaturation | components/color-palette-generator.tsx:64-81 | `#7F7F80` has unequal channels but rounds to saturation 0 |
| Converter.IntermediateBounds | components/color-palette-generator.tsx:107-108 | for saturation and lightness in [0, 1], 0 <= p <= q <= 1 |
| Converter.Hue2RgbBetween | components/color-palette-generator.tsx:98-105 | `hue2rgb` returns a value between p and q for any offset in [-1, 2] |
| Converter.HslChannelsInUnit | components/color-palette-generator.tsx:88-113 | for hue in [0, 360] and saturation and lightness in [0, 100], every channel is in [0, 1] |
| Converter.ToHexByte | components/color-palette-generator.tsx:115-118 | for a channel in [0, 1], `toHex` writes exactly two hex digits whose value is the rounded byte |
| Converter.UpperToHexByte | components/color-palette-generator.tsx:115-120 | after upper-casing, the two digits are upper-case hex and still parse to the rounded byte |
| Converter.HslToHexCanonical | components/color-palette-generator.tsx:88-121 | in range, the output is `#` and six upper-case hex digits, and decoding it gives back the rounded channels |
| Converter.GreyHslToHex | components/color-palette-generator.tsx:95-96 | saturation 0 gives three equal byte pairs, which convert back to hue 0 and saturation 0 |
| Converter.GreyIgnoresHue | components/color-palette-generator.tsx:95-96 | with saturation 0 the hue does not change the output |
| Converter.HslToHexRed | components/color-palette-generator.tsx:88-121 | (0, 100, 50) converts to `#FF0000` |
| Converter.HslOf | components/color-palette-generator.tsx:45-85 | what `hexToHSL` returns: `HexToHSL` is proved equal to it, `HslBounds` bounds it, `HslOfRed`, `HueCanRoundTo360` and `NearGreyHasNoSaturation` pin values |
| Converter.Hue2Rgb | components/color-palette-generator.tsx:98-105 | `hue2rgb`: `Hue2RgbBetween` proves it stays between p and q for offsets in [-1, 2] |
| Converter.ToHex | components/color-palette-generator.tsx:115-118 | `toHex`: `ToHexByte` proves two hex digits whose value is the rounded byte, for a channel in [0, 1] |
| Converter.HslToHex | components/color-palette-generator.tsx:88-121 | `hslToHex`: `HslToHexCanonical` proves canonical output that decodes to the rounded channels; `GreyHslToHex` and `GreyIgnoresHue` cover saturation 0; `HslToHexRed` pins red |
| Converter.HslChannels | components/color-palette-generator.tsx:89-113 | the three unrounded channels: `HslChannelsInUnit` proves each in [0, 1], `ChannelsOfRed` pins red |
| Converter.UpperValue | components/color-palette-generator.tsx:107 | the upper intermediate value q: `IntermediateBounds` proves 0 <= 2l - q <= q <= 1 |
| Shades.PaletteTiers | components/color-palette-generator.tsx:125 | exactly ten records with tiers 50, 100, 200, 300, 400, 500, 600, 700, 800, 900, increasing |
| Shades.PaletteLightness | components/color-palette-generator.tsx:139-152 | lightness 96, 90, 80, 70, 60, 50, 40, 30, 20, 10, strictly decreasing |
| Shades.LightnessIndependentOfInputs | components/color-palette-generator.tsx:152 | the lightness of a tier does not depend on the base colour, vibrancy or hue shift |
| Shades.PaletteSharedHue | components/color-palette-generator.tsx:129 | every record has the hue `(baseHue + hueShift + 360) % 360`, which is in [0, 360) when the shift is at least -360 |
| Shades.MultiplierBounds | components/color-palette-generator.tsx:133-134 | the vibrancy multiplier is in [0, 1.7] for a non-negative vibrancy |
| Shades.AdjustedSaturationBounds | components/color-palette-generator.tsx:158-173 | the shaped, capped saturation is in [0, 100] |
| Shades.PaletteSaturation | components/color-palette-generator.tsx:173-182 | the saturation field is the rounded shaped value, the hex uses the unrounded value, and the field is in [0, 100] for a non-negative vibrancy |
| Shades.PaletteHexCanonical | components/color-palette-generator.tsx:176 | every record's hex is `#` and six upper-case hex digits |
| Shades.GreyBaseGivesGreyRamp | components/color-palette-generator.tsx:126-176 | a base colour with saturation 0 gives a ramp of greys: every saturation 0 and three equal byte pairs in every hex, whatever the vibrancy and hue shift |
| Shades.AdjustedHueIsTurn | components/color-palette-generator.tsx:129 | the shade hue differs from base hue plus shift by a whole number of turns; it is that sum modulo 360 when the sum is at least -360, and in (-360, 0] below |
| Shades.VibrancyCapped | components/color-palette-generator.tsx:133 | every vibrancy from 85 upwards gives the same palette |
| Shades.RedTier500 | components/color-palette-generator.tsx:124-188 | base `#FF0000`, vibrancy 50, no shift: tier 500 is `#F20D0D` with hue 0, saturation 90, lightness 50 |
| Shades.AdjustedHue | components/color-palette-generator.tsx:129 | the shade hue `(baseHue + hueShift + 360) % 360`: `AdjustedHueIsTurn` proves it is the turned hue up to whole turns |
| Shades.AdjustedSaturation | components/color-palette-generator.tsx:158-173 | the shaped, capped saturation: `AdjustedSaturationBounds` proves it is in [0, 100], `VibrancyCapped` that vibrancy above 85 does not change it |
| Shades.SaturationCoefficient | components/color-palette-generator.tsx:158-170 | the per-tier factor: `AdjustedSaturationBounds` bounds the saturation it shapes to [0, 100] |
| Shades.GenerateColorShades | components/color-palette-generator.tsx:124-188 | `generateColorShades`: the palette lemmas `PaletteTiers`, `PaletteLightness`, `PaletteSharedHue`, `PaletteSaturation`, `PaletteHexCanonical`, `GreyBaseGivesGreyRamp`, `VibrancyCapped` and `RedTier500` state its properties |
| Shades.MakeShade | components/color-palette-generator.tsx:136-185 | the record built for one tier: `ShadeFields` gives its tier, lightness and hue; `ShadeHexCanonical` its canonical hex; `GreyShade` its grey case |
| Normalizer.StripNonHex | components/color-palette-generator.tsx:300 | stripping leaves only hex digits and never lengthens the text; `StripConcat` proves it keeps their order, `StripCounts` their multiplicity, `StripAllHex` that all-hex text is untouched |
| Normalizer.StripConcat | components/color-palette-generator.tsx:300 | the digits of a concatenation are the digits of its first part followed by those of its second: stripping keeps the order of the text |
| Normalizer.StripCounts | components/color-palette-generator.tsx:300 | stripping keeps each hex digit exactly as often as the text has it, and nothing else |
| Normalizer.StripAllHex | components/color-palette-generator.tsx:300 | text that is all hex digits is left unchanged |
| Normalizer.FormatHexValue | components/color-palette-generator.tsx:297-337 | the loop and branches compute `Formatted`: the base colour when no hex digit is found, `#` and six upper-case hex digits otherwise |
| Normalizer.RepairCases | components/color-palette-generator.tsx:306-332 | each length branch of the source produces the repair table's six digits |
| Normalizer.FormattedShape | components/color-palette-generator.tsx:300-303 | with a hex digit the result is `#` and six upper-case hex digits; without one it is the base colour unchanged |
| Normalizer.RepairTable | components/color-palette-generator.tsx:306-332 | by stripped length: 1 repeated six times, 2 as RR RR 00, 3 each doubled, 4 plus 00, 5 plus its first digit, 6 or more the first six |
| Normalizer.FormatIdempotent | components/color-palette-generator.tsx:297-337 | formatting a formatted colour gives it back, whatever the fallback |
| Normalizer.FormatShortForm | components/color-palette-generator.tsx:306-311 | `F00` gives `#FF0000` |
| Normalizer.FormatNoDigits | components/color-palette-generator.tsx:303 | text without a hex digit gives the fallback, which need not be a `#RRGGBB` colour |
| Normalizer.FormatLongForm | components/color-palette-generator.tsx:329-331 | `FFFFFFFF` gives `#FFFFFF` |
| Normalizer.FormatOneDigit | components/color-palette-generator.tsx:316-318 | `F` gives `#FFFFFF` |
| Normalizer.FormatTwoDigits | components/color-palette-generator.tsx:319-321 | `ff` gives `#FFFF00`: two digits are repeated, padded and upper-cased |
| Normalizer.Formatted | components/color-palette-generator.tsx:297-337 | what `formatHexValue` returns: `FormatHexValue` is proved equal to it; `FormattedShape`, `RepairTable` and `FormatIdempotent` state its properties |
| Normalizer.Repeat | components/color-palette-generator.tsx:318 | `hex.repeat(n)`: its contract gives length `n` times that of the text; `RepairCases` uses it for the one-digit branch |
| Normalizer.DoubleEach | components/color-palette-generator.tsx:307-310 | the doubling of each digit: its contract doubles the length; `RepairCases` proves each output digit is input digit `k / 2` |
| Contrast.LineariseInUnit | components/color-palette-generator.tsx:417-419 | the linearised channel stays in [0, 1]; 0 stays 0 and 1 stays 1 |
| Contrast.Luminance | components/color-palette-generator.tsx:407-422 | the relative luminance is in [0, 1] |
| Contrast.Ratio | components/color-palette-generator.tsx:430-433 | the ratio of two non-negative luminances is at least 1, and at most 21 for luminances up to 1 |
| Contrast.GetContrastRatio | components/color-palette-generator.tsx:425-436 | the contrast ratio of two colours is between 1 and 21 |
| Contrast.RatioSymmetric | components/color-palette-generator.tsx:430-433 | the ratio does not depend on which luminance comes first; equal luminances give 1 |
| Contrast.ContrastSymmetric | components/color-palette-generator.tsx:425-436 | swapping the two colours keeps the ratio; a colour against itself gives 1 |
| Contrast.BlackAndWhite | components/color-palette-generator.tsx:407-436 | black has luminance 0, white 1, and white on black has ratio 21 |
| Contrast.Classify | components/color-palette-generator.tsx:455-467 | AAA iff ratio >= 7, AA iff 4.5 <= ratio < 7, AA Large iff 3 <= ratio < 4.5; passes iff the grade is not Fail iff ratio >= 3 |
| Contrast.GradeRatio | components/color-palette-generator.tsx:452-467 | the loop body's chain of thresholds sets the level and the pass flag exactly as `Classify` grades the ratio |
| Contrast.ClassifyBoundaries | components/color-palette-generator.tsx:455-467 | the thresholds are inclusive: 7, 4.5 and 3 get AAA, AA and AA Large, 2.99 fails |
| Contrast.ClassifyMonotone | components/color-palette-generator.tsx:455-467 | a higher ratio never gets a lower grade or loses a pass |
| Contrast.Find | components/color-palette-generator.tsx:447-448 | `find` returns a shade of the palette with the tier, and nothing exactly when no shade has the tier |
| Contrast.FindFirst | components/color-palette-generator.tsx:447-448 | the shade `find` returns is the first one with the tier: no earlier shade has it |
| Contrast.ScoreOf | components/color-palette-generator.tsx:451-475 | a pushed score keeps the two shades, its ratio is in [1, 21] and its grade is the grading of its ratio |
| Contrast.PairScore | components/color-palette-generator.tsx:447-476 | at most one score per pair of test tiers |
| Contrast.InsertByRatio | components/color-palette-generator.tsx:481 | inserting adds exactly the new score |
| Contrast.InsertKeepsSorted | components/color-palette-generator.tsx:481 | inserting into a list sorted by ratio, highest first, keeps it sorted |
| Contrast.SortByRatio | components/color-palette-generator.tsx:481 | the sort is a permutation, sorted by ratio, highest first |
| Contrast.CalculatePaletteAccessibility | components/color-palette-generator.tsx:439-482 | the nested loops push exactly the `Rows` scores; the result is their sort: a permutation, highest ratio first |
| Contrast.ScoreBackground | components/color-palette-generator.tsx:446-476 | the inner loop for background tier `i` appends exactly `Row(i, 6)`: one score per darker test tier when both tiers are in the palette, in tier order |
| Contrast.ScoresWellFormed | components/color-palette-generator.tsx:445-475 | every score has both shades from the palette and from the test tiers, background tier below foreground tier, the colours' ratio and its grade; it passes iff its ratio is at least 3 |
| Contrast.MissingTierSkipped | components/color-palette-generator.tsx:447-450 | a test tier the palette lacks appears in no score |
| Contrast.ScoreCount | components/color-palette-generator.tsx:441-446 | at most fifteen scores, and exactly fifteen when all six test tiers are present |
| Contrast.PairScored | components/color-palette-generator.tsx:445-475 | every pair i < j of present test tiers is scored, with the first shade of each tier |
| Contrast.GeneratedPaletteScores | components/color-palette-generator.tsx:441-450 | a generated palette can be scored and yields all fifteen pairs |
| Contrast.PassingMembers | components/color-palette-generator.tsx:485-487 | a score is kept iff it passes |
| Contrast.FailingMembers | components/color-palette-generator.tsx:490-492 | a score is kept iff it fails |
| Contrast.FiltersPartition | components/color-palette-generator.tsx:485-492 | passing and failing scores together are the scores, each exactly as often |
| Contrast.PassingFirst | components/color-palette-generator.tsx:481-492 | in a list sorted by ratio where passing means ratio >= 3, the list is the passing scores followed by the failing ones |
| Contrast.AccessibilitySplit | components/color-palette-generator.tsx:439-492 | the scorer's result is its passing scores followed by its failing scores |
| Contrast.Linearise | components/color-palette-generator.tsx:417-419 | the channel linearisation: `LineariseInUnit` proves it stays in [0, 1], with 0 and 1 fixed |
| Contrast.Passing | components/color-palette-generator.tsx:485-487 | the passing filter: its contract bounds its length; `PassingMembers` proves it keeps exactly the passing scores |
| Contrast.Failing | components/color-palette-generator.tsx:490-492 | the failing filter: its contract bounds its length; `FailingMembers` proves it keeps exactly the failing scores |
| CssExport.ParseDigits | components/color-palette-generator.tsx:253 | a tier written in decimal reads back as the tier |
| CssExport.DownloadCss | components/color-palette-generator.tsx:251-255 | the accumulated text is the `:root` opening, one declaration per shade in order, and the closing brace |
| CssExport.CssLineCount | components/color-palette-generator.tsx:251-255 | the text has one line per shade plus the opening and closing lines |
| CssExport.DeclarationIsOneLine | components/color-palette-generator.tsx:253 | each declaration is a single line ending in a newline |
| CssExport.BodyDeclarations | components/color-palette-generator.tsx:252-254 | the declaration of shade k comes right after those of shades 0 to k-1 |
| CssExport.DeclarationReadsBack | components/color-palette-generator.tsx:253 | a declaration names the tier in decimal digits that read back as the tier, then the colour |
| CssExport.CssText | components/color-palette-generator.tsx:251-255 | the exported CSS: `DownloadCss` is proved equal to it; `CssLineCount`, `BodyDeclarations` and `DeclarationReadsBack` state its shape |
| CssExport.CssDeclaration | components/color-palette-generator.tsx:253 | the line for one shade: `DeclarationIsOneLine` proves it one line, `DeclarationReadsBack` that its tier reads back |
| RandomColor.TargetRanges | components/color-palette-generator.tsx:369-387 | hue in [0, 360), saturation in [20, 100), lightness in [20, 80); a fully random hue is whole degrees |
| RandomColor.RandomizeColorCanonical | components/color-palette-generator.tsx:369-391 | the new base colour is `#` and six upper-case hex digits |
| RandomColor.RelatedHueIsNear | components/color-palette-generator.tsx:385 | a related hue is the current hue plus a jitter in [-60, 60), up to one whole turn |
| RandomColor.RandomIgnoresBase | components/color-palette-generator.tsx:371-377 | a fully random colour does not depend on the current base colour |
| RandomColor.RelatedHue | components/color-palette-generator.tsx:385 | the hue of a related colour: `RelatedHueIsNear` proves it is the current hue plus a jitter in [-60, 60), up to one turn |
| RandomColor.NewTarget | components/color-palette-generator.tsx:369-387 | the hue, saturation and lightness drawn: `TargetRanges` proves their ranges |
| RandomColor.RandomizeColor | components/color-palette-generator.tsx:369-391 | `randomizeColor`'s new base colour: `RandomizeColorCanonical` proves it canonical, `RandomIgnoresBase` that a fully random one ignores the current base |

## Left out

- React wiring (`useState`, `useEffect`, `useMemo`, `useCallback`) and the JSX rendering: the engine's inputs are parameters instead of closure state.
- The pages `app/layout.tsx` and `app/page.tsx`: they are only layout shells.
- Clipboard, toasts, file downloads, theme toggling and timers: all I/O. The CSS is modelled up to the text handed to the download.
- The resets inside `randomizeColor` (vibrancy back to 50, hue shift back to 0, the animation flag): state side effects. The toast there shows the old base colour and is not modelled.
- `downloadTailwindConfig` and the JSON export: they depend on `JSON.stringify` formatting and a regex replace, library behaviour outside this model.
- IEEE-754 doubles: the model computes with exact reals. Results at exact rounding ties or threshold boundaries may differ from the browser's.
- `Math.pow(x, 2.4)`: a parameter, of which the model assumes only that it maps [0, 1] into [0, 1] and 1 to 1. Exact ratios for arbitrary colours are not proved; only bounds, symmetry, grading and ordering.
- `Math.random()`: the draws are parameters. Their distribution is not modelled.
- `parseInt` on malformed text (NaN): `hexToHSL` and `getLuminance` require six hex digits with an optional leading `#`.
- Converter.HexToHSL: requires a well-formed colour instead of modelling the NaN results.
- Contrast.CalculatePaletteAccessibility: requires every shade to carry a well-formed colour and `pow` to satisfy `PowCurve`. Generated palettes meet both (`GeneratedPaletteScores`).
- Contrast.SortByRatio: a stable insertion sort on values stands for the in-place `Array.prototype.sort`. Its stability is not proved.
- Converter.HslToHexCanonical: stated for hue in [0, 360] and saturation and lightness in [0, 100], the ranges the engine passes. Outside them `toHex` may write a sign or more than two digits, and the model writes those as the source does.
- Shades.PaletteSaturation: the [0, 100] bound needs a non-negative vibrancy (the slider's range is [0, 100]).
- Shades.PaletteSharedHue: the [0, 360) bound needs a hue shift of at least -360 (the slider's range is [-180, 180]).
- `toUpperCase` outside ASCII: only ASCII letters are mapped. Hex text never holds anything else after stripping.
