/** The CSS text of the palette export (`downloadCSS`): one custom property per shade
    inside a `:root` rule. */
module CssExport {
  import opened HexText
  import opened Shades

  predicate IsDecimalDigit(c: char) {
    '0' <= c <= '9'
  }

  /** The decimal digits of a non-negative integer, most significant first, no leading zeros. */
  function Digits(n: nat): (s: string)
    ensures 1 <= |s| && forall i :: 0 <= i < |s| ==> IsDecimalDigit(s[i])
  {
    if n < 10 then [('0' as int + n) as char] else Digits(n / 10) + [('0' as int + n % 10) as char]
  }

  /** A number as a template literal writes it: a '-' before the digits of a negative one. */
  function DecimalString(n: int): (s: string)
    ensures 1 <= |s|
  {
    if n < 0 then "-" + Digits(-n) else Digits(n)
  }

  function DigitValue(c: char): (v: nat)
    requires IsDecimalDigit(c)
    ensures v < 10
  {
    c as int - '0' as int
  }

  /** The value of a string of decimal digits. */
  function ParseDecimal(s: string): nat
    requires forall i :: 0 <= i < |s| ==> IsDecimalDigit(s[i])
  {
    if s == [] then 0 else 10 * ParseDecimal(s[..|s| - 1]) + DigitValue(s[|s| - 1])
  }

  /** The digits of a tier read back as the tier. */
  lemma {:induction false} ParseDigits(n: nat)
    ensures ParseDecimal(Digits(n)) == n
  {
    if n >= 10 {
      var s := Digits(n);
      assert s[..|s| - 1] == Digits(n / 10);
      ParseDigits(n / 10);
    }
  }

  /** The line written for one shade. */
  function CssDeclaration(s: ColorShade): string {
    "  --color-primary-" + DecimalString(s.shade) + ": " + s.hex + ";\n"
  }

  /** The declarations of the shades, in order. */
  function CssBody(shades: seq<ColorShade>): string {
    if shades == [] then "" else CssBody(shades[..|shades| - 1]) + CssDeclaration(shades[|shades| - 1])
  }

  /** The whole file: the opening of the `:root` rule, the declarations and the closing brace. */
  function CssText(shades: seq<ColorShade>): string {
    ":root {\n" + CssBody(shades) + "}\n"
  }

  lemma BodyStep(shades: seq<ColorShade>, k: nat)
    requires k < |shades|
    ensures CssBody(shades[..k + 1]) == CssBody(shades[..k]) + CssDeclaration(shades[k])
  {
    assert shades[..k + 1][..k] == shades[..k];
  }

  lemma AppendAssociative(a: string, b: string, c: string)
    ensures (a + b) + c == a + (b + c)
  {
  }

  /** `downloadCSS` up to the download: the text is accumulated one shade at a time. */
  method DownloadCss(colorShades: seq<ColorShade>) returns (css: string)
    ensures css == CssText(colorShades)
  {
    var opening := ":root {\n";
    css := opening;
    var k := 0;
    while k < |colorShades|
      invariant 0 <= k <= |colorShades|
      invariant css == opening + CssBody(colorShades[..k])
    {
      BodyStep(colorShades, k);
      AppendAssociative(opening, CssBody(colorShades[..k]), CssDeclaration(colorShades[k]));
      css := css + CssDeclaration(colorShades[k]);
      k := k + 1;
    }
    assert colorShades[..k] == colorShades;
    css := css + "}\n";
  }

  /** How often a character occurs in a string. */
  function Count(s: string, c: char): (n: nat)
    ensures n <= |s|
  {
    if s == [] then 0 else Count(s[..|s| - 1], c) + (if s[|s| - 1] == c then 1 else 0)
  }

  lemma {:induction false} CountConcat(a: string, b: string, c: char)
    ensures Count(a + b, c) == Count(a, c) + Count(b, c)
    decreases |b|
  {
    if b != [] {
      var n := |b| - 1;
      assert (a + b)[..|a + b| - 1] == a + b[..n];
      assert (a + b)[|a + b| - 1] == b[n];
      CountConcat(a, b[..n], c);
    } else {
      assert a + b == a;
    }
  }

  lemma {:induction false} CountAbsent(s: string, c: char)
    requires forall i :: 0 <= i < |s| ==> s[i] != c
    ensures Count(s, c) == 0
  {
    if s != [] {
      CountAbsent(s[..|s| - 1], c);
    }
  }

  /** A declaration is one line: its only newline is the one that ends it. */
  lemma DeclarationIsOneLine(s: ColorShade)
    requires forall i :: 0 <= i < |s.hex| ==> s.hex[i] != '\n'
    ensures Count(CssDeclaration(s), '\n') == 1
    ensures CssDeclaration(s)[|CssDeclaration(s)| - 1] == '\n'
  {
    var d := DecimalString(s.shade);
    assert forall i :: 0 <= i < |d| ==> d[i] != '\n';
    var line := "  --color-primary-" + d + ": " + s.hex + ";";
    assert forall i :: 0 <= i < |line| ==> line[i] != '\n';
    CountAbsent(line, '\n');
    assert Count("\n", '\n') == 1 by { assert "\n"[..0] == ""; }
    assert CssDeclaration(s) == line + "\n";
    CountConcat(line, "\n", '\n');
  }

  predicate NoNewlines(shades: seq<ColorShade>) {
    forall k, i :: 0 <= k < |shades| && 0 <= i < |shades[k].hex| ==> shades[k].hex[i] != '\n'
  }

  lemma {:induction false} BodyLines(shades: seq<ColorShade>)
    requires NoNewlines(shades)
    ensures Count(CssBody(shades), '\n') == |shades|
  {
    if shades != [] {
      var n := |shades| - 1;
      BodyLines(shades[..n]);
      BodyStep(shades, n);
      assert shades[..n + 1] == shades;
      DeclarationIsOneLine(shades[n]);
      CountConcat(CssBody(shades[..n]), CssDeclaration(shades[n]), '\n');
    }
  }

  /** The file has one line per shade plus the opening and closing lines of the rule. */
  lemma CssLineCount(shades: seq<ColorShade>)
    requires NoNewlines(shades)
    ensures Count(CssText(shades), '\n') == |shades| + 2
  {
    BodyLines(shades);
    OpeningAndClosingLines();
    CountConcat(":root {\n", CssBody(shades), '\n');
    CountConcat(":root {\n" + CssBody(shades), "}\n", '\n');
  }

  /** The opening and the closing of the rule are one line each. */
  lemma OpeningAndClosingLines()
    ensures Count(":root {\n", '\n') == 1 && Count("}\n", '\n') == 1
  {
    CountAbsent(":root {", '\n');
    assert ":root {\n"[..7] == ":root {";
    CountAbsent("}", '\n');
    assert "}\n"[..1] == "}";
  }

  lemma {:induction false} BodyPrefix(shades: seq<ColorShade>, m: nat)
    requires m <= |shades|
    ensures CssBody(shades[..m]) <= CssBody(shades)
  {
    if m < |shades| {
      var n := |shades| - 1;
      BodyPrefix(shades[..n], m);
      assert shades[..n][..m] == shades[..m];
      BodyStep(shades, n);
      assert shades[..n + 1] == shades;
      PrefixAppend(CssBody(shades[..m]), CssBody(shades[..n]), CssDeclaration(shades[n]));
    } else {
      assert shades[..m] == shades;
      PrefixAppend(CssBody(shades), CssBody(shades), "");
      assert CssBody(shades) + "" == CssBody(shades);
    }
  }

  lemma PrefixAppend(a: string, b: string, c: string)
    requires a <= b
    ensures a <= b + c
  {
    assert (b + c)[..|a|] == b[..|a|];
  }

  /** The declarations come in the order of the shades: the text up to and including the
      declaration of shade `k` is the body of the first `k + 1` shades. */
  lemma BodyDeclarations(shades: seq<ColorShade>, k: nat)
    requires k < |shades|
    ensures CssBody(shades[..k]) + CssDeclaration(shades[k]) <= CssBody(shades)
  {
    BodyStep(shades, k);
    BodyPrefix(shades, k + 1);
  }

  /** The property name of a non-negative tier carries its digits, which read back as the tier. */
  lemma DeclarationReadsBack(s: ColorShade)
    requires s.shade >= 0
    ensures var d := Digits(s.shade);
      && CssDeclaration(s) == "  --color-primary-" + d + ": " + s.hex + ";\n"
      && ParseDecimal(d) == s.shade
  {
    ParseDigits(s.shade);
  }
}
