/** The hex normaliser (`formatHexValue`): repairs free text typed as a colour into
    `#RRGGBB`, falling back to the current base colour when the text has no hex digit. */
module Normalizer {
  import opened HexText

  /** `value.replace(/[^0-9A-Fa-f]/g, "")`: the hex digits of a text, in order. */
  function StripNonHex(s: string): (h: string)
    ensures AllHex(h) && |h| <= |s|
  {
    if s == [] then []
    else StripNonHex(s[..|s| - 1]) + (if IsHexDigit(s[|s| - 1]) then [s[|s| - 1]] else [])
  }

  /** Stripping keeps exactly the hex digits: each hex digit as often as the text has it, nothing else. */
  lemma {:induction false} StripCounts(s: string, c: char)
    ensures multiset(StripNonHex(s))[c] == if IsHexDigit(c) then multiset(s)[c] else 0
  {
    if s != [] {
      var n := |s| - 1;
      StripCounts(s[..n], c);
      assert s == s[..n] + [s[n]];
    }
  }

  /** Stripping keeps the order of the text: the digits of a concatenation are the digits
      of its first part followed by those of its second. */
  lemma {:induction false} StripConcat(a: string, b: string)
    ensures StripNonHex(a + b) == StripNonHex(a) + StripNonHex(b)
    decreases |b|
  {
    if b == [] {
      assert a + b == a;
    } else {
      var n := |b| - 1;
      assert (a + b)[..|a + b| - 1] == a + b[..n];
      assert (a + b)[|a + b| - 1] == b[n];
      StripConcat(a, b[..n]);
    }
  }

  /** A text made only of hex digits is left as it is. */
  lemma {:induction false} StripAllHex(s: string)
    requires AllHex(s)
    ensures StripNonHex(s) == s
  {
    if s != [] {
      var n := |s| - 1;
      StripAllHex(s[..n]);
      assert s == s[..n] + [s[n]];
    }
  }

  /** Where output digit `k` (0 to 5) of the repair of `n` stripped digits is copied from:
      an index into the stripped digits, or -1 for a padding '0'. */
  function SourceIndex(n: nat, k: nat): (j: int)
    requires 1 <= n && k < 6
    ensures -1 <= j < n
  {
    if n == 1 then 0                          // one digit repeated six times
    else if n == 2 then (if k < 4 then k % 2 else -1)   // RR, RR again, then 00
    else if n == 3 then k / 2                 // each digit doubled
    else if n == 4 then (if k < 4 then k else -1)       // RRGG, then 00
    else if n == 5 then (if k < 5 then k else 0)        // the five, then the first again
    else k                                    // six kept, longer cut to the first six
  }

  /** The six digits the repair policy makes of a non-empty run of stripped digits. */
  function Repaired(h: string): (r: string)
    requires 1 <= |h|
    ensures |r| == 6
  {
    seq(6, k requires 0 <= k < 6 => var j := SourceIndex(|h|, k); if j < 0 then '0' else h[j])
  }

  /** What `formatHexValue` returns: the base colour unchanged when the text has no hex
      digit, otherwise '#' and the repaired digits upper-cased. */
  function Formatted(value: string, baseColor: string): string {
    var h := StripNonHex(value);
    if h == [] then baseColor else "#" + Upper(Repaired(h))
  }

  /** `hex.repeat(n)` */
  function Repeat(s: string, n: nat): (r: string)
    ensures |r| == |s| * n
  {
    if n == 0 then [] else Repeat(s, n - 1) + s
  }

  /** `hex.split("").map(char => char + char).join("")` */
  function DoubleEach(s: string): (r: string)
    ensures |r| == 2 * |s|
  {
    if s == [] then [] else [s[0], s[0]] + DoubleEach(s[1..])
  }

  /** `formatHexValue`: strips, expands or truncates by length, and upper-cases. */
  method FormatHexValue(value: string, baseColor: string) returns (r: string)
    ensures r == Formatted(value, baseColor)
    ensures StripNonHex(value) == [] ==> r == baseColor
    ensures StripNonHex(value) != [] ==> IsCanonicalHex(r)
  {
    var hex := "";
    var i := 0;
    while i < |value|
      invariant 0 <= i <= |value|
      invariant hex == StripNonHex(value[..i])
    {
      assert value[..i + 1][..i] == value[..i];
      if IsHexDigit(value[i]) {
        hex := hex + [value[i]];
      }
      i := i + 1;
    }
    assert value[..i] == value;
    if hex == "" {
      return baseColor;
    }
    ghost var stripped := hex;
    if |hex| == 3 {
      hex := DoubleEach(hex);
    }
    if |hex| < 6 {
      if |hex| == 1 {
        hex := Repeat(hex, 6);
      } else if |hex| == 2 {
        hex := hex + hex + "00";
      } else if |hex| == 4 {
        hex := hex + "00";
      } else if |hex| == 5 {
        hex := hex + [hex[0]];
      }
    } else if |hex| > 6 {
      hex := hex[..6];
    }
    RepairCases(stripped, hex);
    r := "#" + Upper(hex);
    FormattedShape(value, baseColor);
  }

  lemma {:induction false} RepeatOne(c: char, n: nat)
    ensures forall k :: 0 <= k < n ==> Repeat([c], n)[k] == c
  {
    if n > 0 {
      RepeatOne(c, n - 1);
    }
  }

  lemma {:induction false} DoubleEachAt(s: string)
    ensures forall k :: 0 <= k < 2 * |s| ==> DoubleEach(s)[k] == s[k / 2]
  {
    if s != [] {
      DoubleEachAt(s[1..]);
    }
  }

  /** The branches of the source agree with the repair table, length by length. */
  lemma RepairCases(h: string, hex: string)
    requires 1 <= |h|
    requires |h| == 1 ==> hex == Repeat(h, 6)
    requires |h| == 2 ==> hex == h + h + "00"
    requires |h| == 3 ==> hex == DoubleEach(h)
    requires |h| == 4 ==> hex == h + "00"
    requires |h| == 5 ==> hex == h + [h[0]]
    requires |h| == 6 ==> hex == h
    requires |h| > 6 ==> hex == h[..6]
    ensures hex == Repaired(h)
  {
    RepairTable(h);
    if |h| == 1 {
      assert h == [h[0]];
      RepeatOne(h[0], 6);
      assert forall k :: 0 <= k < 6 ==> hex[k] == h[0];
    } else if |h| == 3 {
      DoubleEachAt(h);
      assert forall k :: 0 <= k < 6 ==> hex[k] == h[k / 2];
    }
  }

  /** With at least one hex digit in the text, the result is '#' and six upper-case hex
      digits; with none, it is the base colour, not checked or upper-cased. */
  lemma FormattedShape(value: string, baseColor: string)
    ensures StripNonHex(value) == [] ==> Formatted(value, baseColor) == baseColor
    ensures StripNonHex(value) != [] ==> IsCanonicalHex(Formatted(value, baseColor))
  {
    var h := StripNonHex(value);
    if h != [] {
      var rep := Repaired(h);
      forall k | 0 <= k < 6 ensures IsHexDigit(rep[k]) {
      }
      var out := Formatted(value, baseColor);
      forall i | 1 <= i < 7 ensures IsUpperHexDigit(out[i]) {
        UpperHexDigit(rep[i - 1]);
      }
    }
  }

  /** The repair table by length of the stripped digits: one digit is repeated six
      times, two become RR RR 00, three are each doubled, four get 00, five get their
      first digit again, six are kept and more are cut to the first six. */
  lemma RepairTable(h: string)
    requires 1 <= |h|
    ensures |h| == 1 ==> Repaired(h) == [h[0], h[0], h[0], h[0], h[0], h[0]]
    ensures |h| == 2 ==> Repaired(h) == h + h + "00"
    ensures |h| == 3 ==> Repaired(h) == [h[0], h[0], h[1], h[1], h[2], h[2]]
    ensures |h| == 4 ==> Repaired(h) == h + "00"
    ensures |h| == 5 ==> Repaired(h) == h + [h[0]]
    ensures |h| >= 6 ==> Repaired(h) == h[..6]
  {
    var r := Repaired(h);
    if |h| == 2 {
      assert forall k :: 0 <= k < 6 ==> r[k] == (h + h + "00")[k];
    } else if |h| == 4 {
      assert forall k :: 0 <= k < 6 ==> r[k] == (h + "00")[k];
    } else if |h| == 5 {
      assert forall k :: 0 <= k < 6 ==> r[k] == (h + [h[0]])[k];
    }
  }

  /** Formatting is idempotent: formatting a formatted colour gives it back unchanged. */
  lemma FormatIdempotent(value: string, baseColor: string, otherBase: string)
    requires StripNonHex(value) != []
    ensures Formatted(Formatted(value, baseColor), otherBase) == Formatted(value, baseColor)
  {
    var out := Formatted(value, baseColor);
    var digits := out[1..];
    assert out == ['#'] + digits && |digits| == 6 && forall i :: 0 <= i < 6 ==> IsUpperHexDigit(digits[i]) by {
      FormattedShape(value, baseColor);
    }
    assert StripNonHex(out) == digits by {
      StripAllHex(digits);
      StripPrefixHash(digits);
    }
    assert Repaired(digits) == digits by {
      RepairTable(digits);
    }
    assert Upper(digits) == digits by {
      assert forall i :: 0 <= i < 6 ==> ToUpper(digits[i]) == digits[i];
    }
  }

  lemma {:induction false} StripPrefixHash(s: string)
    ensures StripNonHex(['#'] + s) == StripNonHex(s)
  {
    if s != [] {
      var n := |s| - 1;
      StripPrefixHash(s[..n]);
      assert (['#'] + s)[..|s|] == ['#'] + s[..n];
    }
  }

  /** Text made only of hex digits is repaired and upper-cased as it stands. */
  lemma FormattedOfDigits(h: string, baseColor: string)
    requires AllHex(h) && h != []
    ensures Formatted(h, baseColor) == "#" + Upper(Repaired(h))
  {
    StripAllHex(h);
  }

  /** Three digits are each doubled: `F00` gives `#FF0000`. */
  lemma FormatShortForm()
    ensures Formatted("F00", "#000000") == "#FF0000"
  {
    FormattedOfDigits("F00", "#000000");
    RepairTable("F00");
    assert Repaired("F00") == "FF0000";
    assert Upper("FF0000") == "FF0000" by {
      assert ToUpper('F') == 'F' && ToUpper('0') == '0';
    }
  }

  /** Text without a hex digit gives the base colour back, unchecked: the result is not
      always of the `#RRGGBB` form. */
  lemma FormatNoDigits()
    ensures Formatted("", "#ABCDEF") == "#ABCDEF"
    ensures Formatted("#xyz", "#ABCDEF") == "#ABCDEF"
    ensures Formatted("", "red") == "red" && !IsCanonicalHex("red")
  {
    assert "#xyz"[..3] == "#xy";
    assert "#xy"[..2] == "#x";
    assert "#x"[..1] == "#";
    assert "#"[..0] == "";
  }

  /** More than six digits are cut to six: `FFFFFFFF` gives `#FFFFFF`. */
  lemma FormatLongForm()
    ensures Formatted("FFFFFFFF", "#000000") == "#FFFFFF"
  {
    FormattedOfDigits("FFFFFFFF", "#000000");
    RepairTable("FFFFFFFF");
    assert Repaired("FFFFFFFF") == "FFFFFF";
    assert Upper("FFFFFF") == "FFFFFF" by {
      assert ToUpper('F') == 'F';
    }
  }

  /** One digit is repeated: `F` gives `#FFFFFF`. */
  lemma FormatOneDigit()
    ensures Formatted("F", "#000000") == "#FFFFFF"
  {
    FormattedOfDigits("F", "#000000");
    RepairTable("F");
    assert Repaired("F") == "FFFFFF";
    assert Upper("FFFFFF") == "FFFFFF" by {
      assert ToUpper('F') == 'F';
    }
  }

  /** Two digits are repeated and padded, and lower case is raised: `ff` gives `#FFFF00`. */
  lemma FormatTwoDigits()
    ensures Formatted("ff", "#000000") == "#FFFF00"
  {
    FormattedOfDigits("ff", "#000000");
    RepairTable("ff");
    assert Repaired("ff") == "ffff00";
    assert Upper("ffff00") == "FFFF00" by {
      assert ToUpper('f') == 'F' && ToUpper('0') == '0';
    }
  }
}
