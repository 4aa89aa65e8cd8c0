/** Hex digits and colour strings: what `parseInt(…, 16)`, `Number.prototype.toString(16)`
    and `String.prototype.toUpperCase` do on the strings the colour engine handles. */
module HexText {

  predicate IsHexDigit(c: char) {
    '0' <= c <= '9' || 'A' <= c <= 'F' || 'a' <= c <= 'f'
  }

  predicate IsUpperHexDigit(c: char) {
    '0' <= c <= '9' || 'A' <= c <= 'F'
  }

  predicate AllHex(s: string) {
    forall i :: 0 <= i < |s| ==> IsHexDigit(s[i])
  }

  /** Six hex digits, optionally preceded by '#': the colours the converter accepts. */
  predicate IsHexColor(s: string) {
    || (|s| == 6 && AllHex(s))
    || (|s| == 7 && s[0] == '#' && AllHex(s[1..]))
  }

  /** '#' followed by six upper-case hex digits: the canonical `#RRGGBB` form. */
  predicate IsCanonicalHex(s: string) {
    |s| == 7 && s[0] == '#' && forall i :: 1 <= i < 7 ==> IsUpperHexDigit(s[i])
  }

  lemma CanonicalIsHexColor(s: string)
    requires IsCanonicalHex(s)
    ensures IsHexColor(s)
  {
    assert forall i :: 0 <= i < 6 ==> s[1..][i] == s[i + 1];
  }

  /** The value of one hex digit, either case. */
  function HexValue(c: char): (v: nat)
    requires IsHexDigit(c)
    ensures v < 16
  {
    if '0' <= c <= '9' then c as int - '0' as int
    else if 'A' <= c <= 'F' then c as int - 'A' as int + 10
    else c as int - 'a' as int + 10
  }

  /** The digit `toString(16)` writes for a value below 16 (lower case). */
  function DigitChar(v: nat): (c: char)
    requires v < 16
    ensures IsHexDigit(c) && HexValue(c) == v
    ensures !('A' <= c <= 'F')
  {
    if v < 10 then ('0' as int + v) as char else ('a' as int + v - 10) as char
  }

  /** `n.toString(16)` for a non-negative integer: most significant digit first, no leading zeros. */
  function HexString(n: nat): (s: string)
    ensures 1 <= |s| && AllHex(s)
    ensures forall i :: 0 <= i < |s| ==> !('A' <= s[i] <= 'F')
    decreases n
  {
    if n < 16 then [DigitChar(n)] else HexString(n / 16) + [DigitChar(n % 16)]
  }

  /** `parseInt(s, 16)` on a string made only of hex digits. */
  function ParseHex(s: string): nat
    requires AllHex(s)
  {
    if s == [] then 0 else 16 * ParseHex(s[..|s| - 1]) + HexValue(s[|s| - 1])
  }

  /** Writing a number in hex and parsing it back gives the number. */
  lemma {:induction false} ParseHexString(n: nat)
    ensures ParseHex(HexString(n)) == n
    decreases n
  {
    if n >= 16 {
      var s := HexString(n);
      assert s[..|s| - 1] == HexString(n / 16);
      ParseHexString(n / 16);
    }
  }

  /** A byte takes one hex digit below 16 and two from 16 to 255. */
  lemma {:induction false} HexStringLength(n: nat)
    requires n < 256
    ensures n < 16 ==> |HexString(n)| == 1
    ensures 16 <= n ==> |HexString(n)| == 2
  {
    if 16 <= n {
      assert n / 16 < 16;
    }
  }

  /** Leading zeros do not change the parsed value. */
  lemma LeadingZero(s: string)
    requires |s| == 1 && AllHex(s)
    ensures AllHex("0" + s) && ParseHex("0" + s) == ParseHex(s)
  {
    var t := "0" + s;
    assert t[..1] == "0";
    assert s[..0] == [];
    assert t[..0] == [];
  }

  /** The byte written by digits `2k` and `2k+1` of six hex digits, as `parseInt(hex.substring(2k, 2k + 2), 16)`. */
  function Byte(h: string, k: nat): (b: nat)
    requires |h| == 6 && AllHex(h) && k < 3
    ensures b < 256
  {
    var pair := h[2 * k..2 * k + 2];
    assert pair[..1][..0] == [];
    assert ParseHex(pair[..1]) == HexValue(pair[0]);
    ParseHex(pair)
  }

  /** The digits of a colour without its leading '#', as `hex.replace(/^#/, "")`. */
  function StripHash(s: string): (h: string)
    requires IsHexColor(s)
    ensures |h| == 6 && AllHex(h)
  {
    if |s| == 7 then s[1..] else s
  }

  /** `toUpperCase` on one ASCII character; other characters are left alone. */
  function ToUpper(c: char): char {
    if 'a' <= c <= 'z' then (c as int - 'a' as int + 'A' as int) as char else c
  }

  function Upper(s: string): (u: string)
    ensures |u| == |s|
  {
    seq(|s|, i requires 0 <= i < |s| => ToUpper(s[i]))
  }

  /** Upper-casing a hex digit keeps its value and makes it an upper-case digit. */
  lemma UpperHexDigit(c: char)
    requires IsHexDigit(c)
    ensures IsUpperHexDigit(ToUpper(c)) && HexValue(ToUpper(c)) == HexValue(c)
  {
  }

  lemma UpperConcat(a: string, b: string)
    ensures Upper(a + b) == Upper(a) + Upper(b)
  {
  }

  /** Upper-casing does not change the value of a string of hex digits. */
  lemma {:induction false} ParseUpper(s: string)
    requires AllHex(s)
    ensures AllHex(Upper(s)) && ParseHex(Upper(s)) == ParseHex(s)
  {
    forall i | 0 <= i < |s| ensures IsHexDigit(Upper(s)[i]) {
      UpperHexDigit(s[i]);
    }
    if s != [] {
      var n := |s| - 1;
      assert Upper(s)[..n] == Upper(s[..n]);
      ParseUpper(s[..n]);
      UpperHexDigit(s[n]);
    }
  }
}
