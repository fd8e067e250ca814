/** The pieces of JavaScript string behaviour the engine relies on:
    `String.prototype.trim`, the `Number(...)` conversion behind `isNaN`,
    decimal rendering of integers and `String.prototype.includes`. */
module JsText {

  // ---------------------------------------------------------------------
  // Whitespace and trim
  // ---------------------------------------------------------------------

  /** The characters `trim` strips: WhiteSpace and LineTerminator of
      ECMA-262 (sections 12.2 and 12.3). The same set is skipped around a
      numeric string by `Number(...)`. None of them can be part of a
      numeric literal (digits, hex digits, sign, point, exponent mark,
      radix prefix letters, `Infinity`), and the ASCII blanks are among
      them. */
  predicate IsJsSpace(c: char): (b: bool)
    ensures b ==> !IsLiteralChar(c)
    ensures c == ' ' || c == '\t' || c == '\n' || c == '\r' ==> b
  {
    c == '\t' || c == '\n' || c == '\U{B}' || c == '\U{C}' || c == '\r' || c == ' ' ||
    c == '\U{A0}' || c == '\U{1680}' || ('\U{2000}' <= c <= '\U{200A}') ||
    c == '\U{2028}' || c == '\U{2029}' || c == '\U{202F}' || c == '\U{205F}' ||
    c == '\U{3000}' || c == '\U{FEFF}'
  }

  /** A character that can appear in a numeric literal: a hex digit (so
      every decimal digit), a sign, the point, an exponent mark, a radix
      prefix letter or a letter of `Infinity`. */
  predicate IsLiteralChar(c: char) {
    IsHexDigit(c) || c in "+-.eExXbBoOInfity"
  }

  predicate AllSpace(s: string) {
    forall i :: 0 <= i < |s| ==> IsJsSpace(s[i])
  }

  /** Index of the first non-whitespace character at or after `i` (or
      `|s|`): everything skipped is whitespace. */
  function SkipSpace(s: string, i: nat): (lo: nat)
    requires i <= |s|
    ensures i <= lo <= |s|
    ensures forall j :: i <= j < lo ==> IsJsSpace(s[j])
    ensures lo < |s| ==> !IsJsSpace(s[lo])
    decreases |s| - i
  {
    if i < |s| && IsJsSpace(s[i]) then SkipSpace(s, i + 1) else i
  }

  /** End of the text before trailing whitespace, scanning down from `hi`
      to no lower than `lo`: everything skipped is whitespace. */
  function SkipSpaceBack(s: string, lo: nat, hi: nat): (e: nat)
    requires lo <= hi <= |s|
    ensures lo <= e <= hi
    ensures forall j :: e <= j < hi ==> IsJsSpace(s[j])
    ensures e > lo ==> !IsJsSpace(s[e - 1])
    decreases hi
  {
    if hi > lo && IsJsSpace(s[hi - 1]) then SkipSpaceBack(s, lo, hi - 1) else hi
  }

  /** Where the trimmed text of `s` starts. */
  function TrimStartIndex(s: string): (lo: nat)
    ensures lo <= |s|
  {
    SkipSpace(s, 0)
  }

  /** Where the trimmed text of `s` ends. */
  function TrimEndIndex(s: string): (hi: nat)
    ensures TrimStartIndex(s) <= hi <= |s|
  {
    SkipSpaceBack(s, TrimStartIndex(s), |s|)
  }

  /** `s.trim()`: the result is empty exactly when `s` is all whitespace,
      and otherwise begins and ends with a non-whitespace character. */
  function Trim(s: string): (r: string)
    ensures |r| <= |s|
    ensures r == [] <==> AllSpace(s)
    ensures r != [] ==> !IsJsSpace(r[0]) && !IsJsSpace(r[|r| - 1])
  {
    var lo := TrimStartIndex(s);
    var hi := TrimEndIndex(s);
    assert hi > lo ==> s[lo..hi][0] == s[lo] && s[lo..hi][hi - lo - 1] == s[hi - 1];
    s[lo..hi]
  }

  /** The trimmed text is the middle of the input: only whitespace was
      removed on either side. */
  lemma TrimIsMiddle(s: string)
    ensures exists lo, hi :: 0 <= lo <= hi <= |s| && Trim(s) == s[lo..hi] &&
              AllSpace(s[..lo]) && AllSpace(s[hi..])
  {
    var lo, hi := TrimStartIndex(s), TrimEndIndex(s);
    assert forall j :: 0 <= j < lo ==> s[..lo][j] == s[j];
    assert forall j :: 0 <= j < |s| - hi ==> s[hi..][j] == s[hi + j];
    assert Trim(s) == s[lo..hi] && AllSpace(s[..lo]) && AllSpace(s[hi..]);
  }

  /** Trimming twice changes nothing more. */
  lemma TrimIdempotent(s: string)
    ensures Trim(Trim(s)) == Trim(s)
  {
    var t := Trim(s);
    if t != [] {
      assert TrimStartIndex(t) == 0;
      assert TrimEndIndex(t) == |t|;
      assert t[0..|t|] == t;
    }
  }

  // ---------------------------------------------------------------------
  // Number(...) on a string, which decides `isNaN`
  // ---------------------------------------------------------------------

  predicate IsDigit(c: char) { '0' <= c <= '9' }

  predicate AllDigits(s: string) {
    forall i :: 0 <= i < |s| ==> IsDigit(s[i])
  }

  /** Number of leading decimal digits of `s`. */
  function LeadingDigits(s: string): (n: nat)
    ensures n <= |s| && AllDigits(s[..n])
    ensures n < |s| ==> !IsDigit(s[n])
  {
    if |s| > 0 && IsDigit(s[0]) then
      var n := 1 + LeadingDigits(s[1..]);
      assert s[..n] == [s[0]] + s[1..][..n - 1];
      n
    else 0
  }

  /** ExponentPart: `e` or `E`, an optional sign, one or more digits. */
  predicate IsExponentPart(s: string) {
    |s| >= 2 && (s[0] == 'e' || s[0] == 'E') &&
    var u := if s[1] == '+' || s[1] == '-' then s[2..] else s[1..];
    |u| > 0 && AllDigits(u)
  }

  predicate OptExponent(s: string) {
    s == [] || IsExponentPart(s)
  }

  /** StrUnsignedDecimalLiteral: `Infinity`, or digits with an optional
      fraction, or a fraction alone, each with an optional exponent. */
  predicate IsUnsignedDecimal(s: string) {
    s == "Infinity" ||
    var d := LeadingDigits(s);
    var rest := s[d..];
    if d > 0 then
      OptExponent(rest) ||
      (rest[0] == '.' && OptExponent(rest[1 + LeadingDigits(rest[1..])..]))
    else
      |rest| > 0 && rest[0] == '.' &&
      var f := LeadingDigits(rest[1..]);
      f > 0 && OptExponent(rest[1 + f..])
  }

  /** StrDecimalLiteral: an optional sign before an unsigned literal. */
  predicate IsSignedDecimal(s: string) {
    IsUnsignedDecimal(s) ||
    (|s| > 0 && (s[0] == '+' || s[0] == '-') && IsUnsignedDecimal(s[1..]))
  }

  predicate IsBinaryDigit(c: char) { c == '0' || c == '1' }
  predicate IsOctalDigit(c: char) { '0' <= c <= '7' }
  predicate IsHexDigit(c: char) { IsDigit(c) || 'a' <= c <= 'f' || 'A' <= c <= 'F' }

  /** NonDecimalIntegerLiteral: `0b`, `0o` or `0x` (either case) and at
      least one digit of that base; no sign is allowed. */
  predicate IsNonDecimalInteger(s: string) {
    |s| > 2 && s[0] == '0' &&
    ((s[1] in "bB" && forall i :: 2 <= i < |s| ==> IsBinaryDigit(s[i])) ||
     (s[1] in "oO" && forall i :: 2 <= i < |s| ==> IsOctalDigit(s[i])) ||
     (s[1] in "xX" && forall i :: 2 <= i < |s| ==> IsHexDigit(s[i])))
  }

  /** StringNumericLiteral: whitespace only, or a literal surrounded by
      optional whitespace. `Number(s)` is NaN exactly when this fails, so
      `isNaN(s)` is `!IsNumericText(s)`. An empty or whitespace-only text
      is numeric (it converts to 0). */
  predicate IsNumericText(s: string): (b: bool)
    ensures AllSpace(s) ==> b
  {
    var t := Trim(s);
    t == [] || IsSignedDecimal(t) || IsNonDecimalInteger(t)
  }

  /** A non-empty run of decimal digits is a number. */
  lemma DigitsAreNumeric(s: string)
    requires |s| > 0 && AllDigits(s)
    ensures IsNumericText(s)
  {
    assert TrimStartIndex(s) == 0;
    assert TrimEndIndex(s) == |s|;
    assert s[0..|s|] == s;
    assert LeadingDigits(s) == |s| by { DigitsRun(s); }
  }

  lemma {:induction false} DigitsRun(s: string)
    requires AllDigits(s)
    ensures LeadingDigits(s) == |s|
  {
    if |s| > 0 {
      DigitsRun(s[1..]);
    }
  }

  /** Text whose first non-blank character cannot start a literal is NaN. */
  lemma BadLeadIsNaN(s: string)
    requires Trim(s) != []
    requires var c := Trim(s)[0];
             !IsDigit(c) && c != '+' && c != '-' && c != '.' && c != 'I'
    ensures !IsNumericText(s)
  {
    var t := Trim(s);
    assert LeadingDigits(t) == 0;
  }

  // ---------------------------------------------------------------------
  // Decimal text of a natural number, and its value
  // ---------------------------------------------------------------------

  function DigitChar(d: nat): (c: char)
    requires d < 10
    ensures IsDigit(c)
  {
    ('0' as int + d) as char
  }

  function DigitValue(c: char): nat
    requires IsDigit(c)
  {
    c as int - '0' as int
  }

  /** `n.toString()`: non-empty, all digits, no leading zero. */
  function Decimal(n: nat): (r: string)
    ensures |r| > 0 && AllDigits(r)
    ensures |r| > 1 ==> r[0] != '0'
    ensures |r| == 1 <==> n < 10
  {
    if n < 10 then [DigitChar(n)] else Decimal(n / 10) + [DigitChar(n % 10)]
  }

  /** The value of a run of decimal digits (leading zeros allowed). */
  function DigitsValue(s: string): nat
    requires AllDigits(s)
  {
    if s == [] then 0 else DigitsValue(s[..|s| - 1]) * 10 + DigitValue(s[|s| - 1])
  }

  /** Reading back the decimal text of `n` gives `n`. */
  lemma {:induction false} DecimalRoundTrip(n: nat)
    ensures DigitsValue(Decimal(n)) == n
  {
    if n >= 10 {
      DecimalRoundTrip(n / 10);
      var r := Decimal(n);
      assert r[..|r| - 1] == Decimal(n / 10);
    }
  }

  /** Different numbers have different decimal texts. */
  lemma DecimalInjective(a: nat, b: nat)
    requires Decimal(a) == Decimal(b)
    ensures a == b
  {
    DecimalRoundTrip(a);
    DecimalRoundTrip(b);
  }

  /** A leading zero does not change the value of a digit run. */
  lemma {:induction false} LeadingZeroValue(s: string)
    requires AllDigits(s)
    ensures AllDigits("0" + s) && DigitsValue("0" + s) == DigitsValue(s)
  {
    if s != [] {
      LeadingZeroValue(s[..|s| - 1]);
      assert ("0" + s)[..|s|] == "0" + s[..|s| - 1];
    }
  }

  // ---------------------------------------------------------------------
  // includes
  // ---------------------------------------------------------------------

  /** `pat` occurs in `s` starting at index `i`. */
  ghost predicate OccursAt(s: string, pat: string, i: int) {
    0 <= i <= |s| - |pat| && s[i..i + |pat|] == pat
  }

  /** `s.includes(pat)`, computed by sliding a window; it holds exactly
      when `pat` occurs somewhere in `s`. */
  function Includes(s: string, pat: string): (b: bool)
    ensures b <==> exists i :: OccursAt(s, pat, i)
  {
    if |pat| > |s| then false
    else if s[..|pat|] == pat then
      assert OccursAt(s, pat, 0);
      true
    else if |s| == 0 then false
    else
      var b := Includes(s[1..], pat);
      assert b ==> exists i :: OccursAt(s, pat, i) by {
        if b {
          var i :| OccursAt(s[1..], pat, i);
          assert s[i + 1..i + 1 + |pat|] == s[1..][i..i + |pat|];
          assert OccursAt(s, pat, i + 1);
        }
      }
      assert (exists i :: OccursAt(s, pat, i)) ==> b by {
        if exists i :: OccursAt(s, pat, i) {
          var i :| OccursAt(s, pat, i);
          assert i != 0;
          assert s[1..][i - 1..i - 1 + |pat|] == s[i..i + |pat|];
          assert OccursAt(s[1..], pat, i - 1);
        }
      }
      b
  }

  /** A text in which the first character of `pat` never occurs does not
      include `pat`. */
  lemma MissingLeadNotIncluded(s: string, pat: string)
    requires |pat| > 0 && pat[0] !in s
    ensures !Includes(s, pat)
  {
  }
}
