/**
 Lexical layer of JSON shared by the annotation stripper and the TOON codec:
 white space, literals and string tokens (RFC 8259, sections 2, 3, 6 and 7).

 A text is a `string`. The stripper reads each element as one byte (elements at or
 above 0x80 then stand for the bytes of multi-byte characters, which JSON only
 admits inside strings); the TOON codec reads each element as one character.
 */
module JsonText {

  predicate IsSpace(c: char) {
    c == ' ' || c == '\n' || c == '\r' || c == '\t'
  }

  predicate IsBlank(s: string) {
    forall k | 0 <= k < |s| :: IsSpace(s[k])
  }

  predicate IsDelimiter(c: char) {
    c == ',' || c == '}' || c == ']' || IsSpace(c)
  }

  predicate IsDigit(c: char) {
    '0' <= c <= '9'
  }

  /** `t` is the part of `s` that starts at `i`. */
  predicate At(s: string, i: nat, t: string) {
    i + |t| <= |s| && forall k | 0 <= k < |t| :: s[i + k] == t[k]
  }

  lemma AtSlice(s: string, i: nat, t: string)
    ensures At(s, i, t) <==> i + |t| <= |s| && s[i..i + |t|] == t
  {
    if i + |t| <= |s| && s[i..i + |t|] == t {
      forall k | 0 <= k < |t| ensures s[i + k] == t[k] {
        assert s[i..i + |t|][k] == s[i + k];
      }
    }
  }

  lemma AtAppend(s: string, i: nat, t: string, u: string)
    ensures At(s, i, t + u) <==> At(s, i, t) && At(s, i + |t|, u)
  {
    if At(s, i, t + u) {
      forall k | 0 <= k < |t| ensures s[i + k] == t[k] { assert (t + u)[k] == t[k]; }
      forall k | 0 <= k < |u| ensures s[i + |t| + k] == u[k] { assert (t + u)[|t| + k] == u[k]; }
    }
  }

  lemma AtFirst(s: string, i: nat, t: string)
    requires At(s, i, t) && t != ""
    ensures i < |s| && s[i] == t[0]
  {
    assert s[i + 0] == t[0];
  }

  /* ---- Numbers ---- */

  /** The index after the longest run of digits that starts at `i`. */
  function DigitsEnd(s: string, i: nat): (j: nat)
    requires i <= |s|
    ensures i <= j <= |s|
    decreases |s| - i
  {
    if i < |s| && IsDigit(s[i]) then DigitsEnd(s, i + 1) else i
  }

  lemma {:induction false} DigitsEndRun(s: string, i: nat)
    requires i <= |s|
    ensures forall k | i <= k < DigitsEnd(s, i) :: IsDigit(s[k])
    ensures DigitsEnd(s, i) < |s| ==> !IsDigit(s[DigitsEnd(s, i)])
    decreases |s| - i
  {
    if i < |s| && IsDigit(s[i]) { DigitsEndRun(s, i + 1); }
  }

  lemma {:induction false} DigitsEndAt(s: string, i: nat, d: nat)
    requires i <= d <= |s| && (forall j | i <= j < d :: IsDigit(s[j])) && (d < |s| ==> !IsDigit(s[d]))
    ensures DigitsEnd(s, i) == d
    decreases d - i
  {
    if i < d { DigitsEndAt(s, i + 1, d); }
  }

  /** Where the exponent part of a number ends, when there is one and it is complete. */
  predicate IsExponent(s: string, i: nat)
    requires i <= |s|
  {
    i == |s| ||
    ((s[i] == 'e' || s[i] == 'E') &&
     var j := if i + 1 < |s| && (s[i + 1] == '+' || s[i + 1] == '-') then i + 2 else i + 1;
     j < |s| && DigitsEnd(s, j) == |s|)
  }

  predicate IsFractionAndExponent(s: string, i: nat)
    requires i <= |s|
  {
    if i < |s| && s[i] == '.' then
      var j := DigitsEnd(s, i + 1);
      j > i + 1 && IsExponent(s, j)
    else
      IsExponent(s, i)
  }

  /** A number literal: `-? int frac? exp?` with no leading zeros. */
  predicate IsNumber(s: string) {
    var i := if |s| > 0 && s[0] == '-' then 1 else 0;
    i < |s| && IsDigit(s[i]) &&
    IsFractionAndExponent(s, if s[i] == '0' then i + 1 else DigitsEnd(s, i))
  }

  /** Every character that can occur in a number. */
  predicate IsNumberChar(c: char) {
    IsDigit(c) || c == '-' || c == '+' || c == '.' || c == 'e' || c == 'E'
  }

  lemma NumberChars(s: string)
    requires IsNumber(s)
    ensures s != "" && (s[0] == '-' || IsDigit(s[0]))
    ensures forall k | 0 <= k < |s| :: IsNumberChar(s[k])
  {
    var i := if s[0] == '-' then 1 else 0;
    var j := if s[i] == '0' then i + 1 else DigitsEnd(s, i);
    DigitsEndRun(s, i);
    var k := if j < |s| && s[j] == '.' then DigitsEnd(s, j + 1) else j;
    if j < |s| { DigitsEndRun(s, j + 1); }
    if k < |s| {
      DigitsEndRun(s, if k + 1 < |s| && (s[k + 1] == '+' || s[k + 1] == '-') then k + 2 else k + 1);
    }
  }

  /** `true`, `false`, `null` or a number: the values that have no closing mark. */
  predicate IsLiteral(s: string) {
    s == "true" || s == "false" || s == "null" || IsNumber(s)
  }

  lemma LiteralChars(s: string)
    requires IsLiteral(s)
    ensures s != "" && forall k | 0 <= k < |s| :: !IsDelimiter(s[k]) && s[k] !in "\"{}[]"
  {
    if IsNumber(s) { NumberChars(s); }
  }

  /* ---- Strings ---- */

  predicate IsHexDigit(c: char) {
    IsDigit(c) || 'a' <= c <= 'f' || 'A' <= c <= 'F'
  }

  function HexValue(c: char): (n: nat)
    requires IsHexDigit(c)
    ensures n < 16
  {
    if IsDigit(c) then c as int - '0' as int
    else if 'a' <= c <= 'f' then c as int - 'a' as int + 10
    else c as int - 'A' as int + 10
  }

  function HexChar(n: nat): (c: char)
    requires n < 16
    ensures IsHexDigit(c) && HexValue(c) == n
  {
    if n < 10 then ('0' as int + n) as char else ('a' as int + n - 10) as char
  }

  predicate IsUnicodeEscape(s: string) {
    |s| >= 6 && s[0] == '\\' && s[1] == 'u' && forall k | 2 <= k < 6 :: IsHexDigit(s[k])
  }

  function UnicodeEscapeValue(s: string): (n: nat)
    requires IsUnicodeEscape(s)
    ensures n < 0x1_0000
  {
    HexValue(s[2]) * 4096 + HexValue(s[3]) * 256 + HexValue(s[4]) * 16 + HexValue(s[5])
  }

  /** What may stand between the two quotation marks of a string token. */
  predicate IsStringBody(s: string) {
    if s == "" then true
    else if s[0] == '\\' then
      if IsUnicodeEscape(s) then IsStringBody(s[6..])
      else |s| >= 2 && s[1] in "\"\\/bfnrt" && IsStringBody(s[2..])
    else s[0] >= ' ' && s[0] != '"' && IsStringBody(s[1..])
  }

  predicate IsStringToken(s: string) {
    |s| >= 2 && s[0] == '"' && s[|s| - 1] == '"' && IsStringBody(s[1..|s| - 1])
  }

  function ShortEscape(c: char): char {
    if c == 'b' then 8 as char
    else if c == 'f' then 12 as char
    else if c == 'n' then '\n'
    else if c == 'r' then '\r'
    else if c == 't' then '\t'
    else c
  }

  const REPLACEMENT: char := 0xFFFD as char

  /** The characters a string body denotes. A surrogate without its pair denotes U+FFFD. */
  function Unescape(s: string): string
    requires IsStringBody(s)
  {
    if s == "" then ""
    else if s[0] != '\\' then [s[0]] + Unescape(s[1..])
    else if IsUnicodeEscape(s) then
      var n, t := UnicodeEscapeValue(s), s[6..];
      assert IsStringBody(t);
      if 0xD800 <= n < 0xDC00 && IsUnicodeEscape(t) && 0xDC00 <= UnicodeEscapeValue(t) < 0xE000 then
        [((n - 0xD800) * 0x400 + (UnicodeEscapeValue(t) - 0xDC00) + 0x1_0000) as char] + Unescape(t[6..])
      else
        [if 0xD800 <= n < 0xE000 then REPLACEMENT else n as char] + Unescape(t)
    else [ShortEscape(s[1])] + Unescape(s[2..])
  }

  /** Skipping a backslash together with the one character after it stays inside the body. */
  lemma EscapeSkip(s: string)
    requires IsStringBody(s) && s != "" && s[0] == '\\'
    ensures |s| >= 2 && IsStringBody(s[2..])
  {
    if IsUnicodeEscape(s) {
      assert s[2..][1..] == s[3..] && s[3..][1..] == s[4..] && s[4..][1..] == s[5..] && s[5..][1..] == s[6..];
      assert IsStringBody(s[5..]);
      assert IsStringBody(s[4..]);
      assert IsStringBody(s[3..]);
    }
  }

  /* ---- Writing strings ---- */

  function UnicodeEscape(n: nat): (s: string)
    requires n < 0x1_0000
    ensures |s| == 6 && IsUnicodeEscape(s)
  {
    var a := n / 16;
    var b := a / 16;
    ['\\', 'u', HexChar(b / 16), HexChar(b % 16), HexChar(a % 16), HexChar(n % 16)]
  }

  lemma UnicodeEscapeRoundTrip(n: nat)
    requires n < 0x1_0000
    ensures UnicodeEscapeValue(UnicodeEscape(n)) == n
  {
    var a := n / 16;
    var b := a / 16;
    assert n == a * 16 + n % 16 && a == b * 16 + a % 16 && b == b / 16 * 16 + b % 16;
  }

  /** How the standard encoder writes one character: HTML-sensitive characters and the
      two Unicode line separators are escaped as well as what JSON requires. */
  function EscapeChar(c: char): string {
    if c == '"' then "\\\""
    else if c == '\\' then "\\\\"
    else if c == 8 as char then "\\b"
    else if c == 12 as char then "\\f"
    else if c == '\n' then "\\n"
    else if c == '\r' then "\\r"
    else if c == '\t' then "\\t"
    else if c < ' ' || c == '<' || c == '>' || c == '&' || c as int == 0x2028 || c as int == 0x2029
    then UnicodeEscape(c as int)
    else [c]
  }

  function Escape(s: string): string {
    if s == "" then "" else EscapeChar(s[0]) + Escape(s[1..])
  }

  function Quote(s: string): string {
    "\"" + Escape(s) + "\""
  }

  /** What an escaped text never holds, for one character and for a whole string. */
  predicate IsPlain(t: string) {
    forall k | 0 <= k < |t| :: t[k] >= ' '
  }

  lemma ShortEscapeReads(x: char, rest: string)
    requires x in "\"\\bfnrt" && IsStringBody(rest)
    ensures IsStringBody(['\\', x] + rest)
    ensures Unescape(['\\', x] + rest) == [ShortEscape(x)] + Unescape(rest)
  {
    var s := ['\\', x] + rest;
    assert s[2..] == rest && !IsUnicodeEscape(s);
  }

  lemma UnicodeEscapeReads(n: nat, rest: string)
    requires n < 0xD800 && IsStringBody(rest)
    ensures IsStringBody(UnicodeEscape(n) + rest)
    ensures Unescape(UnicodeEscape(n) + rest) == [n as char] + Unescape(rest)
  {
    var e := UnicodeEscape(n);
    var s := e + rest;
    assert s[6..] == rest;
    assert IsUnicodeEscape(s);
    UnicodeEscapeRoundTrip(n);
    assert UnicodeEscapeValue(s) == UnicodeEscapeValue(e);
  }

  lemma PlainCharReads(c: char, rest: string)
    requires IsStringBody(rest) && c >= ' ' && c != '"' && c != '\\'
    ensures IsStringBody([c] + rest) && Unescape([c] + rest) == [c] + Unescape(rest)
  {
    assert ([c] + rest)[1..] == rest;
  }

  lemma EscapeCharReads(c: char, rest: string)
    requires IsStringBody(rest)
    ensures IsPlain(EscapeChar(c)) && EscapeChar(c) != ""
    ensures IsStringBody(EscapeChar(c) + rest)
    ensures Unescape(EscapeChar(c) + rest) == [c] + Unescape(rest)
  {
    hide IsStringBody, Unescape;
    var e := EscapeChar(c);
    if e == [c] {
      PlainCharReads(c, rest);
    } else if |e| == 2 {
      ShortEscapeReads(e[1], rest);
    } else {
      UnicodeEscapeReads(c as int, rest);
    }
  }

  /** Reading back what was written gives the same characters, and the written form
      never holds a control character, so in particular no line break. */
  lemma {:induction false} EscapeRoundTrip(s: string)
    ensures IsStringBody(Escape(s)) && Unescape(Escape(s)) == s && IsPlain(Escape(s))
  {
    if s != "" {
      EscapeRoundTrip(s[1..]);
      EscapeCharReads(s[0], Escape(s[1..]));
      assert s == [s[0]] + s[1..];
    }
  }

  lemma QuoteRoundTrip(s: string)
    ensures IsStringToken(Quote(s)) && IsPlain(Quote(s))
    ensures Unescape(Quote(s)[1..|Quote(s)| - 1]) == s
  {
    EscapeRoundTrip(s);
    assert Quote(s)[1..|Quote(s)| - 1] == Escape(s);
  }
}
