/**
 * Character classes used by the text pipeline.
 *
 * Whitespace is Python's `str.isspace()` set, which is also what the regex class
 * `\s`, `str.split()` and `str.strip()` use. Word characters, upper case and
 * lower-casing are restricted to ASCII (Python's are Unicode-wide).
 */
module Chars {

  /** `str.isspace()` / regex `\s`: the characters Python classifies as whitespace. */
  predicate IsSpace(c: char) {
    || ('\t' <= c <= '\r')
    || ('\U{1C}' <= c <= '\U{1F}')
    || c == ' '
    || c == '\U{85}'
    || c == '\U{A0}'
    || c == '\U{1680}'
    || ('\U{2000}' <= c <= '\U{200A}')
    || c == '\U{2028}'
    || c == '\U{2029}'
    || c == '\U{202F}'
    || c == '\U{205F}'
    || c == '\U{3000}'
  }

  /** Regex `\S`: any character that is not whitespace. */
  predicate IsNonSpace(c: char) {
    !IsSpace(c)
  }

  /** Regex `\w`, restricted to ASCII letters, digits and underscore. */
  predicate IsWordChar(c: char) {
    ('a' <= c <= 'z') || ('A' <= c <= 'Z') || ('0' <= c <= '9') || c == '_'
  }

  /** `str.isupper()` on one character, restricted to ASCII. */
  predicate IsUpper(c: char) {
    'A' <= c <= 'Z'
  }

  predicate InRange(c: char, lo: int, hi: int) {
    lo <= c as int <= hi
  }

  /**
   * The emoji character set `[...]` shared by the feature extractor and the
   * cleaner: its six code-point ranges, written as the source lists them.
   */
  predicate IsEmoji(c: char) {
    || InRange(c, 0x1F600, 0x1F64F)  // emoticons
    || InRange(c, 0x1F300, 0x1F5FF)  // symbols and pictographs
    || InRange(c, 0x1F680, 0x1F6FF)  // transport and map symbols
    || InRange(c, 0x1F1E0, 0x1F1FF)  // flags
    || InRange(c, 0x2702, 0x27B0)
    || InRange(c, 0x24C2, 0x1F251)
  }

  /** No character of `t` is an upper-case letter. */
  predicate NoUpper(t: string) {
    forall d :: 0 <= d < |t| ==> !IsUpper(t[d])
  }

  /** `str.lower()` on one character, restricted to ASCII letters. */
  function ToLower(c: char): (r: char)
    ensures !IsUpper(r)
    ensures IsUpper(c) ==> r as int == c as int + 32
    ensures !IsUpper(c) ==> r == c
  {
    if IsUpper(c) then (c as int + 32) as char else c
  }

  /** `str.lower()`: every character lower-cased, length unchanged. */
  function Lower(s: string): (r: string)
    ensures |r| == |s|
    ensures NoUpper(r)
    ensures forall j :: 0 <= j < |r| ==> (IsSpace(r[j]) <==> IsSpace(s[j]))
    ensures forall j :: 0 <= j < |r| && IsSpace(s[j]) ==> r[j] == s[j]
    ensures forall j :: 0 <= j < |r| && !IsUpper(s[j]) ==> r[j] == s[j]
    ensures forall j :: 0 <= j < |r| && IsUpper(s[j]) ==> r[j] as int == s[j] as int + 32
  {
    seq(|s|, j requires 0 <= j < |s| => ToLower(s[j]))
  }

  /** Lower-casing works character by character, so it distributes over concatenation. */
  lemma LowerConcat(a: string, b: string)
    ensures Lower(a + b) == Lower(a) + Lower(b)
  {
  }

  /** Lower-casing a lower-cased text changes nothing. */
  lemma LowerIdempotent(s: string)
    ensures Lower(Lower(s)) == Lower(s)
  {
  }
}
