/**
 * The character classes that the regular expressions of the program use, with
 * the meaning JavaScript gives them when a pattern has no `u` flag, and the
 * JavaScript `String.prototype.trim` built on the same whitespace class.
 */
module CharClasses {

  /** `\d`: the ASCII digits 0-9 only. */
  predicate IsAsciiDigit(c: char) {
    '0' <= c <= '9'
  }

  /** The characters `\b` separates from the others: `[A-Za-z0-9_]`. */
  predicate IsWordChar(c: char) {
    'A' <= c <= 'Z' || 'a' <= c <= 'z' || IsAsciiDigit(c) || c == '_'
  }

  /** `[あ-ん]`: U+3042 to U+3093. */
  predicate IsHiragana(c: char) {
    'あ' <= c <= 'ん'
  }

  /** `[ア-ン]`: U+30A2 to U+30F3. */
  predicate IsKatakana(c: char) {
    'ア' <= c <= 'ン'
  }

  /** The long-vowel mark ー (U+30FC). */
  const Choon: char := 'ー'

  /** The full-width space (U+3000) that the text preprocessor inserts as a pause. */
  const Pause: char := '\U{3000}'

  /**
   * `\s`, which is also the set `trim` removes: the WhiteSpace and
   * LineTerminator code points of ECMAScript.
   */
  predicate IsJsSpace(c: char) {
    c == '\t' || c == '\n' || c == '\U{000B}' || c == '\U{000C}' || c == '\r' || c == ' '
    || c == '\U{00A0}' || c == '\U{1680}' || '\U{2000}' <= c <= '\U{200A}'
    || c == '\U{2028}' || c == '\U{2029}' || c == '\U{202F}' || c == '\U{205F}'
    || c == '\U{3000}' || c == '\U{FEFF}'
  }

  predicate NoSpaceAtEnds(s: string) {
    s == [] || (!IsJsSpace(s[0]) && !IsJsSpace(s[|s| - 1]))
  }

  /** The number of whitespace characters `s` starts with. */
  function LeadingSpaces(s: string): (n: nat)
    ensures n <= |s|
    ensures forall k :: 0 <= k < n ==> IsJsSpace(s[k])
    ensures n < |s| ==> !IsJsSpace(s[n])
  {
    if s == [] || !IsJsSpace(s[0]) then 0 else 1 + LeadingSpaces(s[1..])
  }

  /** The number of whitespace characters `s` ends with. */
  function TrailingSpaces(s: string): (n: nat)
    ensures n <= |s|
    ensures forall k :: |s| - n <= k < |s| ==> IsJsSpace(s[k])
    ensures n < |s| ==> !IsJsSpace(s[|s| - n - 1])
  {
    if s == [] || !IsJsSpace(s[|s| - 1]) then 0 else 1 + TrailingSpaces(s[..|s| - 1])
  }

  /**
   * `s.trim()`: the result is a slice of `s`, everything cut off on either
   * side is whitespace, and the result neither starts nor ends with any.
   */
  function Trim(s: string): (r: string)
    ensures NoSpaceAtEnds(r)
    ensures exists a, b ::
              && 0 <= a <= b <= |s| && r == s[a..b]
              && (forall k :: 0 <= k < a ==> IsJsSpace(s[k]))
              && (forall k :: b <= k < |s| ==> IsJsSpace(s[k]))
  {
    var a := LeadingSpaces(s);
    var t := s[a..];
    var b := a + |t| - TrailingSpaces(t);
    assert t[..|t| - TrailingSpaces(t)] == s[a..b];
    s[a..b]
  }
}
