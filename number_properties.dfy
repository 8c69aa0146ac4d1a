/**
 * What the numeral pass guarantees: a text without digits is left alone, a
 * standalone number of up to four digits becomes its reading, and the suffix
 * rules read the number in front of their counter word.
 */
module NumberProperties {
  import opened Options
  import opened CharClasses
  import opened NumberReading
  import opened GlobalReplace
  import opened JapaneseText

  predicate IsNumeralRule(rule: Rule) {
    rule.YearNumeral? || rule.ShortNumeral? || rule.PercentNumeral? || rule.BareNumeral?
  }

  /** Every numeral pattern starts with a digit. */
  lemma NumeralMatchStartsWithDigit(rule: Rule, s: string, i: nat)
    requires IsNumeralRule(rule) && i < |s| && MatchAt(rule, s, i).Some?
    ensures IsAsciiDigit(s[i])
  {
  }

  /** A numeral rule leaves a text without ASCII digits as it was. */
  lemma NumeralRuleWithoutDigits(rule: Rule, s: string)
    requires IsNumeralRule(rule) && NoAsciiDigit(s)
    ensures ReplaceAll(s, rule) == s
  {
    forall j | 0 <= j < |s| ensures MatchAt(rule, s, j).None? {
      if MatchAt(rule, s, j).Some? {
        NumeralMatchStartsWithDigit(rule, s, j);
      }
    }
    ReplaceWithoutMatch(s, rule);
  }

  /** `convertNumbersToJapanese` changes nothing in a text without ASCII digits. */
  lemma DigitFreeTextUnchanged(s: string)
    requires NoAsciiDigit(s)
    ensures ConvertNumbersToJapanese(s) == s
  {
    NumeralRuleWithoutDigits(YearNumeral, s);
    NumeralRuleWithoutDigits(ShortNumeral('月', "がつ"), s);
    NumeralRuleWithoutDigits(ShortNumeral('日', "にち"), s);
    NumeralRuleWithoutDigits(ShortNumeral('時', "じ"), s);
    NumeralRuleWithoutDigits(ShortNumeral('分', "ふん"), s);
    NumeralRuleWithoutDigits(PercentNumeral, s);
    NumeralRuleWithoutDigits(BareNumeral, s);
  }

  /**
   * The general rule: where it matches, the digits are a whole run of one to
   * four digits between word boundaries, and the replacement is their reading,
   * which holds no digit.
   */
  lemma BareNumeralHit(s: string, i: nat)
    requires i < |s| && MatchAt(BareNumeral, s, i).Some?
    ensures var h := MatchAt(BareNumeral, s, i).value;
            && 1 <= h.len <= 4
            && AllDigits(s[i..i + h.len])
            && h.len == RunLength(s, i, Digits)
            && WordBoundary(s, i) && WordBoundary(s, i + h.len)
            && h.replacement == Reading(DecimalValue(s[i..i + h.len]))
            && NoAsciiDigit(h.replacement)
  {
    var h := MatchAt(BareNumeral, s, i).value;
    var digits := s[i..i + h.len];
    DigitSlice(s, i, h.len);
    ShortNumeralIsRead(digits);
  }

  /** A run of five or more digits is never matched by the general rule, at any of its positions. */
  lemma LongRunNotRead(s: string, i: nat, j: nat)
    requires i <= j < |s| && RunLength(s, i, Digits) >= 5 && j < i + RunLength(s, i, Digits)
    ensures MatchAt(BareNumeral, s, j).None?
  {
    if j > i {
      assert IsWordChar(s[j - 1]);
    }
    RunTail(s, i, j);
  }

  /** The run of digits from inside a run ends where the run ends. */
  lemma {:induction false} RunTail(s: string, i: nat, j: nat)
    requires i <= |s| && i <= j <= i + RunLength(s, i, Digits)
    ensures j + RunLength(s, j, Digits) == i + RunLength(s, i, Digits)
    decreases j - i
  {
    if j > i {
      RunTail(s, i + 1, j);
    }
  }

  /** Digits glued to a letter, as in `abc123`, are no standalone number. */
  lemma DigitsAfterLetterNotRead(s: string, i: nat)
    requires 0 < i < |s| && IsWordChar(s[i - 1]) && IsAsciiDigit(s[i])
    ensures MatchAt(BareNumeral, s, i).None?
  {
  }

  // ---------------------------------------------------------------------
  // The general rule over a whole text.
  // ---------------------------------------------------------------------

  /** Where `\b(\d{1,4})\b` matches: one to four digits with a word boundary on either side. */
  predicate ShortNumberAt(t: string, k: nat)
    requires k < |t|
  {
    var r := RunLength(t, k, Digits);
    1 <= r <= 4 && WordBoundary(t, k) && WordBoundary(t, k + r)
  }

  lemma ShortNumberMatch(t: string, k: nat)
    requires k < |t|
    ensures MatchAt(BareNumeral, t, k).Some? <==> ShortNumberAt(t, k)
  {
    assert MatchAt(BareNumeral, t, k) == MatchBareNumeral(t, k);
  }

  /** The general rule matches nowhere in `t`. */
  predicate NoShortNumber(t: string) {
    forall k :: 0 <= k < |t| ==> !ShortNumberAt(t, k)
  }

  lemma {:induction false} RunLengthShift(a: string, b: string, k: nat, cs: CharSet)
    requires k <= |b|
    ensures RunLength(a + b, |a| + k, cs) == RunLength(b, k, cs)
    decreases |b| - k
  {
    if k < |b| {
      assert (a + b)[|a| + k] == b[k];
      RunLengthShift(a, b, k + 1, cs);
    }
  }

  /** A run that stops inside `x` is the same run in `x + y`. */
  lemma RunLengthPrefix(x: string, y: string, k: nat, cs: CharSet)
    requires k < |x| && !InSet(x[|x| - 1], cs)
    ensures RunLength(x + y, k, cs) == RunLength(x, k, cs)
    ensures k + RunLength(x, k, cs) < |x|
  {
    var n := RunLength(x, k, cs);
    assert k + n < |x|;
    forall q | k <= q <= k + n ensures (x + y)[q] == x[q] {
    }
    RunLengthExact(x + y, k, n, cs);
  }

  /** A word boundary of `b` is one of `a + b`, past the first position or behind a character that is no word character. */
  lemma WordBoundaryShift(a: string, b: string, j: nat)
    requires j <= |b| && (j > 0 || a == [] || !IsWordChar(a[|a| - 1]))
    ensures WordBoundary(a + b, |a| + j) == WordBoundary(b, j)
  {
    if j > 0 {
      assert (a + b)[|a| + j - 1] == b[j - 1];
    }
    if j < |b| {
      assert (a + b)[|a| + j] == b[j];
    }
  }

  /** Past its first position, or behind a character that is no word character, the rule does not see what comes before. */
  lemma ShortNumberShift(a: string, b: string, k: nat)
    requires k < |b| && (k > 0 || a == [] || !IsWordChar(a[|a| - 1]))
    ensures ShortNumberAt(a + b, |a| + k) == ShortNumberAt(b, k)
  {
    RunLengthShift(a, b, k, Digits);
    var r := RunLength(b, k, Digits);
    WordBoundaryShift(a, b, k);
    WordBoundaryShift(a, b, k + r);
  }

  /** Before a closing character that is no word character, the rule does not see what comes after. */
  lemma ShortNumberPrefix(x: string, y: string, k: nat)
    requires k < |x| && !IsWordChar(x[|x| - 1])
    ensures ShortNumberAt(x + y, k) == ShortNumberAt(x, k)
  {
    RunLengthPrefix(x, y, k, Digits);
    var r := RunLength(x, k, Digits);
    assert (x + y)[k] == x[k] && (x + y)[k + r] == x[k + r];
    assert WordBoundary(x + y, k) == WordBoundary(x, k) by {
      if k > 0 {
        assert (x + y)[k - 1] == x[k - 1];
      }
    }
    if r > 0 {
      assert (x + y)[k + r - 1] == x[k + r - 1];
    }
  }

  /** A piece where the rule matches nowhere, in front of a text where it matches nowhere, with no word glued across the seam. */
  lemma NoShortNumberJoin(piece: string, rest: string)
    requires NoShortNumber(rest)
    requires forall k :: 0 <= k < |piece| ==> !ShortNumberAt(piece + rest, k)
    requires piece == [] || !IsWordChar(piece[|piece| - 1]) || rest == [] || !IsWordChar(rest[0])
    ensures NoShortNumber(piece + rest)
  {
    var t := piece + rest;
    forall k | |piece| <= k < |t| ensures !ShortNumberAt(t, k) {
      if k == |piece| && piece != [] && IsWordChar(piece[|piece| - 1]) {
        assert t[k] == rest[0];
      } else {
        ShortNumberShift(piece, rest, k - |piece|);
      }
    }
  }

  /** A reading holds no word character. */
  lemma ReadingHasNoWordChar(n: nat)
    requires n < 10000
    ensures forall k :: 0 <= k < |Reading(n)| ==> !IsWordChar(Reading(n)[k])
  {
    if n == 0 {
      assert Reading(n) == "ゼロ";
    }
  }

  /** A character that is no word character is copied, in front of the rest of the scan. */
  lemma NonWordStep(s: string, i: nat)
    requires i < |s| && !IsWordChar(s[i])
    requires NoShortNumber(ReplaceFrom(s, BareNumeral, i + 1))
    ensures NoShortNumber(ReplaceFrom(s, BareNumeral, i))
  {
    NonWordCopied(s, i);
    NoShortNumberJoin([s[i]], ReplaceFrom(s, BareNumeral, i + 1));
  }

  /** Where the rule reads a number, its replacement holds no word character. */
  lemma ReadingHasNoWordCharAt(s: string, i: nat)
    requires i < |s| && ShortNumberAt(s, i)
    ensures MatchAt(BareNumeral, s, i).Some?
    ensures MatchAt(BareNumeral, s, i).value.len == RunLength(s, i, Digits)
    ensures var reading := MatchAt(BareNumeral, s, i).value.replacement;
            forall k :: 0 <= k < |reading| ==> !IsWordChar(reading[k])
  {
    ShortNumberMatch(s, i);
    BareNumeralHit(s, i);
    var h := MatchAt(BareNumeral, s, i).value;
    ReadingHasNoWordChar(DecimalValue(s[i..i + h.len]));
  }

  /** A number the rule reads becomes a reading without word characters, in front of the rest of the scan. */
  lemma ReadStep(s: string, i: nat)
    requires i < |s| && ShortNumberAt(s, i)
    requires NoShortNumber(ReplaceFrom(s, BareNumeral, i + RunLength(s, i, Digits)))
    ensures NoShortNumber(ReplaceFrom(s, BareNumeral, i))
  {
    ReadingHasNoWordCharAt(s, i);
    var h := MatchAt(BareNumeral, s, i).value;
    var rest := ReplaceFrom(s, BareNumeral, i + h.len);
    ReplaceStep(s, BareNumeral, i);
    ReadingThenRest(h.replacement, rest);
  }

  /** A reading in front of a text without matches. */
  lemma ReadingThenRest(reading: string, rest: string)
    requires forall k :: 0 <= k < |reading| ==> !IsWordChar(reading[k])
    requires NoShortNumber(rest)
    ensures NoShortNumber(reading + rest)
  {
    forall k | 0 <= k < |reading| ensures !ShortNumberAt(reading + rest, k) {
      assert (reading + rest)[k] == reading[k];
    }
    NoShortNumberJoin(reading, rest);
  }

  /** The scan copies a word it does not read, and the copy starts with no match of the rule. */
  lemma CopiedWord(s: string, i: nat, e: nat)
    requires i < e <= |s| && forall k :: i <= k < e ==> IsWordChar(s[k])
    requires !ShortNumberAt(s, i)
    ensures ReplaceFrom(s, BareNumeral, i) == s[i..e] + ReplaceFrom(s, BareNumeral, e)
  {
    forall q | i <= q < e ensures MatchAt(BareNumeral, s, q).None? {
      ShortNumberMatch(s, q);
      if q > i {
        NoShortNumberInsideWord(s, q);
      }
    }
    ReplaceCopies(s, BareNumeral, i, e);
  }

  /** At the start of a word, the rule sees only the word and the character after it. */
  lemma WordStartSeen(s: string, i: nat, e: nat, y: string)
    requires i < e < |s| && !IsWordChar(s[e]) && (i == 0 || !IsWordChar(s[i - 1]))
    ensures ShortNumberAt(s[i..e] + ([s[e]] + y), 0) == ShortNumberAt(s, i)
  {
    var x := s[i..e + 1];
    assert x[|x| - 1] == s[e];
    assert s[i..e] + [s[e]] == x;
    assert s[i..e] + ([s[e]] + y) == x + y;
    ShortNumberPrefix(x, y, 0);
    WordStartInText(s, i, e);
  }

  /** The same holds for the word and the character after it read inside the whole text. */
  lemma WordStartInText(s: string, i: nat, e: nat)
    requires i < e < |s| && !IsWordChar(s[e]) && (i == 0 || !IsWordChar(s[i - 1]))
    ensures ShortNumberAt(s[i..e + 1], 0) == ShortNumberAt(s, i)
  {
    var x := s[i..e + 1];
    assert x[|x| - 1] == s[e];
    assert s[i..] == x + s[e + 1..];
    ShortNumberPrefix(x, s[e + 1..], 0);
    assert s == s[..i] + s[i..];
    ShortNumberShift(s[..i], s[i..], 0);
  }

  /** The rule copies a character that is no word character. */
  lemma NonWordCopied(s: string, e: nat)
    requires e < |s| && !IsWordChar(s[e])
    ensures ReplaceFrom(s, BareNumeral, e) == [s[e]] + ReplaceFrom(s, BareNumeral, e + 1)
  {
    ShortNumberMatch(s, e);
    ReplaceStep(s, BareNumeral, e);
  }

  /** The copy of a word the rule does not read, in front of what follows it, starts with no match. */
  lemma CopiedWordStart(s: string, i: nat, e: nat)
    requires i < e <= |s| && (i == 0 || !IsWordChar(s[i - 1])) && (e == |s| || !IsWordChar(s[e]))
    requires !ShortNumberAt(s, i)
    ensures !ShortNumberAt(s[i..e] + ReplaceFrom(s, BareNumeral, e), 0)
  {
    if e == |s| {
      LastWordCopied(s, i);
    } else {
      InnerWordCopied(s, i, e);
    }
  }

  lemma LastWordCopied(s: string, i: nat)
    requires i < |s| && (i == 0 || !IsWordChar(s[i - 1]))
    requires !ShortNumberAt(s, i)
    ensures !ShortNumberAt(s[i..|s|] + ReplaceFrom(s, BareNumeral, |s|), 0)
  {
    assert ReplaceFrom(s, BareNumeral, |s|) == [];
    assert s[i..|s|] + [] == s[i..];
    LastWordStart(s, i);
  }

  lemma InnerWordCopied(s: string, i: nat, e: nat)
    requires i < e < |s| && (i == 0 || !IsWordChar(s[i - 1])) && !IsWordChar(s[e])
    requires !ShortNumberAt(s, i)
    ensures !ShortNumberAt(s[i..e] + ReplaceFrom(s, BareNumeral, e), 0)
  {
    NonWordCopied(s, e);
    WordStartSeen(s, i, e, ReplaceFrom(s, BareNumeral, e + 1));
  }

  lemma LastWordStart(s: string, i: nat)
    requires i < |s| && (i == 0 || !IsWordChar(s[i - 1]))
    ensures ShortNumberAt(s[i..], 0) == ShortNumberAt(s, i)
  {
    assert s == s[..i] + s[i..];
    ShortNumberShift(s[..i], s[i..], 0);
  }

  /** Between two word characters there is no word boundary, so no match starts there. */
  lemma NoShortNumberInsideWord(t: string, k: nat)
    requires 0 < k < |t| && IsWordChar(t[k - 1]) && IsWordChar(t[k])
    ensures !ShortNumberAt(t, k)
  {
    assert !WordBoundary(t, k);
  }

  /** Inside the copy of a word no match starts. */
  lemma InsideCopiedWord(w: string, rest: string)
    requires forall k :: 0 <= k < |w| ==> IsWordChar(w[k])
    ensures forall k :: 0 < k < |w| ==> !ShortNumberAt(w + rest, k)
  {
    forall k | 0 < k < |w| ensures !ShortNumberAt(w + rest, k) {
      assert (w + rest)[k - 1] == w[k - 1] && (w + rest)[k] == w[k];
      NoShortNumberInsideWord(w + rest, k);
    }
  }

  /** A word the rule does not read is copied whole, in front of the rest of the scan. */
  lemma CopiedWordStep(s: string, i: nat)
    requires i < |s| && IsWordChar(s[i]) && (i == 0 || !IsWordChar(s[i - 1]))
    requires !ShortNumberAt(s, i)
    requires NoShortNumber(ReplaceFrom(s, BareNumeral, i + RunLength(s, i, WordChars)))
    ensures NoShortNumber(ReplaceFrom(s, BareNumeral, i))
  {
    var e := i + RunLength(s, i, WordChars);
    WordRun(s, i);
    CopiedWord(s, i, e);
    CopiedWordStart(s, i, e);
    WordThenRest(s, i, e);
  }

  /** A run of word characters ends at the end of the text or before a character that is no word character. */
  lemma WordRun(s: string, i: nat)
    requires i < |s| && IsWordChar(s[i])
    ensures var e := i + RunLength(s, i, WordChars);
            && i < e <= |s| && (e == |s| || !IsWordChar(s[e]))
            && forall k :: i <= k < e ==> IsWordChar(s[k])
  {
  }

  /** The copy of a word, in front of the rest of the scan, holds no match past its first position. */
  lemma WordThenRest(s: string, i: nat, e: nat)
    requires i < e <= |s| && (e == |s| || !IsWordChar(s[e]))
    requires forall k :: i <= k < e ==> IsWordChar(s[k])
    requires !ShortNumberAt(s[i..e] + ReplaceFrom(s, BareNumeral, e), 0)
    requires NoShortNumber(ReplaceFrom(s, BareNumeral, e))
    ensures NoShortNumber(s[i..e] + ReplaceFrom(s, BareNumeral, e))
  {
    var w := s[i..e];
    var rest := ReplaceFrom(s, BareNumeral, e);
    assert forall k :: 0 <= k < |w| ==> IsWordChar(w[k]);
    InsideCopiedWord(w, rest);
    if e < |s| {
      NonWordCopied(s, e);
    }
    NoShortNumberJoin(w, rest);
  }

  /** The scan of the general rule from a position not inside a word leaves no match of the rule behind. */
  lemma {:induction false} ShortNumbersGone(s: string, i: nat)
    requires i <= |s| && (i == 0 || i == |s| || !IsWordChar(s[i - 1]) || !IsWordChar(s[i]))
    ensures NoShortNumber(ReplaceFrom(s, BareNumeral, i))
    decreases |s| - i
  {
    if i < |s| {
      if !IsWordChar(s[i]) {
        ShortNumbersGone(s, i + 1);
        NonWordStep(s, i);
      } else if ShortNumberAt(s, i) {
        ShortNumberEnd(s, i);
        ShortNumbersGone(s, i + RunLength(s, i, Digits));
        ReadStep(s, i);
      } else {
        WordRun(s, i);
        ShortNumbersGone(s, i + RunLength(s, i, WordChars));
        CopiedWordStep(s, i);
      }
    }
  }

  /** A standalone number ends at the end of the text or before a character that is no word character. */
  lemma ShortNumberEnd(s: string, i: nat)
    requires i < |s| && ShortNumberAt(s, i)
    ensures var e := i + RunLength(s, i, Digits);
            i < e <= |s| && (e == |s| || !IsWordChar(s[e]))
  {
    var r := RunLength(s, i, Digits);
    assert IsWordChar(s[i + r - 1]);
  }

  /**
   * After the general rule, `\b(\d{1,4})\b` matches nowhere: every standalone
   * number of up to four digits has been read, and no reading makes a new one.
   */
  lemma NoShortNumeralLeft(s: string)
    ensures var t := ReplaceAll(s, BareNumeral);
            forall k :: 0 <= k < |t| ==> MatchAt(BareNumeral, t, k).None?
  {
    var t := ReplaceAll(s, BareNumeral);
    ShortNumbersGone(s, 0);
    forall k | 0 <= k < |t| ensures MatchAt(BareNumeral, t, k).None? {
      ShortNumberMatch(t, k);
    }
  }

  /** The output of `convertNumbersToJapanese` holds no standalone number of one to four digits. */
  lemma ConvertedHasNoShortNumeral(s: string)
    ensures var t := ConvertNumbersToJapanese(s);
            forall k :: 0 <= k < |t| ==> MatchAt(BareNumeral, t, k).None?
  {
    var percents := ReplaceAll(ReplaceAll(ReplaceAll(ReplaceAll(ReplaceAll(ReplaceAll(s, YearNumeral),
      ShortNumeral('月', "がつ")), ShortNumeral('日', "にち")), ShortNumeral('時', "じ")),
      ShortNumeral('分', "ふん")), PercentNumeral);
    NoShortNumeralLeft(percents);
  }

  /** No match of the general rule runs past the start of a word: every match ends where its digits end. */
  lemma BareMatchesStopBefore(s: string, i: nat)
    requires i <= |s| && (i == 0 || !IsWordChar(s[i - 1]))
    ensures forall q :: 0 <= q < i ==>
              MatchAt(BareNumeral, s, q).None? || q + MatchAt(BareNumeral, s, q).value.len <= i
  {
    forall q | 0 <= q < i && MatchAt(BareNumeral, s, q).Some?
      ensures q + MatchAt(BareNumeral, s, q).value.len <= i
    {
      BareNumeralHit(s, q);
    }
  }

  /** A run of one to four digits between word boundaries is a match of the general rule, read as its value. */
  lemma BareNumeralAt(s: string, i: nat, r: nat)
    requires 1 <= r <= 4 && i + r <= |s|
    requires forall k :: i <= k < i + r ==> IsAsciiDigit(s[k])
    requires i == 0 || !IsWordChar(s[i - 1])
    requires i + r == |s| || !IsWordChar(s[i + r])
    ensures AllDigits(s[i..i + r])
    ensures MatchAt(BareNumeral, s, i) == Some(Hit(r, Reading(DecimalValue(s[i..i + r]))))
  {
    ShortNumberOfRun(s, i, r);
    ShortNumberMatch(s, i);
    BareNumeralHit(s, i);
    var h := MatchAt(BareNumeral, s, i).value;
    assert h.len == r;
    assert h == Hit(r, Reading(DecimalValue(s[i..i + r])));
  }

  lemma ShortNumberOfRun(s: string, i: nat, r: nat)
    requires 1 <= r <= 4 && i + r <= |s|
    requires forall k :: i <= k < i + r ==> IsAsciiDigit(s[k])
    requires i == 0 || !IsWordChar(s[i - 1])
    requires i + r == |s| || !IsWordChar(s[i + r])
    ensures RunLength(s, i, Digits) == r && ShortNumberAt(s, i)
  {
    RunLengthExact(s, i, r, Digits);
    assert IsWordChar(s[i]) && IsWordChar(s[i + r - 1]);
  }

  /**
   * Every run of one to four digits between word boundaries is read: the scan
   * reaches it, and the output goes on with its reading and then the output of
   * the rest of the scan.
   */
  lemma BareNumeralRead(s: string, i: nat, r: nat)
    requires 1 <= r <= 4 && i + r <= |s|
    requires forall k :: i <= k < i + r ==> IsAsciiDigit(s[k])
    requires i == 0 || !IsWordChar(s[i - 1])
    requires i + r == |s| || !IsWordChar(s[i + r])
    ensures AllDigits(s[i..i + r])
    ensures EndsWith(ReplaceAll(s, BareNumeral),
                     Reading(DecimalValue(s[i..i + r])) + ReplaceFrom(s, BareNumeral, i + r))
  {
    BareNumeralAt(s, i, r);
    BareMatchesStopBefore(s, i);
    ReplaceReaches(s, BareNumeral, i);
    ReplaceStep(s, BareNumeral, i);
  }

  /** The match of a suffix rule at `q`, if any, ends with the suffix. */
  lemma SuffixMatchEnds(s: string, q: nat, suffix: char, reading: string)
    requires q < |s| && MatchAt(ShortNumeral(suffix, reading), s, q).Some?
    ensures var n := MatchAt(ShortNumeral(suffix, reading), s, q).value.len;
            && (n == 2 || n == 3) && s[q + n - 1] == suffix
            && forall k :: q <= k < q + n - 1 ==> IsAsciiDigit(s[k])
  {
    assert MatchAt(ShortNumeral(suffix, reading), s, q) == MatchShortNumeral(suffix, reading, s, q);
  }

  /** The digits in front of a suffix: two when there are two, otherwise one. */
  function SuffixDigits(s: string, p: nat): (d: nat)
    requires 0 < p < |s|
    ensures d == 1 || d == 2
    ensures d <= p
  {
    if p >= 2 && IsAsciiDigit(s[p - 2]) then 2 else 1
  }

  /** No match of a suffix rule starting before the digits in front of the suffix at `p` reaches into them. */
  lemma SuffixMatchesStopBefore(s: string, p: nat, suffix: char, reading: string)
    requires 0 < p < |s| && s[p] == suffix && !IsAsciiDigit(suffix) && IsAsciiDigit(s[p - 1])
    ensures var e := p - SuffixDigits(s, p);
            forall q :: 0 <= q < e ==>
              MatchAt(ShortNumeral(suffix, reading), s, q).None? || q + MatchAt(ShortNumeral(suffix, reading), s, q).value.len <= e
  {
    var d := SuffixDigits(s, p);
    forall q | 0 <= q < p - d && MatchAt(ShortNumeral(suffix, reading), s, q).Some?
      ensures q + MatchAt(ShortNumeral(suffix, reading), s, q).value.len <= p - d
    {
      SuffixMatchStops(s, p, suffix, reading, q);
    }
  }

  /**
   * A match of a suffix rule at `q`, before those digits, ends before them: its
   * suffix is no digit, and its at most two digits cannot run up to `p`.
   */
  lemma SuffixMatchStops(s: string, p: nat, suffix: char, reading: string, q: nat)
    requires 0 < p < |s| && s[p] == suffix && !IsAsciiDigit(suffix) && IsAsciiDigit(s[p - 1])
    requires q < p - SuffixDigits(s, p) && MatchAt(ShortNumeral(suffix, reading), s, q).Some?
    ensures q + MatchAt(ShortNumeral(suffix, reading), s, q).value.len <= p - SuffixDigits(s, p)
  {
    var d := SuffixDigits(s, p);
    var n := MatchAt(ShortNumeral(suffix, reading), s, q).value.len;
    SuffixMatchEnds(s, q, suffix, reading);
    assert !IsAsciiDigit(s[q + n - 1]);
    assert forall k :: p - d <= k < p ==> IsAsciiDigit(s[k]);
    assert d == 1 ==> !IsAsciiDigit(s[p - 2]);
  }

  /** At the digits in front of the suffix at `p`, a suffix rule matches them and the suffix. */
  lemma SuffixMatchAt(s: string, p: nat, suffix: char, reading: string)
    requires 0 < p < |s| && s[p] == suffix && !IsAsciiDigit(suffix) && IsAsciiDigit(s[p - 1])
    ensures AllDigits(s[p - SuffixDigits(s, p)..p])
    ensures MatchAt(ShortNumeral(suffix, reading), s, p - SuffixDigits(s, p))
            == Some(Hit(SuffixDigits(s, p) + 1, Reading(DecimalValue(s[p - SuffixDigits(s, p)..p])) + reading))
  {
    var d := SuffixDigits(s, p);
    var digits := s[p - d..p];
    assert AllDigits(digits);
    ShortNumeralIsRead(digits);
    RunLengthExact(s, p - d, d, Digits);
    assert MatchShortNumeral(suffix, reading, s, p - d) == Some(Hit(d + 1, ConvertNumberToJapanese(digits) + reading));
    assert MatchAt(ShortNumeral(suffix, reading), s, p - d) == MatchShortNumeral(suffix, reading, s, p - d);
  }

  /**
   * A suffix rule reads the last one or two digits in front of its counter
   * word: the scan reaches them, and the output goes on with their reading,
   * the counter's reading and then the output of the rest of the scan.
   */
  lemma SuffixNumeralRead(s: string, p: nat, suffix: char, reading: string)
    requires 0 < p < |s| && s[p] == suffix && !IsAsciiDigit(suffix) && IsAsciiDigit(s[p - 1])
    ensures var d := if p >= 2 && IsAsciiDigit(s[p - 2]) then 2 else 1;
            && AllDigits(s[p - d..p])
            && EndsWith(ReplaceAll(s, ShortNumeral(suffix, reading)),
                        Reading(DecimalValue(s[p - d..p])) + reading + ReplaceFrom(s, ShortNumeral(suffix, reading), p + 1))
  {
    var d := SuffixDigits(s, p);
    SuffixMatchesStopBefore(s, p, suffix, reading);
    ReplaceReaches(s, ShortNumeral(suffix, reading), p - d);
    SuffixMatchAt(s, p, suffix, reading);
    ReplaceStep(s, ShortNumeral(suffix, reading), p - d);
  }

  /** The match of the year rule at `q`, if any, is four digits and 年. */
  lemma YearMatchEnds(s: string, q: nat)
    requires q < |s| && MatchAt(YearNumeral, s, q).Some?
    ensures MatchAt(YearNumeral, s, q).value.len == 5 && q + 4 < |s| && s[q + 4] == '年'
  {
    assert MatchAt(YearNumeral, s, q) == MatchYear(s, q);
  }

  /** No match of the year rule starting before the four digits in front of the 年 at `p` reaches into them. */
  lemma YearMatchesStopBefore(s: string, p: nat)
    requires 4 <= p < |s| && forall k :: p - 4 <= k < p ==> IsAsciiDigit(s[k])
    ensures forall q :: 0 <= q < p - 4 ==>
              MatchAt(YearNumeral, s, q).None? || q + MatchAt(YearNumeral, s, q).value.len <= p - 4
  {
    forall q | 0 <= q < p - 4 && MatchAt(YearNumeral, s, q).Some?
      ensures q + MatchAt(YearNumeral, s, q).value.len <= p - 4
    {
      YearMatchEnds(s, q);
      assert !IsAsciiDigit(s[q + 4]);
    }
  }

  /** At the four digits in front of the 年 at `p`, the year rule matches them and the 年. */
  lemma YearMatchAt(s: string, p: nat)
    requires 4 <= p < |s| && s[p] == '年' && forall k :: p - 4 <= k < p ==> IsAsciiDigit(s[k])
    ensures AllDigits(s[p - 4..p])
    ensures MatchAt(YearNumeral, s, p - 4) == Some(Hit(5, Reading(DecimalValue(s[p - 4..p])) + "年"))
  {
    var digits := s[p - 4..p];
    assert AllDigits(digits);
    ShortNumeralIsRead(digits);
    RunLengthAtLeast(s, p - 4, 4, Digits);
    assert MatchYear(s, p - 4) == Some(Hit(5, ConvertNumberToJapanese(digits) + "年"));
    assert MatchAt(YearNumeral, s, p - 4) == MatchYear(s, p - 4);
  }

  /**
   * The year rule reads the four digits in front of every 年 that has four:
   * the scan reaches them, and the output goes on with their reading, the
   * kanji 年 itself and then the output of the rest of the scan.
   */
  lemma YearNumeralRead(s: string, p: nat)
    requires 4 <= p < |s| && s[p] == '年' && forall k :: p - 4 <= k < p ==> IsAsciiDigit(s[k])
    ensures AllDigits(s[p - 4..p])
    ensures EndsWith(ReplaceAll(s, YearNumeral),
                     Reading(DecimalValue(s[p - 4..p])) + "年" + ReplaceFrom(s, YearNumeral, p + 1))
  {
    YearMatchesStopBefore(s, p);
    ReplaceReaches(s, YearNumeral, p - 4);
    YearMatchAt(s, p);
    ReplaceStep(s, YearNumeral, p - 4);
  }

  /** The match of the percent rule at `q`, if any, is a run of digits and then %. */
  lemma PercentMatchEnds(s: string, q: nat)
    requires q < |s| && MatchAt(PercentNumeral, s, q).Some?
    ensures var n := MatchAt(PercentNumeral, s, q).value.len;
            && 2 <= n && s[q + n - 1] == '%'
            && forall k :: q <= k < q + n - 1 ==> IsAsciiDigit(s[k])
  {
    assert MatchAt(PercentNumeral, s, q) == MatchPercent(s, q);
  }

  /** No match of the percent rule runs into a run of digits from its start: before the run stands no digit. */
  lemma PercentMatchesStopBefore(s: string, a: nat)
    requires 0 < a < |s| && !IsAsciiDigit(s[a - 1])
    ensures forall q :: 0 <= q < a ==>
              MatchAt(PercentNumeral, s, q).None? || q + MatchAt(PercentNumeral, s, q).value.len <= a
  {
    forall q | 0 <= q < a && MatchAt(PercentNumeral, s, q).Some?
      ensures q + MatchAt(PercentNumeral, s, q).value.len <= a
    {
      PercentMatchEnds(s, q);
    }
  }

  /** At the start of a whole run of digits followed by %, the percent rule matches the run and the %. */
  lemma PercentMatchAt(s: string, a: nat, p: nat)
    requires a < p < |s| && s[p] == '%' && forall k :: a <= k < p ==> IsAsciiDigit(s[k])
    ensures AllDigits(s[a..p])
    ensures MatchAt(PercentNumeral, s, a) == Some(Hit(p - a + 1, ConvertNumberToJapanese(s[a..p]) + "パーセント"))
  {
    var digits := s[a..p];
    assert AllDigits(digits);
    RunLengthExact(s, a, p - a, Digits);
    assert MatchPercent(s, a) == Some(Hit(p - a + 1, ConvertNumberToJapanese(digits) + "パーセント"));
    assert MatchAt(PercentNumeral, s, a) == MatchPercent(s, a);
  }

  /**
   * The percent rule reads every whole run of digits in front of a %: the
   * scan reaches the run, and the output goes on with the number's reading
   * (or the digits themselves from 10000 on), パーセント in place of the %,
   * and then the output of the rest of the scan.
   */
  lemma PercentNumeralRead(s: string, a: nat, p: nat)
    requires a < p < |s| && s[p] == '%' && forall k :: a <= k < p ==> IsAsciiDigit(s[k])
    requires a == 0 || !IsAsciiDigit(s[a - 1])
    ensures AllDigits(s[a..p])
    ensures EndsWith(ReplaceAll(s, PercentNumeral),
                     ConvertNumberToJapanese(s[a..p]) + "パーセント" + ReplaceFrom(s, PercentNumeral, p + 1))
  {
    if a > 0 {
      PercentMatchesStopBefore(s, a);
    }
    ReplaceReaches(s, PercentNumeral, a);
    PercentOutput(s, a, p);
  }

  /** From the start of a run of digits followed by %, the scan gives the reading and パーセント, then the scan after the %. */
  lemma PercentOutput(s: string, a: nat, p: nat)
    requires a < p < |s| && s[p] == '%' && forall k :: a <= k < p ==> IsAsciiDigit(s[k])
    ensures AllDigits(s[a..p])
    ensures ReplaceFrom(s, PercentNumeral, a)
            == ConvertNumberToJapanese(s[a..p]) + "パーセント" + ReplaceFrom(s, PercentNumeral, p + 1)
  {
    PercentMatchAt(s, a, p);
    ReplaceStep(s, PercentNumeral, a);
  }

  /** An hour is read with its counter じ, which replaces 時. */
  lemma HourExample()
    ensures ReplaceAll("3時", ShortNumeral('時', "じ")) == "さんじ"
  {
    var s := "3時";
    var rule := ShortNumeral('時', "じ");
    assert s[0..1] == "3" && s[..1] == "3";
    assert DecimalValue("3") == 3;
    assert Reading(3) == "さん";
    assert ConvertNumberToJapanese(s[0..1]) == "さん";
    assert RunLength(s, 1, Digits) == 0;
    assert RunLength(s, 0, Digits) == 1;
    assert s[1] == '時';
    assert "さん" + "じ" == "さんじ";
    assert MatchShortNumeral('時', "じ", s, 0) == Some(Hit(2, "さんじ"));
    assert MatchAt(rule, s, 0) == Some(Hit(2, "さんじ"));
    assert ReplaceFrom(s, rule, 2) == [];
  }

  /** A percentage is read with パーセント in place of %. */
  lemma PercentExample()
    ensures ReplaceAll("50%", PercentNumeral) == "ごじゅうパーセント"
  {
    var s := "50%";
    assert s[..2] == "50" && "50"[..1] == "5";
    assert DecimalValue("5") == 5;
    assert DecimalValue("50") == 50;
    assert s[0..2] == "50";
    TensStep(5, 0);
    assert Reading(50) == "ごじゅう";
    assert ConvertNumberToJapanese(s[0..2]) == "ごじゅう";
    assert RunLength(s, 2, Digits) == 0;
    assert RunLength(s, 0, Digits) == 2;
    assert s[2] == '%';
    assert "ごじゅう" + "パーセント" == "ごじゅうパーセント";
    assert MatchPercent(s, 0) == Some(Hit(3, "ごじゅうパーセント"));
    assert MatchAt(PercentNumeral, s, 0) == Some(Hit(3, "ごじゅうパーセント"));
    assert ReplaceFrom(s, PercentNumeral, 3) == [];
  }

  lemma YearReading()
    ensures ConvertNumberToJapanese("2024") == "にせんにじゅうよん"
  {
    assert "2024"[..3] == "202" && "202"[..2] == "20" && "20"[..1] == "2";
    assert DecimalValue("2") == 2;
    assert DecimalValue("20") == 20;
    assert DecimalValue("202") == 202;
    assert DecimalValue("2024") == 2024;
    IrregularReadings();
  }

  lemma YearHit()
    ensures MatchYear("2024年", 0) == Some(Hit(5, "にせんにじゅうよん年"))
  {
    var s := "2024年";
    assert s[0..4] == "2024";
    assert s[4] == '年';
    assert RunLength(s, 4, Digits) == 0;
    assert RunLength(s, 0, Digits) == 4;
    assert "にせんにじゅうよん" + "年" == "にせんにじゅうよん年";
    YearReading();
  }

  /** A year keeps its counter 年 and is read in full. */
  lemma YearExample()
    ensures ReplaceAll("2024年", YearNumeral) == "にせんにじゅうよん年"
  {
    var s := "2024年";
    var f := MatcherOf(YearNumeral);
    YearHit();
    assert f(s, 0) == MatchYear(s, 0);
    ScanStep(s, f, 0);
    assert Scan(s, f, 5) == [];
    assert "にせんにじゅうよん年" + [] == "にせんにじゅうよん年";
  }

  /** Neither the year rule nor the 月 and 日 rules match in `3時`. */
  lemma HourTextNoEarlierRule()
    ensures forall j :: 0 <= j < 2 ==> MatchAt(YearNumeral, "3時", j).None?
    ensures forall j :: 0 <= j < 2 ==> MatchAt(ShortNumeral('月', "がつ"), "3時", j).None?
    ensures forall j :: 0 <= j < 2 ==> MatchAt(ShortNumeral('日', "にち"), "3時", j).None?
  {
    var s := "3時";
    assert RunLength(s, 1, Digits) == 0;
    assert RunLength(s, 0, Digits) == 1;
  }

  /** The rules after the 時 rule leave the reading さんじ alone. */
  lemma HourReadingKept()
    ensures ReplaceAll("さんじ", ShortNumeral('分', "ふん")) == "さんじ"
    ensures ReplaceAll("さんじ", PercentNumeral) == "さんじ"
    ensures ReplaceAll("さんじ", BareNumeral) == "さんじ"
  {
    assert NoAsciiDigit("さんじ");
    NumeralRuleWithoutDigits(ShortNumeral('分', "ふん"), "さんじ");
    NumeralRuleWithoutDigits(PercentNumeral, "さんじ");
    NumeralRuleWithoutDigits(BareNumeral, "さんじ");
  }

  /** The whole numeral pass reads `3時` as さんじ. */
  lemma HourPassExample()
    ensures ConvertNumbersToJapanese("3時") == "さんじ"
  {
    var s := "3時";
    HourTextNoEarlierRule();
    ReplaceWithoutMatch(s, YearNumeral);
    ReplaceWithoutMatch(s, ShortNumeral('月', "がつ"));
    ReplaceWithoutMatch(s, ShortNumeral('日', "にち"));
    HourExample();
    HourReadingKept();
  }

  /** Neither the year rule nor a counter rule matches in `50%`. */
  lemma PercentTextNoCounter()
    ensures forall j :: 0 <= j < 3 ==> MatchAt(YearNumeral, "50%", j).None?
    ensures forall j :: 0 <= j < 3 ==> MatchAt(ShortNumeral('月', "がつ"), "50%", j).None?
    ensures forall j :: 0 <= j < 3 ==> MatchAt(ShortNumeral('日', "にち"), "50%", j).None?
    ensures forall j :: 0 <= j < 3 ==> MatchAt(ShortNumeral('時', "じ"), "50%", j).None?
    ensures forall j :: 0 <= j < 3 ==> MatchAt(ShortNumeral('分', "ふん"), "50%", j).None?
  {
    var s := "50%";
    assert RunLength(s, 2, Digits) == 0;
    assert RunLength(s, 1, Digits) == 1;
    assert RunLength(s, 0, Digits) == 2;
  }

  /** The whole numeral pass reads `50%` as ごじゅうパーセント. */
  lemma PercentPassExample()
    ensures ConvertNumbersToJapanese("50%") == "ごじゅうパーセント"
  {
    var s := "50%";
    PercentTextNoCounter();
    ReplaceWithoutMatch(s, YearNumeral);
    ReplaceWithoutMatch(s, ShortNumeral('月', "がつ"));
    ReplaceWithoutMatch(s, ShortNumeral('日', "にち"));
    ReplaceWithoutMatch(s, ShortNumeral('時', "じ"));
    ReplaceWithoutMatch(s, ShortNumeral('分', "ふん"));
    PercentExample();
    PercentReadingKept();
  }

  /** The general rule leaves the reading ごじゅうパーセント alone. */
  lemma PercentReadingKept()
    ensures ReplaceAll("ごじゅうパーセント", BareNumeral) == "ごじゅうパーセント"
  {
    assert NoAsciiDigit("ごじゅうパーセント");
    NumeralRuleWithoutDigits(BareNumeral, "ごじゅうパーセント");
  }

  /** The whole numeral pass reads `2024年` as にせんにじゅうよん年, keeping the kanji. */
  lemma YearPassExample()
    ensures ConvertNumbersToJapanese("2024年") == "にせんにじゅうよん年"
  {
    var r := "にせんにじゅうよん年";
    YearExample();
    assert NoAsciiDigit(r);
    NumeralRuleWithoutDigits(ShortNumeral('月', "がつ"), r);
    NumeralRuleWithoutDigits(ShortNumeral('日', "にち"), r);
    NumeralRuleWithoutDigits(ShortNumeral('時', "じ"), r);
    NumeralRuleWithoutDigits(ShortNumeral('分', "ふん"), r);
    NumeralRuleWithoutDigits(PercentNumeral, r);
    NumeralRuleWithoutDigits(BareNumeral, r);
  }
}
