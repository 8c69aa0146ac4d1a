/**
 * What the whole preprocessor guarantees: its output is whitespace-normalised
 * (single ASCII spaces only, none at either end), so the full-width pauses the
 * earlier passes insert come out as ordinary spaces; and with the numeral pass
 * switched off, the digits of the text come through in order.
 */
module PreprocessProperties {
  import opened Options
  import opened CharClasses
  import opened NumberReading
  import opened GlobalReplace
  import opened JapaneseText
  import opened SubstitutionProperties
  import opened PunctuationProperties

  /** The only whitespace is the ASCII space, and never two in a row. */
  predicate SingleSpaced(t: string) {
    && (forall k :: 0 <= k < |t| && IsJsSpace(t[k]) ==> t[k] == ' ')
    && (forall k :: 0 < k < |t| && t[k] == ' ' ==> t[k - 1] != ' ')
  }

  predicate Normalized(t: string) {
    SingleSpaced(t) && NoSpaceAtEnds(t)
  }

  /** After `\s+` becomes `' '`, every whitespace character is a lone ASCII space. */
  lemma {:induction false} SpaceRunsCollapsed(s: string, i: nat)
    requires i <= |s|
    ensures SingleSpaced(ReplaceFrom(s, SpaceRun, i))
    ensures i < |s| ==> ReplaceFrom(s, SpaceRun, i) != []
    ensures i < |s| && !IsJsSpace(s[i]) ==> ReplaceFrom(s, SpaceRun, i)[0] == s[i]
    decreases |s| - i
  {
    if i < |s| {
      var out := ReplaceFrom(s, SpaceRun, i);
      var next := if IsJsSpace(s[i]) then i + RunLength(s, i, Spaces) else i + 1;
      var rest := ReplaceFrom(s, SpaceRun, next);
      SpaceRunsCollapsed(s, next);
      assert out == [if IsJsSpace(s[i]) then ' ' else s[i]] + rest;
      forall k | 0 < k < |out| && out[k] == ' ' ensures out[k - 1] != ' ' {
        assert out[k] == rest[k - 1];
      }
    }
  }

  lemma SliceSingleSpaced(t: string, a: nat, b: nat)
    requires a <= b <= |t| && SingleSpaced(t)
    ensures SingleSpaced(t[a..b])
  {
    var u := t[a..b];
    forall k | 0 < k < |u| && u[k] == ' ' ensures u[k - 1] != ' ' {
      assert u[k] == t[a + k] && u[k - 1] == t[a + k - 1];
    }
  }

  /** `.replace(/\s+/g, ' ').trim()` gives single-spaced text with no whitespace at either end. */
  lemma NormalizeSpacesNormalizes(s: string)
    ensures Normalized(NormalizeSpaces(s))
  {
    var collapsed := ReplaceAll(s, SpaceRun);
    SpaceRunsCollapsed(s, 0);
    var a, b :| && 0 <= a <= b <= |collapsed| && Trim(collapsed) == collapsed[a..b]
                && (forall k :: 0 <= k < a ==> IsJsSpace(collapsed[k]))
                && (forall k :: b <= k < |collapsed| ==> IsJsSpace(collapsed[k]));
    SliceSingleSpaced(collapsed, a, b);
  }

  lemma SpaceRunKeeps(s: string, j: nat)
    requires j < |s|
    ensures HitKeeps(MatcherOf(SpaceRun), s, j, DropSpaces)
  {
    assert MatchAt(SpaceRun, s, j) == MatchSpaceRun(s, j);
    if IsJsSpace(s[j]) {
      var n := RunLength(s, j, Spaces);
      assert MatchAt(SpaceRun, s, j).value == Hit(n, " ");
      assert s[j..j + n] == [] + s[j..j + n] + [];
      assert " " == [] + " " + [];
      SwapDropped([], s[j..j + n], [], " ", DropSpaces);
    }
  }

  /** Whitespace is dropped by the projections that drop whitespace. */
  lemma SpacesProjectNothing(u: string, k: Keep)
    requires k == DropSpaces || k == KeepDigits
    requires forall j :: 0 <= j < |u| ==> IsJsSpace(u[j])
    ensures Project(u, k) == []
  {
    forall j | 0 <= j < |u| ensures !Kept(u[j], k) {
      assert IsJsSpace(u[j]);
    }
    ProjectNothing(u, k);
  }

  /** Ends that a projection drops entirely leave the projection of the middle. */
  lemma ProjectDropsEnds(p: string, m: string, q: string, k: Keep)
    requires Project(p, k) == [] && Project(q, k) == []
    ensures Project(p + m + q, k) == Project(m, k)
  {
    ProjectConcat(p + m, q, k);
    ProjectConcat(p, m, k);
  }

  /** Trimming only removes characters that a projection dropping whitespace drops anyway. */
  lemma TrimKeeps(s: string, k: Keep)
    requires k == DropSpaces || k == KeepDigits
    ensures Project(Trim(s), k) == Project(s, k)
  {
    var a, b :| && 0 <= a <= b <= |s| && Trim(s) == s[a..b]
                && (forall j :: 0 <= j < a ==> IsJsSpace(s[j]))
                && (forall j :: b <= j < |s| ==> IsJsSpace(s[j]));
    assert s == s[..a] + s[a..b] + s[b..];
    forall j | 0 <= j < a ensures IsJsSpace(s[..a][j]) {
      assert s[..a][j] == s[j];
    }
    SpacesProjectNothing(s[..a], k);
    forall j | 0 <= j < |s| - b ensures IsJsSpace(s[b..][j]) {
      assert s[b..][j] == s[b + j];
    }
    SpacesProjectNothing(s[b..], k);
    ProjectDropsEnds(s[..a], s[a..b], s[b..], k);
  }

  /** The whitespace collapse changes whitespace only. */
  lemma NormalizeKeepsText(s: string)
    ensures Project(NormalizeSpaces(s), DropSpaces) == Project(s, DropSpaces)
  {
    forall j | 0 <= j < |s| ensures HitKeeps(MatcherOf(SpaceRun), s, j, DropSpaces) {
      SpaceRunKeeps(s, j);
    }
    ReplaceAllKeeps(s, SpaceRun, DropSpaces);
    TrimKeeps(ReplaceAll(s, SpaceRun), DropSpaces);
  }

  /** Whatever the options, the preprocessed text is single-spaced and trimmed. */
  lemma PreprocessNormalized(text: string, options: JapaneseTextOptions)
    ensures Normalized(Preprocess(text, options))
  {
    var kanji := if Flag(options.convertDifficultKanji) then SubstituteEntries(text, DifficultKanjiMap) else text;
    var numbers := if Flag(options.processNumbers) then ConvertNumbersToJapanese(kanji) else kanji;
    var punctuation := if Flag(options.optimizePunctuation) then OptimizePunctuationText(numbers) else numbers;
    var pauses := if Flag(options.addPauses) then AddNaturalPausesToText(punctuation) else punctuation;
    NormalizeSpacesNormalizes(pauses);
  }

  /**
   * The pause U+3000 is whitespace to `\s`, so the final collapse turns every
   * pause the earlier passes inserted into an ASCII space: none is left.
   */
  lemma NoPauseInOutput(text: string, options: JapaneseTextOptions)
    ensures forall k :: 0 <= k < |Preprocess(text, options)| ==> Preprocess(text, options)[k] != Pause
  {
    PreprocessNormalized(text, options);
  }

  /** Every flag off: only the whitespace changes, so the visible text is the input's. */
  lemma AllFlagsOffKeepsText(text: string)
    ensures var off := JapaneseTextOptions(Some(false), Some(false), Some(false), Some(false));
            && Preprocess(text, off) == NormalizeSpaces(text)
            && Project(Preprocess(text, off), DropSpaces) == Project(text, DropSpaces)
  {
    NormalizeKeepsText(text);
  }

  // ---------------------------------------------------------------------
  // Digits go through every pass but the numeral pass untouched.
  // ---------------------------------------------------------------------

  /** A hit whose matched text and replacement both lack digits keeps the digits of the text. */
  lemma DigitFreeHitKeeps(f: Matcher, s: string, j: nat)
    requires j < |s|
    requires f(s, j).Some? ==>
      && NoAsciiDigit(f(s, j).value.replacement)
      && NoAsciiDigit(s[j..j + f(s, j).value.len])
    ensures HitKeeps(f, s, j, KeepDigits)
  {
    if f(s, j).Some? {
      var h := f(s, j).value;
      var matched := s[j..j + h.len];
      assert matched == [] + matched + [];
      assert h.replacement == [] + h.replacement + [];
      forall q | 0 <= q < |matched| ensures !Kept(matched[q], KeepDigits) {
        assert !IsAsciiDigit(matched[q]);
      }
      forall q | 0 <= q < |h.replacement| ensures !Kept(h.replacement[q], KeepDigits) {
        assert !IsAsciiDigit(h.replacement[q]);
      }
      SwapDropped([], matched, [], h.replacement, KeepDigits);
    }
  }

  lemma ConnectivesDigitFree(c: string)
    requires c in Connectives
    ensures NoAsciiDigit(c)
  {
  }

  /** The rules outside the numeral pass, with literal keys and values that hold no digit. */
  predicate DigitBlind(rule: Rule) {
    match rule
    case Literal(key, value) => NoAsciiDigit(key) && NoAsciiDigit(value)
    case SentenceEndBeforeKana => true
    case CommaPause => true
    case ExclamationPause => true
    case ChoonRun => true
    case LongKanaRun => true
    case Connective => true
    case SpaceRun => true
    case _ => false
  }

  /** A slice of the text in which every character is of a class without digits holds no digit. */
  lemma NoDigitInSlice(s: string, a: nat, b: nat)
    requires a <= b <= |s|
    requires forall k :: a <= k < b ==> !IsAsciiDigit(s[k])
    ensures NoAsciiDigit(s[a..b])
  {
    forall k | 0 <= k < b - a ensures !IsAsciiDigit(s[a..b][k]) {
      assert s[a..b][k] == s[a + k];
    }
  }

  /** A matcher whose every hit matches digit-free text and puts digit-free text in its place. */
  ghost predicate DigitFreeMatcher(f: Matcher) {
    forall s: string, j: nat {:trigger f(s, j)} :: j < |s| && f(s, j).Some? ==>
      && NoAsciiDigit(f(s, j).value.replacement)
      && NoAsciiDigit(s[j..j + f(s, j).value.len])
  }

  lemma LiteralDigitFree(key: string, value: string)
    requires NoAsciiDigit(key) && NoAsciiDigit(value)
    ensures DigitFreeMatcher(MatcherOf(Literal(key, value)))
  {
    var f := MatcherOf(Literal(key, value));
    forall s: string, j: nat | j < |s| && f(s, j).Some?
      ensures NoAsciiDigit(f(s, j).value.replacement) && NoAsciiDigit(s[j..j + f(s, j).value.len])
    {
      assert f(s, j) == MatchLiteral(key, value, s, j);
      assert s[j..j + |key|] == key;
    }
  }

  lemma SentenceEndHitDigitFree(s: string, j: nat)
    requires j < |s| && MatchSentenceEnd(s, j).Some?
    ensures NoAsciiDigit(MatchSentenceEnd(s, j).value.replacement)
    ensures NoAsciiDigit(s[j..j + MatchSentenceEnd(s, j).value.len])
  {
    var w := RunLength(s, j + 1, Spaces);
    assert IsHiragana(s[j + 1 + w]);
    forall k | j <= k < j + w + 2 ensures !IsAsciiDigit(s[k]) {
      if j < k < j + 1 + w {
        assert InSet(s[k], Spaces);
      }
    }
    NoDigitInSlice(s, j, j + w + 2);
  }

  lemma SentenceEndDigitFree()
    ensures DigitFreeMatcher(MatcherOf(SentenceEndBeforeKana))
  {
    var f := MatcherOf(SentenceEndBeforeKana);
    forall s: string, j: nat | j < |s| && f(s, j).Some?
      ensures NoAsciiDigit(f(s, j).value.replacement) && NoAsciiDigit(s[j..j + f(s, j).value.len])
    {
      assert f(s, j) == MatchSentenceEnd(s, j);
      SentenceEndHitDigitFree(s, j);
    }
  }

  lemma CommaPauseHitDigitFree(s: string, j: nat)
    requires j < |s| && MatchCommaPause(s, j).Some?
    ensures NoAsciiDigit(MatchCommaPause(s, j).value.replacement)
    ensures NoAsciiDigit(s[j..j + MatchCommaPause(s, j).value.len])
  {
    var w := RunLength(s, j + 1, Spaces);
    forall k | j <= k < j + 1 + w ensures !IsAsciiDigit(s[k]) {
      if j < k {
        assert InSet(s[k], Spaces);
      }
    }
    NoDigitInSlice(s, j, j + 1 + w);
  }

  lemma CommaPauseDigitFree()
    ensures DigitFreeMatcher(MatcherOf(CommaPause))
  {
    var f := MatcherOf(CommaPause);
    forall s: string, j: nat | j < |s| && f(s, j).Some?
      ensures NoAsciiDigit(f(s, j).value.replacement) && NoAsciiDigit(s[j..j + f(s, j).value.len])
    {
      assert f(s, j) == MatchCommaPause(s, j);
      CommaPauseHitDigitFree(s, j);
    }
  }

  lemma ExclamationPauseHitDigitFree(s: string, j: nat)
    requires j < |s| && MatchExclamationPause(s, j).Some?
    ensures NoAsciiDigit(MatchExclamationPause(s, j).value.replacement)
    ensures NoAsciiDigit(s[j..j + MatchExclamationPause(s, j).value.len])
  {
    var w := RunLength(s, j + 1, Spaces);
    forall k | j <= k < j + 1 + w ensures !IsAsciiDigit(s[k]) {
      if j < k {
        assert InSet(s[k], Spaces);
      }
    }
    NoDigitInSlice(s, j, j + 1 + w);
  }

  lemma ExclamationPauseDigitFree()
    ensures DigitFreeMatcher(MatcherOf(ExclamationPause))
  {
    var f := MatcherOf(ExclamationPause);
    forall s: string, j: nat | j < |s| && f(s, j).Some?
      ensures NoAsciiDigit(f(s, j).value.replacement) && NoAsciiDigit(s[j..j + f(s, j).value.len])
    {
      assert f(s, j) == MatchExclamationPause(s, j);
      ExclamationPauseHitDigitFree(s, j);
    }
  }

  lemma ChoonRunHitDigitFree(s: string, j: nat)
    requires j < |s| && MatchChoonRun(s, j).Some?
    ensures NoAsciiDigit(MatchChoonRun(s, j).value.replacement)
    ensures NoAsciiDigit(s[j..j + MatchChoonRun(s, j).value.len])
  {
    var n := RunLength(s, j, Choons);
    forall k | j <= k < j + n ensures !IsAsciiDigit(s[k]) {
      assert InSet(s[k], Choons);
    }
    NoDigitInSlice(s, j, j + n);
  }

  lemma ChoonRunDigitFree()
    ensures DigitFreeMatcher(MatcherOf(ChoonRun))
  {
    var f := MatcherOf(ChoonRun);
    forall s: string, j: nat | j < |s| && f(s, j).Some?
      ensures NoAsciiDigit(f(s, j).value.replacement) && NoAsciiDigit(s[j..j + f(s, j).value.len])
    {
      assert f(s, j) == MatchChoonRun(s, j);
      ChoonRunHitDigitFree(s, j);
    }
  }

  lemma LongKanaRunHitDigitFree(s: string, j: nat)
    requires j < |s| && MatchLongKanaRun(s, j).Some?
    ensures NoAsciiDigit(MatchLongKanaRun(s, j).value.replacement)
    ensures NoAsciiDigit(s[j..j + MatchLongKanaRun(s, j).value.len])
  {
    var n := RunLength(s, j + 1, PauseKana);
    forall k | j <= k < j + 1 + n ensures !IsAsciiDigit(s[k]) {
      if j < k {
        assert InSet(s[k], PauseKana);
      }
    }
    NoDigitInSlice(s, j, j + 1 + n);
    NoDigitInSlice(s, j + 1, j + 1 + n);
    var r := [s[j], Pause] + s[j + 1..j + 1 + n];
    forall k | 0 <= k < |r| ensures !IsAsciiDigit(r[k]) {
      if k >= 2 {
        assert r[k] == s[j + 1..j + 1 + n][k - 2];
      }
    }
  }

  lemma LongKanaRunDigitFree()
    ensures DigitFreeMatcher(MatcherOf(LongKanaRun))
  {
    var f := MatcherOf(LongKanaRun);
    forall s: string, j: nat | j < |s| && f(s, j).Some?
      ensures NoAsciiDigit(f(s, j).value.replacement) && NoAsciiDigit(s[j..j + f(s, j).value.len])
    {
      assert f(s, j) == MatchLongKanaRun(s, j);
      LongKanaRunHitDigitFree(s, j);
    }
  }

  lemma ConnectiveHitDigitFree(s: string, j: nat)
    requires j < |s| && MatchConnective(s, j).Some?
    ensures NoAsciiDigit(MatchConnective(s, j).value.replacement)
    ensures NoAsciiDigit(s[j..j + MatchConnective(s, j).value.len])
  {
    var c := FirstConnective(s, j, 0).value;
    ConnectivesDigitFree(c);
    assert s[j..j + |c|] == c;
    var r := [Pause] + c;
    forall k | 0 <= k < |r| ensures !IsAsciiDigit(r[k]) {
      if k >= 1 {
        assert r[k] == c[k - 1];
      }
    }
  }

  lemma ConnectiveDigitFree()
    ensures DigitFreeMatcher(MatcherOf(Connective))
  {
    var f := MatcherOf(Connective);
    forall s: string, j: nat | j < |s| && f(s, j).Some?
      ensures NoAsciiDigit(f(s, j).value.replacement) && NoAsciiDigit(s[j..j + f(s, j).value.len])
    {
      assert f(s, j) == MatchConnective(s, j);
      ConnectiveHitDigitFree(s, j);
    }
  }

  lemma SpaceRunHitDigitFree(s: string, j: nat)
    requires j < |s| && MatchSpaceRun(s, j).Some?
    ensures NoAsciiDigit(MatchSpaceRun(s, j).value.replacement)
    ensures NoAsciiDigit(s[j..j + MatchSpaceRun(s, j).value.len])
  {
    var n := RunLength(s, j, Spaces);
    forall k | j <= k < j + n ensures !IsAsciiDigit(s[k]) {
      assert InSet(s[k], Spaces);
    }
    NoDigitInSlice(s, j, j + n);
  }

  lemma SpaceRunDigitFree()
    ensures DigitFreeMatcher(MatcherOf(SpaceRun))
  {
    var f := MatcherOf(SpaceRun);
    forall s: string, j: nat | j < |s| && f(s, j).Some?
      ensures NoAsciiDigit(f(s, j).value.replacement) && NoAsciiDigit(s[j..j + f(s, j).value.len])
    {
      assert f(s, j) == MatchSpaceRun(s, j);
      SpaceRunHitDigitFree(s, j);
    }
  }

  lemma DigitBlindDigitFree(rule: Rule)
    requires DigitBlind(rule)
    ensures DigitFreeMatcher(MatcherOf(rule))
  {
    match rule
    case Literal(key, value) => LiteralDigitFree(key, value);
    case SentenceEndBeforeKana => SentenceEndDigitFree();
    case CommaPause => CommaPauseDigitFree();
    case ExclamationPause => ExclamationPauseDigitFree();
    case ChoonRun => ChoonRunDigitFree();
    case LongKanaRun => LongKanaRunDigitFree();
    case Connective => ConnectiveDigitFree();
    case SpaceRun => SpaceRunDigitFree();
  }

  lemma DigitBlindKeeps(rule: Rule, s: string)
    requires DigitBlind(rule)
    ensures Project(ReplaceAll(s, rule), KeepDigits) == Project(s, KeepDigits)
  {
    DigitBlindDigitFree(rule);
    DigitFreeHitsKeep(MatcherOf(rule), s);
    ReplaceAllKeeps(s, rule, KeepDigits);
  }

  /** Every match of a digit-free matcher keeps the digits of the text. */
  lemma DigitFreeHitsKeep(f: Matcher, s: string)
    requires DigitFreeMatcher(f)
    ensures forall j :: 0 <= j < |s| ==> HitKeeps(f, s, j, KeepDigits)
  {
    forall j | 0 <= j < |s| ensures HitKeeps(f, s, j, KeepDigits) {
      DigitFreeHitKeeps(f, s, j);
    }
  }

  lemma {:induction false} SubstitutionKeepsDigits(s: string, entries: seq<(string, string)>)
    requires WellFormedTable(entries)
    ensures Project(SubstituteEntries(s, entries), KeepDigits) == Project(s, KeepDigits)
    decreases |entries|
  {
    if entries != [] {
      var n := |entries| - 1;
      var last := entries[n];
      assert WellFormedTable(entries[..n]);
      SubstitutionKeepsDigits(s, entries[..n]);
      assert WellFormedEntry(last);
      DigitBlindKeeps(Literal(last.0, last.1), SubstituteEntries(s, entries[..n]));
    }
  }

  lemma OptimizeKeepsDigits(s: string)
    ensures Project(OptimizePunctuationText(s), KeepDigits) == Project(s, KeepDigits)
  {
    var sentences := ReplaceAll(s, SentenceEndBeforeKana);
    var commas := ReplaceAll(sentences, CommaPause);
    var exclamations := ReplaceAll(commas, ExclamationPause);
    DigitBlindKeeps(SentenceEndBeforeKana, s);
    DigitBlindKeeps(CommaPause, sentences);
    DigitBlindKeeps(ExclamationPause, commas);
    DigitBlindKeeps(ChoonRun, exclamations);
  }

  /** With `processNumbers: false`, the digits of the input reach the output unchanged and in order. */
  lemma DigitsKeptWithoutNumberPass(text: string, options: JapaneseTextOptions)
    requires options.processNumbers == Some(false)
    ensures Project(Preprocess(text, options), KeepDigits) == Project(text, KeepDigits)
  {
    var kanji := if Flag(options.convertDifficultKanji) then SubstituteEntries(text, DifficultKanjiMap) else text;
    var punctuation := if Flag(options.optimizePunctuation) then OptimizePunctuationText(kanji) else kanji;
    var pauses := if Flag(options.addPauses) then AddNaturalPausesToText(punctuation) else punctuation;
    if Flag(options.convertDifficultKanji) {
      DifficultKanjiMapWellFormed();
      SubstitutionKeepsDigits(text, DifficultKanjiMap);
    }
    if Flag(options.optimizePunctuation) {
      OptimizeKeepsDigits(kanji);
    }
    if Flag(options.addPauses) {
      DigitBlindKeeps(LongKanaRun, punctuation);
      DigitBlindKeeps(Connective, ReplaceAll(punctuation, LongKanaRun));
    }
    DigitBlindKeeps(SpaceRun, pauses);
    TrimKeeps(ReplaceAll(pauses, SpaceRun), KeepDigits);
  }
}
