/**
 * What the punctuation and pause passes guarantee: they only move whitespace,
 * pauses and long-vowel marks around, every comma, exclamation mark and
 * question mark ends up followed by exactly one pause, and no two long-vowel
 * marks stay side by side.
 */
module PunctuationProperties {
  import opened Options
  import opened CharClasses
  import opened GlobalReplace
  import opened JapaneseText

  /** Replacing a middle part that `k` drops entirely by another such part keeps the projection. */
  lemma SwapDropped(x: string, mid: string, y: string, mid2: string, k: Keep)
    requires forall j :: 0 <= j < |mid| ==> !Kept(mid[j], k)
    requires forall j :: 0 <= j < |mid2| ==> !Kept(mid2[j], k)
    ensures Project(x + mid + y, k) == Project(x + mid2 + y, k)
  {
    ProjectConcat(x + mid, y, k);
    ProjectConcat(x, mid, k);
    ProjectConcat(x + mid2, y, k);
    ProjectConcat(x, mid2, k);
    ProjectNothing(mid, k);
    ProjectNothing(mid2, k);
  }

  lemma SpacesDropped(s: string, a: nat, b: nat, k: Keep)
    requires a <= b <= |s| && (k == DropSpaces || k == DropSpacesAndChoon)
    requires forall j :: a <= j < b ==> IsJsSpace(s[j])
    ensures forall j :: 0 <= j < |s[a..b]| ==> !Kept(s[a..b][j], k)
  {
  }

  lemma SentenceEndKeeps(s: string, j: nat, k: Keep)
    requires j < |s| && (k == DropSpaces || k == DropSpacesAndChoon)
    ensures HitKeeps(MatcherOf(SentenceEndBeforeKana), s, j, k)
  {
    assert MatchAt(SentenceEndBeforeKana, s, j) == MatchSentenceEnd(s, j);
    if MatchAt(SentenceEndBeforeKana, s, j).Some? {
      var w := RunLength(s, j + 1, Spaces);
      assert MatchAt(SentenceEndBeforeKana, s, j).value == Hit(w + 2, [s[j], Pause, s[j + 1 + w]]);
      SentenceEndSwap(s, j, w, k);
    }
  }

  /** A mark, whitespace and a character keep their projection when the whitespace becomes a pause. */
  lemma SentenceEndSwap(s: string, j: nat, w: nat, k: Keep)
    requires j + 1 + w < |s| && (k == DropSpaces || k == DropSpacesAndChoon)
    requires forall q :: j + 1 <= q < j + 1 + w ==> IsJsSpace(s[q])
    ensures Project([s[j], Pause, s[j + 1 + w]], k) == Project(s[j..j + w + 2], k)
  {
    assert s[j..j + w + 2] == [s[j]] + s[j + 1..j + 1 + w] + [s[j + 1 + w]];
    assert [s[j], Pause, s[j + 1 + w]] == [s[j]] + [Pause] + [s[j + 1 + w]];
    SpacesDropped(s, j + 1, j + 1 + w, k);
    SwapDropped([s[j]], s[j + 1..j + 1 + w], [s[j + 1 + w]], [Pause], k);
  }

  lemma MarkThenSpacesKeeps(rule: Rule, s: string, j: nat, k: Keep)
    requires rule == CommaPause || rule == ExclamationPause
    requires j < |s| && (k == DropSpaces || k == DropSpacesAndChoon)
    ensures HitKeeps(MatcherOf(rule), s, j, k)
  {
    if MatchAt(rule, s, j).Some? {
      var w := RunLength(s, j + 1, Spaces);
      assert MatchAt(rule, s, j).value == Hit(1 + w, [s[j], Pause]);
      assert s[j..j + 1 + w] == [s[j]] + s[j + 1..j + 1 + w] + [];
      assert [s[j], Pause] == [s[j]] + [Pause] + [];
      SpacesDropped(s, j + 1, j + 1 + w, k);
      SwapDropped([s[j]], s[j + 1..j + 1 + w], [], [Pause], k);
    }
  }

  lemma ChoonRunKeeps(s: string, j: nat)
    requires j < |s|
    ensures HitKeeps(MatcherOf(ChoonRun), s, j, DropSpacesAndChoon)
  {
    assert MatchAt(ChoonRun, s, j) == MatchChoonRun(s, j);
    if s[j] == Choon {
      var n := RunLength(s, j, Choons);
      assert MatchAt(ChoonRun, s, j).value == Hit(n, [Choon]);
      assert s[j..j + n] == [] + s[j..j + n] + [];
      assert [Choon] == [] + [Choon] + [];
      SwapDropped([], s[j..j + n], [], [Choon], DropSpacesAndChoon);
    }
  }

  /**
   * `optimizePunctuationText` changes only whitespace and the length of runs
   * of ー: with those removed, its output and its input are the same text.
   */
  lemma OptimizeKeepsText(s: string)
    ensures Project(OptimizePunctuationText(s), DropSpacesAndChoon) == Project(s, DropSpacesAndChoon)
  {
    var k := DropSpacesAndChoon;
    var sentences := ReplaceAll(s, SentenceEndBeforeKana);
    var commas := ReplaceAll(sentences, CommaPause);
    var exclamations := ReplaceAll(commas, ExclamationPause);
    forall j | 0 <= j < |s| ensures HitKeeps(MatcherOf(SentenceEndBeforeKana), s, j, k) {
      SentenceEndKeeps(s, j, k);
    }
    ReplaceAllKeeps(s, SentenceEndBeforeKana, k);
    forall j | 0 <= j < |sentences| ensures HitKeeps(MatcherOf(CommaPause), sentences, j, k) {
      MarkThenSpacesKeeps(CommaPause, sentences, j, k);
    }
    ReplaceAllKeeps(sentences, CommaPause, k);
    forall j | 0 <= j < |commas| ensures HitKeeps(MatcherOf(ExclamationPause), commas, j, k) {
      MarkThenSpacesKeeps(ExclamationPause, commas, j, k);
    }
    ReplaceAllKeeps(commas, ExclamationPause, k);
    forall j | 0 <= j < |exclamations| ensures HitKeeps(MatcherOf(ChoonRun), exclamations, j, k) {
      ChoonRunKeeps(exclamations, j);
    }
    ReplaceAllKeeps(exclamations, ChoonRun, k);
  }

  lemma LongKanaRunKeeps(s: string, j: nat)
    requires j < |s|
    ensures HitKeeps(MatcherOf(LongKanaRun), s, j, DropPauses)
  {
    if MatchAt(LongKanaRun, s, j).Some? {
      var n := RunLength(s, j + 1, PauseKana);
      assert s[j..j + n + 1] == [s[j]] + [] + s[j + 1..j + 1 + n];
      SwapDropped([s[j]], [], s[j + 1..j + 1 + n], [Pause], DropPauses);
    }
  }

  lemma ConnectiveKeeps(s: string, j: nat)
    requires j < |s|
    ensures HitKeeps(MatcherOf(Connective), s, j, DropPauses)
  {
    assert MatchAt(Connective, s, j) == MatchConnective(s, j);
    var m := FirstConnective(s, j, 0);
    if m.Some? {
      var c := m.value;
      assert MatchAt(Connective, s, j) == Some(Hit(|c|, [Pause] + c));
      assert s[j..j + |c|] == c;
      PauseDropped(c);
    }
  }

  lemma PauseDropped(c: string)
    ensures Project([Pause] + c, DropPauses) == Project(c, DropPauses)
  {
    ProjectConcat([Pause], c, DropPauses);
    assert Project([Pause], DropPauses) == [];
  }

  /** `addNaturalPausesToText` only inserts pauses: without them the text is unchanged. */
  lemma PausesKeepText(s: string)
    ensures Project(AddNaturalPausesToText(s), DropPauses) == Project(s, DropPauses)
  {
    var runs := ReplaceAll(s, LongKanaRun);
    forall j | 0 <= j < |s| ensures HitKeeps(MatcherOf(LongKanaRun), s, j, DropPauses) {
      LongKanaRunKeeps(s, j);
    }
    ReplaceAllKeeps(s, LongKanaRun, DropPauses);
    forall j | 0 <= j < |runs| ensures HitKeeps(MatcherOf(Connective), runs, j, DropPauses) {
      ConnectiveKeeps(runs, j);
    }
    ReplaceAllKeeps(runs, Connective, DropPauses);
  }

  // ---------------------------------------------------------------------
  // The shape of the output around marks and long-vowel runs.
  // ---------------------------------------------------------------------

  /** No two ー side by side. */
  predicate NoDoubledChoon(t: string) {
    forall k :: 0 < k < |t| && t[k] == Choon ==> t[k - 1] != Choon
  }

  /** After the collapse of ー runs, no two ー are adjacent. */
  lemma {:induction false} ChoonCollapsed(s: string, i: nat)
    requires i <= |s|
    ensures NoDoubledChoon(ReplaceFrom(s, ChoonRun, i))
    decreases |s| - i
  {
    if i < |s| {
      var out := ReplaceFrom(s, ChoonRun, i);
      var next := if s[i] == Choon then i + RunLength(s, i, Choons) else i + 1;
      var rest := ReplaceFrom(s, ChoonRun, next);
      ChoonCollapsed(s, next);
      assert out == [if s[i] == Choon then Choon else s[i]] + rest;
      if next < |s| {
        AnchoredRules();
        FirstCharKept(s, MatcherOf(ChoonRun), next);
      }
    }
  }

  /** The output of `optimizePunctuationText` never holds ーー. */
  lemma OptimizedHasNoDoubledChoon(s: string)
    ensures NoDoubledChoon(OptimizePunctuationText(s))
  {
    var exclamations := ReplaceAll(ReplaceAll(ReplaceAll(s, SentenceEndBeforeKana), CommaPause), ExclamationPause);
    ChoonCollapsed(exclamations, 0);
  }

  /** Every occurrence of a character of `marks` is followed by one pause and then by a non-space or the end. */
  predicate PausedAfter(t: string, marks: set<char>) {
    forall k :: 0 <= k < |t| && t[k] in marks ==>
      && k + 1 < |t| && t[k + 1] == Pause
      && (k + 2 == |t| || !IsJsSpace(t[k + 2]))
  }

  /**
   * A mark-then-spaces matcher: it matches exactly at the characters of
   * `marks`, replaces the mark and the whitespace after it by the mark and one
   * pause, and what follows its match is no whitespace.
   */
  ghost predicate PausesMarks(f: Matcher, marks: set<char>) {
    forall s: string, i: nat {:trigger f(s, i)} :: i < |s| ==>
      && (f(s, i).Some? <==> s[i] in marks)
      && (f(s, i).Some? ==> f(s, i).value.replacement == [s[i], Pause])
      && (f(s, i).Some? && i + f(s, i).value.len < |s| ==> !IsJsSpace(s[i + f(s, i).value.len]))
  }

  /** `、\s*` is a mark-then-spaces matcher for 、. */
  lemma CommaRulePauses()
    ensures PausesMarks(MatcherOf(CommaPause), {'、'})
  {
    var f := MatcherOf(CommaPause);
    forall s: string, i: nat | i < |s|
      ensures && (f(s, i).Some? <==> s[i] in {'、'})
              && (f(s, i).Some? ==> f(s, i).value.replacement == [s[i], Pause])
              && (f(s, i).Some? && i + f(s, i).value.len < |s| ==> !IsJsSpace(s[i + f(s, i).value.len]))
    {
      assert f(s, i) == MatchCommaPause(s, i);
      if s[i] == '、' {
        var n := RunLength(s, i + 1, Spaces);
        assert f(s, i).value.len == 1 + n;
        if i + 1 + n < |s| {
          assert !InSet(s[i + 1 + n], Spaces);
        }
      }
    }
  }

  /** `([！？])\s*` is a mark-then-spaces matcher for ！ and ？. */
  lemma ExclamationRulePauses()
    ensures PausesMarks(MatcherOf(ExclamationPause), {'！', '？'})
  {
    var f := MatcherOf(ExclamationPause);
    forall s: string, i: nat | i < |s|
      ensures && (f(s, i).Some? <==> s[i] in {'！', '？'})
              && (f(s, i).Some? ==> f(s, i).value.replacement == [s[i], Pause])
              && (f(s, i).Some? && i + f(s, i).value.len < |s| ==> !IsJsSpace(s[i + f(s, i).value.len]))
    {
      assert f(s, i) == MatchExclamationPause(s, i);
      if s[i] == '！' || s[i] == '？' {
        var n := RunLength(s, i + 1, Spaces);
        assert f(s, i).value.len == 1 + n;
        if i + 1 + n < |s| {
          assert !InSet(s[i + 1 + n], Spaces);
        }
      }
    }
  }

  /** A mark, a pause and a paused rest that starts with no whitespace are paused. */
  lemma MarkThenPausedRest(c: char, rest: string, marks: set<char>)
    requires PausedAfter(rest, marks) && Pause !in marks
    requires rest != [] ==> !IsJsSpace(rest[0])
    ensures PausedAfter([c, Pause] + rest, marks)
  {
    var out := [c, Pause] + rest;
    forall k | 0 <= k < |out| && out[k] in marks
      ensures k + 1 < |out| && out[k + 1] == Pause && (k + 2 == |out| || !IsJsSpace(out[k + 2]))
    {
      if k >= 2 {
        assert out[k] == rest[k - 2];
      }
    }
  }

  /** A character that is no mark in front of a paused rest keeps it paused. */
  lemma PlainThenPausedRest(c: char, rest: string, marks: set<char>)
    requires PausedAfter(rest, marks) && c !in marks
    ensures PausedAfter([c] + rest, marks)
  {
    var out := [c] + rest;
    forall k | 0 <= k < |out| && out[k] in marks
      ensures k + 1 < |out| && out[k + 1] == Pause && (k + 2 == |out| || !IsJsSpace(out[k + 2]))
    {
      assert k >= 1;
      assert out[k] == rest[k - 1];
    }
  }

  /**
   * After a mark-then-spaces scan, every mark is followed by exactly one
   * pause and then by visible text or the end.
   */
  lemma {:induction false} MarksPaused(s: string, f: Matcher, marks: set<char>, i: nat)
    requires Anchored(f) && PausesMarks(f, marks) && Pause !in marks
    requires i <= |s|
    ensures PausedAfter(Scan(s, f, i), marks)
    decreases |s| - i
  {
    if i < |s| {
      ScanStep(s, f, i);
      var m := f(s, i);
      if m.Some? {
        var next := i + m.value.len;
        assert m.value.replacement == [s[i], Pause];
        MarksPaused(s, f, marks, next);
        if next < |s| {
          assert !IsJsSpace(s[next]);
          FirstCharKept(s, f, next);
        }
        MarkThenPausedRest(s[i], Scan(s, f, next), marks);
      } else {
        assert s[i] !in marks;
        MarksPaused(s, f, marks, i + 1);
        PlainThenPausedRest(s[i], Scan(s, f, i + 1), marks);
      }
    }
  }

  /** After `、\s*` becomes `、　`, every 、 is followed by exactly one pause and then by visible text or the end. */
  lemma CommasPaused(s: string)
    ensures PausedAfter(ReplaceAll(s, CommaPause), {'、'})
  {
    AnchoredRules();
    CommaRulePauses();
    MarksPaused(s, MatcherOf(CommaPause), {'、'}, 0);
  }

  /** Likewise for ！ and ？ after `([！？])\s*` becomes `$1　`. */
  lemma ExclamationsPaused(s: string)
    ensures PausedAfter(ReplaceAll(s, ExclamationPause), {'！', '？'})
  {
    AnchoredRules();
    ExclamationRulePauses();
    MarksPaused(s, MatcherOf(ExclamationPause), {'！', '？'}, 0);
  }

  /**
   * A matcher that never matches at a pause and whose replacements hold no
   * character of `marks`: a later pass of this kind leaves marks that are
   * already paused paused.
   */
  ghost predicate SparesPausedMarks(f: Matcher, marks: set<char>) {
    forall s: string, i: nat {:trigger f(s, i)} :: i < |s| && f(s, i).Some? ==>
      && s[i] != Pause
      && (forall k :: 0 <= k < |f(s, i).value.replacement| ==> f(s, i).value.replacement[k] !in marks)
  }

  /** A text without marks in front of a paused rest keeps it paused. */
  lemma MarkFreeThenPausedRest(r: string, rest: string, marks: set<char>)
    requires PausedAfter(rest, marks)
    requires forall k :: 0 <= k < |r| ==> r[k] !in marks
    ensures PausedAfter(r + rest, marks)
  {
    var out := r + rest;
    forall k | 0 <= k < |out| && out[k] in marks
      ensures k + 1 < |out| && out[k + 1] == Pause && (k + 2 == |out| || !IsJsSpace(out[k + 2]))
    {
      assert k >= |r|;
      assert out[k] == rest[k - |r|];
    }
  }

  /** A scan that spares paused marks keeps every mark of its input paused. */
  lemma {:induction false} PausedMarksSurvive(s: string, f: Matcher, marks: set<char>, i: nat)
    requires Anchored(f) && SparesPausedMarks(f, marks) && Pause !in marks
    requires PausedAfter(s, marks) && i <= |s|
    ensures PausedAfter(Scan(s, f, i), marks)
    decreases |s| - i
  {
    if i < |s| {
      ScanStep(s, f, i);
      var m := f(s, i);
      if m.Some? {
        PausedMarksSurvive(s, f, marks, i + m.value.len);
        MarkFreeThenPausedRest(m.value.replacement, Scan(s, f, i + m.value.len), marks);
      } else if s[i] in marks {
        assert s[i + 1] == Pause && (i + 2 == |s| || !IsJsSpace(s[i + 2]));
        PausedMarksSurvive(s, f, marks, i + 2);
        PausedMarkCopied(s, f, marks, i);
      } else {
        PausedMarksSurvive(s, f, marks, i + 1);
        PlainThenPausedRest(s[i], Scan(s, f, i + 1), marks);
      }
    }
  }

  /** A paused mark the scan does not match is copied with its pause, in front of a paused rest. */
  lemma PausedMarkCopied(s: string, f: Matcher, marks: set<char>, i: nat)
    requires Anchored(f) && SparesPausedMarks(f, marks) && Pause !in marks
    requires i + 1 < |s| && s[i] in marks && s[i + 1] == Pause && f(s, i).None?
    requires i + 2 == |s| || !IsJsSpace(s[i + 2])
    requires PausedAfter(Scan(s, f, i + 2), marks)
    ensures PausedAfter(Scan(s, f, i), marks)
  {
    assert f(s, i + 1).None?;
    TwoCopied(s, f, i);
    MarkThenPausedRest(s[i], Scan(s, f, i + 2), marks);
  }

  /** Two characters the scan does not match are copied, in front of the scan of the rest. */
  lemma TwoCopied(s: string, f: Matcher, i: nat)
    requires Anchored(f) && i + 1 < |s| && f(s, i).None? && f(s, i + 1).None?
    ensures Scan(s, f, i) == [s[i], s[i + 1]] + Scan(s, f, i + 2)
    ensures i + 2 == |s| ==> Scan(s, f, i + 2) == []
    ensures i + 2 < |s| ==> Scan(s, f, i + 2) != [] && Scan(s, f, i + 2)[0] == s[i + 2]
  {
    ScanStep(s, f, i);
    ScanStep(s, f, i + 1);
    if i + 2 < |s| {
      FirstCharKept(s, f, i + 2);
    }
  }

  /** The exclamation pass never touches a pause and writes no 、. */
  lemma ExclamationSparesCommas()
    ensures SparesPausedMarks(MatcherOf(ExclamationPause), {'、'})
  {
    var f := MatcherOf(ExclamationPause);
    forall s: string, i: nat | i < |s| && f(s, i).Some?
      ensures && s[i] != Pause
              && (forall k :: 0 <= k < |f(s, i).value.replacement| ==> f(s, i).value.replacement[k] !in {'、'})
    {
      assert f(s, i) == MatchExclamationPause(s, i);
    }
  }

  /** The ー pass never touches a pause and writes no 、, ！ or ？. */
  lemma ChoonRunSparesMarks()
    ensures SparesPausedMarks(MatcherOf(ChoonRun), {'、', '！', '？'})
  {
    var f := MatcherOf(ChoonRun);
    forall s: string, i: nat | i < |s| && f(s, i).Some?
      ensures && s[i] != Pause
              && (forall k :: 0 <= k < |f(s, i).value.replacement| ==> f(s, i).value.replacement[k] !in {'、', '！', '？'})
    {
      assert f(s, i) == MatchChoonRun(s, i);
    }
  }

  lemma PausedUnion(t: string, a: set<char>, b: set<char>)
    requires PausedAfter(t, a) && PausedAfter(t, b)
    ensures PausedAfter(t, a + b)
  {
  }

  /**
   * After `optimizePunctuationText`, every 、, ！ and ？ is followed by exactly
   * one pause, and that pause by visible text or the end of the text.
   */
  lemma OptimizedMarksPaused(s: string)
    ensures PausedAfter(OptimizePunctuationText(s), {'、', '！', '？'})
  {
    var commas := ReplaceAll(ReplaceAll(s, SentenceEndBeforeKana), CommaPause);
    var exclamations := ReplaceAll(commas, ExclamationPause);
    AnchoredRules();
    CommasPaused(ReplaceAll(s, SentenceEndBeforeKana));
    ExclamationSparesCommas();
    PausedMarksSurvive(commas, MatcherOf(ExclamationPause), {'、'}, 0);
    ExclamationsPaused(commas);
    PausedUnion(exclamations, {'、'}, {'！', '？'});
    assert {'、'} + {'！', '？'} == {'、', '！', '？'};
    ChoonRunSparesMarks();
    PausedMarksSurvive(exclamations, MatcherOf(ChoonRun), {'、', '！', '？'}, 0);
  }

  // ---------------------------------------------------------------------
  // The pauses `addNaturalPausesToText` inserts.
  // ---------------------------------------------------------------------

  /** A 、 or 。 at `k` followed by ten kana or ー: where `([、。])([あ-んア-ンー]{10,})` matches. */
  predicate LongRunAt(t: string, k: nat)
    requires k < |t|
  {
    (t[k] == '、' || t[k] == '。') && k + 10 < |t| && forall j :: k < j <= k + 10 ==> InSet(t[j], PauseKana)
  }

  lemma LongRunMatch(t: string, k: nat)
    requires k < |t|
    ensures MatchAt(LongKanaRun, t, k).Some? <==> LongRunAt(t, k)
  {
    assert MatchAt(LongKanaRun, t, k) == MatchLongKanaRun(t, k);
    if (t[k] == '、' || t[k] == '。') && k + 10 < |t| {
      var n := RunLength(t, k + 1, PauseKana);
      if n < 10 {
        assert !InSet(t[k + 1 + n], PauseKana);
      }
    }
  }

  /** No mark followed by ten kana or ー. */
  predicate NoLongRun(t: string) {
    forall k :: 0 <= k < |t| ==> !LongRunAt(t, k)
  }

  lemma ShiftLongRun(a: string, b: string, k: nat)
    requires k < |b|
    ensures LongRunAt(a + b, |a| + k) == LongRunAt(b, k)
  {
    assert (a + b)[|a| + k] == b[k];
    if LongRunAt(b, k) {
      forall j | |a| + k < j <= |a| + k + 10 ensures InSet((a + b)[j], PauseKana) {
        assert (a + b)[j] == b[j - |a|];
      }
    }
    if LongRunAt(a + b, |a| + k) {
      forall j | k < j <= k + 10 ensures InSet(b[j], PauseKana) {
        assert (a + b)[j + |a|] == b[j];
      }
    }
  }

  /** A piece at none of whose positions a long run starts, in front of a text without one. */
  lemma NoLongRunJoin(piece: string, rest: string)
    requires NoLongRun(rest)
    requires forall k :: 0 <= k < |piece| ==> !LongRunAt(piece + rest, k)
    ensures NoLongRun(piece + rest)
  {
    forall k | 0 <= k < |piece + rest| ensures !LongRunAt(piece + rest, k) {
      if k >= |piece| {
        ShiftLongRun(piece, rest, k - |piece|);
      }
    }
  }

  /** Neither mark, nor the pause, is a kana or ー. */
  lemma MarksAreNoKana(c: char)
    requires c == '、' || c == '。' || c == Pause
    ensures !InSet(c, PauseKana)
  {
    assert !IsHiragana(c) && !IsKatakana(c) && c != Choon by {
      if c == Pause {
        assert c == '\U{3000}';
      }
    }
  }

  /** The kana run after a mark holds no mark, so no match starts inside it. */
  lemma NoMatchInKanaRun(s: string, i: nat, e: nat)
    requires i <= e <= |s| && forall q :: i <= q < e ==> InSet(s[q], PauseKana)
    ensures forall q :: i <= q < e ==> MatchAt(LongKanaRun, s, q).None?
  {
    forall q | i <= q < e ensures MatchAt(LongKanaRun, s, q).None? {
      LongRunHit(s, q);
    }
  }

  /** What the long-run rule does at `i`: a mark with ten or more kana after it gets its pause, anything else is no match. */
  lemma LongRunHit(s: string, i: nat)
    requires i < |s|
    ensures var n := RunLength(s, i + 1, PauseKana);
            MatchAt(LongKanaRun, s, i).Some? <==> (s[i] == '、' || s[i] == '。') && n >= 10
    ensures var n := RunLength(s, i + 1, PauseKana);
            MatchAt(LongKanaRun, s, i).Some? ==>
              MatchAt(LongKanaRun, s, i).value == Hit(n + 1, [s[i], Pause] + s[i + 1..i + 1 + n])
  {
    assert MatchAt(LongKanaRun, s, i) == MatchLongKanaRun(s, i);
  }

  /** The output of the long-run rule from `e` is empty at the end and starts with `s[e]` elsewhere. */
  lemma LongRunRestStart(s: string, e: nat)
    requires e <= |s|
    ensures e == |s| ==> ReplaceFrom(s, LongKanaRun, e) == []
    ensures e < |s| ==> ReplaceFrom(s, LongKanaRun, e) != [] && ReplaceFrom(s, LongKanaRun, e)[0] == s[e]
  {
    if e < |s| {
      AnchoredRules();
      FirstCharKept(s, MatcherOf(LongKanaRun), e);
    }
  }

  /** A mark whose long run got its pause, then the run, in front of a text without long runs. */
  lemma PausedRunJoin(m: char, run: string, rest: string)
    requires forall q :: 0 <= q < |run| ==> InSet(run[q], PauseKana)
    requires NoLongRun(rest)
    ensures NoLongRun([m, Pause] + run + rest)
  {
    var t := [m, Pause] + run + rest;
    assert t == [m, Pause] + run + rest;
    forall k | 0 <= k < |[m, Pause] + run| ensures !LongRunAt(t, k) {
      MarksAreNoKana(Pause);
      assert t[1] == Pause;
      if k >= 2 {
        assert t[k] == run[k - 2];
        if t[k] == '、' || t[k] == '。' {
          MarksAreNoKana(t[k]);
        }
      }
    }
    assert t == ([m, Pause] + run) + rest;
    NoLongRunJoin([m, Pause] + run, rest);
  }

  /** A mark with a run of fewer than ten kana, cut off by a character that is none, in front of a text without long runs. */
  lemma ShortRunJoin(m: char, run: string, rest: string)
    requires |run| < 10 && forall q :: 0 <= q < |run| ==> InSet(run[q], PauseKana)
    requires rest != [] ==> !InSet(rest[0], PauseKana)
    requires NoLongRun(rest)
    ensures NoLongRun([m] + run + rest)
  {
    var t := [m] + run + rest;
    forall k | 0 <= k < |[m] + run| ensures !LongRunAt(t, k) {
      if k == 0 && 10 < |t| {
        assert t[1 + |run|] == rest[0];
      }
      if k >= 1 {
        assert t[k] == run[k - 1];
        if t[k] == '、' || t[k] == '。' {
          MarksAreNoKana(t[k]);
        }
      }
    }
    assert t == ([m] + run) + rest;
    NoLongRunJoin([m] + run, rest);
  }

  /** A mark with a long run: the mark, a pause and the run, then the scan after the run. */
  lemma LongRunStep(s: string, i: nat)
    requires i < |s| && (s[i] == '、' || s[i] == '。') && RunLength(s, i + 1, PauseKana) >= 10
    requires NoLongRun(ReplaceFrom(s, LongKanaRun, i + 1 + RunLength(s, i + 1, PauseKana)))
    ensures NoLongRun(ReplaceFrom(s, LongKanaRun, i))
  {
    var e := i + 1 + RunLength(s, i + 1, PauseKana);
    LongRunHit(s, i);
    LongRunOutput(s, i);
    PausedRunJoin(s[i], s[i + 1..e], ReplaceFrom(s, LongKanaRun, e));
  }

  /** A mark with a short run: the mark and the run are copied, then the scan after the run. */
  lemma ShortRunStep(s: string, i: nat)
    requires i < |s| && (s[i] == '、' || s[i] == '。') && RunLength(s, i + 1, PauseKana) < 10
    requires NoLongRun(ReplaceFrom(s, LongKanaRun, i + 1 + RunLength(s, i + 1, PauseKana)))
    ensures NoLongRun(ReplaceFrom(s, LongKanaRun, i))
  {
    var e := i + 1 + RunLength(s, i + 1, PauseKana);
    ShortRunOutput(s, i);
    LongRunRestStart(s, e);
    ShortRunJoin(s[i], s[i + 1..e], ReplaceFrom(s, LongKanaRun, e));
  }

  /** From a mark followed by fewer than ten kana, the scan copies the mark and the run, then goes on after the run. */
  lemma ShortRunOutput(s: string, i: nat)
    requires i < |s| && RunLength(s, i + 1, PauseKana) < 10
    ensures var e := i + 1 + RunLength(s, i + 1, PauseKana);
            ReplaceFrom(s, LongKanaRun, i) == [s[i]] + s[i + 1..e] + ReplaceFrom(s, LongKanaRun, e)
  {
    var e := i + 1 + RunLength(s, i + 1, PauseKana);
    var rest := ReplaceFrom(s, LongKanaRun, e);
    calc {
      ReplaceFrom(s, LongKanaRun, i);
    == { LongRunHit(s, i); ReplaceStep(s, LongKanaRun, i); }
      [s[i]] + ReplaceFrom(s, LongKanaRun, i + 1);
    == { NoMatchInKanaRun(s, i + 1, e); ReplaceCopies(s, LongKanaRun, i + 1, e); }
      [s[i]] + (s[i + 1..e] + rest);
    ==
      [s[i]] + s[i + 1..e] + rest;
    }
  }

  /** A character that is no mark: copied, then the scan after it. */
  lemma PlainStep(s: string, i: nat)
    requires i < |s| && s[i] != '、' && s[i] != '。'
    requires NoLongRun(ReplaceFrom(s, LongKanaRun, i + 1))
    ensures NoLongRun(ReplaceFrom(s, LongKanaRun, i))
  {
    var rest := ReplaceFrom(s, LongKanaRun, i + 1);
    LongRunHit(s, i);
    ReplaceStep(s, LongKanaRun, i);
    forall k | 0 <= k < 1 ensures !LongRunAt([s[i]] + rest, k) { }
    NoLongRunJoin([s[i]], rest);
  }

  /** The scan of the long-run rule from `i` leaves no mark followed by ten kana or ー. */
  lemma {:induction false} LongRunsBroken(s: string, i: nat)
    requires i <= |s|
    ensures NoLongRun(ReplaceFrom(s, LongKanaRun, i))
    decreases |s| - i
  {
    if i < |s| {
      if s[i] == '、' || s[i] == '。' {
        LongRunsBroken(s, i + 1 + RunLength(s, i + 1, PauseKana));
        if RunLength(s, i + 1, PauseKana) >= 10 {
          LongRunStep(s, i);
        } else {
          ShortRunStep(s, i);
        }
      } else {
        LongRunsBroken(s, i + 1);
        PlainStep(s, i);
      }
    }
  }

  /**
   * After `([、。])([あ-んア-ンー]{10,})` becomes `$1　$2`, the pattern
   * matches nowhere: every mark followed by ten kana or ー has had its pause.
   */
  lemma LongKanaRunsPaused(s: string)
    ensures var t := ReplaceAll(s, LongKanaRun);
            forall k :: 0 <= k < |t| ==> MatchAt(LongKanaRun, t, k).None?
  {
    var t := ReplaceAll(s, LongKanaRun);
    LongRunsBroken(s, 0);
    forall k | 0 <= k < |t| ensures MatchAt(LongKanaRun, t, k).None? {
      LongRunMatch(t, k);
    }
  }

  /**
   * Each mark of the input followed by ten kana or ー comes out as the mark, a
   * pause and the whole run, followed by the output of the rest of the scan.
   */
  lemma LongRunGetsPause(s: string, i: nat)
    requires i < |s| && LongRunAt(s, i)
    ensures var e := i + 1 + RunLength(s, i + 1, PauseKana);
            EndsWith(ReplaceAll(s, LongKanaRun), [s[i], Pause] + s[i + 1..e] + ReplaceFrom(s, LongKanaRun, e))
  {
    LongRunsStopBefore(s, i);
    ReplaceReaches(s, LongKanaRun, i);
    LongRunMatch(s, i);
    LongRunOutput(s, i);
  }

  /** From a mark followed by ten or more kana, the scan gives the mark, a pause and the run, then the scan after the run. */
  lemma LongRunOutput(s: string, i: nat)
    requires i < |s| && MatchAt(LongKanaRun, s, i).Some?
    ensures var e := i + 1 + RunLength(s, i + 1, PauseKana);
            ReplaceFrom(s, LongKanaRun, i) == [s[i], Pause] + s[i + 1..e] + ReplaceFrom(s, LongKanaRun, e)
  {
    LongRunHit(s, i);
    ReplaceStep(s, LongKanaRun, i);
  }

  /** No match of the long-run rule runs past a mark: its run holds kana only. */
  lemma LongRunsStopBefore(s: string, i: nat)
    requires i < |s| && (s[i] == '、' || s[i] == '。')
    ensures forall q :: 0 <= q < i ==>
              MatchAt(LongKanaRun, s, q).None? || q + MatchAt(LongKanaRun, s, q).value.len <= i
  {
    forall q | 0 <= q < i && MatchAt(LongKanaRun, s, q).Some?
      ensures q + MatchAt(LongKanaRun, s, q).value.len <= i
    {
      LongRunHit(s, q);
      MarksAreNoKana(s[i]);
    }
  }

  /** A sentence end: 。, ！ or ？. */
  predicate IsSentenceEnd(c: char) {
    c == '。' || c == '！' || c == '？'
  }

  /** The match of the sentence-end rule at `q`, if any: a mark, whitespace, and a hiragana where it ends. */
  lemma SentenceEndMatchShape(s: string, q: nat)
    requires q < |s| && MatchAt(SentenceEndBeforeKana, s, q).Some?
    ensures var n := MatchAt(SentenceEndBeforeKana, s, q).value.len;
            && 2 <= n && IsHiragana(s[q + n - 1])
            && forall k :: q + 1 <= k < q + n - 1 ==> IsJsSpace(s[k])
  {
    assert MatchAt(SentenceEndBeforeKana, s, q) == MatchSentenceEnd(s, q);
  }

  /** No match of the sentence-end rule runs past a sentence end: after its own mark it covers only whitespace and one hiragana. */
  lemma SentenceEndsStopBefore(s: string, i: nat)
    requires i < |s| && IsSentenceEnd(s[i])
    ensures forall q :: 0 <= q < i ==>
              MatchAt(SentenceEndBeforeKana, s, q).None? || q + MatchAt(SentenceEndBeforeKana, s, q).value.len <= i
  {
    forall q | 0 <= q < i && MatchAt(SentenceEndBeforeKana, s, q).Some?
      ensures q + MatchAt(SentenceEndBeforeKana, s, q).value.len <= i
    {
      SentenceEndMatchShape(s, q);
      assert !IsHiragana(s[i]) && !IsJsSpace(s[i]);
    }
  }

  /** From a sentence end with whitespace and a hiragana after it, the scan gives the mark, a pause and the hiragana, then the scan after them. */
  lemma SentenceEndOutput(s: string, i: nat, w: nat)
    requires i + 1 + w < |s| && IsSentenceEnd(s[i])
    requires forall k :: i + 1 <= k < i + 1 + w ==> IsJsSpace(s[k])
    requires IsHiragana(s[i + 1 + w])
    ensures ReplaceFrom(s, SentenceEndBeforeKana, i)
            == [s[i], Pause, s[i + 1 + w]] + ReplaceFrom(s, SentenceEndBeforeKana, i + 2 + w)
  {
    assert !IsJsSpace(s[i + 1 + w]);
    RunLengthExact(s, i + 1, w, Spaces);
    assert MatchSentenceEnd(s, i) == Some(Hit(w + 2, [s[i], Pause, s[i + 1 + w]]));
    assert MatchAt(SentenceEndBeforeKana, s, i) == MatchSentenceEnd(s, i);
    ReplaceStep(s, SentenceEndBeforeKana, i);
  }

  /**
   * Every sentence end of the input followed by whitespace (or none) and a
   * hiragana comes out as the mark, one pause and the hiragana, followed by
   * the output of the rest of the scan: the whitespace becomes the pause.
   */
  lemma SentenceEndGetsPause(s: string, i: nat, w: nat)
    requires i + 1 + w < |s| && IsSentenceEnd(s[i])
    requires forall k :: i + 1 <= k < i + 1 + w ==> IsJsSpace(s[k])
    requires IsHiragana(s[i + 1 + w])
    ensures EndsWith(ReplaceAll(s, SentenceEndBeforeKana),
                     [s[i], Pause, s[i + 1 + w]] + ReplaceFrom(s, SentenceEndBeforeKana, i + 2 + w))
  {
    SentenceEndsStopBefore(s, i);
    ReplaceReaches(s, SentenceEndBeforeKana, i);
    SentenceEndOutput(s, i, w);
  }

  /** Where a connective starts, the pattern's first matching alternative is that connective: no two share a first character. */
  lemma {:induction false} FirstConnectiveIs(s: string, i: nat, k: nat, x: nat)
    requires x < |Connectives| && k <= x && StartsWithAt(s, i, Connectives[x])
    ensures FirstConnective(s, i, k) == Some(Connectives[x])
    decreases x - k
  {
    if k < x {
      assert s[i..i + |Connectives[x]|][0] == s[i];
      assert Connectives[k][0] != Connectives[x][0];
      assert !StartsWithAt(s, i, Connectives[k]);
      FirstConnectiveIs(s, i, k + 1, x);
    }
  }

  /**
   * In the connective pass, a connective that no earlier connective overlaps
   * comes out with a pause in front of it (the pause goes before, `'　$1'`),
   * followed by the output of the rest of the scan.
   */
  lemma ConnectiveGetsPause(t: string, i: nat, x: nat)
    requires x < |Connectives| && StartsWithAt(t, i, Connectives[x])
    requires forall q, d :: 0 <= q < i && 0 <= d < |Connectives| && StartsWithAt(t, q, Connectives[d]) ==>
               q + |Connectives[d]| <= i
    ensures i + |Connectives[x]| <= |t|
    ensures EndsWith(ReplaceAll(t, Connective),
                     [Pause] + Connectives[x] + ReplaceFrom(t, Connective, i + |Connectives[x]|))
  {
    ConnectivesStopBefore(t, i);
    ReplaceReaches(t, Connective, i);
    ConnectiveOutput(t, i, x);
  }

  /** From a connective, the scan gives a pause and the connective, then the scan after it. */
  lemma ConnectiveOutput(t: string, i: nat, x: nat)
    requires x < |Connectives| && StartsWithAt(t, i, Connectives[x])
    ensures i + |Connectives[x]| <= |t|
    ensures ReplaceFrom(t, Connective, i) == [Pause] + Connectives[x] + ReplaceFrom(t, Connective, i + |Connectives[x]|)
  {
    FirstConnectiveIs(t, i, 0, x);
    assert MatchAt(Connective, t, i) == MatchConnective(t, i);
    ReplaceStep(t, Connective, i);
  }

  /** When no connective before `i` reaches past it, no match of the connective rule does. */
  lemma ConnectivesStopBefore(t: string, i: nat)
    requires i <= |t|
    requires forall q, d :: 0 <= q < i && 0 <= d < |Connectives| && StartsWithAt(t, q, Connectives[d]) ==>
               q + |Connectives[d]| <= i
    ensures forall q :: 0 <= q < i ==>
              MatchAt(Connective, t, q).None? || q + MatchAt(Connective, t, q).value.len <= i
  {
    forall q | 0 <= q < i && MatchAt(Connective, t, q).Some?
      ensures q + MatchAt(Connective, t, q).value.len <= i
    {
      assert MatchAt(Connective, t, q) == MatchConnective(t, q);
      var m := FirstConnective(t, q, 0);
      var d :| 0 <= d < |Connectives| && Connectives[d] == m.value;
      assert StartsWithAt(t, q, Connectives[d]);
    }
  }

  /** A text of at most ten characters holds no mark followed by ten pause kana. */
  lemma ShortTextNoLongRun(s: string)
    requires |s| <= 10
    ensures ReplaceAll(s, LongKanaRun) == s
  {
    forall j | 0 <= j < |s| ensures MatchAt(LongKanaRun, s, j).None? {
      LongRunMatch(s, j);
    }
    ReplaceWithoutMatch(s, LongKanaRun);
  }

  /** The connective pattern has no word boundary: the また of またね gets a pause too. */
  lemma ConnectiveInsideWordExample()
    ensures AddNaturalPausesToText("またね") == "\U{3000}またね"
  {
    ShortTextNoLongRun("またね");
    MataneConnectiveScan();
  }

  lemma MataneConnectiveScan()
    ensures ReplaceAll("またね", Connective) == "\U{3000}またね"
  {
    var s := "またね";
    MataneConnectives();
    assert MatchAt(Connective, s, 0) == Some(Hit(2, [Pause] + "また"));
    ReplaceStep(s, Connective, 0);
    ReplaceStep(s, Connective, 2);
    assert ReplaceFrom(s, Connective, 3) == [];
  }

  /** In またね, the connective また starts at 0 and none starts at 2. */
  lemma MataneConnectives()
    ensures FirstConnective("またね", 0, 0) == Some("また")
    ensures FirstConnective("またね", 2, 0) == None
  {
    var s := "またね";
    assert s[0..3][0] != "そして"[0];
    assert s[0..3][0] != "しかし"[0];
    assert s[0..2] == "また";
    assert FirstConnective(s, 0, 2) == Some("また");
    forall j | 0 <= j < |Connectives| ensures !StartsWithAt(s, 2, Connectives[j]) {
      assert |Connectives[j]| >= 2;
    }
  }
}
