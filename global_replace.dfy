/**
 * Every global regular-expression replace the core performs, as one rule
 * datatype and one scanner. `s.replace(/re/g, f)` looks for a match at each
 * position from left to right; where one starts it emits the replacement and
 * resumes right after the match, otherwise it copies one character. None of
 * the patterns can match the empty string, so every match covers at least one
 * character. Lookups at a position see the ORIGINAL string (the `\b` and the
 * whitespace runs are judged there), exactly as the regex engine does.
 */
module GlobalReplace {
  import opened Options
  import opened CharClasses
  import opened NumberReading

  /** A match at some position: how many characters it covers and its replacement. */
  datatype Hit = Hit(len: nat, replacement: string)

  datatype Rule =
      /** `new RegExp(key, 'g')` with a key free of regex metacharacters, replaced by `value`. */
    | Literal(key: string, value: string)
      /** `/(\d{4})年/g` to the reading followed by 年. */
    | YearNumeral
      /** `/(\d{1,2})X/g` to the reading followed by `reading`, for X in 月 日 時 分. */
    | ShortNumeral(suffix: char, reading: string)
      /** `/(\d+)%/g` to the reading followed by パーセント. */
    | PercentNumeral
      /** `/\b(\d{1,4})\b/g` to the reading. */
    | BareNumeral
      /** `/([。！？])\s*([あ-ん])/g` to `'$1　$2'`. */
    | SentenceEndBeforeKana
      /** `/、\s*\/g` to `'、　'`. */
    | CommaPause
      /** `/([！？])\s*\/g` to `'$1　'`. */
    | ExclamationPause
      /** `/ー+/g` to `'ー'`. */
    | ChoonRun
      /** `/([、。])([あ-んア-ンー]{10,})/g` to `'$1　$2'`. */
    | LongKanaRun
      /** `/(そして|しかし|また|さらに|なお|ただし|ところで|ちなみに)/g` to `'　$1'`. */
    | Connective
      /** `/\s+/g` to `' '`. */
    | SpaceRun
      /** `/,(\s*[}\]])/g` to `'$1'`. */
    | TrailingComma

  /** The character classes a greedy quantifier runs over. */
  datatype CharSet = Digits | Spaces | Choons | PauseKana | WordChars

  predicate InSet(c: char, cs: CharSet) {
    match cs
    case Digits => IsAsciiDigit(c)
    case Spaces => IsJsSpace(c)
    case Choons => c == Choon
    case PauseKana => IsHiragana(c) || IsKatakana(c) || c == Choon
    case WordChars => IsWordChar(c)
  }

  /** The length of the longest run of `cs` characters starting at `i`: what a greedy `+` or `*` takes. */
  function RunLength(s: string, i: nat, cs: CharSet): (n: nat)
    requires i <= |s|
    ensures i + n <= |s|
    ensures forall k :: i <= k < i + n ==> InSet(s[k], cs)
    ensures i + n < |s| ==> !InSet(s[i + n], cs)
    decreases |s| - i
  {
    if i == |s| || !InSet(s[i], cs) then 0 else 1 + RunLength(s, i + 1, cs)
  }

  /** A run of exactly `n` characters of `cs` from `i`. */
  lemma {:induction false} RunLengthExact(s: string, i: nat, n: nat, cs: CharSet)
    requires i + n <= |s| && forall k :: i <= k < i + n ==> InSet(s[k], cs)
    requires i + n == |s| || !InSet(s[i + n], cs)
    ensures RunLength(s, i, cs) == n
    decreases n
  {
    if n > 0 {
      RunLengthExact(s, i + 1, n - 1, cs);
    }
  }

  /** A run of at least `n` characters of `cs` from `i`. */
  lemma RunLengthAtLeast(s: string, i: nat, n: nat, cs: CharSet)
    requires i + n <= |s| && forall k :: i <= k < i + n ==> InSet(s[k], cs)
    ensures RunLength(s, i, cs) >= n
  {
  }

  predicate StartsWithAt(s: string, i: nat, t: string) {
    i + |t| <= |s| && s[i..i + |t|] == t
  }

  /** The first position at or after `from` where `t` occurs in `s`. */
  function FindFrom(s: string, t: string, from: nat): (m: Option<nat>)
    requires from <= |s|
    ensures m.Some? ==> from <= m.value <= |s| && StartsWithAt(s, m.value, t)
    ensures m.Some? ==> forall p :: from <= p < m.value ==> !StartsWithAt(s, p, t)
    ensures m.None? ==> forall p :: from <= p <= |s| ==> !StartsWithAt(s, p, t)
    decreases |s| - from
  {
    if StartsWithAt(s, from, t) then Some(from)
    else if from == |s| then None
    else FindFrom(s, t, from + 1)
  }

  /** `\b` at position `j`: exactly one of the characters on either side is a word character. */
  predicate WordBoundary(s: string, j: nat)
    requires j <= |s|
  {
    (j > 0 && IsWordChar(s[j - 1])) != (j < |s| && IsWordChar(s[j]))
  }

  const Connectives: seq<string> := ["そして", "しかし", "また", "さらに", "なお", "ただし", "ところで", "ちなみに"]

  /** The first alternative of the connective pattern, in pattern order, that matches at `i`. */
  function FirstConnective(s: string, i: nat, k: nat): (m: Option<string>)
    requires k <= |Connectives|
    ensures m.Some? ==> m.value in Connectives && m.value != [] && StartsWithAt(s, i, m.value)
    ensures m.None? ==> forall j :: k <= j < |Connectives| ==> !StartsWithAt(s, i, Connectives[j])
    decreases |Connectives| - k
  {
    if k == |Connectives| then None
    else if StartsWithAt(s, i, Connectives[k]) then Some(Connectives[k])
    else FirstConnective(s, i, k + 1)
  }

  lemma DigitSlice(s: string, i: nat, n: nat)
    requires i <= |s| && n <= RunLength(s, i, Digits)
    ensures AllDigits(s[i..i + n])
  {
  }

  /** A hit that stays inside the text and covers at least one character. */
  predicate Fits(m: Option<Hit>, s: string, i: nat) {
    m.Some? ==> 1 <= m.value.len && i + m.value.len <= |s|
  }

  /**
   * A pattern together with its replacement callback, as a function: the hit
   * at position `i`, if the pattern matches there. A hit never reaches past
   * the end of the text and covers at least one character.
   */
  type Matcher = f: (string, nat) -> Option<Hit> | forall s: string, i: nat :: i < |s| ==> Fits(f(s, i), s, i)
    witness (s: string, i: nat) => None

  /** The matcher of `rule`, with the backtracking of the regex engine worked out in the matcher of each rule. */
  function MatcherOf(rule: Rule): Matcher {
    match rule
    case Literal(key, value) => (s: string, i: nat) => if i < |s| then MatchLiteral(key, value, s, i) else None
    case YearNumeral => (s: string, i: nat) => if i < |s| then MatchYear(s, i) else None
    case ShortNumeral(suffix, reading) =>
      (s: string, i: nat) => if i < |s| then MatchShortNumeral(suffix, reading, s, i) else None
    case PercentNumeral => (s: string, i: nat) => if i < |s| then MatchPercent(s, i) else None
    case BareNumeral => (s: string, i: nat) => if i < |s| then MatchBareNumeral(s, i) else None
    case SentenceEndBeforeKana => (s: string, i: nat) => if i < |s| then MatchSentenceEnd(s, i) else None
    case CommaPause => (s: string, i: nat) => if i < |s| then MatchCommaPause(s, i) else None
    case ExclamationPause => (s: string, i: nat) => if i < |s| then MatchExclamationPause(s, i) else None
    case ChoonRun => (s: string, i: nat) => if i < |s| then MatchChoonRun(s, i) else None
    case LongKanaRun => (s: string, i: nat) => if i < |s| then MatchLongKanaRun(s, i) else None
    case Connective => (s: string, i: nat) => if i < |s| then MatchConnective(s, i) else None
    case SpaceRun => (s: string, i: nat) => if i < |s| then MatchSpaceRun(s, i) else None
    case TrailingComma => (s: string, i: nat) => if i < |s| then MatchTrailingComma(s, i) else None
  }

  /** Where the pattern of `rule` matches at `i`. */
  function MatchAt(rule: Rule, s: string, i: nat): (m: Option<Hit>)
    requires i < |s|
    ensures Fits(m, s, i)
  {
    MatcherOf(rule)(s, i)
  }

  function MatchLiteral(key: string, value: string, s: string, i: nat): (m: Option<Hit>)
    requires i < |s|
    ensures Fits(m, s, i)
  {
    if key != [] && StartsWithAt(s, i, key) then Some(Hit(|key|, value)) else None
  }

  /** `(\d{4})年`: four digits and then 年. */
  function MatchYear(s: string, i: nat): (m: Option<Hit>)
    requires i < |s|
    ensures Fits(m, s, i)
  {
    if RunLength(s, i, Digits) >= 4 && i + 4 < |s| && s[i + 4] == '年' then
      DigitSlice(s, i, 4);
      Some(Hit(5, ConvertNumberToJapanese(s[i..i + 4]) + "年"))
    else None
  }

  /** `(\d{1,2})X`: the greedy quantifier tries two digits before one. */
  function MatchShortNumeral(suffix: char, reading: string, s: string, i: nat): (m: Option<Hit>)
    requires i < |s|
    ensures Fits(m, s, i)
  {
    var run := RunLength(s, i, Digits);
    if run >= 2 && i + 2 < |s| && s[i + 2] == suffix then
      DigitSlice(s, i, 2);
      Some(Hit(3, ConvertNumberToJapanese(s[i..i + 2]) + reading))
    else if run >= 1 && i + 1 < |s| && s[i + 1] == suffix then
      DigitSlice(s, i, 1);
      Some(Hit(2, ConvertNumberToJapanese(s[i..i + 1]) + reading))
    else None
  }

  /** `(\d+)%`: a shorter run than the longest ends on a digit, never on %, so only the longest can match. */
  function MatchPercent(s: string, i: nat): (m: Option<Hit>)
    requires i < |s|
    ensures Fits(m, s, i)
  {
    var run := RunLength(s, i, Digits);
    if run >= 1 && i + run < |s| && s[i + run] == '%' then
      DigitSlice(s, i, run);
      Some(Hit(run + 1, ConvertNumberToJapanese(s[i..i + run]) + "パーセント"))
    else None
  }

  /**
   * `\b(\d{1,4})\b`: a shorter take than the whole digit run is followed by a
   * digit, which is no boundary, so only a run of one to four digits matches.
   */
  function MatchBareNumeral(s: string, i: nat): (m: Option<Hit>)
    requires i < |s|
    ensures Fits(m, s, i)
  {
    var run := RunLength(s, i, Digits);
    if 1 <= run <= 4 && WordBoundary(s, i) && WordBoundary(s, i + run) then
      DigitSlice(s, i, run);
      var digits := s[i..i + run];
      Some(Hit(run, if DecimalValue(digits) <= 10000 then ConvertNumberToJapanese(digits) else digits))
    else None
  }

  /** `([。！？])\s*([あ-ん])`: `\s*` backs off only onto whitespace, which is no hiragana. */
  function MatchSentenceEnd(s: string, i: nat): (m: Option<Hit>)
    requires i < |s|
    ensures Fits(m, s, i)
  {
    if s[i] == '。' || s[i] == '！' || s[i] == '？' then
      var w := RunLength(s, i + 1, Spaces);
      if i + 1 + w < |s| && IsHiragana(s[i + 1 + w]) then Some(Hit(w + 2, [s[i], Pause, s[i + 1 + w]]))
      else None
    else None
  }

  /** `、\s*`. */
  function MatchCommaPause(s: string, i: nat): (m: Option<Hit>)
    requires i < |s|
    ensures Fits(m, s, i)
  {
    if s[i] == '、' then Some(Hit(1 + RunLength(s, i + 1, Spaces), ['、', Pause])) else None
  }

  /** `([！？])\s*`. */
  function MatchExclamationPause(s: string, i: nat): (m: Option<Hit>)
    requires i < |s|
    ensures Fits(m, s, i)
  {
    if s[i] == '！' || s[i] == '？' then Some(Hit(1 + RunLength(s, i + 1, Spaces), [s[i], Pause])) else None
  }

  /** `ー+`. */
  function MatchChoonRun(s: string, i: nat): (m: Option<Hit>)
    requires i < |s|
    ensures Fits(m, s, i)
  {
    if s[i] == Choon then Some(Hit(RunLength(s, i, Choons), [Choon])) else None
  }

  /** `([、。])([あ-んア-ンー]{10,})`: the greedy run after the mark must be ten characters or more. */
  function MatchLongKanaRun(s: string, i: nat): (m: Option<Hit>)
    requires i < |s|
    ensures Fits(m, s, i)
  {
    if s[i] == '、' || s[i] == '。' then
      var n := RunLength(s, i + 1, PauseKana);
      if n >= 10 then Some(Hit(n + 1, [s[i], Pause] + s[i + 1..i + 1 + n])) else None
    else None
  }

  /** The alternation of connectives, tried in pattern order. */
  function MatchConnective(s: string, i: nat): (m: Option<Hit>)
    requires i < |s|
    ensures Fits(m, s, i)
  {
    match FirstConnective(s, i, 0)
    case Some(c) => Some(Hit(|c|, [Pause] + c))
    case None => None
  }

  /** `\s+`. */
  function MatchSpaceRun(s: string, i: nat): (m: Option<Hit>)
    requires i < |s|
    ensures Fits(m, s, i)
  {
    if IsJsSpace(s[i]) then Some(Hit(RunLength(s, i, Spaces), " ")) else None
  }

  /** `,(\s*[}\]])`: the comma goes, the whitespace and the bracket stay. */
  function MatchTrailingComma(s: string, i: nat): (m: Option<Hit>)
    requires i < |s|
    ensures Fits(m, s, i)
  {
    if s[i] == ',' then
      var w := RunLength(s, i + 1, Spaces);
      if i + 1 + w < |s| && (s[i + 1 + w] == '}' || s[i + 1 + w] == ']') then Some(Hit(w + 2, s[i + 1..i + 2 + w]))
      else None
    else None
  }

  /** The output of the scan with matcher `f` from position `i` on. */
  function Scan(s: string, f: Matcher, i: nat): string
    requires i <= |s|
    decreases |s| - i
  {
    if i == |s| then []
    else match f(s, i)
      case Some(h) => h.replacement + Scan(s, f, i + h.len)
      case None => [s[i]] + Scan(s, f, i + 1)
  }

  /** The scan with the pattern of `rule`. */
  function ReplaceFrom(s: string, rule: Rule, i: nat): string
    requires i <= |s|
  {
    Scan(s, MatcherOf(rule), i)
  }

  /** `s.replace(pattern, replacement)` with the `g` flag. */
  function ReplaceAll(s: string, rule: Rule): string {
    ReplaceFrom(s, rule, 0)
  }

  /** One step of the scan: the replacement of the hit at `i` and the scan after it, or the character at `i` and the scan after that. */
  lemma ScanStep(s: string, f: Matcher, i: nat)
    requires i < |s|
    ensures f(s, i).Some? ==> Scan(s, f, i) == f(s, i).value.replacement + Scan(s, f, i + f(s, i).value.len)
    ensures f(s, i).None? ==> Scan(s, f, i) == [s[i]] + Scan(s, f, i + 1)
  {
  }

  /** One step of the replace with `rule`, in terms of its match at `i`. */
  lemma ReplaceStep(s: string, rule: Rule, i: nat)
    requires i < |s|
    ensures MatchAt(rule, s, i).Some? ==>
              ReplaceFrom(s, rule, i) == MatchAt(rule, s, i).value.replacement + ReplaceFrom(s, rule, i + MatchAt(rule, s, i).value.len)
    ensures MatchAt(rule, s, i).None? ==> ReplaceFrom(s, rule, i) == [s[i]] + ReplaceFrom(s, rule, i + 1)
  {
    ScanStep(s, MatcherOf(rule), i);
  }

  /** The replace with `rule` passes through `i` when no earlier match runs past it. */
  lemma ReplaceReaches(s: string, rule: Rule, i: nat)
    requires i <= |s|
    requires forall q :: 0 <= q < i ==> MatchAt(rule, s, q).None? || q + MatchAt(rule, s, q).value.len <= i
    ensures EndsWith(ReplaceAll(s, rule), ReplaceFrom(s, rule, i))
  {
    var f := MatcherOf(rule);
    forall q | 0 <= q < i ensures f(s, q).None? || q + f(s, q).value.len <= i {
      assert f(s, q) == MatchAt(rule, s, q);
    }
    ScanReaches(s, f, 0, i);
  }

  /** The replace with `rule` copies a stretch where it matches nowhere. */
  lemma ReplaceCopies(s: string, rule: Rule, i: nat, e: nat)
    requires i <= e <= |s| && forall q :: i <= q < e ==> MatchAt(rule, s, q).None?
    ensures ReplaceFrom(s, rule, i) == s[i..e] + ReplaceFrom(s, rule, e)
  {
    var f := MatcherOf(rule);
    forall q | i <= q < e ensures f(s, q).None? {
      assert f(s, q) == MatchAt(rule, s, q);
    }
    ScanCopies(s, f, i, e);
  }

  /** Where the pattern matches nowhere, the scan gives back its input. */
  lemma ScanWithoutMatch(s: string, f: Matcher, i: nat)
    requires i <= |s|
    requires forall j :: i <= j < |s| ==> f(s, j).None?
    ensures Scan(s, f, i) == s[i..]
  {
    ScanCopies(s, f, i, |s|);
    assert Scan(s, f, |s|) == [];
    assert s[i..|s|] + [] == s[i..];
  }

  /** Where the pattern of `rule` matches nowhere, the replace gives back its input. */
  lemma ReplaceWithoutMatch(s: string, rule: Rule)
    requires forall j :: 0 <= j < |s| ==> MatchAt(rule, s, j).None?
    ensures ReplaceAll(s, rule) == s
  {
    forall j | 0 <= j < |s| ensures MatcherOf(rule)(s, j).None? {
      assert MatchAt(rule, s, j).None?;
    }
    ScanWithoutMatch(s, MatcherOf(rule), 0);
    assert s[0..] == s;
  }

  /** `t` ends with `u`. */
  predicate EndsWith(t: string, u: string) {
    |u| <= |t| && t[|t| - |u|..] == u
  }

  lemma EndsWithAfter(piece: string, t: string, u: string)
    requires EndsWith(t, u)
    ensures EndsWith(piece + t, u)
  {
    assert (piece + t)[|piece + t| - |u|..] == t[|t| - |u|..];
  }

  /**
   * The scan from `j` passes through `i` when no match starting in between
   * reaches past `i`: its output ends with the output of the scan from `i`.
   */
  lemma {:induction false} ScanReaches(s: string, f: Matcher, j: nat, i: nat)
    requires j <= i <= |s|
    requires forall q :: j <= q < i ==> f(s, q).None? || q + f(s, q).value.len <= i
    ensures EndsWith(Scan(s, f, j), Scan(s, f, i))
    decreases i - j
  {
    if j < i {
      ScanStep(s, f, j);
      if f(s, j).Some? {
        ScanReaches(s, f, j + f(s, j).value.len, i);
        EndsWithAfter(f(s, j).value.replacement, Scan(s, f, j + f(s, j).value.len), Scan(s, f, i));
      } else {
        ScanReaches(s, f, j + 1, i);
        EndsWithAfter([s[j]], Scan(s, f, j + 1), Scan(s, f, i));
      }
    } else {
      assert Scan(s, f, j)[|Scan(s, f, j)| - |Scan(s, f, i)|..] == Scan(s, f, j);
    }
  }

  /** Where the pattern matches nowhere in `s[i..e]`, the scan copies that part. */
  lemma {:induction false} ScanCopies(s: string, f: Matcher, i: nat, e: nat)
    requires i <= e <= |s|
    requires forall q :: i <= q < e ==> f(s, q).None?
    ensures Scan(s, f, i) == s[i..e] + Scan(s, f, e)
    decreases e - i
  {
    if i < e {
      calc {
        Scan(s, f, i);
      == { assert f(s, i).None?; }
        [s[i]] + Scan(s, f, i + 1);
      == { ScanCopies(s, f, i + 1, e); }
        [s[i]] + (s[i + 1..e] + Scan(s, f, e));
      ==
        ([s[i]] + s[i + 1..e]) + Scan(s, f, e);
      == { assert [s[i]] + s[i + 1..e] == s[i..e]; }
        s[i..e] + Scan(s, f, e);
      }
    } else {
      assert s[i..e] == [];
    }
  }

  // ---------------------------------------------------------------------
  // Characters a replace keeps: a filter that the replacement of every match
  // leaves as it was is left as it was by the whole replace.
  // ---------------------------------------------------------------------

  /** Which characters a projection keeps. */
  datatype Keep = KeepDigits | DropPauses | DropSpaces | DropSpacesAndChoon

  predicate Kept(c: char, k: Keep) {
    match k
    case KeepDigits => IsAsciiDigit(c)
    case DropPauses => c != Pause
    case DropSpaces => !IsJsSpace(c)
    case DropSpacesAndChoon => !IsJsSpace(c) && c != Choon
  }

  /** The characters of `s` that `k` keeps, in order. */
  function Project(s: string, k: Keep): (r: string)
    ensures |r| <= |s|
    ensures forall j :: 0 <= j < |r| ==> Kept(r[j], k)
  {
    if s == [] then [] else (if Kept(s[0], k) then [s[0]] else []) + Project(s[1..], k)
  }

  lemma {:induction false} ProjectConcat(a: string, b: string, k: Keep)
    ensures Project(a + b, k) == Project(a, k) + Project(b, k)
  {
    if a == [] {
      assert a + b == b;
    } else {
      assert (a + b)[0] == a[0] && (a + b)[1..] == a[1..] + b;
      ProjectConcat(a[1..], b, k);
    }
  }

  lemma {:induction false} ProjectNothing(s: string, k: Keep)
    requires forall j :: 0 <= j < |s| ==> !Kept(s[j], k)
    ensures Project(s, k) == []
  {
    if s != [] {
      ProjectNothing(s[1..], k);
    }
  }

  lemma {:induction false} ProjectEverything(s: string, k: Keep)
    requires forall j :: 0 <= j < |s| ==> Kept(s[j], k)
    ensures Project(s, k) == s
  {
    if s != [] {
      ProjectEverything(s[1..], k);
    }
  }

  /** The replacement of a match at `j`, if there is one, keeps what `k` keeps of the matched text. */
  predicate HitKeeps(f: Matcher, s: string, j: nat, k: Keep)
    requires j < |s|
  {
    match f(s, j)
    case None => true
    case Some(h) => Project(h.replacement, k) == Project(s[j..j + h.len], k)
  }

  /** A scan step that replaces `s[i..n]` by `r` keeps the projection, given that the rest of the scan does. */
  lemma KeepsSpliced(s: string, i: nat, n: nat, r: string, out: string, rest: string, k: Keep)
    requires i < n <= |s| && out == r + rest
    requires Project(r, k) == Project(s[i..n], k)
    requires Project(rest, k) == Project(s[n..], k)
    ensures Project(out, k) == Project(s[i..], k)
  {
    ProjectConcat(r, rest, k);
    assert s[i..] == s[i..n] + s[n..];
    ProjectConcat(s[i..n], s[n..], k);
  }

  /** One step of the scan keeps the projection, given that the rest of the scan does. */
  lemma KeepsOneStep(s: string, f: Matcher, i: nat, next: nat, k: Keep)
    requires i < |s| && HitKeeps(f, s, i, k)
    requires next == if f(s, i).Some? then i + f(s, i).value.len else i + 1
    requires Project(Scan(s, f, next), k) == Project(s[next..], k)
    ensures Project(Scan(s, f, i), k) == Project(s[i..], k)
  {
    ScanStep(s, f, i);
    if f(s, i).Some? {
      KeepsSpliced(s, i, next, f(s, i).value.replacement, Scan(s, f, i), Scan(s, f, next), k);
    } else {
      assert s[i..i + 1] == [s[i]];
      KeepsSpliced(s, i, next, [s[i]], Scan(s, f, i), Scan(s, f, next), k);
    }
  }

  lemma {:induction false} ScanKeeps(s: string, f: Matcher, i: nat, k: Keep)
    requires i <= |s|
    requires forall j :: i <= j < |s| ==> HitKeeps(f, s, j, k)
    ensures Project(Scan(s, f, i), k) == Project(s[i..], k)
    decreases |s| - i
  {
    if i < |s| {
      var next := if f(s, i).Some? then i + f(s, i).value.len else i + 1;
      ScanKeeps(s, f, next, k);
      KeepsOneStep(s, f, i, next, k);
    }
  }

  /** A rule all of whose matches keep what `k` keeps leaves the `k`-projection of any text as it was. */
  lemma ReplaceAllKeeps(s: string, rule: Rule, k: Keep)
    requires forall j :: 0 <= j < |s| ==> HitKeeps(MatcherOf(rule), s, j, k)
    ensures Project(ReplaceAll(s, rule), k) == Project(s, k)
  {
    ScanKeeps(s, MatcherOf(rule), 0, k);
    assert s[0..] == s;
  }

  // ---------------------------------------------------------------------
  // The first character of the output.
  // ---------------------------------------------------------------------

  /** A matcher whose every replacement starts with the character its match starts with. */
  ghost predicate Anchored(f: Matcher) {
    forall s: string, i: nat :: i < |s| && f(s, i).Some? ==>
      f(s, i).value.replacement != [] && f(s, i).value.replacement[0] == s[i]
  }

  /** The sentence-end, comma, exclamation, ー-run and long-kana-run rules keep the character they start at. */
  lemma AnchoredRules()
    ensures Anchored(MatcherOf(SentenceEndBeforeKana))
    ensures Anchored(MatcherOf(CommaPause))
    ensures Anchored(MatcherOf(ExclamationPause))
    ensures Anchored(MatcherOf(ChoonRun))
    ensures Anchored(MatcherOf(LongKanaRun))
  {
  }

  /** The output of an anchored scan from a position inside the text starts with the character found there. */
  lemma FirstCharKept(s: string, f: Matcher, i: nat)
    requires Anchored(f) && i < |s|
    ensures Scan(s, f, i) != [] && Scan(s, f, i)[0] == s[i]
  {
    ScanStep(s, f, i);
  }
}
