/**
 * The pure steps of the emotion analysis: picking the JSON text out of the
 * model's response, removing trailing commas from it, and validating the
 * parsed result. The parsed result is a JSON value; what `JSON.parse` does in
 * between is not part of this model.
 */
module Analysis {
  import opened Options
  import opened CharClasses
  import opened GlobalReplace
  import opened VoiceTypes

  // ---------------------------------------------------------------------
  // Extraction of the JSON text from the response.
  // ---------------------------------------------------------------------

  const FenceOpen: string := "```json"
  const FenceClose: string := "\n```"

  /** A match of the fence pattern: where it starts, where its capture starts and ends, and where it ends. */
  datatype FenceHit = FenceHit(start: nat, captureStart: nat, captureEnd: nat, end: nat)

  predicate FenceHitIn(s: string, h: FenceHit) {
    && h.start + |FenceOpen| < h.captureStart <= h.captureEnd
    && h.end == h.captureEnd + |FenceClose| <= |s|
    && StartsWithAt(s, h.start, FenceOpen)
    && s[h.captureStart - 1] == '\n'
    && (forall k :: h.start + |FenceOpen| <= k < h.captureStart ==> IsJsSpace(s[k]))
    && StartsWithAt(s, h.captureEnd, FenceClose)
  }

  /**
   * `\s*\n([\s\S]*?)\n```` after the opening fence at `i`, with `\s*` taking
   * `k` characters: `\s*` backs off from its longest take one character at a
   * time until a newline follows; the lazy capture then stops at the first
   * closing fence.
   */
  function FenceFrom(s: string, i: nat, k: nat): (m: Option<FenceHit>)
    requires StartsWithAt(s, i, FenceOpen)
    requires k <= RunLength(s, i + |FenceOpen|, Spaces)
    ensures m.Some? ==> FenceHitIn(s, m.value) && m.value.start == i
    ensures m.Some? ==> forall p :: m.value.captureStart <= p < m.value.captureEnd ==> !StartsWithAt(s, p, FenceClose)
    decreases k
  {
    if k == 0 then None
    else
      var j := i + |FenceOpen| + k - 1;
      if s[j] == '\n' then
        match FindFrom(s, FenceClose, j + 1)
        case Some(p) => Some(FenceHit(i, j + 1, p, p + |FenceClose|))
        case None => FenceFrom(s, i, k - 1)
      else FenceFrom(s, i, k - 1)
  }

  /** `response.match(/```json\s*\n([\s\S]*?)\n```/)`: the leftmost start that matches. */
  function FenceMatch(s: string, i: nat): (m: Option<FenceHit>)
    requires i <= |s|
    ensures m.Some? ==> FenceHitIn(s, m.value) && i <= m.value.start
    ensures m.Some? ==> forall p :: m.value.captureStart <= p < m.value.captureEnd ==> !StartsWithAt(s, p, FenceClose)
    decreases |s| - i
  {
    if i == |s| then None
    else if StartsWithAt(s, i, FenceOpen) && FenceFrom(s, i, RunLength(s, i + |FenceOpen|, Spaces)).Some? then
      FenceFrom(s, i, RunLength(s, i + |FenceOpen|, Spaces))
    else FenceMatch(s, i + 1)
  }

  /**
   * The match `response.match` returns for the fence pattern: the leftmost
   * start; at that start the longest `\s*` that still lets the rest match;
   * and the lazy capture ending at the first closing fence.
   */
  ghost predicate FirstFence(s: string, h: FenceHit) {
    && FenceHitIn(s, h)
    && (forall g :: FenceHitIn(s, g) ==> h.start <= g.start)
    && (forall g :: FenceHitIn(s, g) && g.start == h.start ==> g.captureStart <= h.captureStart)
    && (forall p :: h.captureStart <= p < h.captureEnd ==> !StartsWithAt(s, p, FenceClose))
  }

  /**
   * A newline at `c - 1` followed later by a closing fence, with `c` within
   * the first `k` characters after the opening fence, is found by the
   * backtracking from `k`, with a capture starting no earlier than `c`.
   */
  lemma {:induction false} FenceFromFinds(s: string, i: nat, k: nat, c: nat)
    requires StartsWithAt(s, i, FenceOpen) && k <= RunLength(s, i + |FenceOpen|, Spaces)
    requires i + |FenceOpen| < c <= i + |FenceOpen| + k
    requires s[c - 1] == '\n' && FindFrom(s, FenceClose, c).Some?
    ensures FenceFrom(s, i, k).Some? && c <= FenceFrom(s, i, k).value.captureStart
    decreases k
  {
    var j := i + |FenceOpen| + k - 1;
    FenceFromStep(s, i, k);
    if !(s[j] == '\n' && FindFrom(s, FenceClose, j + 1).Some?) {
      assert c <= j;
      FenceFromFinds(s, i, k - 1, c);
      assert FenceFrom(s, i, k) == FenceFrom(s, i, k - 1);
    }
  }

  /** A closing fence at `p` is found by a search from any earlier position. */
  lemma ClosingFenceFound(s: string, from: nat, p: nat)
    requires from <= p <= |s| && StartsWithAt(s, p, FenceClose)
    ensures FindFrom(s, FenceClose, from).Some?
  {
  }

  /** One step of the backtracking of `\s*`: a newline at the end of its take with a closing fence after it, or one character less. */
  lemma FenceFromStep(s: string, i: nat, k: nat)
    requires StartsWithAt(s, i, FenceOpen) && 0 < k <= RunLength(s, i + |FenceOpen|, Spaces)
    ensures var j := i + |FenceOpen| + k - 1;
            s[j] == '\n' && FindFrom(s, FenceClose, j + 1).Some? ==>
              FenceFrom(s, i, k).Some? && FenceFrom(s, i, k).value.captureStart == j + 1
    ensures var j := i + |FenceOpen| + k - 1;
            !(s[j] == '\n' && FindFrom(s, FenceClose, j + 1).Some?) ==> FenceFrom(s, i, k) == FenceFrom(s, i, k - 1)
  {
  }

  /** The whitespace of a fence match lies within the run of whitespace after the opening fence. */
  lemma FenceSpacesInRun(s: string, h: FenceHit)
    requires FenceHitIn(s, h)
    ensures h.captureStart <= h.start + |FenceOpen| + RunLength(s, h.start + |FenceOpen|, Spaces)
  {
    RunLengthAtLeast(s, h.start + |FenceOpen|, h.captureStart - h.start - |FenceOpen|, Spaces);
  }

  /** Every fence match starting at or after `i` is found, at its start or earlier. */
  lemma {:induction false} FenceMatchFinds(s: string, i: nat, h: FenceHit)
    requires i <= h.start && FenceHitIn(s, h)
    ensures FenceMatch(s, i).Some? && FenceMatch(s, i).value.start <= h.start
    decreases h.start - i
  {
    if i == h.start {
      FenceSpacesInRun(s, h);
      ClosingFenceFound(s, h.captureStart, h.captureEnd);
      FenceFromFinds(s, i, RunLength(s, i + |FenceOpen|, Spaces), h.captureStart);
    } else if !(StartsWithAt(s, i, FenceOpen) && FenceFrom(s, i, RunLength(s, i + |FenceOpen|, Spaces)).Some?) {
      FenceMatchFinds(s, i + 1, h);
    }
  }

  /** At the start it finds, the fence match takes the longest `\s*` that lets the rest match. */
  lemma {:induction false} FenceMatchGreedy(s: string, i: nat, h: FenceHit)
    requires i <= |s| && FenceMatch(s, i).Some?
    requires FenceHitIn(s, h) && h.start == FenceMatch(s, i).value.start
    ensures h.captureStart <= FenceMatch(s, i).value.captureStart
    decreases |s| - i
  {
    if StartsWithAt(s, i, FenceOpen) && FenceFrom(s, i, RunLength(s, i + |FenceOpen|, Spaces)).Some? {
      FenceSpacesInRun(s, h);
      ClosingFenceFound(s, h.captureStart, h.captureEnd);
      FenceFromFinds(s, i, RunLength(s, i + |FenceOpen|, Spaces), h.captureStart);
    } else {
      FenceMatchGreedy(s, i + 1, h);
    }
  }

  /** The fence search finds a match exactly when there is one, and then it is the match the regex engine returns. */
  lemma FenceMatchIsFirstFence(s: string)
    ensures FenceMatch(s, 0).Some? <==> exists h :: FenceHitIn(s, h)
    ensures FenceMatch(s, 0).Some? ==> FirstFence(s, FenceMatch(s, 0).value)
  {
    if exists h :: FenceHitIn(s, h) {
      var h :| FenceHitIn(s, h);
      FenceMatchFinds(s, 0, h);
    }
    if FenceMatch(s, 0).Some? {
      var m := FenceMatch(s, 0).value;
      forall g | FenceHitIn(s, g) ensures m.start <= g.start {
        FenceMatchFinds(s, 0, g);
      }
      forall g | FenceHitIn(s, g) && g.start == m.start ensures g.captureStart <= m.captureStart {
        FenceMatchGreedy(s, 0, g);
      }
    }
  }

  /** There is only one such match. */
  lemma FirstFenceUnique(s: string, g: FenceHit, h: FenceHit)
    requires FirstFence(s, g) && FirstFence(s, h)
    ensures g == h
  {
    assert g.start == h.start;
    assert g.captureStart == h.captureStart;
  }

  datatype Extraction = Extracted(jsonText: string) | ExtractionFailed

  const ExtractionError: string := "Failed to extract JSON from response"

  /**
   * The extraction step of `analyzeEmotion`: the capture of the fenced block
   * (or the whole fenced match when the capture is empty, as `match[1] ||
   * match[0]` does), otherwise the text from the first `{` to the first `}`
   * after it, otherwise failure.
   */
  function ExtractJson(response: string): (r: Extraction)
    ensures r.Extracted? ==> exists a, b :: 0 <= a <= b <= |response| && r.jsonText == response[a..b]
  {
    match FenceMatch(response, 0)
    case Some(h) =>
      if h.captureStart < h.captureEnd then Extracted(response[h.captureStart..h.captureEnd])
      else Extracted(response[h.start..h.end])
    case None => BraceSpan(response)
  }

  /** The fallback of the extraction: the text from the first `{` to the first `}` after it. */
  function BraceSpan(response: string): (r: Extraction)
    ensures r.Extracted? ==> exists a, b :: 0 <= a <= b <= |response| && r.jsonText == response[a..b]
  {
    match FindFrom(response, "{", 0)
    case None => ExtractionFailed
    case Some(a) =>
      if a < |response| then
        match FindFrom(response, "}", a + 1)
        case None => ExtractionFailed
        case Some(b) => if b < |response| then Extracted(response[a..b + 1]) else ExtractionFailed
      else ExtractionFailed
  }

  lemma FoundChar(s: string, c: char, p: nat)
    requires p < |s|
    ensures StartsWithAt(s, p, [c]) <==> s[p] == c
  {
    assert p + 1 <= |s| ==> s[p..p + 1] == [s[p]];
  }

  /** `t` is `response[a..b + 1]`, from its first `{` to the first `}` after that. */
  predicate BracePair(response: string, t: string, a: nat, b: nat) {
    && a < b < |response| && t == response[a..b + 1]
    && response[a] == '{' && response[b] == '}'
    && (forall k :: 0 <= k < a ==> response[k] != '{')
    && (forall k :: a < k < b ==> response[k] != '}')
  }

  /**
   * Without a fenced block, the text taken runs from the first `{` of the
   * response to the first `}` after it: no `{` before it and no `}` inside it.
   */
  lemma BraceExtraction(response: string)
    requires forall h :: !FenceHitIn(response, h)
    requires ExtractJson(response).Extracted?
    ensures exists a, b :: BracePair(response, ExtractJson(response).jsonText, a, b)
  {
    FenceMatchIsFirstFence(response);
    var a := FindFrom(response, "{", 0).value;
    assert a < |response|;
    var b := FindFrom(response, "}", a + 1).value;
    assert b < |response|;
    assert ExtractJson(response).jsonText == response[a..b + 1];
    FoundChar(response, '{', a);
    FoundChar(response, '}', b);
    forall k | 0 <= k < a ensures response[k] != '{' {
      FoundChar(response, '{', k);
    }
    forall k | a < k < b ensures response[k] != '}' {
      FoundChar(response, '}', k);
    }
    assert BracePair(response, ExtractJson(response).jsonText, a, b);
  }

  /** The first `c` at or after `from` is found where it is. */
  lemma FindCharAt(s: string, c: char, from: nat, p: nat)
    requires from <= p < |s| && s[p] == c
    requires forall k :: from <= k < p ==> s[k] != c
    ensures FindFrom(s, [c], from) == Some(p)
  {
    FoundChar(s, c, p);
    var q := FindFrom(s, [c], from).value;
    FoundChar(s, c, q);
  }

  /** The fallback takes the text from the first `{` to the first `}` after it. */
  lemma BracePairSpan(response: string, a: nat, b: nat)
    requires a < b < |response| && response[a] == '{' && response[b] == '}'
    requires forall k :: 0 <= k < a ==> response[k] != '{'
    requires forall k :: a < k < b ==> response[k] != '}'
    ensures BraceSpan(response) == Extracted(response[a..b + 1])
  {
    FindCharAt(response, '{', 0, a);
    FindCharAt(response, '}', a + 1, b);
  }

  lemma FallBackToBraces(response: string)
    requires FenceMatch(response, 0).None?
    ensures ExtractJson(response) == BraceSpan(response)
  {
  }

  /** Without a fenced block, the first `{` and the first `}` after it are what is extracted. */
  lemma BracePairExtracted(response: string, a: nat, b: nat)
    requires forall h :: !FenceHitIn(response, h)
    requires a < b < |response| && response[a] == '{' && response[b] == '}'
    requires forall k :: 0 <= k < a ==> response[k] != '{'
    requires forall k :: a < k < b ==> response[k] != '}'
    ensures ExtractJson(response) == Extracted(response[a..b + 1])
  {
    FenceMatchIsFirstFence(response);
    BracePairSpan(response, a, b);
    FallBackToBraces(response);
  }

  /**
   * With a fenced block, the text taken is the capture of the match the regex
   * engine returns, or the whole match when that capture is empty.
   */
  lemma FencedExtraction(response: string, h: FenceHit)
    requires FirstFence(response, h)
    ensures h.start <= h.captureStart <= h.captureEnd <= h.end <= |response|
    ensures ExtractJson(response) == Extracted(if h.captureStart < h.captureEnd then response[h.captureStart..h.captureEnd]
                                              else response[h.start..h.end])
  {
    FenceMatchIsFirstFence(response);
    FirstFenceUnique(response, FenceMatch(response, 0).value, h);
  }

  /** Extraction fails exactly when there is no fenced block and no `{` with a `}` somewhere after it. */
  lemma ExtractionFailsIff(response: string)
    ensures ExtractJson(response) == ExtractionFailed <==>
              !(exists h :: FenceHitIn(response, h)) &&
              !(exists a, b :: 0 <= a < b < |response| && response[a] == '{' && response[b] == '}')
  {
    FenceMatchIsFirstFence(response);
    if FenceMatch(response, 0).None? {
      if exists a, b :: 0 <= a < b < |response| && response[a] == '{' && response[b] == '}' {
        var a, b :| 0 <= a < b < |response| && response[a] == '{' && response[b] == '}';
        FoundChar(response, '{', a);
        var a0 := FindFrom(response, "{", 0).value;
        FoundChar(response, '}', b);
        assert a0 <= a && a0 < |response|;
        assert FindFrom(response, "}", a0 + 1).Some?;
        var b0 := FindFrom(response, "}", a0 + 1).value;
        assert b0 <= b;
      } else {
        match FindFrom(response, "{", 0)
        case None =>
        case Some(a) =>
          if a < |response| {
            FoundChar(response, '{', a);
            match FindFrom(response, "}", a + 1)
            case None =>
            case Some(b) =>
              if b < |response| {
                FoundChar(response, '}', b);
              }
          }
      }
    }
  }

  /** A response without braces or fences, like the model's apology text, yields the extraction error. */
  lemma NoJsonExample()
    ensures ExtractJson("JSONがありません") == ExtractionFailed
  {
    var s := "JSONがありません";
    assert '{' !in s && '}' !in s;
    forall i | 0 <= i <= |s| ensures !StartsWithAt(s, i, FenceOpen) {
      if i + |FenceOpen| <= |s| {
        assert s[i..i + |FenceOpen|][0] == s[i];
      }
    }
    NoFence(s, 0);
    ExtractionFailsIff(s);
  }

  lemma {:induction false} NoFence(s: string, i: nat)
    requires i <= |s|
    requires forall j :: i <= j <= |s| ==> !StartsWithAt(s, j, FenceOpen)
    ensures FenceMatch(s, i).None?
    decreases |s| - i
  {
    if i < |s| {
      NoFence(s, i + 1);
    }
  }

  /** A fenced block holding an object yields the object's text, without the fence. */
  lemma FencedObjectExample()
    ensures ExtractJson("```json\n{}\n```") == Extracted("{}")
  {
    var s := "```json\n{}\n```";
    FencedObjectMatch();
    assert s[8..10] == "{}";
  }

  /** In that block the fence search stops at the newline after the opening fence and at the closing fence. */
  lemma FencedObjectMatch()
    ensures FenceMatch("```json\n{}\n```", 0) == Some(FenceHit(0, 8, 10, 14))
  {
    var s := "```json\n{}\n```";
    FencedObjectRun();
    FencedObjectClose();
    assert FenceFrom(s, 0, 1) == Some(FenceHit(0, 8, 10, 14));
  }

  /** The block opens with the fence, followed by a single whitespace character. */
  lemma FencedObjectRun()
    ensures StartsWithAt("```json\n{}\n```", 0, FenceOpen)
    ensures RunLength("```json\n{}\n```", 7, Spaces) == 1
  {
    var s := "```json\n{}\n```";
    assert s[0..7] == FenceOpen;
    assert RunLength(s, 9, Spaces) == 0;
    assert RunLength(s, 8, Spaces) == 0;
  }

  /** The first closing fence after the newline is the one at position 10. */
  lemma FencedObjectClose()
    ensures FindFrom("```json\n{}\n```", FenceClose, 8) == Some(10)
  {
    var s := "```json\n{}\n```";
    assert s[8..12][0] == '{' && s[9..13][0] == '}';
    assert s[10..14] == FenceClose;
  }

  /** An empty fenced block has an empty capture, so the whole match, fences included, is taken. */
  lemma EmptyFenceExample()
    ensures ExtractJson("```json\n\n```") == Extracted("```json\n\n```")
  {
    var s := "```json\n\n```";
    assert s[0..7] == FenceOpen;
    assert RunLength(s, 9, Spaces) == 0;
    assert RunLength(s, 8, Spaces) == 1;
    assert RunLength(s, 7, Spaces) == 2;
    assert !StartsWithAt(s, 9, FenceClose);
    assert s[8..12] == FenceClose;
    assert FindFrom(s, FenceClose, 9) == None;
    assert FenceFrom(s, 0, 2) == FenceFrom(s, 0, 1);
    assert FindFrom(s, FenceClose, 8) == Some(8);
    assert FenceFrom(s, 0, 1) == Some(FenceHit(0, 8, 8, 12));
    assert FenceMatch(s, 0) == Some(FenceHit(0, 8, 8, 12));
    assert s[0..12] == s;
  }

  /** The prose-around-an-object response of the next fixture. */
  const BracedResponse: string := "結果: {\"a\": 1} です"

  lemma BracedResponseHasNoFence()
    ensures FenceMatch(BracedResponse, 0).None?
  {
    var s := BracedResponse;
    assert '`' !in s;
    forall i | 0 <= i <= |s| ensures !StartsWithAt(s, i, FenceOpen) {
      if i + |FenceOpen| <= |s| {
        assert s[i..i + |FenceOpen|][0] == s[i];
      }
    }
    NoFence(s, 0);
  }

  /** Prose around an object, without fences: the text from the brace to the brace is taken. */
  lemma BracedObjectExample()
    ensures ExtractJson(BracedResponse) == Extracted("{\"a\": 1}")
  {
    var s := BracedResponse;
    assert s[0] == '結' && s[1] == '果' && s[2] == ':' && s[3] == ' ' && s[4] == '{';
    assert s[5] == '"' && s[6] == 'a' && s[7] == '"' && s[8] == ':' && s[9] == ' ' && s[10] == '1' && s[11] == '}';
    forall k | 0 <= k < 4 ensures s[k] != '{' { }
    forall k | 4 < k < 11 ensures s[k] != '}' { }
    assert s[4..12] == "{\"a\": 1}";
    BracedResponseHasNoFence();
    BracePairExtracted(s, 4, 11);
  }

  // ---------------------------------------------------------------------
  // Trailing-comma cleanup.
  // ---------------------------------------------------------------------

  /** A comma followed by optional whitespace and then `}` or `]`. */
  predicate TrailingCommaAt(t: string, k: nat)
    requires k < |t|
  {
    && t[k] == ','
    && var w := RunLength(t, k + 1, Spaces);
       k + 1 + w < |t| && (t[k + 1 + w] == '}' || t[k + 1 + w] == ']')
  }

  /** The characters of `t` from `i` on, leaving out the trailing commas. */
  function WithoutTrailingCommas(t: string, i: nat): (r: string)
    requires i <= |t|
    ensures |r| <= |t| - i
    decreases |t| - i
  {
    if i == |t| then []
    else (if TrailingCommaAt(t, i) then [] else [t[i]]) + WithoutTrailingCommas(t, i + 1)
  }

  /** `cleanupJsonText`: trim, then `replace(/,(\s*[}\]])/g, '$1')`. */
  function CleanupJsonText(jsonText: string): string {
    ReplaceAll(Trim(jsonText), TrailingComma)
  }

  lemma {:induction false} CopiedSpan(t: string, a: nat, b: nat)
    requires a <= b <= |t|
    requires forall k :: a <= k < b ==> t[k] != ','
    ensures WithoutTrailingCommas(t, a) == t[a..b] + WithoutTrailingCommas(t, b)
    decreases b - a
  {
    if a < b {
      assert !TrailingCommaAt(t, a);
      assert WithoutTrailingCommas(t, a) == [t[a]] + WithoutTrailingCommas(t, a + 1);
      CopiedSpan(t, a + 1, b);
      assert t[a..b] == [t[a]] + t[a + 1..b];
    }
  }

  lemma TrailingCommaMatch(t: string, i: nat)
    requires i < |t|
    ensures MatchAt(TrailingComma, t, i).Some? <==> TrailingCommaAt(t, i)
    ensures var w := RunLength(t, i + 1, Spaces);
            TrailingCommaAt(t, i) ==> MatchAt(TrailingComma, t, i).value == Hit(w + 2, t[i + 1..i + 2 + w])
  {
  }

  /** The scan at a trailing comma emits the whitespace and the bracket and goes on after them. */
  lemma CleanupStepAtComma(t: string, i: nat, w: nat)
    requires i < |t| && TrailingCommaAt(t, i) && w == RunLength(t, i + 1, Spaces)
    ensures ReplaceFrom(t, TrailingComma, i) == t[i + 1..i + 2 + w] + ReplaceFrom(t, TrailingComma, i + 2 + w)
  {
    TrailingCommaMatch(t, i);
    ReplaceStep(t, TrailingComma, i);
  }

  /** The scan elsewhere copies the character. */
  lemma CleanupStep(t: string, i: nat)
    requires i < |t| && !TrailingCommaAt(t, i)
    ensures ReplaceFrom(t, TrailingComma, i) == [t[i]] + ReplaceFrom(t, TrailingComma, i + 1)
  {
    TrailingCommaMatch(t, i);
    ReplaceStep(t, TrailingComma, i);
  }

  /** What a trailing-comma match keeps, its whitespace and its bracket, holds no comma. */
  lemma KeptSpanHasNoComma(t: string, i: nat)
    requires i < |t| && TrailingCommaAt(t, i)
    ensures var w := RunLength(t, i + 1, Spaces);
            i + 2 + w <= |t| && forall k :: i + 1 <= k < i + 2 + w ==> t[k] != ','
  {
    var w := RunLength(t, i + 1, Spaces);
    forall k | i + 1 <= k < i + 2 + w ensures t[k] != ',' {
      if k < i + 1 + w {
        assert InSet(t[k], Spaces);
      }
    }
  }

  /** A trailing comma at `i`: the scan and the filter agree from `i` once they agree after the match. */
  lemma CleanupAtComma(t: string, i: nat, w: nat)
    requires i < |t| && TrailingCommaAt(t, i) && w == RunLength(t, i + 1, Spaces)
    requires ReplaceFrom(t, TrailingComma, i + 2 + w) == WithoutTrailingCommas(t, i + 2 + w)
    ensures ReplaceFrom(t, TrailingComma, i) == WithoutTrailingCommas(t, i)
  {
    CleanupStepAtComma(t, i, w);
    CommaDropped(t, i);
    KeptSpanHasNoComma(t, i);
    CopiedSpan(t, i + 1, i + 2 + w);
  }

  /** The filter drops a trailing comma. */
  lemma CommaDropped(t: string, i: nat)
    requires i < |t| && TrailingCommaAt(t, i)
    ensures WithoutTrailingCommas(t, i) == WithoutTrailingCommas(t, i + 1)
  {
    assert WithoutTrailingCommas(t, i) == [] + WithoutTrailingCommas(t, i + 1);
  }

  /** Any other character at `i`: the scan and the filter both copy it. */
  lemma CleanupAtOther(t: string, i: nat)
    requires i < |t| && !TrailingCommaAt(t, i)
    requires ReplaceFrom(t, TrailingComma, i + 1) == WithoutTrailingCommas(t, i + 1)
    ensures ReplaceFrom(t, TrailingComma, i) == WithoutTrailingCommas(t, i)
  {
    CleanupStep(t, i);
    assert WithoutTrailingCommas(t, i) == [t[i]] + WithoutTrailingCommas(t, i + 1);
  }

  lemma {:induction false} CleanupFrom(t: string, i: nat)
    requires i <= |t|
    ensures ReplaceFrom(t, TrailingComma, i) == WithoutTrailingCommas(t, i)
    decreases |t| - i
  {
    if i < |t| {
      if TrailingCommaAt(t, i) {
        var w := RunLength(t, i + 1, Spaces);
        CleanupFrom(t, i + 2 + w);
        CleanupAtComma(t, i, w);
      } else {
        CleanupFrom(t, i + 1);
        CleanupAtOther(t, i);
      }
    }
  }

  /**
   * The cleanup deletes exactly the commas followed by optional whitespace and
   * a closing bracket; every other character of the trimmed text stays, in
   * order, so the result is never longer than the trimmed text.
   */
  lemma CleanupDeletesTrailingCommas(jsonText: string)
    ensures CleanupJsonText(jsonText) == WithoutTrailingCommas(Trim(jsonText), 0)
    ensures |CleanupJsonText(jsonText)| <= |Trim(jsonText)| <= |jsonText|
  {
    CleanupFrom(Trim(jsonText), 0);
  }

  /** Text that neither starts nor ends with whitespace is left as it is by the trim. */
  lemma TrimLeavesUnpadded(s: string)
    requires s != [] && !IsJsSpace(s[0]) && !IsJsSpace(s[|s| - 1])
    ensures Trim(s) == s
  {
    assert LeadingSpaces(s) == 0;
    assert TrailingSpaces(s[0..]) == 0;
    assert s[0..] == s;
  }

  lemma TwoCommasCleaned()
    ensures CleanupJsonText(",,}") == ",}"
  {
    TrimLeavesUnpadded(",,}");
    CleanupDeletesTrailingCommas(",,}");
    TwoCommasStripped();
  }

  lemma TwoCommasStripped()
    ensures WithoutTrailingCommas(",,}", 0) == ",}"
  {
    var t := ",,}";
    assert RunLength(t, 1, Spaces) == 0;
    assert RunLength(t, 2, Spaces) == 0;
    assert !TrailingCommaAt(t, 0) && TrailingCommaAt(t, 1) && !TrailingCommaAt(t, 2);
    assert WithoutTrailingCommas(t, 3) == [];
    assert WithoutTrailingCommas(t, 2) == "}";
    assert WithoutTrailingCommas(t, 1) == "}";
  }

  lemma OneCommaCleaned()
    ensures CleanupJsonText(",}") == "}"
  {
    TrimLeavesUnpadded(",}");
    CleanupDeletesTrailingCommas(",}");
    OneCommaStripped();
  }

  lemma OneCommaStripped()
    ensures WithoutTrailingCommas(",}", 0) == "}"
  {
    var t := ",}";
    assert RunLength(t, 1, Spaces) == 0;
    assert TrailingCommaAt(t, 0) && !TrailingCommaAt(t, 1);
    assert WithoutTrailingCommas(t, 2) == [];
    assert WithoutTrailingCommas(t, 1) == "}";
  }

  /** The cleanup is not idempotent: of two commas before a brace, one pass removes only the second. */
  lemma CleanupNotIdempotent()
    ensures CleanupJsonText(",,}") == ",}"
    ensures CleanupJsonText(CleanupJsonText(",,}")) == "}"
  {
    TwoCommasCleaned();
    OneCommaCleaned();
  }

  // ---------------------------------------------------------------------
  // Validation of the parsed result.
  // ---------------------------------------------------------------------

  /** A value `JSON.parse` can produce. */
  datatype Json =
    | JNull
    | JBool(b: bool)
    | JNum(n: real)
    | JStr(s: string)
    | JArr(items: seq<Json>)
    | JObj(fields: map<string, Json>)

  /** JavaScript truthiness of a parsed value. */
  predicate Truthy(j: Json) {
    match j
    case JNull => false
    case JBool(b) => b
    case JNum(n) => n != 0.0
    case JStr(s) => s != []
    case JArr(_) => true
    case JObj(_) => true
  }

  /** `result.key`: a field of an object; every other value has none of the fields looked up here. */
  function Field(j: Json, key: string): (f: Option<Json>)
    ensures f.Some? ==> j.JObj? && key in j.fields && f.value == j.fields[key]
    ensures f.None? ==> !j.JObj? || key !in j.fields
  {
    if j.JObj? && key in j.fields then Some(j.fields[key]) else None
  }

  /** `validTypes`: the seven modulation types and イケメン. */
  const ValidatorTypeLabels: seq<string> := ["優しい", "甘え", "元気", "落ち着き", "厳しい", "ささやき", "励まし", "イケメン"]

  /** `validIntensities`. */
  const ValidatorIntensityLabels: seq<string> := ["low", "medium", "high"]

  /** `list.includes(value)` for a list of strings: only a string equal to an entry is found. */
  predicate Includes(list: seq<string>, v: Option<Json>) {
    v.Some? && v.value.JStr? && v.value.s in list
  }

  datatype ValidationError =
    | MissingType
    | InvalidType(value: Json)
    | MissingIntensity
    | InvalidIntensity(value: Json)
    | InvalidReason
    | InvalidSsml

  /** The message of the error; the value in the two `Invalid ...:` messages is left out. */
  function ErrorMessage(e: ValidationError): string {
    match e
    case MissingType => "Missing voice type in analysis result"
    case InvalidType(_) => "Invalid voice type: "
    case MissingIntensity => "Missing intensity in analysis result"
    case InvalidIntensity(_) => "Invalid intensity: "
    case InvalidReason => "Missing or invalid reason"
    case InvalidSsml => "Invalid SSML format"
  }

  datatype Validation = Accepted(result: Json) | Rejected(error: ValidationError)

  /** Every check passes. */
  predicate WellFormedResult(j: Json) {
    && Truthy(j)
    && Includes(ValidatorTypeLabels, Field(j, "type"))
    && Includes(ValidatorIntensityLabels, Field(j, "intensity"))
    && Field(j, "reason").Some? && Field(j, "reason").value.JStr?
    && (Field(j, "ssml").None? || !Truthy(Field(j, "ssml").value) || Field(j, "ssml").value.JStr?)
  }

  /**
   * `validateAnalysisResult`, which throws on the first check that fails and
   * otherwise lets the value through unchanged.
   */
  function ValidateAnalysisResult(j: Json): (r: Validation)
    ensures r.Accepted? <==> WellFormedResult(j)
    ensures r.Accepted? ==> r.result == j
    ensures r == Rejected(MissingType) <==> !Truthy(j) || Field(j, "type").None?
    ensures r.Rejected? && r.error.InvalidType? <==>
              Truthy(j) && Field(j, "type").Some? && !Includes(ValidatorTypeLabels, Field(j, "type"))
    ensures r == Rejected(MissingIntensity) <==>
              Includes(ValidatorTypeLabels, Field(j, "type")) && Field(j, "intensity").None?
    ensures r.Rejected? && r.error.InvalidIntensity? <==>
              && Includes(ValidatorTypeLabels, Field(j, "type"))
              && Field(j, "intensity").Some? && !Includes(ValidatorIntensityLabels, Field(j, "intensity"))
    ensures r == Rejected(InvalidReason) <==>
              && Includes(ValidatorTypeLabels, Field(j, "type"))
              && Includes(ValidatorIntensityLabels, Field(j, "intensity"))
              && (Field(j, "reason").None? || !Field(j, "reason").value.JStr?)
    ensures r == Rejected(InvalidSsml) <==>
              && Includes(ValidatorTypeLabels, Field(j, "type"))
              && Includes(ValidatorIntensityLabels, Field(j, "intensity"))
              && Field(j, "reason").Some? && Field(j, "reason").value.JStr?
              && Field(j, "ssml").Some? && Truthy(Field(j, "ssml").value) && !Field(j, "ssml").value.JStr?
  {
    if !Truthy(j) || Field(j, "type").None? then Rejected(MissingType)
    else if !Includes(ValidatorTypeLabels, Field(j, "type")) then Rejected(InvalidType(Field(j, "type").value))
    else if Field(j, "intensity").None? then Rejected(MissingIntensity)
    else if !Includes(ValidatorIntensityLabels, Field(j, "intensity")) then
      Rejected(InvalidIntensity(Field(j, "intensity").value))
    else if Field(j, "reason").None? || !Field(j, "reason").value.JStr? then Rejected(InvalidReason)
    else if Field(j, "ssml").Some? && Truthy(Field(j, "ssml").value) && !Field(j, "ssml").value.JStr? then
      Rejected(InvalidSsml)
    else Accepted(j)
  }

  /** The typed record the program casts a validated value to. */
  datatype AnalysisRecord = AnalysisRecord(typeLabel: string, intensity: Intensity, reason: string, ssml: Option<string>)

  function RecordToJson(a: AnalysisRecord): (j: Json)
    ensures j.JObj?
  {
    var base := map["type" := JStr(a.typeLabel), "intensity" := JStr(IntensityLabel(a.intensity)), "reason" := JStr(a.reason)];
    match a.ssml
    case None => JObj(base)
    case Some(x) => JObj(base["ssml" := JStr(x)])
  }

  /** The record a value denotes, read back from its fields. */
  function ReadRecord(j: Json): (a: Option<AnalysisRecord>)
    ensures a.Some? ==> && Field(j, "type") == Some(JStr(a.value.typeLabel))
                        && Field(j, "intensity") == Some(JStr(IntensityLabel(a.value.intensity)))
                        && Field(j, "reason") == Some(JStr(a.value.reason))
  {
    var t := Field(j, "type");
    var i := Field(j, "intensity");
    var r := Field(j, "reason");
    var x := Field(j, "ssml");
    if t.Some? && t.value.JStr? && i.Some? && i.value.JStr? && r.Some? && r.value.JStr?
       && ParseIntensity(i.value.s).Some? then
      var ssml := if x.Some? && x.value.JStr? then Some(x.value.s) else None;
      Some(AnalysisRecord(t.value.s, ParseIntensity(i.value.s).value, r.value.s, ssml))
    else None
  }

  /** Every record with one of the eight type labels passes validation unchanged and reads back as itself. */
  lemma RecordsValidate(a: AnalysisRecord)
    requires a.typeLabel in ValidatorTypeLabels
    ensures ValidateAnalysisResult(RecordToJson(a)) == Accepted(RecordToJson(a))
    ensures ReadRecord(RecordToJson(a)) == Some(a)
  {
    IntensityLabelRoundTrip(a.intensity);
    var j := RecordToJson(a);
    assert Field(j, "type") == Some(JStr(a.typeLabel));
    assert Field(j, "intensity") == Some(JStr(IntensityLabel(a.intensity)));
    assert Field(j, "reason") == Some(JStr(a.reason));
  }

  /** Every accepted value denotes a record whose type label is one of the eight. */
  lemma AcceptedValuesAreRecords(j: Json)
    requires ValidateAnalysisResult(j).Accepted?
    ensures ReadRecord(j).Some? && ReadRecord(j).value.typeLabel in ValidatorTypeLabels
  {
    var i := Field(j, "intensity").value.s;
    assert i in ValidatorIntensityLabels;
    assert ParseIntensity(i).Some?;
  }

  /** The validator accepts every label of the parameter table, and イケメン, which the table lacks. */
  lemma ValidatorLabelsCoverTable(t: ModulationType)
    ensures TypeLabel(t) in ValidatorTypeLabels
    ensures "イケメン" in ValidatorTypeLabels && ParseType("イケメン") == None
  {
  }

  /** A well-formed result from the model, as in the first test, is accepted unchanged. */
  lemma GentleResultAccepted()
    ensures var j := JObj(map["type" := JStr("優しい"), "intensity" := JStr("medium"), "reason" := JStr("挨拶")]);
            ValidateAnalysisResult(j) == Accepted(j)
  {
    RecordsValidate(AnalysisRecord("優しい", Medium, "挨拶", None));
  }

  /** An unknown type is reported as an invalid voice type, before anything else is looked at. */
  lemma UnknownTypeRejected()
    ensures var j := JObj(map["type" := JStr("無効なタイプ"), "intensity" := JStr("medium"), "reason" := JStr("テスト")]);
            && ValidateAnalysisResult(j) == Rejected(InvalidType(JStr("無効なタイプ")))
            && ErrorMessage(ValidateAnalysisResult(j).error)[..18] == "Invalid voice type"
  {
    var j := JObj(map["type" := JStr("無効なタイプ"), "intensity" := JStr("medium"), "reason" := JStr("テスト")]);
    assert Field(j, "type") == Some(JStr("無効なタイプ"));
    assert "無効なタイプ" !in ValidatorTypeLabels;
  }

  // ---------------------------------------------------------------------
  // The steps together.
  // ---------------------------------------------------------------------

  datatype Outcome = Analyzed(result: Json) | Failed(message: string)

  const ParseErrorPrefix: string := "JSON解析エラー: "

  /**
   * The part of `analyzeEmotion` after the model has answered: extract, clean
   * up, parse and validate. `parse` stands for `JSON.parse`, returning `None`
   * where it throws; the parser's own message is left out of the error.
   */
  function AnalyzeResponse(response: string, parse: string -> Option<Json>): (o: Outcome)
    ensures o.Analyzed? ==> && ExtractJson(response).Extracted?
                            && parse(CleanupJsonText(ExtractJson(response).jsonText)) == Some(o.result)
                            && WellFormedResult(o.result)
    ensures ExtractJson(response) == ExtractionFailed <==> o == Failed(ExtractionError)
    ensures ExtractJson(response).Extracted? && parse(CleanupJsonText(ExtractJson(response).jsonText)).None? ==>
              o == Failed(ParseErrorPrefix)
    ensures ExtractJson(response).Extracted? && parse(CleanupJsonText(ExtractJson(response).jsonText)).Some? ==>
              var j := parse(CleanupJsonText(ExtractJson(response).jsonText)).value;
              && (WellFormedResult(j) ==> o == Analyzed(j))
              && (ValidateAnalysisResult(j).Rejected? ==> o == Failed(ErrorMessage(ValidateAnalysisResult(j).error)))
  {
    match ExtractJson(response)
    case ExtractionFailed => Failed(ExtractionError)
    case Extracted(jsonText) =>
      match parse(CleanupJsonText(jsonText))
      case None =>
        ParseMessageDiffers();
        Failed(ParseErrorPrefix)
      case Some(j) =>
        match ValidateAnalysisResult(j)
        case Accepted(r) => Analyzed(r)
        case Rejected(e) =>
          FailureMessagesDistinct(e);
          Failed(ErrorMessage(e))
  }

  lemma ParseMessageDiffers()
    ensures ExtractionError != ParseErrorPrefix
  {
    assert ExtractionError[0] == 'F' && ParseErrorPrefix[0] == 'J';
  }

  /** The messages of the three stages are all different, so a failure tells which stage failed. */
  lemma FailureMessagesDistinct(e: ValidationError)
    ensures ErrorMessage(e) != ExtractionError && ErrorMessage(e) != ParseErrorPrefix
    ensures ExtractionError != ParseErrorPrefix
  {
    ParseMessageDiffers();
    assert ExtractionError[0] == 'F';
    match e
    case MissingType => assert ErrorMessage(e)[1] != ExtractionError[1];
    case InvalidType(_) => assert ErrorMessage(e)[0] == 'I';
    case MissingIntensity => assert ErrorMessage(e)[1] != ExtractionError[1];
    case InvalidIntensity(_) => assert ErrorMessage(e)[0] == 'I';
    case InvalidReason => assert ErrorMessage(e)[1] != ExtractionError[1];
    case InvalidSsml => assert ErrorMessage(e)[0] == 'I';
  }
}
