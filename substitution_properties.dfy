/**
 * What the difficult-term substitution guarantees: every occurrence of every
 * key is replaced, including inside longer words, and because every
 * replacement is kana while every key is made of ASCII letters and kanji, no
 * key is left in the text afterwards and no earlier key is recreated.
 */
module SubstitutionProperties {
  import opened CharClasses
  import opened GlobalReplace
  import opened JapaneseText

  /** Kana and the long-vowel mark: U+3041 to U+30FF. */
  predicate IsKanaBlock(c: char) {
    'ぁ' <= c <= 'ヿ'
  }

  /** The characters keys are made of: ASCII letters and CJK unified ideographs. */
  predicate IsTermChar(c: char) {
    'A' <= c <= 'Z' || 'a' <= c <= 'z' || '一' <= c <= '鿿'
  }

  predicate WellFormedEntry(e: (string, string)) {
    && e.0 != [] && e.1 != []
    && (forall k :: 0 <= k < |e.0| ==> IsTermChar(e.0[k]))
    && (forall k :: 0 <= k < |e.1| ==> IsKanaBlock(e.1[k]))
  }

  predicate WellFormedTable(entries: seq<(string, string)>) {
    forall i :: 0 <= i < |entries| ==> WellFormedEntry(entries[i])
  }

  /** The same shape checked character by character, which unfolds on literal strings. */
  predicate AllTermChars(s: string) {
    s == [] || (IsTermChar(s[0]) && AllTermChars(s[1..]))
  }

  predicate AllKanaBlock(s: string) {
    s == [] || (IsKanaBlock(s[0]) && AllKanaBlock(s[1..]))
  }

  predicate CheckedEntry(e: (string, string)) {
    e.0 != [] && e.1 != [] && AllTermChars(e.0) && AllKanaBlock(e.1)
  }

  lemma {:induction false} AllTermCharsAt(s: string, k: nat)
    requires AllTermChars(s) && k < |s|
    ensures IsTermChar(s[k])
  {
    if k > 0 {
      AllTermCharsAt(s[1..], k - 1);
    }
  }

  lemma {:induction false} AllKanaBlockAt(s: string, k: nat)
    requires AllKanaBlock(s) && k < |s|
    ensures IsKanaBlock(s[k])
  {
    if k > 0 {
      AllKanaBlockAt(s[1..], k - 1);
    }
  }

  lemma CheckedEntryWellFormed(e: (string, string))
    requires CheckedEntry(e)
    ensures WellFormedEntry(e)
  {
    forall k | 0 <= k < |e.0| ensures IsTermChar(e.0[k]) {
      AllTermCharsAt(e.0, k);
    }
    forall k | 0 <= k < |e.1| ensures IsKanaBlock(e.1[k]) {
      AllKanaBlockAt(e.1, k);
    }
  }

  lemma PersonalNamesChecked()
    ensures forall i :: 0 <= i < 9 ==> CheckedEntry(DifficultKanjiMap[i])
  {
  }

  lemma FlowersChecked()
    ensures forall i :: 9 <= i < 16 ==> CheckedEntry(DifficultKanjiMap[i])
  {
  }

  lemma BusinessTermsChecked()
    ensures forall i :: 16 <= i < 24 ==> CheckedEntry(DifficultKanjiMap[i])
  {
  }

  lemma AcronymsChecked()
    ensures forall i :: 24 <= i < 28 ==> CheckedEntry(DifficultKanjiMap[i])
  {
  }

  lemma LastAcronymsChecked()
    ensures forall i :: 28 <= i < 31 ==> CheckedEntry(DifficultKanjiMap[i])
  {
  }

  /** Every key of the table is non-empty ASCII letters or kanji, every replacement non-empty kana. */
  lemma DifficultKanjiMapWellFormed()
    ensures WellFormedTable(DifficultKanjiMap)
  {
    PersonalNamesChecked();
    FlowersChecked();
    BusinessTermsChecked();
    AcronymsChecked();
    LastAcronymsChecked();
    forall i | 0 <= i < |DifficultKanjiMap| ensures WellFormedEntry(DifficultKanjiMap[i]) {
      CheckedEntryWellFormed(DifficultKanjiMap[i]);
    }
  }

  predicate NoOccurrence(t: string, s: string) {
    forall p :: 0 <= p <= |s| ==> !StartsWithAt(s, p, t)
  }

  /** No character of `a` occurs in `b`. */
  predicate Disjoint(a: string, b: string) {
    forall i, j :: 0 <= i < |a| && 0 <= j < |b| ==> a[i] != b[j]
  }

  lemma EntriesDisjoint(e: (string, string), f: (string, string))
    requires WellFormedEntry(e) && WellFormedEntry(f)
    ensures Disjoint(e.1, f.0) && Disjoint(f.0, e.1)
  {
  }

  lemma StartsWithShift(a: string, b: string, p: nat, t: string)
    requires |a| <= p
    ensures StartsWithAt(a + b, p, t) <==> StartsWithAt(b, p - |a|, t)
  {
    if p + |t| <= |a + b| {
      assert (a + b)[p..p + |t|] == b[p - |a|..p - |a| + |t|];
    }
  }

  lemma StartsWithStep(s: string, j: nat, t: string)
    requires j < |s| && t != []
    ensures StartsWithAt(s, j, t) <==> s[j] == t[0] && StartsWithAt(s, j + 1, t[1..])
  {
    if j + |t| <= |s| {
      assert s[j..j + |t|] == [s[j]] + s[j + 1..j + 1 + |t[1..]|];
    }
  }

  /**
   * A prefix of the output that shares no character with the first character
   * of the replacement was copied unchanged from the input.
   */
  lemma {:induction false} PrefixFromInput(s: string, key: string, value: string, j: nat, t: string)
    requires j <= |s| && value != []
    requires forall k :: 0 <= k < |t| ==> t[k] != value[0]
    ensures StartsWithAt(ReplaceFrom(s, Literal(key, value), j), 0, t) ==> StartsWithAt(s, j, t)
    decreases |t|
  {
    if t != [] && j < |s| {
      var rule := Literal(key, value);
      var out := ReplaceFrom(s, rule, j);
      if MatchAt(rule, s, j).None? {
        var rest := ReplaceFrom(s, rule, j + 1);
        assert out == [s[j]] + rest;
        PrefixFromInput(s, key, value, j + 1, t[1..]);
        StartsWithStep(out, 0, t);
        StartsWithShift([s[j]], rest, 1, t[1..]);
        StartsWithStep(s, j, t);
      } else {
        assert out[0] == value[0];
      }
    }
  }

  /** After the replace of `key`, no occurrence of `key` is left. */
  lemma {:induction false} KeyGone(s: string, key: string, value: string, j: nat)
    requires j <= |s| && key != [] && value != []
    requires Disjoint(value, key) && Disjoint(key, value)
    ensures NoOccurrence(key, ReplaceFrom(s, Literal(key, value), j))
    decreases |s| - j
  {
    if j < |s| {
      var rule := Literal(key, value);
      var out := ReplaceFrom(s, rule, j);
      match MatchAt(rule, s, j)
      case Some(h) =>
        var rest := ReplaceFrom(s, rule, j + h.len);
        assert out == value + rest;
        KeyGone(s, key, value, j + h.len);
        forall p | 0 <= p <= |out| ensures !StartsWithAt(out, p, key) {
          if p < |value| {
            assert p + |key| <= |out| ==> out[p] == value[p];
          } else {
            StartsWithShift(value, rest, p, key);
          }
        }
      case None =>
        var rest := ReplaceFrom(s, rule, j + 1);
        assert out == [s[j]] + rest;
        KeyGone(s, key, value, j + 1);
        forall p | 0 <= p <= |out| ensures !StartsWithAt(out, p, key) {
          if p == 0 {
            PrefixFromInput(s, key, value, j + 1, key[1..]);
            StartsWithStep(out, 0, key);
            StartsWithShift([s[j]], rest, 1, key[1..]);
            StartsWithStep(s, j, key);
          } else {
            StartsWithShift([s[j]], rest, p, key);
          }
        }
    }
  }

  /** The replace of `key` creates no occurrence of a text `t` that shares no character with the replacement. */
  lemma {:induction false} NothingCreated(s: string, key: string, value: string, j: nat, t: string)
    requires j <= |s| && t != [] && value != []
    requires Disjoint(value, t) && Disjoint(t, value)
    requires forall q :: j <= q <= |s| ==> !StartsWithAt(s, q, t)
    ensures NoOccurrence(t, ReplaceFrom(s, Literal(key, value), j))
    decreases |s| - j
  {
    if j < |s| {
      var rule := Literal(key, value);
      var out := ReplaceFrom(s, rule, j);
      match MatchAt(rule, s, j)
      case Some(h) =>
        var rest := ReplaceFrom(s, rule, j + h.len);
        assert out == value + rest;
        NothingCreated(s, key, value, j + h.len, t);
        forall p | 0 <= p <= |out| ensures !StartsWithAt(out, p, t) {
          if p < |value| {
            assert p + |t| <= |out| ==> out[p] == value[p];
          } else {
            StartsWithShift(value, rest, p, t);
          }
        }
      case None =>
        var rest := ReplaceFrom(s, rule, j + 1);
        assert out == [s[j]] + rest;
        NothingCreated(s, key, value, j + 1, t);
        forall p | 0 <= p <= |out| ensures !StartsWithAt(out, p, t) {
          if p == 0 {
            PrefixFromInput(s, key, value, j + 1, t[1..]);
            StartsWithStep(out, 0, t);
            StartsWithShift([s[j]], rest, 1, t[1..]);
            StartsWithStep(s, j, t);
          } else {
            StartsWithShift([s[j]], rest, p, t);
          }
        }
    }
  }

  /** After the substitution of a well-formed table, no key of the table occurs in the text. */
  lemma {:induction false} SubstitutionRemovesKeys(s: string, entries: seq<(string, string)>)
    requires WellFormedTable(entries)
    ensures forall i :: 0 <= i < |entries| ==> NoOccurrence(entries[i].0, SubstituteEntries(s, entries))
    decreases |entries|
  {
    if entries != [] {
      var n := |entries| - 1;
      var init := entries[..n];
      var last := entries[n];
      var mid := SubstituteEntries(s, init);
      assert WellFormedTable(init);
      SubstitutionRemovesKeys(s, init);
      assert SubstituteEntries(s, entries) == ReplaceAll(mid, Literal(last.0, last.1));
      forall i | 0 <= i < |entries| ensures NoOccurrence(entries[i].0, SubstituteEntries(s, entries)) {
        EntriesDisjoint(last, entries[i]);
        if i == n {
          KeyGone(mid, last.0, last.1, 0);
        } else {
          assert entries[i] == init[i];
          NothingCreated(mid, last.0, last.1, 0, entries[i].0);
        }
      }
    }
  }

  /** The program's own table: after the substitution pass none of its keys is left. */
  lemma NoDifficultTermRemains(s: string)
    ensures forall i :: 0 <= i < |DifficultKanjiMap| ==>
              NoOccurrence(DifficultKanjiMap[i].0, SubstituteEntries(s, DifficultKanjiMap))
  {
    DifficultKanjiMapWellFormed();
    SubstitutionRemovesKeys(s, DifficultKanjiMap);
  }

  /** Matching is literal and ignores word boundaries: `AI` inside `EMAIL` is replaced. */
  lemma InsideWordExample()
    ensures ReplaceAll("EMAIL", Literal("AI", "エーアイ")) == "EMエーアイL"
  {
    var s := "EMAIL";
    var rule := Literal("AI", "エーアイ");
    assert ReplaceFrom(s, rule, 5) == [];
    assert !StartsWithAt(s, 4, "AI");
    assert ReplaceFrom(s, rule, 4) == "L";
    assert StartsWithAt(s, 2, "AI");
    assert ReplaceFrom(s, rule, 2) == "エーアイL";
    assert s[1] == 'M' && !StartsWithAt(s, 1, "AI");
    assert ReplaceFrom(s, rule, 1) == "Mエーアイ" + "L";
    assert s[0] == 'E' && !StartsWithAt(s, 0, "AI");
  }

  /** Every occurrence is replaced, not only the first. */
  lemma EveryOccurrenceExample()
    ensures ReplaceAll("桜と桜", Literal("桜", "さくら")) == "さくらとさくら"
  {
    var s := "桜と桜";
    var rule := Literal("桜", "さくら");
    assert ReplaceFrom(s, rule, 3) == [];
    assert StartsWithAt(s, 2, "桜");
    assert ReplaceFrom(s, rule, 2) == "さくら";
    assert s[1] == 'と' && s[1..2] != "桜";
    assert ReplaceFrom(s, rule, 1) == "とさくら";
    assert StartsWithAt(s, 0, "桜");
  }
}
