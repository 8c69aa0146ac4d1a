/**
 * The Japanese text preprocessor: difficult-term substitution, numeral
 * rewriting, punctuation optimisation and pause insertion, each behind its own
 * flag, followed by the whitespace collapse and trim that always run.
 */
module JapaneseText {
  import opened Options
  import opened CharClasses
  import opened GlobalReplace

  /** The options object; an absent flag means `true`. */
  datatype JapaneseTextOptions = JapaneseTextOptions(
    convertDifficultKanji: Option<bool>,
    optimizePunctuation: Option<bool>,
    processNumbers: Option<bool>,
    addPauses: Option<bool>)

  /** The `{}` the function is called with when no options are given. */
  const NoOptions: JapaneseTextOptions := JapaneseTextOptions(None, None, None, None)

  /** A destructured flag with its default of `true`. */
  function Flag(o: Option<bool>): (b: bool)
    ensures o.None? ==> b
    ensures o.Some? ==> b == o.value
  {
    match o
    case None => true
    case Some(v) => v
  }

  /** `DIFFICULT_KANJI_MAP` in the order `Object.entries` yields it (insertion order). */
  const DifficultKanjiMap: seq<(string, string)> := [
    ("雄", "ゆう"), ("雅", "まさ"), ("智", "とも"), ("哲", "てつ"), ("慶", "けい"),
    ("恵", "え"), ("惠", "え"), ("瞳", "ひとみ"), ("翔", "しょう"),
    ("薔薇", "ばら"), ("紫陽花", "あじさい"), ("向日葵", "ひまわり"), ("百合", "ゆり"),
    ("椿", "つばき"), ("桜", "さくら"), ("梅", "うめ"),
    ("企画", "きかく"), ("戦略", "せんりゃく"), ("効率", "こうりつ"), ("品質", "ひんしつ"),
    ("技術", "ぎじゅつ"), ("開発", "かいはつ"), ("設計", "せっけい"), ("実装", "じっそう"),
    ("API", "エーピーアイ"), ("UI", "ユーアイ"), ("UX", "ユーエックス"), ("AI", "エーアイ"),
    ("ML", "エムエル"), ("IoT", "アイオーティー"), ("DX", "ディーエックス")
  ]

  /** The text after the literal replaces of `entries`, one after the other. */
  function SubstituteEntries(s: string, entries: seq<(string, string)>): string
    decreases |entries|
  {
    if entries == [] then s
    else
      var last := entries[|entries| - 1];
      ReplaceAll(SubstituteEntries(s, entries[..|entries| - 1]), Literal(last.0, last.1))
  }

  /** `convertNumbersToJapanese`: the six suffix rules in order, then the general rule. */
  function ConvertNumbersToJapanese(s: string): string {
    var years := ReplaceAll(s, YearNumeral);
    var months := ReplaceAll(years, ShortNumeral('月', "がつ"));
    var days := ReplaceAll(months, ShortNumeral('日', "にち"));
    var hours := ReplaceAll(days, ShortNumeral('時', "じ"));
    var minutes := ReplaceAll(hours, ShortNumeral('分', "ふん"));
    var percents := ReplaceAll(minutes, PercentNumeral);
    ReplaceAll(percents, BareNumeral)
  }

  /** `optimizePunctuationText`. */
  function OptimizePunctuationText(s: string): string {
    var sentences := ReplaceAll(s, SentenceEndBeforeKana);
    var commas := ReplaceAll(sentences, CommaPause);
    var exclamations := ReplaceAll(commas, ExclamationPause);
    ReplaceAll(exclamations, ChoonRun)
  }

  /** `addNaturalPausesToText`. */
  function AddNaturalPausesToText(s: string): string {
    ReplaceAll(ReplaceAll(s, LongKanaRun), Connective)
  }

  /** `.replace(/\s+/g, ' ').trim()`. */
  function NormalizeSpaces(s: string): string {
    Trim(ReplaceAll(s, SpaceRun))
  }

  /** What `preprocessJapaneseText` returns, stage by stage. */
  function Preprocess(text: string, options: JapaneseTextOptions): string {
    var kanji := if Flag(options.convertDifficultKanji) then SubstituteEntries(text, DifficultKanjiMap) else text;
    var numbers := if Flag(options.processNumbers) then ConvertNumbersToJapanese(kanji) else kanji;
    var punctuation := if Flag(options.optimizePunctuation) then OptimizePunctuationText(numbers) else numbers;
    var pauses := if Flag(options.addPauses) then AddNaturalPausesToText(punctuation) else punctuation;
    NormalizeSpaces(pauses)
  }

  /**
   * `preprocessJapaneseText`: the substitution loop walks the table and
   * reassigns the text entry by entry; the other stages reassign it when
   * their flag is set.
   */
  method PreprocessJapaneseText(text: string, options: JapaneseTextOptions) returns (processed: string)
    ensures processed == Preprocess(text, options)
  {
    processed := text;
    if Flag(options.convertDifficultKanji) {
      var i := 0;
      while i < |DifficultKanjiMap|
        invariant 0 <= i <= |DifficultKanjiMap|
        invariant processed == SubstituteEntries(text, DifficultKanjiMap[..i])
      {
        var (kanji, hiragana) := DifficultKanjiMap[i];
        assert DifficultKanjiMap[..i + 1][..i] == DifficultKanjiMap[..i];
        processed := ReplaceAll(processed, Literal(kanji, hiragana));
        i := i + 1;
      }
      assert DifficultKanjiMap[..i] == DifficultKanjiMap;
    }
    if Flag(options.processNumbers) {
      processed := ConvertNumbersToJapanese(processed);
    }
    if Flag(options.optimizePunctuation) {
      processed := OptimizePunctuationText(processed);
    }
    if Flag(options.addPauses) {
      processed := AddNaturalPausesToText(processed);
    }
    processed := NormalizeSpaces(processed);
  }
}
