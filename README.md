# Emotion-voice core, modelled in Dafny

This project models the deterministic core of the emotion-voice application:
the text that goes to the speech engine and the parameters that shape it.

- **Japanese text preprocessor** (`preprocessJapaneseText`). It applies
  difficult-term substitution, numeral reading, punctuation optimisation and
  pause insertion, each behind its own flag. A whitespace collapse and a trim
  always run last.
- **Prosody calculator** (`calculateVoiceModulation`, `createVoiceModulation`).
  A modulation type and an intensity give pitch, rate and volume. Each is
  interpolated inside the type's range from `VOICE_MODULATION_PARAMS` and
  rendered as the SSML strings. The intensity also gives an emphasis level.
- **SSML presence check** (`validateSSML`).
- **Analysis helpers of the Gemini service**. These are the extraction of the
  JSON text from the model's answer, the trailing-comma cleanup, and the
  validation of the parsed result.

Files and modules:

| file | module | what it holds |
|---|---|---|
| `options.dfy` | `Options` | `Option` |
| `char_classes.dfy` | `CharClasses` | the regex character classes (`\d`, `\b`, `[あ-ん]`, `[ア-ン]`, `\s`) and JavaScript `trim` |
| `number_reading.dfy` | `NumberReading` | `convertNumberToJapanese` and its kana tables |
| `global_replace.dfy` | `GlobalReplace` | every `/g` regex replace of the core as one `Rule` datatype, a left-to-right non-overlapping scanner, and generic lemmas about it |
| `japanese_text.dfy` | `JapaneseText` | the term table, the stages and `preprocessJapaneseText` (a method with the loop over the table) |
| `number_properties.dfy`, `substitution_properties.dfy`, `punctuation_properties.dfy`, `preprocess_properties.dfy` | … | what the stages and the whole preprocessor guarantee |
| `voice_types.dfy` | `VoiceTypes` | the type, intensity and emphasis labels and the parameter table |
| `voice_modulation.dfy` | `Modulation` | interpolation, decimal rendering with a parser proved to invert it, and the calculator |
| `ssml.dfy` | `Ssml` | `validateSSML` |
| `analysis.dfy` | `Analysis` | JSON extraction, `cleanupJsonText`, `validateAnalysisResult` |

Modelling choices:

- Strings are `seq<char>`. Each regex replace runs as the JavaScript engine runs
  it: it tries a match at each position from left to right. At a match it emits
  the replacement and resumes after the match; otherwise it copies one
  character. The backtracking of every pattern is worked out in the matcher of
  its rule.
- Prosody values are whole numbers of hundredths, so -3.75 is -375. All
  endpoints are integers and all factors are quarters, so this is exact. The
  renderer writes what JavaScript's number-to-string gives for such values.
- The validator works on a JSON value datatype, which is what `JSON.parse`
  produces. `JSON.parse` itself is a parameter of `Analysis.AnalyzeResponse`.
- The validator's eight type labels include イケメン. They are kept apart from
  the seven labels of the parameter table, and the calculator is defined only
  on those seven.

Where one might expect otherwise, the model follows the code:

- The stages run in the order substitution → numbers → punctuation → pauses
  (src/utils/japaneseTextProcessor.ts:213-233), not numbers first.
- The year rule takes exactly four digits (`\d{4}`), not any digit run.
- Pitch and volume get a `+` only when strictly positive, so zero prints as `0`.
- The general numeral rule's `<= 10000` test can never fail, because at most
  four digits are captured. The model keeps the test, and
  `NumberProperties.BareNumeralHit` shows that a match is always read.
- There is no SSML escape-and-wrap helper and no per-type voice-settings table
  in the code, so neither is modelled.
- `validateSSML` takes a string; a null argument is outside its type.

## Model

| member | source | states |
|---|---|---|
| `NumberReading.Reading` | src/utils/japaneseTextProcessor.ts:145-163 | the place-value reading: 0 gives ゼロ, every value from 1 to 9999 gives a non-empty all-hiragana word, so it holds no digit |
| `NumberReading.ReadingByPlaces` | src/utils/japaneseTextProcessor.ts:107-163 | independent reference: for 1..9999 the reading is thousands[d3] + hundreds[d2] + tens[d1] + ones[d0] of the four decimal digits |
| `NumberReading.IrregularReadings` | src/utils/japaneseTextProcessor.ts:120-143 | 300, 600, 800 read さんびゃく, ろっぴゃく, はっぴゃく; 3000 and 8000 read さんぜん and はっせん; 2024 reads にせんにじゅうよん |
| `NumberReading.ConvertNumberToJapanese` | src/utils/japaneseTextProcessor.ts:104-166 | a digit string whose value is below 10000 gives a non-empty digit-free reading; a value of 10000 or more gives the input back unchanged |
| `NumberReading.ShortNumeralIsRead` | src/utils/japaneseTextProcessor.ts:89-96 | a run of at most four digits is always below 10000 and is always read, never passed through |
| `NumberProperties.DigitFreeTextUnchanged` | src/utils/japaneseTextProcessor.ts:60-99 | the numeral pass changes nothing in a text without ASCII digits |
| `NumberProperties.BareNumeralHit` | src/utils/japaneseTextProcessor.ts:90-96 | a match of the general rule is a whole run of 1 to 4 digits with a word boundary on both sides, and it is replaced by its digit-free reading |
| `NumberProperties.LongRunNotRead` | src/utils/japaneseTextProcessor.ts:90 | no position inside a run of five or more digits is matched by the general rule |
| `NumberProperties.DigitsAfterLetterNotRead` | src/utils/japaneseTextProcessor.ts:90 | digits right after an ASCII letter, digit or `_` are not matched by the general rule |
| `NumberProperties.BareNumeralRead` | src/utils/japaneseTextProcessor.ts:90-96 | every run of 1 to 4 digits with a non-word character or an end on both sides is replaced, in the pass output, by the reading of its value, followed by the pass output of the rest |
| `NumberProperties.NoShortNumeralLeft` | src/utils/japaneseTextProcessor.ts:90 | the output of the general rule has no position where the rule matches again |
| `NumberProperties.ConvertedHasNoShortNumeral` | src/utils/japaneseTextProcessor.ts:60-99 | the output of the whole numeral pass has no run of 1 to 4 digits between word boundaries |
| `NumberProperties.SuffixNumeralRead` | src/utils/japaneseTextProcessor.ts:67-82 | for each of the month, day, hour and minute rules, the last one or two digits before the suffix are replaced, in the pass output, by their reading and the suffix's kana |
| `NumberProperties.YearNumeralRead` | src/utils/japaneseTextProcessor.ts:62-64 | every 年 with four digits in front is reached by the year rule: in the output the four digits become their reading and the kanji 年 stays, followed by the output of the rest |
| `NumberProperties.PercentNumeralRead` | src/utils/japaneseTextProcessor.ts:85-87 | every whole digit run in front of a % is reached by the percent rule: in the output the run becomes its reading, or stays as digits from 10000 on, and % becomes パーセント |
| `NumberProperties.HourExample` | src/utils/japaneseTextProcessor.ts:76-78 | the hour rule turns `3時` into さんじ |
| `NumberProperties.PercentExample` | src/utils/japaneseTextProcessor.ts:85-87 | the percent rule turns `50%` into ごじゅうパーセント |
| `NumberProperties.YearExample` | src/utils/japaneseTextProcessor.ts:62-64 | the year rule turns `2024年` into にせんにじゅうよん年 and keeps the kanji |
| `NumberProperties.HourPassExample` | src/utils/japaneseTextProcessor.ts:60-99 | the whole numeral pass turns `3時` into さんじ |
| `NumberProperties.PercentPassExample` | src/utils/japaneseTextProcessor.ts:60-99 | the whole numeral pass turns `50%` into ごじゅうパーセント |
| `NumberProperties.YearPassExample` | src/utils/japaneseTextProcessor.ts:60-99 | the whole numeral pass turns `2024年` into にせんにじゅうよん年 |
| `SubstitutionProperties.DifficultKanjiMapWellFormed` | src/utils/japaneseTextProcessor.ts:16-55 | every key of the table is non-empty and made of ASCII letters or kanji; every replacement is non-empty kana |
| `SubstitutionProperties.KeyGone` | src/utils/japaneseTextProcessor.ts:216 | after a literal global replace whose replacement shares no character with the key, no occurrence of the key is left |
| `SubstitutionProperties.NothingCreated` | src/utils/japaneseTextProcessor.ts:216 | a literal replace creates no occurrence of a text that shares no character with its replacement |
| `SubstitutionProperties.SubstitutionRemovesKeys` | src/utils/japaneseTextProcessor.ts:214-218 | after the replaces of a well-formed table, one after another, no key of the table occurs in the text |
| `SubstitutionProperties.NoDifficultTermRemains` | src/utils/japaneseTextProcessor.ts:16-55 | after the substitution pass over the program's own table, none of its keys is left in any text |
| `SubstitutionProperties.InsideWordExample` | src/utils/japaneseTextProcessor.ts:216 | matching is literal and ignores word boundaries: `EMAIL` becomes `EMエーアイL` |
| `SubstitutionProperties.EveryOccurrenceExample` | src/utils/japaneseTextProcessor.ts:216 | every occurrence is replaced, not only the first: `桜と桜` becomes `さくらとさくら` |
| `PunctuationProperties.OptimizeKeepsText` | src/utils/japaneseTextProcessor.ts:171-185 | `optimizePunctuationText` changes only whitespace and the length of ー runs: with those removed, output and input are equal |
| `PunctuationProperties.SentenceEndGetsPause` | src/utils/japaneseTextProcessor.ts:173 | every 。, ！ or ？ followed by whitespace (or none) and a hiragana comes out as the mark, one pause and the hiragana, followed by the output of the rest |
| `PunctuationProperties.OptimizedHasNoDoubledChoon` | src/utils/japaneseTextProcessor.ts:182 | the output of `optimizePunctuationText` never has two ー side by side |
| `PunctuationProperties.CommasPaused` | src/utils/japaneseTextProcessor.ts:176 | after the comma rule, every 、 is followed by one pause and then by a non-whitespace character or the end |
| `PunctuationProperties.ExclamationsPaused` | src/utils/japaneseTextProcessor.ts:179 | after the exclamation rule, every ！ and ？ is followed by one pause and then by a non-whitespace character or the end |
| `PunctuationProperties.PausedMarksSurvive` | src/utils/japaneseTextProcessor.ts:179-182 | a later pass that never matches at a pause and writes none of the marks keeps already-paused marks paused |
| `PunctuationProperties.OptimizedMarksPaused` | src/utils/japaneseTextProcessor.ts:171-185 | in the output of `optimizePunctuationText`, every 、, ！ and ？ is followed by exactly one pause, then by a non-whitespace character or the end |
| `PunctuationProperties.LongKanaRunsPaused` | src/utils/japaneseTextProcessor.ts:192 | after the long-run rule, no 、 or 。 is directly followed by ten or more kana or ー, so the rule matches nowhere in its own output |
| `PunctuationProperties.LongRunGetsPause` | src/utils/japaneseTextProcessor.ts:192 | every 、 or 。 followed by ten or more kana or ー is followed, in the output, by a pause and then the whole run |
| `PunctuationProperties.PausesKeepText` | src/utils/japaneseTextProcessor.ts:190-198 | `addNaturalPausesToText` only inserts pauses: with pauses removed, output and input are equal |
| `PunctuationProperties.ConnectiveGetsPause` | src/utils/japaneseTextProcessor.ts:195 | a connective that no earlier connective occurrence overlaps gets a pause in front of it in the output |
| `PunctuationProperties.ConnectiveInsideWordExample` | src/utils/japaneseTextProcessor.ts:195 | connectives match anywhere, also inside a word: `またね` gets a pause before また |
| `JapaneseText.Flag` | src/utils/japaneseTextProcessor.ts:204-209 | an absent flag means true; a given flag is used as given |
| `JapaneseText.PreprocessJapaneseText` | src/utils/japaneseTextProcessor.ts:203-239 | the loop over the table and the flag-guarded stages compute `Preprocess`: substitution, numbers, punctuation, pauses, then collapse and trim |
| `PreprocessProperties.NormalizeSpacesNormalizes` | src/utils/japaneseTextProcessor.ts:236 | after `replace(/\s+/g, ' ').trim()`, the only whitespace is lone ASCII spaces and none is at either end |
| `PreprocessProperties.NormalizeKeepsText` | src/utils/japaneseTextProcessor.ts:236 | the collapse and trim change whitespace only |
| `PreprocessProperties.PreprocessNormalized` | src/utils/japaneseTextProcessor.ts:203-239 | whatever the options, the output is single-spaced and trimmed |
| `PreprocessProperties.NoPauseInOutput` | src/utils/japaneseTextProcessor.ts:236 | no full-width pause survives: each one becomes an ASCII space |
| `PreprocessProperties.AllFlagsOffKeepsText` | src/utils/japaneseTextProcessor.ts:203-239 | with every flag false, the output is the input collapsed and trimmed, and its visible text is the input's |
| `PreprocessProperties.DigitsKeptWithoutNumberPass` | src/utils/japaneseTextProcessor.ts:220-223 | with `processNumbers` false, the ASCII digits of the output, in order, are exactly those of the input |
| `CharClasses.Trim` | src/utils/japaneseTextProcessor.ts:236 | `trim` gives a slice of its input that has whitespace outside it on both sides and none at either of its own ends |
| `VoiceTypes.TypeLabelRoundTrip` | src/types/voice.ts:1-8 | each of the seven types is found again from its label, so the seven labels are distinct |
| `VoiceTypes.AllTypesComplete` | src/types/voice.ts:1-8 | the list of types holds all seven |
| `VoiceTypes.IkemenIsNoModulationType` | src/types/voice.ts:1-8 | イケメン is not a modulation type, so the table cannot be looked up with it |
| `VoiceTypes.IntensityLabelRoundTrip` | src/types/voice.ts:10 | the three intensities are found again from their labels low, medium, high |
| `VoiceTypes.EmphasisLabel` | src/types/voice.ts:18 | the emphasis is written as none, moderate or strong |
| `VoiceTypes.EmphasisLabelsDistinct` | src/types/voice.ts:18 | the three emphasis labels are distinct |
| `VoiceTypes.Params` | src/types/voice.ts:27-63 | the table is total over the seven types, every range has min ≤ max, and every rate range lies within [70, 130] |
| `Modulation.FactorPercent` | src/utils/voiceModulation.ts:5 | the factor lies strictly between 0 and 1 (0.25 low, 0.5 medium, 0.75 otherwise) |
| `Modulation.Interpolate` | src/utils/voiceModulation.ts:3-7 | min + (max − min) · factor lies in [min, max], strictly inside when min < max, and is a multiple of 0.25 |
| `Modulation.InterpolateMonotone` | src/utils/voiceModulation.ts:3-7 | for an ordered range the value does not decrease from low to medium to high |
| `Modulation.NatToString` | src/utils/voiceModulation.ts:20-22 | the whole-number digits read back as the number, with no leading zero |
| `Modulation.FormatDecimalRoundTrip` | src/utils/voiceModulation.ts:20-22 | the decimal text of a value reads back as that value |
| `Modulation.Signed` | src/utils/voiceModulation.ts:20-22 | the text starts with `+` exactly when the value is positive and with `-` exactly when it is negative |
| `Modulation.EmphasisFor` | src/utils/voiceModulation.ts:23 | high gives strong, medium gives moderate, low gives none, whatever the type |
| `Modulation.CalculateVoiceModulation` | src/utils/voiceModulation.ts:9-25 | pitch and volume carry `+` only when positive and `-` only when negative; rate has no sign; emphasis follows the intensity alone |
| `Modulation.CalculatedTextsRoundTrip` | src/utils/voiceModulation.ts:20-22 | pitch reads back, with unit `%`, as the interpolated pitch; rate with `%` as the rate; volume with `dB` as the volume |
| `Modulation.ValuesWithinRanges` | src/utils/voiceModulation.ts:11-18 | every value lies inside its range of the table, and every rate is strictly between 70% and 130% |
| `Modulation.CreateVoiceModulation` | src/utils/voiceModulation.ts:27-36 | the given type and intensity, unchanged, with exactly the calculated fields |
| `Modulation.ZeroPitchHasNoSign` | src/utils/voiceModulation.ts:20 | 厳しい at medium intensity has pitch `0%`, with no sign |
| `Modulation.GentleLowExample` | tests/utils/voiceModulation.test.ts:6-13 | 優しい/low gives -3.75%, 87.5%, -0.75dB, none |
| `Modulation.EnergeticHighExample` | tests/utils/voiceModulation.test.ts:15-22 | 元気/high gives +17.5%, 125%, +3.5dB, strong |
| `Modulation.WhisperMediumExample` | tests/utils/voiceModulation.test.ts:24-31 | ささやき/medium gives +2.5%, 77.5%, -4.5dB, moderate |
| `Modulation.EncouragingHighExample` | tests/utils/voiceModulation.test.ts:34-46 | 励まし/high gives the full record with +8.75%, 107.5%, +2.5dB, strong |
| `Ssml.ValidateSsmlIff` | src/services/ssml.ts:3 | the check holds exactly when some `<speak>` is followed by a `</speak>` that starts at or after its end |
| `Ssml.ValidateSsmlUnanchored` | src/services/ssml.ts:3 | if s passes, then so does p + s + q for any p and q |
| `Ssml.NoOpenTagNoSsml` | src/services/ssml.ts:3 | without a literal `<speak>` the check fails |
| `Ssml.WrappedBodyValid` | src/services/ssml.ts:3 | `<speak>` + any body + `</speak>` passes |
| `Ssml.SsmlExamples` | src/services/ssml.ts:3 | the empty string fails and `<speak></speak>` passes |
| `Ssml.ClosingBeforeOpeningExample` | src/services/ssml.ts:3 | the check is order-sensitive: `</speak><speak>` fails |
| `Ssml.MultiLineExample` | tests/services/ssml.test.ts:6-14 | a multi-line body passes |
| `Ssml.ProsodyOnlyExample` | tests/services/ssml.test.ts:22-25 | prosody markup without `<speak>` fails |
| `Ssml.OpeningTagWithAttributesExample` | src/services/ssml.ts:3 | an opening tag with attributes is no `<speak>`, so the check fails |
| `Analysis.FenceMatch` | src/services/gemini.ts:129 | a fence match is a ```` ```json ````, optional whitespace ending in a newline, a capture, and a closing newline plus ```` ``` ````; the capture holds no closing fence |
| `Analysis.FenceMatchIsFirstFence` | src/services/gemini.ts:129 | the search finds a match exactly when one exists, and then it is the leftmost one, with the longest whitespace that lets the rest match and the capture ending at the first closing fence |
| `Analysis.FirstFenceUnique` | src/services/gemini.ts:129 | at most one match is leftmost, longest-whitespace and lazy, so the regex result is determined |
| `Analysis.ExtractJson` | src/services/gemini.ts:128-136 | an extracted text is always a slice of the response |
| `Analysis.FencedExtraction` | src/services/gemini.ts:128-136 | with a fence match, the extracted text is its capture, or the whole match when the capture is empty |
| `Analysis.BraceExtraction` | src/services/gemini.ts:129-136 | when no fence match exists and extraction succeeds, the extracted text runs from the first `{` of the response to the first `}` after it |
| `Analysis.BracePairExtracted` | src/services/gemini.ts:129-136 | when no fence match exists, the first `{` and the first `}` after it, with what lies between, are what is extracted |
| `Analysis.ExtractionFailsIff` | src/services/gemini.ts:128-133 | extraction fails exactly when no position range of the response is a fence match and no `{` is followed somewhere by `}` |
| `Analysis.NoJsonExample` | tests/services/gemini.test.ts:59-73 | a response without braces or fences fails extraction |
| `Analysis.FencedObjectExample` | src/services/gemini.ts:129-136 | a fenced object yields the object's text without the fence |
| `Analysis.EmptyFenceExample` | src/services/gemini.ts:136 | an empty capture makes `match[1] \|\| match[0]` take the whole fenced match |
| `Analysis.BracedObjectExample` | src/services/gemini.ts:129-136 | prose around an object yields the text from the brace to the brace |
| `Analysis.CleanupDeletesTrailingCommas` | src/services/gemini.ts:169-174 | the cleanup trims, then deletes exactly the commas followed by optional whitespace and `}` or `]`; all else stays in order, so the result is never longer than the trimmed text |
| `Analysis.CleanupNotIdempotent` | src/services/gemini.ts:173 | `,,}` cleans to `,}`, and a second pass gives `}` |
| `Analysis.ValidateAnalysisResult` | src/services/gemini.ts:176-212 | accepts exactly the well-formed values and returns them unchanged; each of the six errors is returned exactly when every earlier check passes and its own fails, in the order missing type, unknown type, missing intensity, unknown intensity, non-string reason, truthy non-string ssml |
| `Analysis.RecordsValidate` | src/services/gemini.ts:176-212 | every record with one of the eight type labels, a known intensity and a string reason is accepted unchanged and reads back as itself |
| `Analysis.AcceptedValuesAreRecords` | src/services/gemini.ts:176-212 | every accepted value denotes a record whose type is one of the eight labels |
| `Analysis.ValidatorLabelsCoverTable` | src/services/gemini.ts:177-186 | the validator accepts all seven table labels and also イケメン, which the table lacks |
| `Analysis.GentleResultAccepted` | tests/services/gemini.test.ts:17-39 | a result with type 優しい, intensity medium and a reason is accepted unchanged |
| `Analysis.UnknownTypeRejected` | tests/services/gemini.test.ts:41-57 | an unknown type fails with "Invalid voice type" |
| `Analysis.AnalyzeResponse` | src/services/gemini.ts:128-147 | a success means extraction, cleanup, parsing and validation all passed; extraction failure gives exactly "Failed to extract JSON from response"; a parse failure gives the parse error; a parsed well-formed value is returned as the result, and a rejected one gives the validator's message |
| `Analysis.FailureMessagesDistinct` | src/services/gemini.ts:128-211 | the messages of extraction, parsing and validation failures differ from each other |

## Left out

- The React UI, audio playback, file download and the HTTP calls to the speech
  service: presentation and I/O.
- The Gemini client, the prompt, console logging, and `JSON.parse` itself.
  `JSON.parse` is a parameter of `Analysis.AnalyzeResponse`.
- Analysis.ValidateAnalysisResult: the messages of the two "Invalid …: "
  errors omit the offending value that the program appends to them.
- Analysis.AnalyzeResponse: the parser's own message is not appended after
  the "JSON解析エラー: " prefix.
- JSON numbers are kept as exact reals, not IEEE doubles.
- Modulation.CalculateVoiceModulation: values are exact hundredths, not
  floating point. This only matters when a value cannot be represented exactly,
  and every value here is a multiple of 0.25.
- NumberReading.ConvertNumberToJapanese: it is modelled on digit strings, the
  only input its callers pass. `parseInt` on other text (NaN for non-digits) is
  not modelled.
- `JAPANESE_TEST_PHRASES`: sample data with no behaviour.
- PunctuationProperties.PausesKeepText: it proves only that `addNaturalPausesToText`
  inserts nothing but pauses. Where the pauses go is proved separately:
  `LongRunGetsPause` puts one after each 、 or 。 before a long kana run, and
  `ConnectiveGetsPause` puts one BEFORE each connective that no earlier
  connective occurrence overlaps. A connective that starts inside an earlier
  match gets no pause of its own, as しかし in ただしかし, so there is no
  lemma for every connective.
