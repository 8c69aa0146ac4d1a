/**
 * The numeral reader of the Japanese text preprocessor: the place-value
 * reading of an integer below 10000 with fixed kana tables, and the wrapper
 * that takes a digit string the way `parseInt` reads it.
 */
module NumberReading {
  import opened CharClasses

  const Ones: seq<string> := ["", "いち", "に", "さん", "よん", "ご", "ろく", "なな", "はち", "きゅう"]
  const Tens: seq<string> := ["", "じゅう", "にじゅう", "さんじゅう", "よんじゅう", "ごじゅう",
                              "ろくじゅう", "ななじゅう", "はちじゅう", "きゅうじゅう"]
  /** Irregular sound changes at 3, 6 and 8: さんびゃく, ろっぴゃく, はっぴゃく. */
  const Hundreds: seq<string> := ["", "ひゃく", "にひゃく", "さんびゃく", "よんひゃく", "ごひゃく",
                                  "ろっぴゃく", "ななひゃく", "はっぴゃく", "きゅうひゃく"]
  /** Irregular sound changes at 3 and 8: さんぜん, はっせん. */
  const Thousands: seq<string> := ["", "せん", "にせん", "さんぜん", "よんせん", "ごせん",
                                   "ろくせん", "ななせん", "はっせん", "きゅうせん"]

  const Zero: string := "ゼロ"

  predicate AllHiragana(s: string) {
    forall k :: 0 <= k < |s| ==> IsHiragana(s[k])
  }

  predicate AllDigits(s: string) {
    forall k :: 0 <= k < |s| ==> IsAsciiDigit(s[k])
  }

  predicate NoAsciiDigit(s: string) {
    forall k :: 0 <= k < |s| ==> !IsAsciiDigit(s[k])
  }

  /** Every entry of the four place tables is hiragana, and only index 0 is empty. */
  lemma TablesAreHiragana(d: nat)
    requires d < 10
    ensures AllHiragana(Ones[d]) && AllHiragana(Tens[d])
    ensures AllHiragana(Hundreds[d]) && AllHiragana(Thousands[d])
    ensures d > 0 ==> Ones[d] != [] && Tens[d] != [] && Hundreds[d] != [] && Thousands[d] != []
  {
  }

  lemma HiraganaConcat(a: string, b: string)
    requires AllHiragana(a) && AllHiragana(b)
    ensures AllHiragana(a + b)
  {
    assert forall k :: 0 <= k < |a + b| ==> (a + b)[k] == if k < |a| then a[k] else b[k - |a|];
  }

  /**
   * The recursive place-value reading of `convertNumberToJapanese`: zero is
   * the katakana token ゼロ on its own; every other value reads as a
   * non-empty hiragana word, so ゼロ never appears inside a longer reading and
   * no reading contains a digit.
   */
  function Reading(n: nat): (r: string)
    requires n < 10000
    ensures n == 0 ==> r == Zero
    ensures n > 0 ==> r != [] && AllHiragana(r)
  {
    if n == 0 then Zero
    else if n < 10 then
      TablesAreHiragana(n);
      Ones[n]
    else if n < 100 then
      TablesAreHiragana(n / 10);
      TablesAreHiragana(n % 10);
      HiraganaConcat(Tens[n / 10], Ones[n % 10]);
      Tens[n / 10] + Ones[n % 10]
    else if n < 1000 then
      var rest := if n % 100 > 0 then Reading(n % 100) else "";
      TablesAreHiragana(n / 100);
      HiraganaConcat(Hundreds[n / 100], rest);
      Hundreds[n / 100] + rest
    else
      var rest := if n % 1000 > 0 then Reading(n % 1000) else "";
      TablesAreHiragana(n / 1000);
      HiraganaConcat(Thousands[n / 1000], rest);
      Thousands[n / 1000] + rest
  }

  /**
   * An independent reference for the recursion: for 1..9999 the reading is
   * the thousands word, the hundreds word, the tens word and the ones word of
   * the four decimal digits, where a zero digit contributes nothing.
   */
  lemma ReadingByPlaces(d3: nat, d2: nat, d1: nat, d0: nat)
    requires d3 < 10 && d2 < 10 && d1 < 10 && d0 < 10
    requires 1000 * d3 + 100 * d2 + 10 * d1 + d0 > 0
    ensures Reading(1000 * d3 + 100 * d2 + 10 * d1 + d0)
         == Thousands[d3] + (Hundreds[d2] + (Tens[d1] + Ones[d0]))
  {
    var r := 100 * d2 + 10 * d1 + d0;
    assert 1000 * d3 + 100 * d2 + 10 * d1 + d0 == 1000 * d3 + r;
    if d3 > 0 {
      ThousandsStep(d3, r);
      if r > 0 {
        HundredsAndBelow(d2, d1, d0);
      } else {
        assert d2 == 0 && d1 == 0 && d0 == 0;
        assert Hundreds[d2] + (Tens[d1] + Ones[d0]) == "";
      }
    } else {
      assert 1000 * d3 + r == r && Thousands[d3] == "";
      HundredsAndBelow(d2, d1, d0);
    }
  }

  lemma HundredsAndBelow(d2: nat, d1: nat, d0: nat)
    requires d2 < 10 && d1 < 10 && d0 < 10
    requires 100 * d2 + 10 * d1 + d0 > 0
    ensures Reading(100 * d2 + 10 * d1 + d0) == Hundreds[d2] + (Tens[d1] + Ones[d0])
  {
    var r := 10 * d1 + d0;
    assert 100 * d2 + 10 * d1 + d0 == 100 * d2 + r;
    if d2 > 0 {
      HundredsStep(d2, r);
      if r > 0 {
        TensAndOnes(d1, d0);
      } else {
        assert d1 == 0 && d0 == 0;
        assert Tens[d1] + Ones[d0] == "";
      }
    } else {
      assert 100 * d2 + r == r && Hundreds[d2] == "";
      TensAndOnes(d1, d0);
    }
  }

  lemma TensAndOnes(d1: nat, d0: nat)
    requires d1 < 10 && d0 < 10 && 10 * d1 + d0 > 0
    ensures Reading(10 * d1 + d0) == Tens[d1] + Ones[d0]
  {
    if d1 > 0 {
      TensStep(d1, d0);
    }
  }

  lemma ThousandsStep(d: nat, r: nat)
    requires 1 <= d < 10 && r < 1000
    ensures Reading(1000 * d + r) == Thousands[d] + (if r > 0 then Reading(r) else "")
  {
    var n := 1000 * d + r;
    SplitAt(1000, d, r);
    assert 1000 <= n < 10000;
    assert n / 1000 == d && n % 1000 == r;
  }

  lemma HundredsStep(d: nat, r: nat)
    requires 1 <= d < 10 && r < 100
    ensures Reading(100 * d + r) == Hundreds[d] + (if r > 0 then Reading(r) else "")
  {
    var n := 100 * d + r;
    SplitAt(100, d, r);
    assert 100 <= n < 1000;
    assert n / 100 == d && n % 100 == r;
  }

  lemma SplitAt(unit: nat, d: nat, r: nat)
    requires unit == 10 || unit == 100 || unit == 1000
    requires r < unit
    ensures (unit * d + r) / unit == d && (unit * d + r) % unit == r
  {
    if unit == 10 {
      assert 10 * d + r == r + d * 10;
    } else if unit == 100 {
      assert 100 * d + r == r + d * 100;
    } else {
      assert 1000 * d + r == r + d * 1000;
    }
  }

  lemma TensStep(d: nat, r: nat)
    requires 1 <= d < 10 && r < 10
    ensures Reading(10 * d + r) == Tens[d] + Ones[r]
  {
    var n := 10 * d + r;
    SplitAt(10, d, r);
    assert 10 <= n < 100;
    assert n / 10 == d && n % 10 == r;
  }

  /** The irregular hundreds and thousands, and the year 2024. */
  lemma IrregularReadings()
    ensures Reading(300) == "さんびゃく" && Reading(600) == "ろっぴゃく" && Reading(800) == "はっぴゃく"
    ensures Reading(3000) == "さんぜん" && Reading(8000) == "はっせん"
    ensures Reading(2024) == "にせんにじゅうよん"
  {
  }

  /** `parseInt` of a string of ASCII digits (leading zeros allowed). */
  function DecimalValue(s: string): (v: nat)
    requires AllDigits(s)
    ensures v < Pow10(|s|)
    ensures |s| <= 1 ==> v < 10
    ensures |s| <= 2 ==> v < 100
    ensures |s| <= 3 ==> v < 1000
    ensures |s| <= 4 ==> v < 10000
  {
    if s == [] then 0
    else DecimalValue(s[..|s| - 1]) * 10 + (s[|s| - 1] as int - '0' as int)
  }

  function Pow10(k: nat): (p: nat)
    ensures p >= 1
  {
    if k == 0 then 1 else 10 * Pow10(k - 1)
  }

  /**
   * `convertNumberToJapanese(numStr)` for the digit strings its callers
   * capture: values below 10000 are read, larger ones come back unchanged.
   */
  function ConvertNumberToJapanese(numStr: string): (r: string)
    requires AllDigits(numStr)
    ensures DecimalValue(numStr) < 10000 ==> r != [] && NoAsciiDigit(r)
    ensures DecimalValue(numStr) >= 10000 ==> r == numStr
  {
    var n := DecimalValue(numStr);
    if n < 10000 then
      assert n == 0 ==> Reading(n) == "ゼロ";
      Reading(n)
    else numStr
  }

  /** A digit string of at most four digits is always read, never passed through. */
  lemma ShortNumeralIsRead(numStr: string)
    requires AllDigits(numStr) && |numStr| <= 4
    ensures DecimalValue(numStr) < 10000
    ensures ConvertNumberToJapanese(numStr) == Reading(DecimalValue(numStr))
  {
    assert Pow10(|numStr|) <= 10000 by {
      if |numStr| == 4 {} else if |numStr| == 3 {} else if |numStr| == 2 {} else if |numStr| == 1 {}
    }
  }
}
