/**
 * The prosody calculator: a type and an intensity give pitch, rate and volume
 * by linear interpolation inside the type's ranges, rendered as the strings
 * SSML uses, plus an emphasis level.
 *
 * Every range endpoint is a whole number and every factor a quarter, so every
 * value is an exact multiple of 0.25. Values are kept as whole numbers of
 * hundredths (-3.75 is -375), which makes the arithmetic exact; the decimal
 * renderer writes what JavaScript writes for such a number: no exponent, no
 * trailing zeros after the point, no point for a whole number, and a minus
 * sign only below zero.
 */
module Modulation {
  import opened Options
  import opened CharClasses
  import opened NumberReading
  import opened VoiceTypes

  // ---------------------------------------------------------------------
  // Interpolation.
  // ---------------------------------------------------------------------

  /** The interpolation factor in percent: 0.25, 0.5 and 0.75. */
  function FactorPercent(i: Intensity): (f: int)
    ensures 0 < f < 100
  {
    match i
    case Low => 25
    case Medium => 50
    case High => 75
  }

  /** The intensities in increasing order. */
  function Rank(i: Intensity): nat {
    match i
    case Low => 0
    case Medium => 1
    case High => 2
  }

  /** `min + (max - min) * factor`, in hundredths, lies between the ends and is a multiple of 25. */
  lemma InterpolateBounds(lo: int, hi: int, i: Intensity)
    ensures var v := 100 * lo + (hi - lo) * FactorPercent(i);
            && (lo <= hi ==> 100 * lo <= v <= 100 * hi)
            && (lo < hi ==> 100 * lo < v < 100 * hi)
            && (lo == hi ==> v == 100 * lo)
            && v % 25 == 0
  {
    var v := 100 * lo + (hi - lo) * FactorPercent(i);
    var q := match i
      case Low => 3 * lo + hi
      case Medium => 2 * lo + 2 * hi
      case High => lo + 3 * hi;
    assert v == 25 * q;
    assert (25 * q) % 25 == 0;
  }

  /** `interpolateValue`: `min + (max - min) * factor`, in hundredths. */
  function Interpolate(r: Range, i: Intensity): (v: int)
    ensures r.min <= r.max ==> 100 * r.min <= v <= 100 * r.max
    ensures r.min < r.max ==> 100 * r.min < v < 100 * r.max
    ensures r.min == r.max ==> v == 100 * r.min
    ensures v % 25 == 0
  {
    InterpolateBounds(r.min, r.max, i);
    100 * r.min + (r.max - r.min) * FactorPercent(i)
  }

  /** For an ordered range, a stronger intensity never gives a smaller value. */
  lemma InterpolateMonotone(r: Range, i: Intensity, j: Intensity)
    requires r.min <= r.max && Rank(i) <= Rank(j)
    ensures Interpolate(r, i) <= Interpolate(r, j)
  {
    assert FactorPercent(i) <= FactorPercent(j);
    var d := r.max - r.min;
    assert d * FactorPercent(i) <= d * FactorPercent(j) by {
      assert d * (FactorPercent(j) - FactorPercent(i)) >= 0;
    }
  }

  // ---------------------------------------------------------------------
  // Decimal text of a number of hundredths, and its inverse.
  // ---------------------------------------------------------------------

  function DigitChar(d: nat): (c: char)
    requires d < 10
    ensures IsAsciiDigit(c) && c as int - '0' as int == d
  {
    ('0' as int + d) as char
  }

  lemma DecimalValueSnoc(p: string, c: char)
    requires AllDigits(p) && IsAsciiDigit(c)
    ensures AllDigits(p + [c])
    ensures DecimalValue(p + [c]) == DecimalValue(p) * 10 + (c as int - '0' as int)
  {
    assert (p + [c])[..|p|] == p;
  }

  /** The shortest decimal digits of `n`: no leading zero unless `n` is zero. */
  function NatToString(n: nat): (r: string)
    ensures r != [] && AllDigits(r) && DecimalValue(r) == n
    ensures r[0] == '0' ==> n == 0
    decreases n
  {
    if n < 10 then
      assert [DigitChar(n)][..0] == [];
      [DigitChar(n)]
    else
      var p := NatToString(n / 10);
      DecimalValueSnoc(p, DigitChar(n % 10));
      p + [DigitChar(n % 10)]
  }

  /** The digits after the point of a fraction of `f` hundredths, with trailing zeros dropped. */
  function FractionText(f: nat): (r: string)
    requires f < 100
    ensures f == 0 <==> r == []
    ensures r != [] ==> r[0] == '.' && 2 <= |r| <= 3 && AllDigits(r[1..])
    ensures r != [] ==> r[|r| - 1] != '0'
  {
    if f == 0 then []
    else if f % 10 == 0 then ['.', DigitChar(f / 10)]
    else ['.', DigitChar(f / 10), DigitChar(f % 10)]
  }

  /** `String(h / 100)` for a number of hundredths. */
  function FormatDecimal(h: int): (r: string)
    ensures r != [] && r[0] != '+'
    ensures r[0] == '-' <==> h < 0
  {
    var a := if h < 0 then -h else h;
    (if h < 0 then "-" else "") + NatToString(a / 100) + FractionText(a % 100)
  }

  /** The index of the first `c` in `s`, or `|s|`. */
  function IndexOfChar(s: string, c: char): (k: nat)
    ensures k <= |s|
    ensures forall j :: 0 <= j < k ==> s[j] != c
    ensures k < |s| ==> s[k] == c
  {
    if s == [] then 0 else if s[0] == c then 0 else 1 + IndexOfChar(s[1..], c)
  }

  /** Reads digits, optionally followed by a point and one or two digits, as hundredths. */
  function ParseUnsigned(s: string): (v: Option<nat>) {
    var p := IndexOfChar(s, '.');
    var whole := s[..p];
    if whole == [] || !AllDigits(whole) then None
    else if p == |s| then Some(100 * DecimalValue(whole))
    else
      var frac := s[p + 1..];
      if 1 <= |frac| <= 2 && AllDigits(frac) then
        Some(100 * DecimalValue(whole) + (if |frac| == 1 then 10 * DecimalValue(frac) else DecimalValue(frac)))
      else None
  }

  /** Reads an optional minus sign and an unsigned decimal, as hundredths. */
  function ParseDecimal(s: string): (v: Option<int>) {
    if s != [] && s[0] == '-' then
      match ParseUnsigned(s[1..])
      case Some(u) => Some(0 - u as int)
      case None => None
    else
      match ParseUnsigned(s)
      case Some(u) => Some(u)
      case None => None
  }

  lemma FractionValue(f: nat)
    requires 0 < f < 100
    ensures var r := FractionText(f)[1..];
            && 1 <= |r| <= 2 && AllDigits(r)
            && (if |r| == 1 then 10 * DecimalValue(r) else DecimalValue(r)) == f
  {
    var r := FractionText(f)[1..];
    if f % 10 == 0 {
      assert r == [DigitChar(f / 10)];
      assert r[..0] == [];
    } else {
      assert r == [DigitChar(f / 10)] + [DigitChar(f % 10)];
      assert [DigitChar(f / 10)][..0] == [];
      DecimalValueSnoc([DigitChar(f / 10)], DigitChar(f % 10));
    }
  }

  lemma ParseWholeText(whole: string)
    requires whole != [] && AllDigits(whole)
    ensures ParseUnsigned(whole) == Some(100 * DecimalValue(whole))
  {
    assert whole + [] == whole;
    IndexOfCharPrefix(whole, [], '.');
    assert whole[..|whole|] == whole;
  }

  lemma ParseFractionText(whole: string, f: nat)
    requires whole != [] && AllDigits(whole) && 0 < f < 100
    ensures ParseUnsigned(whole + FractionText(f)) == Some(100 * DecimalValue(whole) + f)
  {
    var frac := FractionText(f);
    var s := whole + frac;
    IndexOfCharPrefix(whole, frac, '.');
    assert s[..|whole|] == whole;
    assert s[|whole| + 1..] == frac[1..];
    FractionValue(f);
  }

  lemma ParseUnsignedFormat(a: nat)
    ensures ParseUnsigned(UnsignedText(a)) == Some(a)
  {
    var whole := NatToString(a / 100);
    assert 100 * DecimalValue(whole) + a % 100 == a;
    if a % 100 == 0 {
      assert whole + FractionText(a % 100) == whole;
      ParseWholeText(whole);
    } else {
      ParseFractionText(whole, a % 100);
    }
  }

  lemma {:induction false} IndexOfCharPrefix(p: string, q: string, c: char)
    requires forall j :: 0 <= j < |p| ==> p[j] != c
    requires q == [] || q[0] == c
    ensures IndexOfChar(p + q, c) == |p|
  {
    if p == [] {
      assert p + q == q;
    } else {
      assert (p + q)[1..] == p[1..] + q;
      IndexOfCharPrefix(p[1..], q, c);
    }
  }

  lemma ParseAfterMinus(u: string, a: nat)
    requires ParseUnsigned(u) == Some(a)
    ensures ParseDecimal("-" + u) == Some(0 - a)
  {
    assert ("-" + u)[0] == '-' && ("-" + u)[1..] == u;
  }

  lemma ParseWithoutMinus(u: string, a: nat)
    requires ParseUnsigned(u) == Some(a) && u != [] && u[0] != '-'
    ensures ParseDecimal(u) == Some(a)
  {
  }

  /** The decimal text reads back as the number it was written from. */
  lemma FormatDecimalRoundTrip(h: int)
    ensures ParseDecimal(FormatDecimal(h)) == Some(h)
  {
    if h < 0 {
      NegativeRoundTrip(h);
    } else {
      NonNegativeRoundTrip(h);
    }
  }

  lemma NegativeRoundTrip(h: int)
    requires h < 0
    ensures ParseDecimal(FormatDecimal(h)) == Some(h)
  {
    var a: nat := -h;
    calc {
      ParseDecimal(FormatDecimal(h));
    == { FormatNegative(h, a); }
      ParseDecimal("-" + UnsignedText(a));
    == { ParseUnsignedFormat(a); ParseAfterMinus(UnsignedText(a), a); }
      Some(0 - a);
    == { assert 0 - a == h; }
      Some(h);
    }
  }

  lemma NonNegativeRoundTrip(h: nat)
    ensures ParseDecimal(FormatDecimal(h)) == Some(h)
  {
    calc {
      ParseDecimal(FormatDecimal(h));
    == { FormatNonNegative(h); }
      ParseDecimal(UnsignedText(h));
    == { ParseUnsignedFormat(h); ParseWithoutMinus(UnsignedText(h), h); }
      Some(h as int);
    }
  }

  /** The digits and fraction of `a` hundredths, without a sign. */
  function UnsignedText(a: nat): (r: string)
    ensures r != [] && IsAsciiDigit(r[0])
  {
    var whole := NatToString(a / 100);
    assert (whole + FractionText(a % 100))[0] == whole[0];
    whole + FractionText(a % 100)
  }

  lemma FormatNegative(h: int, a: nat)
    requires h < 0 && a == -h
    ensures FormatDecimal(h) == "-" + UnsignedText(a)
  {
  }

  lemma FormatNonNegative(h: nat)
    ensures FormatDecimal(h) == UnsignedText(h)
  {
    assert "" + UnsignedText(h) == UnsignedText(h);
  }

  // ---------------------------------------------------------------------
  // Signed quantities with a unit.
  // ---------------------------------------------------------------------

  /** `${v > 0 ? '+' : ''}${v}`: a plus sign only above zero. */
  function Signed(h: int): (r: string)
    ensures r != []
    ensures r[0] == '+' <==> h > 0
    ensures r[0] == '-' <==> h < 0
  {
    if h > 0 then "+" + FormatDecimal(h) else FormatDecimal(h)
  }

  /** Reads an optional plus sign and a decimal. */
  function ParseSigned(s: string): (v: Option<int>) {
    if s != [] && s[0] == '+' then ParseDecimal(s[1..]) else ParseDecimal(s)
  }

  lemma SignedRoundTrip(h: int)
    ensures ParseSigned(Signed(h)) == Some(h)
  {
    FormatDecimalRoundTrip(h);
    if h > 0 {
      assert ("+" + FormatDecimal(h))[1..] == FormatDecimal(h);
    }
  }

  /** Reads a quantity written as a signed decimal followed by `unit`. */
  function ParseQuantity(s: string, unit: string): (v: Option<int>) {
    if |unit| <= |s| && s[|s| - |unit|..] == unit then ParseSigned(s[..|s| - |unit|]) else None
  }

  lemma QuantityRoundTrip(text: string, unit: string, h: int)
    requires ParseSigned(text) == Some(h)
    ensures ParseQuantity(text + unit, unit) == Some(h)
  {
    assert (text + unit)[|text|..] == unit;
    assert (text + unit)[..|text|] == text;
  }

  // ---------------------------------------------------------------------
  // The calculator.
  // ---------------------------------------------------------------------

  /** The emphasis level, which depends on the intensity alone. */
  function EmphasisFor(i: Intensity): (e: Emphasis)
    ensures i == High <==> e == Strong
    ensures i == Medium <==> e == Moderate
    ensures i == Low <==> e == NoEmphasis
  {
    match i
    case High => Strong
    case Medium => Moderate
    case Low => NoEmphasis
  }

  /** What `calculateVoiceModulation` returns: everything of `VoiceModulation` but type and intensity. */
  datatype ModulationFields = ModulationFields(pitch: string, rate: string, volume: string, emphasis: Emphasis)

  /** The three interpolated values of a type at an intensity, in hundredths. */
  function PitchValue(t: ModulationType, i: Intensity): int { Interpolate(Params(t).pitchRange, i) }
  function RateValue(t: ModulationType, i: Intensity): int { Interpolate(Params(t).rateRange, i) }
  function VolumeValue(t: ModulationType, i: Intensity): int { Interpolate(Params(t).volumeRange, i) }

  /** `calculateVoiceModulation`: the sign rules of the three texts and the emphasis of the intensity. */
  function CalculateVoiceModulation(t: ModulationType, i: Intensity): (m: ModulationFields)
    ensures m.pitch != [] && m.rate != [] && m.volume != []
    ensures m.pitch[0] == '+' <==> PitchValue(t, i) > 0
    ensures m.pitch[0] == '-' <==> PitchValue(t, i) < 0
    ensures m.volume[0] == '+' <==> VolumeValue(t, i) > 0
    ensures m.volume[0] == '-' <==> VolumeValue(t, i) < 0
    ensures m.rate[0] != '+' && m.rate[0] != '-'
    ensures m.emphasis == EmphasisFor(i)
  {
    ValuesWithinRanges(t, i);
    var pitch := Signed(PitchValue(t, i));
    var rate := FormatDecimal(RateValue(t, i));
    var volume := Signed(VolumeValue(t, i));
    assert (pitch + "%")[0] == pitch[0] && (rate + "%")[0] == rate[0] && (volume + "dB")[0] == volume[0];
    ModulationFields(pitch + "%", rate + "%", volume + "dB", EmphasisFor(i))
  }

  /** Each text of the calculator reads back, with its unit, as the interpolated value it was written from. */
  lemma CalculatedTextsRoundTrip(t: ModulationType, i: Intensity)
    ensures var m := CalculateVoiceModulation(t, i);
            && ParseQuantity(m.pitch, "%") == Some(PitchValue(t, i))
            && ParseQuantity(m.rate, "%") == Some(RateValue(t, i))
            && ParseQuantity(m.volume, "dB") == Some(VolumeValue(t, i))
  {
    var pitch := PitchValue(t, i);
    var rate := RateValue(t, i);
    var volume := VolumeValue(t, i);
    SignedRoundTrip(pitch);
    QuantityRoundTrip(Signed(pitch), "%", pitch);
    FormatDecimalRoundTrip(rate);
    assert ParseSigned(FormatDecimal(rate)) == Some(rate);
    QuantityRoundTrip(FormatDecimal(rate), "%", rate);
    SignedRoundTrip(volume);
    QuantityRoundTrip(Signed(volume), "dB", volume);
  }

  /** Each value lies inside its range of the table, strictly inside where the range is not a point. */
  lemma ValuesWithinRanges(t: ModulationType, i: Intensity)
    ensures var p := Params(t);
            && 100 * p.pitchRange.min <= PitchValue(t, i) <= 100 * p.pitchRange.max
            && 100 * p.volumeRange.min <= VolumeValue(t, i) <= 100 * p.volumeRange.max
            && 7000 < RateValue(t, i) < 13000
  {
  }

  /** `createVoiceModulation`: the given type and intensity with the calculated fields. */
  function CreateVoiceModulation(t: ModulationType, i: Intensity): (v: VoiceModulation)
    ensures v.voiceType == t && v.intensity == i
    ensures var m := CalculateVoiceModulation(t, i);
            v.pitch == m.pitch && v.rate == m.rate && v.volume == m.volume && v.emphasis == m.emphasis
  {
    var m := CalculateVoiceModulation(t, i);
    VoiceModulation(t, i, m.pitch, m.rate, m.volume, m.emphasis)
  }

  // ---------------------------------------------------------------------
  // Fixtures.
  // ---------------------------------------------------------------------

  /** A zero value carries no sign: 厳しい at medium intensity has pitch `0%`. */
  lemma ZeroPitchHasNoSign()
    ensures CalculateVoiceModulation(Strict, Medium).pitch == "0%"
  {
    StrictMediumPitch();
    ZeroWritten();
    PitchText(Strict, Medium);
  }

  lemma StrictMediumPitch()
    ensures PitchValue(Strict, Medium) == 0
  {
  }

  /** The pitch text is the signed pitch value followed by `%`. */
  lemma PitchText(t: ModulationType, i: Intensity)
    ensures CalculateVoiceModulation(t, i).pitch == Signed(PitchValue(t, i)) + "%"
  {
  }

  /** Zero is written `0`, with no fraction and no sign. */
  lemma ZeroWritten()
    ensures Signed(0) == "0"
  {
    assert NatToString(0) == "0";
    assert FractionText(0) == "";
    assert FormatDecimal(0) == "0";
  }

  lemma GentleLowExample()
    ensures CalculateVoiceModulation(Gentle, Low) == ModulationFields("-3.75%", "87.5%", "-0.75dB", NoEmphasis)
  {
    assert PitchValue(Gentle, Low) == -375;
    assert NatToString(3) == "3";
    assert FractionText(75) == ".75";
    assert FormatDecimal(-375) == "-3.75";
    assert RateValue(Gentle, Low) == 8750;
    assert NatToString(8) == "8";
    assert NatToString(87) == "87";
    assert FractionText(50) == ".5";
    assert FormatDecimal(8750) == "87.5";
    assert VolumeValue(Gentle, Low) == -75;
    assert NatToString(0) == "0";
    assert FormatDecimal(-75) == "-0.75";
  }

  lemma EnergeticHighTexts()
    ensures FormatDecimal(1750) == "17.5" && FormatDecimal(12500) == "125" && FormatDecimal(350) == "3.5"
  {
    assert NatToString(1) == "1";
    assert NatToString(17) == "17";
    assert FractionText(50) == ".5";
    assert NatToString(12) == "12";
    assert NatToString(125) == "125";
    assert FractionText(0) == "";
    assert NatToString(3) == "3";
  }

  lemma EnergeticHighExample()
    ensures CalculateVoiceModulation(Energetic, High) == ModulationFields("+17.5%", "125%", "+3.5dB", Strong)
  {
    assert PitchValue(Energetic, High) == 1750;
    assert RateValue(Energetic, High) == 12500;
    assert VolumeValue(Energetic, High) == 350;
    EnergeticHighTexts();
    assert Signed(1750) == "+17.5";
    assert Signed(350) == "+3.5";
    var m := CalculateVoiceModulation(Energetic, High);
    assert m.pitch == "+17.5%";
    assert m.rate == "125%";
    assert m.volume == "+3.5dB";
  }

  lemma WhisperMediumTexts()
    ensures FormatDecimal(250) == "2.5" && FormatDecimal(7750) == "77.5" && FormatDecimal(-450) == "-4.5"
  {
    assert NatToString(2) == "2";
    assert FractionText(50) == ".5";
    assert NatToString(7) == "7";
    assert NatToString(77) == "77";
    assert NatToString(4) == "4";
  }

  lemma WhisperMediumExample()
    ensures CalculateVoiceModulation(Whisper, Medium) == ModulationFields("+2.5%", "77.5%", "-4.5dB", Moderate)
  {
    assert PitchValue(Whisper, Medium) == 250;
    assert RateValue(Whisper, Medium) == 7750;
    assert VolumeValue(Whisper, Medium) == -450;
    WhisperMediumTexts();
  }

  lemma EncouragingHighTexts()
    ensures FormatDecimal(875) == "8.75" && FormatDecimal(10750) == "107.5" && FormatDecimal(250) == "2.5"
  {
    assert NatToString(8) == "8";
    assert FractionText(75) == ".75";
    assert NatToString(1) == "1";
    assert NatToString(10) == "10";
    assert NatToString(107) == "107";
    assert FractionText(50) == ".5";
    assert NatToString(2) == "2";
  }

  lemma EncouragingHighExample()
    ensures CreateVoiceModulation(Encouraging, High)
         == VoiceModulation(Encouraging, High, "+8.75%", "107.5%", "+2.5dB", Strong)
  {
    assert PitchValue(Encouraging, High) == 875;
    assert RateValue(Encouraging, High) == 10750;
    assert VolumeValue(Encouraging, High) == 250;
    EncouragingHighTexts();
    assert Signed(875) == "+8.75";
    assert Signed(250) == "+2.5";
    var m := CalculateVoiceModulation(Encouraging, High);
    assert m.pitch == "+8.75%";
    assert m.rate == "107.5%";
    assert m.volume == "+2.5dB";
  }
}
