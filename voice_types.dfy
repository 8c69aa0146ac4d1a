/**
 * The voice vocabulary: the seven modulation types the parameter table knows,
 * the three intensities, the three emphasis levels, and the table of pitch,
 * rate and volume ranges per type.
 */
module VoiceTypes {
  import opened Options

  /** `VoiceModulationType`: exactly seven labels; イケメン is not one of them. */
  datatype ModulationType = Gentle | Sweet | Energetic | Calm | Strict | Whisper | Encouraging

  /** `VoiceIntensity`. */
  datatype Intensity = Low | Medium | High

  /** The `emphasis` field of `VoiceModulation`. */
  datatype Emphasis = NoEmphasis | Moderate | Strong

  const AllTypes: seq<ModulationType> := [Gentle, Sweet, Energetic, Calm, Strict, Whisper, Encouraging]

  function TypeLabel(t: ModulationType): string {
    match t
    case Gentle => "優しい"
    case Sweet => "甘え"
    case Energetic => "元気"
    case Calm => "落ち着き"
    case Strict => "厳しい"
    case Whisper => "ささやき"
    case Encouraging => "励まし"
  }

  /** The type a label names, if it names one of the seven. */
  function ParseType(name: string): (t: Option<ModulationType>)
    ensures t.Some? ==> TypeLabel(t.value) == name
  {
    if name == "優しい" then Some(Gentle)
    else if name == "甘え" then Some(Sweet)
    else if name == "元気" then Some(Energetic)
    else if name == "落ち着き" then Some(Calm)
    else if name == "厳しい" then Some(Strict)
    else if name == "ささやき" then Some(Whisper)
    else if name == "励まし" then Some(Encouraging)
    else None
  }

  /** Every type is found again from its label, so the seven labels are distinct. */
  lemma TypeLabelRoundTrip(t: ModulationType)
    ensures ParseType(TypeLabel(t)) == Some(t)
  {
  }

  /** AllTypes lists every type once. */
  lemma AllTypesComplete(t: ModulationType)
    ensures t in AllTypes
    ensures |AllTypes| == 7
  {
  }

  /** The label イケメン names no modulation type, so the table cannot be looked up with it. */
  lemma IkemenIsNoModulationType()
    ensures ParseType("イケメン") == None
  {
  }

  function IntensityLabel(i: Intensity): string {
    match i
    case Low => "low"
    case Medium => "medium"
    case High => "high"
  }

  function ParseIntensity(name: string): (i: Option<Intensity>)
    ensures i.Some? ==> IntensityLabel(i.value) == name
  {
    if name == "low" then Some(Low)
    else if name == "medium" then Some(Medium)
    else if name == "high" then Some(High)
    else None
  }

  lemma IntensityLabelRoundTrip(i: Intensity)
    ensures ParseIntensity(IntensityLabel(i)) == Some(i)
  {
  }

  function EmphasisLabel(e: Emphasis): (l: string)
    ensures l == "none" || l == "moderate" || l == "strong"
  {
    match e
    case NoEmphasis => "none"
    case Moderate => "moderate"
    case Strong => "strong"
  }

  lemma EmphasisLabelsDistinct(e: Emphasis, f: Emphasis)
    ensures EmphasisLabel(e) == EmphasisLabel(f) ==> e == f
  {
  }

  /** A closed range `[min, max]` of whole numbers. */
  datatype Range = Range(min: int, max: int)

  /** `VoiceModulationParams`. */
  datatype ModulationParams = ModulationParams(pitchRange: Range, rateRange: Range, volumeRange: Range)

  /**
   * `VOICE_MODULATION_PARAMS`: a range per type, every range ordered and every
   * rate range within 70 to 130 percent.
   */
  function Params(t: ModulationType): (p: ModulationParams)
    ensures p.pitchRange.min <= p.pitchRange.max
    ensures p.rateRange.min <= p.rateRange.max
    ensures p.volumeRange.min <= p.volumeRange.max
    ensures 70 <= p.rateRange.min && p.rateRange.max <= 130
  {
    match t
    case Gentle => ModulationParams(Range(-5, 0), Range(85, 95), Range(-1, 0))
    case Sweet => ModulationParams(Range(5, 15), Range(90, 100), Range(0, 2))
    case Energetic => ModulationParams(Range(10, 20), Range(110, 130), Range(2, 4))
    case Calm => ModulationParams(Range(-10, -5), Range(80, 90), Range(-2, 0))
    case Strict => ModulationParams(Range(-5, 5), Range(100, 120), Range(2, 5))
    case Whisper => ModulationParams(Range(0, 5), Range(70, 85), Range(-6, -3))
    case Encouraging => ModulationParams(Range(5, 10), Range(100, 110), Range(1, 3))
  }

  /**
   * `VoiceModulation`: a type, an intensity, the three prosody values as the
   * strings SSML uses, and the emphasis level.
   */
  datatype VoiceModulation = VoiceModulation(
    voiceType: ModulationType,
    intensity: Intensity,
    pitch: string,
    rate: string,
    volume: string,
    emphasis: Emphasis)
}
