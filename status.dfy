/** The clinical labels on the heart-rate and saturation cards, and the
    global status pill that summarises them. */
module Status {
  import opened Wrappers
  import opened Readings

  /** The label under a vital-sign card. */
  datatype CardLabel = Unavailable | OutOfThreshold | Observation | Within

  /** The global status pill: alert, under observation, in range, waiting for data. */
  datatype Pill = Err | Warn | Ok | Idle

  /** How alarming a label is: out of threshold 2, observation 1, anything else 0. */
  function Severity(l: CardLabel): nat
  {
    match l
    case OutOfThreshold => 2
    case Observation => 1
    case _ => 0
  }

  /** The number a card classifies: none when the value is `null`, missing,
      the empty string or not a number (`isNaN`). */
  function ClinicalValue(v: JsValue): (x: Option<real>)
    ensures x.Some? ==> v.Value? && v.text != "" && v.number == x
    ensures v.Value? && v.text != "" && v.number.Some? ==> x.Some?
  {
    match v
    case Value(text, n) => if text == "" then None else n
    case _ => None
  }

  /** The heart-rate bands: below 60 or above 120 bpm is out of threshold,
      60 to 64 and 111 to 120 are observation, 65 to 110 (both included) is
      within threshold. */
  function HeartRateBand(x: real): (l: CardLabel)
    ensures l != Unavailable
    ensures l == OutOfThreshold <==> x < 60.0 || x > 120.0
    ensures l == Observation <==> (60.0 <= x < 65.0) || (110.0 < x <= 120.0)
    ensures l == Within <==> 65.0 <= x <= 110.0
  {
    if x < 60.0 || x > 120.0 then OutOfThreshold
    else if x < 65.0 || x > 110.0 then Observation
    else Within
  }

  /** The saturation bands: below 90% is out of threshold, 90 up to (not
      including) 94 is observation, 94 and above is within threshold. */
  function SaturationBand(x: real): (l: CardLabel)
    ensures l != Unavailable
    ensures l == OutOfThreshold <==> x < 90.0
    ensures l == Observation <==> 90.0 <= x < 94.0
    ensures l == Within <==> x >= 94.0
  {
    if x < 90.0 then OutOfThreshold
    else if x < 94.0 then Observation
    else Within
  }

  /** `statusHR(hr)`: unavailable without a number, else its heart-rate band. */
  function StatusHR(hr: JsValue): (l: CardLabel)
    ensures l == Unavailable <==> ClinicalValue(hr).None?
    ensures ClinicalValue(hr).Some? ==> l == HeartRateBand(ClinicalValue(hr).value)
  {
    match ClinicalValue(hr)
    case None => Unavailable
    case Some(x) => HeartRateBand(x)
  }

  /** `statusSpO2(s)`: unavailable without a number, else its saturation band. */
  function StatusSpO2(s: JsValue): (l: CardLabel)
    ensures l == Unavailable <==> ClinicalValue(s).None?
    ensures ClinicalValue(s).Some? ==> l == SaturationBand(ClinicalValue(s).value)
  {
    match ClinicalValue(s)
    case None => Unavailable
    case Some(x) => SaturationBand(x)
  }

  function PillSeverity(p: Pill): nat
  {
    match p
    case Err => 2
    case Warn => 1
    case _ => 0
  }

  function Max(a: nat, b: nat): nat
  {
    if a < b then b else a
  }

  /** The pill decision of `renderSummary`: alert if either card is out of
      threshold, else observation if either is under observation, else in
      range when there is a last reading and waiting when there is none. It
      shows the more alarming of the two cards. */
  function GlobalStatus(hr: CardLabel, spo2: CardLabel, hasLast: bool): (p: Pill)
    ensures PillSeverity(p) == Max(Severity(hr), Severity(spo2))
    ensures p == Idle <==> PillSeverity(p) == 0 && !hasLast
  {
    if hr == OutOfThreshold || spo2 == OutOfThreshold then Err
    else if hr == Observation || spo2 == Observation then Warn
    else if hasLast then Ok
    else Idle
  }

  /** `renderSummary(last)`: the pill for the latest reading, or for none.
      It waits exactly when there is no reading; otherwise it is as
      alarming as the worse of the two cards, and in range when neither
      card is out of threshold or under observation. */
  function SummaryPill(last: Option<Reading>): (p: Pill)
    ensures p == Idle <==> last.None?
    ensures last.Some? ==>
      PillSeverity(p) == Max(Severity(StatusHR(last.value.fc)), Severity(StatusSpO2(last.value.spo2)))
    ensures last.Some? ==>
      (p == Ok <==> Severity(StatusHR(last.value.fc)) == 0 && Severity(StatusSpO2(last.value.spo2)) == 0)
  {
    match last
    case None => GlobalStatus(StatusHR(Undefined), StatusSpO2(Undefined), false)
    case Some(r) => GlobalStatus(StatusHR(r.fc), StatusSpO2(r.spo2), true)
  }

  // ---------------------------------------------------------------------
  // Properties
  // ---------------------------------------------------------------------

  /** The boundaries as the code draws them: 65 and 110 bpm are within
      threshold, 64 and 111 to 120 are under observation; 90% saturation is
      observation and 94% within. */
  lemma BandBoundaries()
    ensures HeartRateBand(59.0) == OutOfThreshold && HeartRateBand(60.0) == Observation
    ensures HeartRateBand(64.0) == Observation && HeartRateBand(65.0) == Within
    ensures HeartRateBand(110.0) == Within && HeartRateBand(111.0) == Observation
    ensures HeartRateBand(120.0) == Observation && HeartRateBand(121.0) == OutOfThreshold
    ensures SaturationBand(89.0) == OutOfThreshold && SaturationBand(90.0) == Observation
    ensures SaturationBand(93.5) == Observation && SaturationBand(94.0) == Within
  {
  }

  /** Raising the saturation never gives a more alarming label. */
  lemma SaturationMonotone(x: real, y: real)
    requires x <= y
    ensures Severity(SaturationBand(y)) <= Severity(SaturationBand(x))
  {
  }

  /** Moving a heart rate towards the inner band (65 to 110) never gives a
      more alarming label. */
  lemma HeartRateTowardsInnerBand(x: real, y: real)
    requires x <= y <= 65.0 || 110.0 <= y <= x
    ensures Severity(HeartRateBand(y)) <= Severity(HeartRateBand(x))
  {
  }

  /** The pill does not depend on which card carries which label. */
  lemma GlobalStatusSymmetric(a: CardLabel, b: CardLabel, hasLast: bool)
    ensures GlobalStatus(a, b, hasLast) == GlobalStatus(b, a, hasLast)
  {
  }

  /** A reading whose heart rate and saturation are both missing still
      shows the in-range pill: missing values raise no alarm. */
  lemma MissingVitalsShowInRange(r: Reading)
    requires ClinicalValue(r.fc).None? && ClinicalValue(r.spo2).None?
    ensures SummaryPill(Some(r)) == Ok
  {
  }
}
