/**
 * The post-processing in `AgeGenderPredictor.predict`
 * (`models/age_gender_model.py`): the raw network outputs become an age
 * clamped to [0, 116] and a gender with a confidence, by a three-way rule
 * around the confidence threshold 0.45. The network itself is an input: its
 * two raw scores, or nothing when no face image was given.
 */
module AgeGender {
  import opened Wrappers

  datatype Gender = Femme | Homme

  /** The triple `(age, gender, gender_prob)` returned for a face. */
  datatype Prediction = Prediction(age: int, gender: Gender, confidence: real)

  /** The raw outputs `age_pred[0][0]` and `gender_pred[0][0]` of `model.predict`. */
  datatype RawOutput = RawOutput(agePred: real, genderProb: real)

  /** `self.confidence_threshold`. */
  const ConfidenceThreshold: real := 0.45

  /** The largest age the network is scaled to. */
  const MaxAge: int := 116

  /** Python's `int(x)` on a float: truncation toward zero. */
  function Trunc(x: real): int {
    if x >= 0.0 then x.Floor else -((-x).Floor)
  }

  /** Truncation drops the fractional part toward zero and keeps the sign. */
  lemma TruncSpec(x: real)
    ensures 0.0 <= x ==> 0 <= Trunc(x) && Trunc(x) as real <= x < Trunc(x) as real + 1.0
    ensures x < 0.0 ==> Trunc(x) <= 0 && Trunc(x) as real - 1.0 < x <= Trunc(x) as real
  {
  }

  lemma TruncMonotone(x: real, y: real)
    requires x <= y
    ensures Trunc(x) <= Trunc(y)
  {
    TruncSpec(x);
    TruncSpec(y);
  }

  /** `max(0, min(116, int(age_pred * 116)))`. */
  function Age(agePred: real): int {
    var a := Trunc(agePred * 116.0);
    if a < 0 then 0 else if a > MaxAge then MaxAge else a
  }

  /**
   * The age lies in [0, 116], is the truncated scaled prediction whenever
   * that is in range, and never decreases as the raw prediction grows.
   */
  lemma AgeSpec(agePred: real, other: real)
    ensures 0 <= Age(agePred) <= MaxAge
    ensures 0 <= Trunc(agePred * 116.0) <= MaxAge ==> Age(agePred) == Trunc(agePred * 116.0)
    ensures 0.0 <= agePred <= 1.0 ==> Age(agePred) == Trunc(agePred * 116.0)
    ensures agePred <= other ==> Age(agePred) <= Age(other)
  {
    TruncSpec(agePred * 116.0);
    if agePred <= other {
      TruncMonotone(agePred * 116.0, other * 116.0);
    }
  }

  /** Lines 45-49: the gender and the returned confidence for a raw probability. */
  function GenderOf(p: real): (Gender, real) {
    if p < ConfidenceThreshold && p < 0.5 then (Femme, 1.0 - p)
    else if p > 0.5 then (Femme, p)
    else (Homme, p)
  }

  /**
   * The three cases of the rule: below 0.45 "Femme" with confidence 1 - p,
   * from 0.45 to 0.5 inclusive "Homme" with confidence p, above 0.5 "Femme"
   * with confidence p. The confidence is always at least 0.45, and at most 1
   * for a probability in [0, 1].
   */
  lemma GenderRule(p: real)
    ensures p < 0.45 <==> GenderOf(p) == (Femme, 1.0 - p)
    ensures GenderOf(p).0 == Homme <==> 0.45 <= p <= 0.5
    ensures p > 0.5 ==> GenderOf(p) == (Femme, p)
    ensures 0.45 <= p ==> GenderOf(p).1 == p
    ensures GenderOf(p).1 >= ConfidenceThreshold
    ensures 0.0 <= p <= 1.0 ==> GenderOf(p).1 <= 1.0
  {
  }

  /**
   * `predict`: fails when no model is loaded (checked first), returns the
   * empty triple when there is no face, and otherwise post-processes the
   * network outputs.
   */
  function Predict(modelLoaded: bool, output: Option<RawOutput>): (r: Result<Option<Prediction>>)
    ensures r.Err? <==> !modelLoaded
    ensures r.Err? ==> r.error == NoModelLoaded
    ensures r.Ok? ==> (r.value.None? <==> output.None?)
  {
    if !modelLoaded then Err(NoModelLoaded)
    else if output.None? then Ok(None)
    else
      var g := GenderOf(output.value.genderProb);
      Ok(Some(Prediction(Age(output.value.agePred), g.0, g.1)))
  }

  /** Every prediction made has an age in [0, 116] and a confidence of at least 0.45. */
  lemma PredictBounds(raw: RawOutput)
    ensures var r := Predict(true, Some(raw));
      r.Ok? && r.value.Some? &&
      0 <= r.value.value.age <= MaxAge &&
      r.value.value.confidence >= ConfidenceThreshold &&
      (r.value.value.gender == Homme <==> 0.45 <= raw.genderProb <= 0.5)
  {
    AgeSpec(raw.agePred, raw.agePred);
    GenderRule(raw.genderProb);
  }
}
