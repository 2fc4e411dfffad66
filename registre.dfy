/**
 * The frame-by-frame age/gender stabilisation in `open_camera_and_capture`
 * (`interfaces/registre_interface.py`). Each camera frame has no face, a
 * first face whose network outputs are given, or a first face whose
 * prediction raised. A counter of faceless frames resets everything after
 * more than 20 of them, and five buffered predictions are frozen into a
 * final (mean age, most common gender).
 */
module Registre {
  import opened Wrappers
  import opened AgeGender

  /**
   * What one camera frame contributes: no face; the raw network outputs for
   * its first face; or a first face whose crop or prediction raised (an empty
   * crop, which `cv2.resize` rejects, or a failing network), an exception the
   * loop catches without buffering anything.
   */
  datatype FrameInput = NoFace | Face(raw: RawOutput) | FaceWithoutPrediction

  /** `final_prediction`: `(avg_age, avg_gender)`. */
  datatype Final = Final(age: int, gender: Gender)

  /** The loop's variables `age_buffer`, `gender_buffer`, `no_face_count`, `prediction_finalized`, `final_prediction`. */
  datatype LoopState = LoopState(ages: seq<int>, genders: seq<Gender>, noFaceCount: nat, finalized: bool,
                         finalPrediction: Option<Final>)

  /** Faceless frames tolerated before the reset. */
  const NoFaceLimit: nat := 20

  /** Buffered predictions needed to finalise. */
  const SamplesToFinalise: nat := 5

  /** The state before the first frame. */
  const Init: LoopState := LoopState([], [], 0, false, None)

  function Sum(s: seq<int>): int {
    if |s| == 0 then 0 else Sum(s[..|s| - 1]) + s[|s| - 1]
  }

  /** `int(sum(age_buffer) / len(age_buffer))`: true division, then truncation toward zero. */
  function Average(ages: seq<int>): int
    requires |ages| > 0
  {
    Trunc(Sum(ages) as real / |ages| as real)
  }

  lemma {:induction false} SumBounds(s: seq<int>, hi: int)
    requires forall i :: 0 <= i < |s| ==> 0 <= s[i] <= hi
    ensures 0 <= Sum(s) <= hi * |s|
  {
    if |s| > 0 {
      SumBounds(s[..|s| - 1], hi);
    }
  }

  /**
   * For the non-negative ages the predictor returns, the truncated mean is
   * the floor division of the sum by the count, and it stays within [0, 116].
   */
  lemma AverageSpec(ages: seq<int>)
    requires |ages| > 0
    requires forall i :: 0 <= i < |ages| ==> 0 <= ages[i] <= MaxAge
    ensures Average(ages) == Sum(ages) / |ages|
    ensures 0 <= Average(ages) <= MaxAge
  {
    var n := |ages|;
    var s := Sum(ages);
    SumBounds(ages, MaxAge);
    FloorOfQuotient(s, n);
    QuotientAtMost(s, n, MaxAge);
  }

  lemma FloorOfQuotient(s: int, n: int)
    requires 0 <= s && 0 < n
    ensures (s as real / n as real).Floor == s / n
  {
    var q, r := s / n, s % n;
    assert s == q * n + r && 0 <= r < n;
    var x := s as real / n as real;
    assert x * (n as real) == s as real;
    assert (q as real) * (n as real) + r as real == s as real;
    assert (x - q as real) * (n as real) == r as real;
    ScaledRange(x - q as real, n as real, r as real);
  }

  lemma ScaledRange(t: real, n: real, r: real)
    requires 0.0 < n && t * n == r && 0.0 <= r < n
    ensures 0.0 <= t < 1.0
  {
    assert t < 0.0 ==> (-t) * n > 0.0;
    assert t >= 1.0 ==> (t - 1.0) * n >= 0.0;
  }

  lemma QuotientAtMost(s: int, n: int, hi: int)
    requires 0 <= s <= hi * n && 0 < n && 0 <= hi
    ensures 0 <= s / n <= hi
  {
    var q := s / n;
    assert q * n <= s;
    assert q > hi ==> q * n >= (hi + 1) * n;
  }

  /** How often `g` occurs in `s`. */
  function Count(s: seq<Gender>, g: Gender): (c: nat)
  {
    if |s| == 0 then 0 else (if s[0] == g then 1 else 0) + Count(s[1..], g)
  }

  lemma {:induction false} CountTotal(s: seq<Gender>)
    ensures Count(s, Femme) + Count(s, Homme) == |s|
  {
    if |s| > 0 {
      CountTotal(s[1..]);
    }
  }

  /**
   * `Counter(gender_buffer).most_common(1)[0][0]`: the gender with the
   * higher count; on a tie, the one encountered first.
   */
  function MostCommon(s: seq<Gender>): Gender
    requires |s| > 0
  {
    var other := if s[0] == Femme then Homme else Femme;
    if Count(s, other) > Count(s, s[0]) then other else s[0]
  }

  /** The result occurs, no gender occurs more often, and a tie goes to the first element. */
  lemma MostCommonSpec(s: seq<Gender>, g: Gender)
    requires |s| > 0
    ensures Count(s, MostCommon(s)) > 0
    ensures Count(s, MostCommon(s)) >= Count(s, g)
    ensures Count(s, Femme) == Count(s, Homme) ==> MostCommon(s) == s[0]
  {
    assert Count(s, s[0]) >= 1;
  }

  /**
   * Lines 72-83: a faceless frame bumps the counter and, past 20, clears the
   * prediction and both buffers; a frame with a face resets the counter.
   */
  function CountFrame(s: LoopState, f: FrameInput): LoopState {
    if f.NoFace? then
      if s.noFaceCount + 1 > NoFaceLimit then Init else s.(noFaceCount := s.noFaceCount + 1)
    else s.(noFaceCount := 0)
  }

  /** Lines 99-112: buffer one prediction and finalise once five are buffered. */
  function Record(s: LoopState, raw: RawOutput): LoopState {
    var p := Predict(true, Some(raw));
    PredictBounds(raw);
    var ages := s.ages + [p.value.value.age];
    var genders := s.genders + [p.value.value.gender];
    if |ages| >= SamplesToFinalise then
      LoopState(ages, genders, s.noFaceCount, true, Some(Final(Average(ages), MostCommon(genders))))
    else s.(ages := ages, genders := genders)
  }

  /**
   * One frame, with the crop working: when not finalised, a frame with a
   * face feeds its prediction to the buffers if a model is loaded.
   */
  function Next(modelReady: bool, s: LoopState, f: FrameInput): LoopState {
    var s1 := CountFrame(s, f);
    if !s1.finalized && f.Face? && modelReady then Record(s1, f.raw) else s1
  }

  /**
   * One frame as written: the prediction block calls `crop_face` with a
   * keyword argument it does not accept, the TypeError is caught, and
   * nothing is buffered.
   */
  function NextAsWritten(modelReady: bool, s: LoopState, f: FrameInput): LoopState {
    var s1 := CountFrame(s, f);
    s1
  }

  /** The state after a sequence of frames. */
  function Run(modelReady: bool, s: LoopState, frames: seq<FrameInput>): LoopState {
    if |frames| == 0 then s
    else Next(modelReady, Run(modelReady, s, frames[..|frames| - 1]), frames[|frames| - 1])
  }

  function RunAsWritten(modelReady: bool, s: LoopState, frames: seq<FrameInput>): LoopState {
    if |frames| == 0 then s
    else NextAsWritten(modelReady, RunAsWritten(modelReady, s, frames[..|frames| - 1]), frames[|frames| - 1])
  }

  /**
   * What holds of the loop's variables after every frame: equal buffer
   * lengths, at most 4 entries until finalised and exactly 5 after, a final
   * prediction exactly when finalised and then the mean age and most common
   * gender of the buffers, ages in [0, 116], and a counter in [0, 20].
   */
  ghost predicate Valid(s: LoopState) {
    |s.ages| == |s.genders| &&
    (!s.finalized ==> |s.ages| < SamplesToFinalise) &&
    (s.finalized ==> |s.ages| == SamplesToFinalise) &&
    (s.finalPrediction.Some? <==> s.finalized) &&
    (forall i :: 0 <= i < |s.ages| ==> 0 <= s.ages[i] <= MaxAge) &&
    (s.finalized ==> s.finalPrediction.value == Final(Average(s.ages), MostCommon(s.genders))) &&
    s.noFaceCount <= NoFaceLimit
  }

  lemma InitValid()
    ensures Valid(Init)
  {
  }

  /** Every frame keeps the invariant. */
  lemma NextValid(modelReady: bool, s: LoopState, f: FrameInput)
    requires Valid(s)
    ensures Valid(Next(modelReady, s, f))
  {
    var s1 := CountFrame(s, f);
    assert Valid(s1);
    if !s1.finalized && f.Face? && modelReady {
      PredictBounds(f.raw);
    }
  }

  /** Hence after any sequence of frames. */
  lemma {:induction false} RunValid(modelReady: bool, frames: seq<FrameInput>)
    ensures Valid(Run(modelReady, Init, frames))
  {
    if |frames| == 0 {
      InitValid();
    } else {
      RunValid(modelReady, frames[..|frames| - 1]);
      NextValid(modelReady, Run(modelReady, Init, frames[..|frames| - 1]), frames[|frames| - 1]);
    }
  }

  /**
   * The counter: a frame with a face resets it; a faceless frame adds one,
   * or clears the whole state once it would pass 20. A face whose
   * prediction raised changes nothing but the counter.
   */
  lemma NextCounter(modelReady: bool, s: LoopState, f: FrameInput)
    ensures !f.NoFace? ==> Next(modelReady, s, f).noFaceCount == 0
    ensures f.FaceWithoutPrediction? ==> Next(modelReady, s, f) == s.(noFaceCount := 0)
    ensures f.NoFace? && s.noFaceCount < NoFaceLimit ==>
      Next(modelReady, s, f) == s.(noFaceCount := s.noFaceCount + 1)
    ensures f.NoFace? && s.noFaceCount >= NoFaceLimit ==> Next(modelReady, s, f) == Init
  {
  }

  /**
   * Buffering: a face frame adds exactly one entry to each buffer while not
   * finalised and a model is loaded, and finalises exactly when the fifth
   * arrives; a finalised state is frozen by face frames.
   */
  lemma NextBuffers(modelReady: bool, s: LoopState, raw: RawOutput)
    requires Valid(s)
    ensures var t := Next(modelReady, s, Face(raw));
      (!s.finalized && modelReady ==>
         t.ages[..|s.ages|] == s.ages && |t.ages| == |s.ages| + 1 &&
         t.genders[..|s.genders|] == s.genders && |t.genders| == |s.genders| + 1 &&
         t.ages[|s.ages|] == Age(raw.agePred) && t.genders[|s.genders|] == GenderOf(raw.genderProb).0 &&
         (t.finalized <==> |s.ages| == SamplesToFinalise - 1)) &&
      (s.finalized || !modelReady ==> t == s.(noFaceCount := 0))
  {
    PredictBounds(raw);
  }

  /** Five frames with a face each, with whatever network outputs. */
  function FiveFaces(raw: RawOutput): seq<FrameInput> {
    [Face(raw), Face(raw), Face(raw), Face(raw), Face(raw)]
  }

  /**
   * With a working crop, five face frames finalise the prediction, and the
   * frozen result is the mean age and most common gender of the five
   * predictions: for identical network outputs, that one prediction.
   */
  lemma FiveFacesFinalise(raw: RawOutput)
    ensures Run(true, Init, FiveFaces(raw)).finalized
    ensures Run(true, Init, FiveFaces(raw)).finalPrediction ==
      Some(Final(Age(raw.agePred), GenderOf(raw.genderProb).0))
  {
    var f := Face(raw);
    var fs := FiveFaces(raw);
    var a, g := Age(raw.agePred), GenderOf(raw.genderProb).0;
    assert fs[..4] == [f, f, f, f] && fs[..3] == [f, f, f] && fs[..2] == [f, f] && fs[..1] == [f];
    var s := Init;
    var k := 0;
    InitValid();
    while k < 5
      invariant 0 <= k <= 5 && Valid(s) && s == Run(true, Init, fs[..k])
      invariant |s.ages| == k && (s.finalized <==> k == 5)
      invariant forall i :: 0 <= i < k ==> s.ages[i] == a && s.genders[i] == g
    {
      NextBuffers(true, s, raw);
      NextValid(true, s, f);
      RunStep(true, Init, fs[..k], f);
      assert fs[..k + 1] == fs[..k] + [f];
      s := Next(true, s, f);
      k := k + 1;
    }
    assert fs[..5] == fs;
    AverageOfCopies(s.ages, a);
    MostCommonOfCopies(s.genders, g);
  }

  /** The mean of equal ages is that age. */
  lemma AverageOfCopies(ages: seq<int>, a: int)
    requires |ages| > 0 && 0 <= a <= MaxAge
    requires forall i :: 0 <= i < |ages| ==> ages[i] == a
    ensures Average(ages) == a
  {
    SumOfCopies(ages, a);
    ExactQuotient(|ages| as real, a as real, Sum(ages) as real);
  }

  lemma ExactQuotient(n: real, a: real, s: real)
    requires 0.0 < n && s == n * a
    ensures s / n == a
  {
  }

  lemma {:induction false} SumOfCopies(s: seq<int>, a: int)
    requires forall i :: 0 <= i < |s| ==> s[i] == a
    ensures Sum(s) == |s| * a
  {
    if |s| > 0 {
      SumOfCopies(s[..|s| - 1], a);
    }
  }

  /** The most common of equal genders is that gender. */
  lemma MostCommonOfCopies(s: seq<Gender>, g: Gender)
    requires |s| > 0
    requires forall i :: 0 <= i < |s| ==> s[i] == g
    ensures MostCommon(s) == g
  {
    CountOther(s, if g == Femme then Homme else Femme);
  }

  lemma {:induction false} CountOther(s: seq<Gender>, h: Gender)
    requires forall i :: 0 <= i < |s| ==> s[i] != h
    ensures Count(s, h) == 0
  {
    if |s| > 0 {
      CountOther(s[1..], h);
    }
  }

  lemma RunStep(modelReady: bool, s: LoopState, frames: seq<FrameInput>, f: FrameInput)
    ensures Run(modelReady, s, frames + [f]) == Next(modelReady, Run(modelReady, s, frames), f)
  {
    assert (frames + [f])[..|frames|] == frames;
  }

  /** As written, the buffers stay empty and no run from the start ever finalises. */
  lemma {:induction false} RunAsWrittenNeverFinalises(modelReady: bool, frames: seq<FrameInput>)
    ensures var s := RunAsWritten(modelReady, Init, frames);
      !s.finalized && s.ages == [] && s.genders == [] && s.finalPrediction == None
  {
    if |frames| > 0 {
      RunAsWrittenNeverFinalises(modelReady, frames[..|frames| - 1]);
    }
  }

  /** The concrete discrepancy: five face frames finalise with a working crop and not as written. */
  lemma AsWrittenNeverRegisters(raw: RawOutput)
    ensures Run(true, Init, FiveFaces(raw)).finalized
    ensures !RunAsWritten(true, Init, FiveFaces(raw)).finalized
  {
    FiveFacesFinalise(raw);
    RunAsWrittenNeverFinalises(true, FiveFaces(raw));
  }

  /** The loop's variables, updated in place one frame at a time. */
  class Stabiliser {
    /** `age_gender_predictor and age_gender_predictor.model is not None`. */
    const modelReady: bool
    var ageBuffer: seq<int>
    var genderBuffer: seq<Gender>
    var noFaceCount: nat
    var predictionFinalized: bool
    var finalPrediction: Option<Final>

    function State(): LoopState
      reads this
    {
      LoopState(ageBuffer, genderBuffer, noFaceCount, predictionFinalized, finalPrediction)
    }

    constructor(modelReady: bool)
      ensures this.modelReady == modelReady
      ensures State() == Init
    {
      this.modelReady := modelReady;
      ageBuffer := [];
      genderBuffer := [];
      noFaceCount := 0;
      predictionFinalized := false;
      finalPrediction := None;
    }

    /** One iteration of the camera loop (lines 72-116, with the crop working). */
    method Step(f: FrameInput)
      modifies this
      ensures State() == Next(modelReady, old(State()), f)
    {
      if f.NoFace? {
        noFaceCount := noFaceCount + 1;
        if noFaceCount > NoFaceLimit {
          predictionFinalized := false;
          finalPrediction := None;
          ageBuffer := [];
          genderBuffer := [];
          noFaceCount := 0;
        }
      } else {
        noFaceCount := 0;
      }
      if !predictionFinalized && f.Face? && modelReady {
        var p := Predict(true, Some(f.raw));
        PredictBounds(f.raw);
        ageBuffer := ageBuffer + [p.value.value.age];
        genderBuffer := genderBuffer + [p.value.value.gender];
        if |ageBuffer| >= SamplesToFinalise {
          var avgAge := Average(ageBuffer);
          var avgGender := MostCommon(genderBuffer);
          finalPrediction := Some(Final(avgAge, avgGender));
          predictionFinalized := true;
        }
      }
    }

    /** The camera loop over a sequence of frames. */
    method RunFrames(frames: seq<FrameInput>)
      modifies this
      ensures State() == Run(modelReady, old(State()), frames)
    {
      ghost var s0 := State();
      for i := 0 to |frames|
        invariant State() == Run(modelReady, s0, frames[..i])
      {
        Step(frames[i]);
        assert frames[..i + 1][..i] == frames[..i];
      }
      assert frames[..|frames|] == frames;
    }
  }
}
