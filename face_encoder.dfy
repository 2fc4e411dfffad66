/**
 * The stand-alone utilities of `models/face_encoder.py`: the Euclidean
 * distance and the cosine similarity between embeddings, the inclusive
 * match test, the comparison record, the final normalisation step of
 * `get_embedding`, and the `_ensure_rgb` shape check with its BGR/RGB
 * channel-swap heuristic.
 */
module FaceEncoder {
  import opened Wrappers
  import opened Vectors

  /** `DEFAULT_EUCLIDEAN_THRESHOLD`. */
  const DefaultEuclideanThreshold: real := 0.6

  /** The `1e-10` added to denominators. */
  const Epsilon: real := 0.0000000001

  // ----------------------------------------------------------------------
  // Comparison utilities
  // ----------------------------------------------------------------------

  /** The denominator of `cosine_similarity`: the product of the norms plus epsilon. */
  function CosineDenominator(sqrt: real -> real, a: Vec, b: Vec): (r: real)
    requires IsSqrt(sqrt)
    ensures r >= Epsilon
  {
    ProductNonNegative(Norm(sqrt, a), Norm(sqrt, b));
    Norm(sqrt, a) * Norm(sqrt, b) + Epsilon
  }

  /** `cosine_similarity`: the dot product over the epsilon-guarded product of the norms. */
  function CosineSimilarity(sqrt: real -> real, a: Vec, b: Vec): real
    requires IsSqrt(sqrt) && |a| == |b|
  {
    Dot(a, b) / CosineDenominator(sqrt, a, b)
  }

  /** The similarity has the sign of the dot product; it is zero exactly when the dot product is. */
  lemma CosineSimilaritySign(sqrt: real -> real, a: Vec, b: Vec)
    requires IsSqrt(sqrt) && |a| == |b|
    ensures CosineSimilarity(sqrt, a, b) > 0.0 <==> Dot(a, b) > 0.0
    ensures CosineSimilarity(sqrt, a, b) < 0.0 <==> Dot(a, b) < 0.0
    ensures CosineSimilarity(sqrt, a, b) == 0.0 <==> Dot(a, b) == 0.0
  {
    var t := Dot(a, b);
    var d := CosineDenominator(sqrt, a, b);
    QuotientSign(t, d, t / d);
  }

  lemma QuotientSign(t: real, d: real, q: real)
    requires d > 0.0 && q == t / d
    ensures q > 0.0 <==> t > 0.0
    ensures q < 0.0 <==> t < 0.0
    ensures q == 0.0 <==> t == 0.0
  {
    assert q * d == t;
    if q > 0.0 { ProductPositive(q, d); }
    if q < 0.0 { ProductPositive(-q, d); }
  }

  /**
   * The similarity lies strictly between -1 (opposite) and 1 (identical):
   * by Cauchy-Schwarz the dot product is at most the product of the norms in
   * size, and the epsilon keeps both ends out of reach.
   */
  lemma CosineSimilarityRange(sqrt: real -> real, a: Vec, b: Vec)
    requires IsSqrt(sqrt) && |a| == |b|
    ensures -1.0 < CosineSimilarity(sqrt, a, b) < 1.0
  {
    var na, nb := Norm(sqrt, a), Norm(sqrt, b);
    CauchySchwarz(sqrt, a, b, na, nb);
    var t, d := Dot(a, b), CosineDenominator(sqrt, a, b);
    assert d == na * nb + Epsilon;
    QuotientWithin(t, d, t / d);
  }

  /** A quotient whose numerator is smaller in size than its positive denominator lies in (-1, 1). */
  lemma QuotientWithin(t: real, d: real, q: real)
    requires d > 0.0 && -d < t < d && q == t / d
    ensures -1.0 < q < 1.0
  {
    assert q * d == t;
    assert (1.0 - q) * d == d - t;
    assert (1.0 + q) * d == d + t;
    PositiveFactor(1.0 - q, d, d - t);
    PositiveFactor(1.0 + q, d, d + t);
  }

  /** A product with a positive factor is positive only if the other factor is. */
  lemma PositiveFactor(x: real, d: real, p: real)
    requires d > 0.0 && p == x * d && p > 0.0
    ensures x > 0.0
  {
    ScaledBounds(x, d);
  }

  /** `cosine_similarity` is symmetric. */
  lemma CosineSimilaritySymmetric(sqrt: real -> real, a: Vec, b: Vec)
    requires IsSqrt(sqrt) && |a| == |b|
    ensures CosineSimilarity(sqrt, a, b) == CosineSimilarity(sqrt, b, a)
  {
    DotSymmetric(a, b);
    assert CosineDenominator(sqrt, a, b) == CosineDenominator(sqrt, b, a);
  }

  /** Thanks to the epsilon, a zero vector gives similarity 0 instead of a division by zero. */
  lemma CosineSimilarityWithZero(sqrt: real -> real, a: Vec, b: Vec)
    requires IsSqrt(sqrt) && |a| == |b| && (IsZero(a) || IsZero(b))
    ensures CosineSimilarity(sqrt, a, b) == 0.0
  {
    if IsZero(a) {
      DotZeroLeft(a, b);
    } else {
      DotZeroLeft(b, a);
      DotSymmetric(a, b);
    }
    CosineSimilaritySign(sqrt, a, b);
  }

  /** A non-zero vector is similar to itself strictly between 0 and 1 (the epsilon keeps it below 1). */
  lemma CosineSimilaritySelf(sqrt: real -> real, a: Vec)
    requires IsSqrt(sqrt) && !IsZero(a)
    ensures 0.0 < CosineSimilarity(sqrt, a, a) < 1.0
  {
    var n := Norm(sqrt, a);
    var s := SumSq(a);
    DotSelf(a);
    SumSqNonNegative(a);
    SumSqZero(a);
    assert Sq(n) == s;
    assert n * n == s;
    SelfQuotient(s, s + Epsilon, s / (s + Epsilon));
  }

  lemma SelfQuotient(s: real, d: real, q: real)
    requires 0.0 < s < d && q == s / d
    ensures 0.0 < q < 1.0
  {
    var m := q * d;
    assert m == s;
    ScaledBounds(q, d);
    assert q <= 0.0 ==> m <= 0.0;
    assert q >= 1.0 ==> m >= d;
  }

  /** Multiplying by a positive factor keeps the sign, and a factor of at least 1 does not shrink it. */
  lemma ScaledBounds(q: real, d: real)
    requires d > 0.0
    ensures q <= 0.0 ==> q * d <= 0.0
    ensures q > 0.0 ==> q * d > 0.0
    ensures q >= 1.0 ==> q * d >= d
  {
    if q <= 0.0 {
      assert (-q) * d >= 0.0;
    }
    if q > 0.0 {
      ProductPositive(q, d);
    }
    if q >= 1.0 {
      assert (q - 1.0) * d >= 0.0;
    }
  }

  /** `is_match`: the Euclidean distance is at most the threshold (inclusive). */
  function IsMatch(sqrt: real -> real, a: Vec, b: Vec, threshold: real := DefaultEuclideanThreshold): bool
    requires IsSqrt(sqrt) && |a| == |b|
  {
    EuclideanDistance(sqrt, a, b) <= threshold
  }

  /**
   * A vector matches itself exactly at non-negative thresholds; in
   * particular at threshold 0, which only the inclusive comparison allows.
   */
  lemma IsMatchSelf(sqrt: real -> real, a: Vec, threshold: real)
    requires IsSqrt(sqrt)
    ensures IsMatch(sqrt, a, a, threshold) <==> 0.0 <= threshold
  {
    EuclideanDistanceZeroIff(sqrt, a, a);
  }

  /** Matching is symmetric and survives raising the threshold. */
  lemma IsMatchSymmetricMonotone(sqrt: real -> real, a: Vec, b: Vec, t1: real, t2: real)
    requires IsSqrt(sqrt) && |a| == |b| && t1 <= t2
    ensures IsMatch(sqrt, a, b, t1) == IsMatch(sqrt, b, a, t1)
    ensures IsMatch(sqrt, a, b, t1) ==> IsMatch(sqrt, a, b, t2)
  {
    EuclideanDistanceSymmetric(sqrt, a, b);
  }

  /** Different vectors never match at a negative threshold, equal ones never do either. */
  lemma IsMatchNegativeThreshold(sqrt: real -> real, a: Vec, b: Vec, threshold: real)
    requires IsSqrt(sqrt) && |a| == |b| && threshold < 0.0
    ensures !IsMatch(sqrt, a, b, threshold)
  {
  }

  /** The dict returned by `compare_embeddings`. */
  datatype Comparison = Comparison(euclidean: real, cosine: real, matched: bool)

  /** `compare_embeddings`: both measures and the match at the default threshold. */
  function CompareEmbeddings(sqrt: real -> real, a: Vec, b: Vec): (r: Comparison)
    requires IsSqrt(sqrt) && |a| == |b|
  {
    var euc := EuclideanDistance(sqrt, a, b);
    Comparison(euc, CosineSimilarity(sqrt, a, b), euc <= DefaultEuclideanThreshold)
  }

  /**
   * The record agrees with the separate utilities: its match flag is
   * `is_match` at the default threshold 0.6, its measures are the distance
   * and the similarity; it is symmetric.
   */
  lemma CompareEmbeddingsAgrees(sqrt: real -> real, a: Vec, b: Vec)
    requires IsSqrt(sqrt) && |a| == |b|
    ensures CompareEmbeddings(sqrt, a, b).matched == IsMatch(sqrt, a, b, DefaultEuclideanThreshold)
    ensures CompareEmbeddings(sqrt, a, b).euclidean == EuclideanDistance(sqrt, a, b)
    ensures CompareEmbeddings(sqrt, a, b).cosine == CosineSimilarity(sqrt, a, b)
    ensures CompareEmbeddings(sqrt, a, b) == CompareEmbeddings(sqrt, b, a)
  {
    EuclideanDistanceSymmetric(sqrt, a, b);
    CosineSimilaritySymmetric(sqrt, a, b);
  }

  /** An embedding compared with itself: distance 0, a match, similarity in (0, 1) when non-zero. */
  lemma CompareEmbeddingsSelf(sqrt: real -> real, a: Vec)
    requires IsSqrt(sqrt) && !IsZero(a)
    ensures CompareEmbeddings(sqrt, a, a).euclidean == 0.0
    ensures CompareEmbeddings(sqrt, a, a).matched
    ensures 0.0 < CompareEmbeddings(sqrt, a, a).cosine < 1.0
  {
    EuclideanDistanceZeroIff(sqrt, a, a);
    CosineSimilaritySelf(sqrt, a);
  }

  // ----------------------------------------------------------------------
  // The normalisation step of get_embedding
  // ----------------------------------------------------------------------

  /** `emb / (np.linalg.norm(emb) + 1e-10)`. */
  function NormaliseEmbedding(sqrt: real -> real, v: Vec): (r: Vec)
    requires IsSqrt(sqrt)
    ensures |r| == |v|
  {
    DivBy(v, Norm(sqrt, v) + Epsilon)
  }

  /** The zero vector is mapped to itself (the epsilon avoids the division by zero). */
  lemma NormaliseEmbeddingZero(sqrt: real -> real, v: Vec)
    requires IsSqrt(sqrt) && IsZero(v)
    ensures NormaliseEmbedding(sqrt, v) == v
  {
    var d := Norm(sqrt, v) + Epsilon;
    forall i | 0 <= i < |v| ensures NormaliseEmbedding(sqrt, v)[i] == v[i] {
      assert v[i] / d == 0.0;
    }
  }

  /**
   * Any other vector keeps its direction (each component times the
   * denominator gives back the original) and ends with norm strictly below 1.
   */
  lemma NormaliseEmbeddingShrinks(sqrt: real -> real, v: Vec)
    requires IsSqrt(sqrt) && !IsZero(v)
    ensures Norm(sqrt, NormaliseEmbedding(sqrt, v)) < 1.0
    ensures forall i :: 0 <= i < |v| ==> NormaliseEmbedding(sqrt, v)[i] * (Norm(sqrt, v) + Epsilon) == v[i]
  {
    ShrinkAfterDivide(sqrt, v, Norm(sqrt, v) + Epsilon);
    DivByScales(v, Norm(sqrt, v) + Epsilon);
  }

  // ----------------------------------------------------------------------
  // _ensure_rgb
  // ----------------------------------------------------------------------

  /** A numpy array of integers: its shape and its elements in row-major order. */
  datatype Image = Image(shape: seq<nat>, data: seq<int>)
  {
    predicate Valid() {
      |data| == Product(shape)
    }
  }

  function Product(shape: seq<nat>): nat {
    if |shape| == 0 then 1 else shape[0] * Product(shape[1..])
  }

  /** An (H, W, 3) array holds H * W pixels of three channels each. */
  lemma ColourImageSize(shape: seq<nat>)
    requires |shape| == 3 && shape[2] == 3
    ensures Product(shape) == 3 * (shape[0] * shape[1])
    ensures Product(shape) % 3 == 0
  {
    assert shape[1..][1..] == [3];
    assert Product([3]) == 3;
    assert Product(shape[1..]) == shape[1] * 3;
    assert Product(shape) == shape[0] * (shape[1] * 3);
  }

  /**
   * `astype(np.uint8)`: each element wraps around, to the value in [0, 256)
   * that differs from it by a multiple of 256.
   */
  function ToUint8(data: seq<int>): (r: seq<int>)
    ensures |r| == |data|
    ensures forall i :: 0 <= i < |data| ==> 0 <= r[i] < 256 && exists k: int :: data[i] == r[i] + 256 * k
  {
    var r := seq(|data|, i requires 0 <= i < |data| => data[i] % 256);
    forall i | 0 <= i < |data|
      ensures data[i] == r[i] + 256 * (data[i] / 256)
    {
    }
    r
  }

  /** The sum of channel `c` over all pixels of `px`, three channels per pixel. */
  function ChannelSum(px: seq<int>, c: nat): int
    requires |px| % 3 == 0 && c < 3
  {
    if |px| == 0 then 0 else px[c] + ChannelSum(px[3..], c)
  }

  /** `img[..., c].mean()` over a non-empty image. */
  function ChannelMean(px: seq<int>, c: nat): real
    requires |px| % 3 == 0 && |px| > 0 && c < 3
  {
    (ChannelSum(px, c) as real) / ((|px| / 3) as real)
  }

  /**
   * The heuristic of `_ensure_rgb`: the image is taken for BGR when the mean
   * of channel 0 exceeds that of channel 2. An empty image has NaN means,
   * which compare false.
   */
  predicate LooksBgr(px: seq<int>)
    requires |px| % 3 == 0
  {
    |px| > 0 && ChannelMean(px, 0) > ChannelMean(px, 2)
  }

  /** Comparing the means is comparing the sums. */
  lemma LooksBgrIffSums(px: seq<int>)
    requires |px| % 3 == 0
    ensures LooksBgr(px) <==> ChannelSum(px, 0) > ChannelSum(px, 2)
  {
    if |px| > 0 {
      var n := (|px| / 3) as real;
      var s0, s2 := ChannelSum(px, 0) as real, ChannelSum(px, 2) as real;
      QuotientLess(s0, s2, n);
    }
  }

  lemma QuotientLess(a: real, b: real, n: real)
    requires n > 0.0
    ensures a / n > b / n <==> a > b
  {
    var p, q := a / n, b / n;
    assert p * n == a && q * n == b;
    assert (p - q) * n == a - b;
    ScaledBounds(p - q, n);
  }

  /** `cv2.cvtColor(img, cv2.COLOR_BGR2RGB)`: channels 0 and 2 of every pixel exchanged. */
  function SwapRB(px: seq<int>): (r: seq<int>)
    requires |px| % 3 == 0
    ensures |r| == |px|
  {
    if |px| == 0 then [] else [px[2], px[1], px[0]] + SwapRB(px[3..])
  }

  /** Swapping moves channel 2 into channel 0 and back, pixel by pixel, and keeps channel 1. */
  lemma {:induction false} SwapRBPixels(px: seq<int>)
    requires |px| % 3 == 0
    ensures forall p :: 0 <= p < |px| / 3 ==>
      SwapRB(px)[3 * p] == px[3 * p + 2] && SwapRB(px)[3 * p + 1] == px[3 * p + 1] &&
      SwapRB(px)[3 * p + 2] == px[3 * p]
  {
    if |px| > 0 {
      SwapRBPixels(px[3..]);
      forall p | 1 <= p < |px| / 3
        ensures SwapRB(px)[3 * p] == px[3 * p + 2] && SwapRB(px)[3 * p + 1] == px[3 * p + 1] &&
          SwapRB(px)[3 * p + 2] == px[3 * p]
      {
        var q := p - 1;
        assert SwapRB(px)[3 * p] == SwapRB(px[3..])[3 * q];
        assert SwapRB(px)[3 * p + 1] == SwapRB(px[3..])[3 * q + 1];
        assert SwapRB(px)[3 * p + 2] == SwapRB(px[3..])[3 * q + 2];
      }
    }
  }

  /** Swapping twice restores the pixels. */
  lemma {:induction false} SwapRBInvolution(px: seq<int>)
    requires |px| % 3 == 0
    ensures SwapRB(SwapRB(px)) == px
  {
    if |px| > 0 {
      SwapRBInvolution(px[3..]);
      assert SwapRB(px)[3..] == SwapRB(px[3..]);
    }
  }

  /** Swapping exchanges the channel-0 and channel-2 sums. */
  lemma {:induction false} SwapRBSums(px: seq<int>)
    requires |px| % 3 == 0
    ensures ChannelSum(SwapRB(px), 0) == ChannelSum(px, 2)
    ensures ChannelSum(SwapRB(px), 2) == ChannelSum(px, 0)
  {
    if |px| > 0 {
      SwapRBSums(px[3..]);
      assert SwapRB(px)[3..] == SwapRB(px[3..]);
    }
  }

  /** Every element of an image already cast to uint8 is in range, so casting again changes nothing. */
  lemma ToUint8Idempotent(data: seq<int>)
    ensures ToUint8(ToUint8(data)) == ToUint8(data)
    ensures forall i :: 0 <= i < |data| ==> 0 <= ToUint8(data)[i] < 256
  {
  }

  /**
   * `_ensure_rgb`: refuses any image that is not (H, W, 3); otherwise casts
   * to uint8 and swaps the red and blue channels when the image looks BGR.
   */
  function EnsureRgb(img: Image): (r: Result<Image>)
    requires img.Valid()
    ensures r.Err? <==> !(|img.shape| == 3 && img.shape[2] == 3)
    ensures r.Err? ==> r.error == NotColourImage
    ensures r.Ok? ==> r.value.shape == img.shape && r.value.Valid()
  {
    if |img.shape| != 3 || img.shape[2] != 3 then Err(NotColourImage)
    else
      ColourImageSize(img.shape);
      var px := ToUint8(img.data);
      Ok(Image(img.shape, if LooksBgr(px) then SwapRB(px) else px))
  }

  /**
   * On success the result is the cast image, with channels 0 and 2 of every
   * pixel exchanged exactly when the cast image looks BGR; every element is
   * a uint8 value, and the result no longer looks BGR.
   */
  lemma EnsureRgbSpec(img: Image)
    requires img.Valid() && |img.shape| == 3 && img.shape[2] == 3
    ensures var px := ToUint8(img.data); var out := EnsureRgb(img).value.data;
      |px| % 3 == 0 &&
      (forall i :: 0 <= i < |out| ==> 0 <= out[i] < 256) &&
      (forall p :: 0 <= p < |px| / 3 ==> out[3 * p + 1] == px[3 * p + 1]) &&
      (LooksBgr(px) ==> forall p :: 0 <= p < |px| / 3 ==> out[3 * p] == px[3 * p + 2] && out[3 * p + 2] == px[3 * p]) &&
      (!LooksBgr(px) ==> out == px) &&
      !LooksBgr(out)
  {
    ColourImageSize(img.shape);
    var px := ToUint8(img.data);
    ToUint8Idempotent(img.data);
    LooksBgrIffSums(px);
    if LooksBgr(px) {
      SwapRBPixels(px);
      SwapRBSums(px);
      LooksBgrIffSums(SwapRB(px));
      forall i | 0 <= i < |px| ensures 0 <= SwapRB(px)[i] < 256 {
        var p := i / 3;
        assert i == 3 * p || i == 3 * p + 1 || i == 3 * p + 2;
      }
    }
  }

  /** `_ensure_rgb` is idempotent: an image it returns passes through unchanged. */
  lemma EnsureRgbIdempotent(img: Image)
    requires img.Valid() && |img.shape| == 3 && img.shape[2] == 3
    ensures EnsureRgb(EnsureRgb(img).value) == EnsureRgb(img)
  {
    var out := EnsureRgb(img).value;
    EnsureRgbSpec(img);
    ToUint8Fixed(out.data);
  }

  /** Values already in [0, 256) are left alone by the cast. */
  lemma ToUint8Fixed(data: seq<int>)
    requires forall i :: 0 <= i < |data| ==> 0 <= data[i] < 256
    ensures ToUint8(data) == data
  {
  }
}
