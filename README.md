# Face matching core of face_authentication_ai, in Dafny

This project models the decision logic of the face-authentication
application `face_authentication_ai` and proves properties of it.

- **`FaceRecognizer`** (`face_recognizer.dfy`) models `FaceRecognizer`. It has:
  - the two-metric comparison: cosine distance `1 - dot(n(a), n(b))` over L2-normalised vectors, or the Euclidean distance;
  - the cached load, which groups the stored `(user_id, embedding)` rows into an insertion-ordered user map and derives one prototype per user (the element-wise mean, renormalised only under cosine);
  - the `recognize` scan. Each user scores `min(distance to prototype, distance to nearest stored sample)`. The first user with the strictly smallest score wins, and is accepted only if that score is strictly below the threshold.

  The recognizer is a class whose methods update its two cached maps in place.
- **`FaceEncoder`** (`face_encoder.dfy`) has:
  - the stand-alone comparison utilities: Euclidean distance, cosine similarity with its epsilon-guarded denominator, the inclusive `is_match`, and the `compare_embeddings` record;
  - the embedding normalisation of `get_embedding`;
  - the `_ensure_rgb` shape check with its BGR/RGB channel-swap heuristic.
- **`Preprocessing`** (`preprocessing.dfy`) models `crop_face`: it clamps the margin-expanded box and slices the image with Python's slice rules.
- **`AgeGender`** (`age_gender.dfy`) models the post-processing in `AgeGenderPredictor.predict`: the age clamp and the three-way gender rule.
- **`Registre`** (`registre.dfy`) models the registration window's per-frame age/gender stabilisation. The buffers, the faceless-frame counter and the freeze after five samples become a class updated one frame at a time, specified by a step function.
- **`Camera`** (`camera.dfy`) models the capture counter. It parses `face_<n>` file names, derives the next index, and names each saved capture.
- **`Vectors`** (`vectors.dfy`) holds the vector algebra the others share. **`Wrappers`** (`wrappers.dfy`) holds Option, Result and the error kinds.

Vectors are sequences of reals. `np.linalg.norm` needs a square root. The model has no square-root primitive, so every operation that needs one takes a function `sqrt` as a parameter. A precondition `IsSqrt(sqrt)` requires it to return, for every non-negative `x`, a non-negative root whose square is `x`.

Four behaviours of the code shape the model:
- `recognize` returns the user id or None. It returns no score, and it gives None both when nobody is enrolled and when the best score is too high.
- Prototypes are recomputed only on the first load or on a forced reload, not whenever an enrolment changes.
- Embeddings of different lengths make numpy raise. The model reports `ShapeMismatch` in the same situations, except the Euclidean length-1 case listed under "Left out".
- `is_match`'s docstring says "below the threshold", but the code accepts a distance equal to the threshold.

## Model

| member | source | states |
|---|---|---|
| Vectors.Norm | models/face_recognizer.py:30 | the norm of a vector is never negative |
| Vectors.NormZeroIff | models/face_recognizer.py:30-31 | the norm is zero exactly for the zero vector, which is the case `_l2_normalize` guards |
| Vectors.EuclideanDistance | models/face_encoder.py:153-160 | the Euclidean distance is never negative |
| Vectors.EuclideanDistanceZeroIff | models/face_encoder.py:153-160 | the distance is zero exactly between identical vectors |
| Vectors.EuclideanDistanceSymmetric | models/face_encoder.py:153-160 | the distance is symmetric |
| Vectors.DotSymmetric | models/face_recognizer.py:44 | the dot product is symmetric |
| Vectors.DotSelf | models/face_recognizer.py:44 | a vector's dot product with itself is its sum of squares |
| Vectors.SumSqZero | models/face_recognizer.py:30 | the sum of squares is zero exactly for the zero vector |
| Vectors.DotZeroLeft | models/face_recognizer.py:44 | helper: a zero vector has dot product 0 with anything |
| Vectors.DotNegRight | models/face_recognizer.py:44 | helper: negating one side negates the dot product |
| Vectors.SumSqNeg | models/face_recognizer.py:30 | helper: negating a vector keeps its sum of squares |
| Vectors.DivByNeg | models/face_recognizer.py:31 | helper: dividing commutes with negation |
| Vectors.DivByScales | models/face_recognizer.py:31 | helper: multiplying a quotient back by the divisor restores the vector |
| Vectors.SumSqDivBy | models/face_recognizer.py:31 | dividing by `d` divides the sum of squares by `d * d` |
| Vectors.SubZeroIffEqual | models/face_recognizer.py:46 | helper: the difference of two vectors is zero exactly when they are equal |
| Vectors.UnitAfterDivide | models/face_recognizer.py:31 | dividing a non-zero vector by its norm gives norm 1 |
| Vectors.ShrinkAfterDivide | models/face_encoder.py:128 | dividing a non-zero vector by more than its norm gives norm below 1 |
| Vectors.SqrtOfSq | models/face_recognizer.py:30 | helper: the root of a square is the non-negative number squared |
| Vectors.SumSqSub | models/face_encoder.py:153-160 | helper: the squared distance between `u` and `v` is the squared norm of `u`, minus twice `u . v`, plus the squared norm of `v` |
| Vectors.UnitDotBounds | models/face_recognizer.py:41-44 | helper: the dot product of two unit vectors lies in [-1, 1] |
| Vectors.UnitDotOneIff | models/face_recognizer.py:41-44 | helper: the dot product of two unit vectors is 1 exactly when they are equal |
| Vectors.CauchySchwarz | models/face_encoder.py:163-170 | the dot product is at most the product of the norms in size, which bounds the cosine similarity |
| Vectors.Mean | models/face_recognizer.py:67-68 | the column mean has the common length of the stacked rows |
| Vectors.MeanOfCopies | models/face_recognizer.py:67-68 | the mean of copies of one embedding is that embedding |
| Vectors.MeanUnchangedIff | models/face_recognizer.py:67-68 | adding one more embedding leaves the mean unchanged exactly when it equals the mean |
| FaceRecognizer.L2Normalize | models/face_recognizer.py:28-31 | `_l2_normalize`: the vector divided by its norm, or the vector itself when the norm is 0; the length is kept, and the L2Normalize rows below give the values |
| FaceRecognizer.L2NormalizeZero | models/face_recognizer.py:28-31 | a vector of norm 0 is returned unchanged |
| FaceRecognizer.L2NormalizeUnit | models/face_recognizer.py:28-31 | any other vector comes back with norm 1 |
| FaceRecognizer.L2NormalizeScales | models/face_recognizer.py:28-31 | the result times the norm gives back the input, so the direction is kept |
| FaceRecognizer.L2NormalizeZeroIff | models/face_recognizer.py:28-31 | the result is zero exactly when the input is |
| FaceRecognizer.L2NormalizeIdempotent | models/face_recognizer.py:28-31 | normalising twice is normalising once |
| FaceRecognizer.Compare | models/face_recognizer.py:33-46 | the distance is never negative under either metric, and at most 2 under cosine; any metric other than "cosine" falls through to the Euclidean distance |
| FaceRecognizer.NormalisedDotBounds | models/face_recognizer.py:41-44 | the dot product of the normalised vectors lies in [-1, 1], and is 1 exactly for non-zero vectors with the same direction |
| FaceRecognizer.CosineZeroIff | models/face_recognizer.py:41-44 | under cosine, the distance is 0 exactly between non-zero vectors with the same direction (equal normalised vectors) |
| FaceRecognizer.EuclideanZeroIff | models/face_recognizer.py:45-46 | under the Euclidean metric the distance is 0 exactly between equal vectors |
| FaceRecognizer.CompareSymmetric | models/face_recognizer.py:33-46 | both metrics are symmetric |
| FaceRecognizer.CosineWithZero | models/face_recognizer.py:28-31 | under cosine, any comparison with a zero vector gives exactly 1 |
| FaceRecognizer.CosineSelf | models/face_recognizer.py:41-44 | under cosine, a non-zero vector is at distance 0 from itself |
| FaceRecognizer.CosineOpposite | models/face_recognizer.py:41-44 | under cosine, a non-zero vector is at distance 2 from its opposite |
| FaceRecognizer.UserOrder | models/face_recognizer.py:59-63 | the user map's keys are distinct and are exactly the users that have rows |
| FaceRecognizer.FirstRow | models/face_recognizer.py:59-63 | the first row of a user is a row of that user with none of theirs before it |
| FaceRecognizer.UserOrderFollowsFirstRows | models/face_recognizer.py:59-63 | the keys come in the order of the users' first rows (first appearance) |
| FaceRecognizer.EmbeddingsOf | models/face_recognizer.py:59-63 | a user's list is non-empty exactly when the user has a row |
| FaceRecognizer.EmbeddingsOfComeFromRows | models/face_recognizer.py:59-63 | every embedding in a user's list is the embedding of one of that user's rows |
| FaceRecognizer.RowsOfFront | models/face_recognizer.py:59-63 | helper: a user's row positions are those among all rows but the last, plus the last position when that row is theirs |
| FaceRecognizer.EmbeddingsOfCount | models/face_recognizer.py:59-63 | a user's list is exactly as long as that user's row count |
| FaceRecognizer.Group | models/face_recognizer.py:59-63 | the user map has the first-appearance key order, and each user's list is that user's embeddings in row order |
| FaceRecognizer.GroupRows | models/face_recognizer.py:59-63 | the `setdefault(...).append` loop builds exactly that user map |
| FaceRecognizer.Prototype | models/face_recognizer.py:65-69 | one user's prototype: the column mean of their embeddings, normalised under cosine, with the embeddings' length; its values are stated by PrototypeOfCopies and PrototypesNormalisedOnlyUnderCosine |
| FaceRecognizer.PrototypesOf | models/face_recognizer.py:65-69 | the prototype map: the user map's keys in the same order, each with that user's prototype; BuildPrototypes is proved to compute it |
| FaceRecognizer.PrototypeOfCopies | models/face_recognizer.py:65-69 | a user enrolled with copies of one embedding gets that embedding, prepared for the metric, as prototype |
| FaceRecognizer.BuildPrototypes | models/face_recognizer.py:65-69 | the loop fails with a shape mismatch exactly when some user's embeddings cannot be stacked; otherwise it gives the per-user prototypes under the same keys in the same order |
| FaceRecognizer.PrototypesNormalisedOnlyUnderCosine | models/face_recognizer.py:65-69 | under cosine a prototype with a non-zero mean has norm 1; under any other metric it is the raw mean |
| FaceRecognizer.FirstArgmin | models/face_recognizer.py:107-125 | the kept position is minimal and strictly below every earlier score (first wins on ties) |
| FaceRecognizer.FirstArgminStep | models/face_recognizer.py:123-125 | one more user replaces the best only on a strictly smaller score |
| FaceRecognizer.FirstArgminUnique | models/face_recognizer.py:107-125 | no other position is minimal and strictly below all earlier ones |
| FaceRecognizer.MinOf | models/face_recognizer.py:114-119 | `d_min` is infinity (None) for no samples, else a sample distance no larger than any other |
| FaceRecognizer.MinOfStep | models/face_recognizer.py:118-119 | one more sample replaces `d_min` only on a strictly smaller distance |
| FaceRecognizer.SampleDistances | models/face_recognizer.py:115-117 | the distances to a user's samples, one per stored embedding, normalised under cosine |
| FaceRecognizer.NearestSample | models/face_recognizer.py:113-119 | the inner loop computes the smallest sample distance |
| FaceRecognizer.UserScore | models/face_recognizer.py:121 | `d_use` is at most both distances and equal to one of them |
| FaceRecognizer.Scores | models/face_recognizer.py:110-121 | one score per user in the prototype map's order: the score at position `i` is that user's `min(d_proto, d_min)` |
| FaceRecognizer.BestMatch | models/face_recognizer.py:107-125 | the scan keeps the first user with the smallest score, and that score; with no users, nothing |
| FaceRecognizer.Pick | models/face_recognizer.py:129-134 | the decision from the scores: the first user with the smallest score if it is strictly below the threshold, otherwise None; PickSpec characterises it |
| FaceRecognizer.PickSpec | models/face_recognizer.py:129-134 | a user is returned exactly when it is the first with the smallest score and that score is strictly below the threshold; None exactly when every score is at or above it |
| FaceRecognizer.Decide | models/face_recognizer.py:110-134 | the decision of `recognize` on loaded data: Pick applied to the users' scores; the lemmas below and Recognizer.Recognize state its properties |
| FaceRecognizer.ScoresNonNegative | models/face_recognizer.py:110-121 | no user's score is below 0 |
| FaceRecognizer.EnrolledAccepted | models/face_recognizer.py:110-134 | a query equal to a stored embedding (non-zero under cosine) is accepted at any positive threshold, and the accepted user scores 0 |
| FaceRecognizer.CosineOfNormalised | models/face_recognizer.py:41-44 | under cosine, normalising the inputs first does not change the distance |
| FaceRecognizer.OppositeRejected | models/face_recognizer.py:110-134 | under cosine, a user enrolled with one non-zero embedding does not accept its opposite at any threshold up to 2 |
| FaceRecognizer.MatchableIffSameDimension | models/face_recognizer.py:110-119 | on loaded data, the query can be compared with every prototype and sample exactly when the stored embeddings have its length |
| FaceRecognizer.Recognizer.constructor | models/face_recognizer.py:14-26 | threshold and metric default to 0.45 and "cosine", and both cached maps start as None |
| FaceRecognizer.Recognizer.Load | models/face_recognizer.py:48-72 | with a cached map and no forced reload nothing changes; an empty result caches two empty maps; otherwise the user map and its prototypes, or a shape-mismatch failure that leaves the state unchanged |
| FaceRecognizer.Recognizer.Recognize | models/face_recognizer.py:100-134 | load without forcing; None when no user is enrolled; a shape mismatch when lengths differ; otherwise the first-minimum user if its score is strictly below the threshold; the maps change only by the load |
| FaceEncoder.CosineSimilarity | models/face_encoder.py:163-170 | the dot product over the product of the norms plus `1e-10`; the CosineSimilarity rows below state its sign, range, symmetry and zero cases |
| FaceEncoder.CosineDenominator | models/face_encoder.py:169 | the guarded denominator is at least `1e-10`, so the division never fails |
| FaceEncoder.CosineSimilaritySign | models/face_encoder.py:163-170 | the similarity has the sign of the dot product and is zero exactly when it is |
| FaceEncoder.CosineSimilarityRange | models/face_encoder.py:163-170 | the similarity lies strictly between -1 (opposite) and 1 (identical), the range the docstring gives; the epsilon keeps both ends out of reach |
| FaceEncoder.CosineSimilaritySymmetric | models/face_encoder.py:163-170 | the similarity is symmetric |
| FaceEncoder.CosineSimilarityWithZero | models/face_encoder.py:169-170 | with a zero vector on either side the similarity is 0 rather than an error |
| FaceEncoder.CosineSimilaritySelf | models/face_encoder.py:163-170 | a non-zero vector's similarity to itself lies strictly between 0 and 1 |
| FaceEncoder.IsMatch | models/face_encoder.py:173-178 | the Euclidean distance is at most the threshold, 0.6 by default; IsMatchSelf, IsMatchSymmetricMonotone and IsMatchNegativeThreshold state its properties |
| FaceEncoder.IsMatchSelf | models/face_encoder.py:173-178 | a vector matches itself exactly at non-negative thresholds, including 0, because the comparison is inclusive |
| FaceEncoder.IsMatchSymmetricMonotone | models/face_encoder.py:173-178 | matching is symmetric and survives raising the threshold |
| FaceEncoder.IsMatchNegativeThreshold | models/face_encoder.py:173-178 | nothing matches at a negative threshold |
| FaceEncoder.CompareEmbeddings | models/face_encoder.py:181-189 | the record of the Euclidean distance, the cosine similarity and the match flag at 0.6; CompareEmbeddingsAgrees and CompareEmbeddingsSelf state its properties |
| FaceEncoder.CompareEmbeddingsAgrees | models/face_encoder.py:181-189 | the record's flag is `is_match` at the default 0.6, its measures are the two utilities, and it is symmetric |
| FaceEncoder.CompareEmbeddingsSelf | models/face_encoder.py:181-189 | a non-zero embedding compared with itself has distance 0, matches, and has similarity in (0, 1) |
| FaceEncoder.NormaliseEmbedding | models/face_encoder.py:126-128 | the normalised embedding keeps the length |
| FaceEncoder.NormaliseEmbeddingZero | models/face_encoder.py:128 | the zero vector is mapped to itself |
| FaceEncoder.NormaliseEmbeddingShrinks | models/face_encoder.py:128 | any other vector keeps its direction and ends with norm strictly below 1 |
| FaceEncoder.ColourImageSize | models/face_encoder.py:67-70 | an (H, W, 3) array holds 3·H·W values, whole pixels only |
| FaceEncoder.ToUint8 | models/face_encoder.py:70 | the cast wraps each value modulo 256 |
| FaceEncoder.ToUint8Idempotent | models/face_encoder.py:70 | casting yields values in [0, 256), so a second cast changes nothing |
| FaceEncoder.LooksBgr | models/face_encoder.py:72 | the image is taken for BGR when it is non-empty and the mean of channel 0 exceeds that of channel 2; LooksBgrIffSums restates this on sums |
| FaceEncoder.LooksBgrIffSums | models/face_encoder.py:72 | comparing the channel means is comparing the channel sums |
| FaceEncoder.SwapRB | models/face_encoder.py:74 | the BGR-to-RGB conversion keeps the length; SwapRBPixels, SwapRBInvolution and SwapRBSums give its values |
| FaceEncoder.SwapRBPixels | models/face_encoder.py:74 | the conversion exchanges channels 0 and 2 of every pixel and keeps channel 1 |
| FaceEncoder.SwapRBInvolution | models/face_encoder.py:74 | converting twice restores the image |
| FaceEncoder.SwapRBSums | models/face_encoder.py:74 | converting exchanges the channel-0 and channel-2 sums |
| FaceEncoder.EnsureRgb | models/face_encoder.py:61-77 | fails with the colour-image error exactly unless the shape is (H, W, 3); otherwise keeps the shape |
| FaceEncoder.EnsureRgbSpec | models/face_encoder.py:70-77 | the result is the cast image with channels 0 and 2 swapped exactly when the cast image looks BGR, an unchanged copy otherwise; it is uint8 and no longer looks BGR |
| FaceEncoder.EnsureRgbIdempotent | models/face_encoder.py:61-77 | applying `_ensure_rgb` twice gives the result of applying it once |
| Preprocessing.SliceRange | utils/preprocessing.py:28 | a Python slice selects an index range inside the sequence |
| Preprocessing.CornersBounds | utils/preprocessing.py:23-26 | the left and top corners are never negative, the right and bottom edges never pass the width and height, and neither goes beyond the margin-expanded box |
| Preprocessing.CropAt | utils/preprocessing.py:28 | the slice is a well-formed image whose pixel at (i, j) is the source pixel at the slice's offsets |
| Preprocessing.CropFaceAsWritten | utils/preprocessing.py:16-28 | `crop_face` as written always returns an image (possibly empty), never None |
| Preprocessing.CropFaceAsWrittenWraps | utils/preprocessing.py:25-28 | as written, an image 100 wide and a box (-30, 0, 1, 1) with margin 10 give a crop 81 wide |
| Preprocessing.CropFace | utils/preprocessing.py:16-28 | the corrected crop always returns an image, never None |
| Preprocessing.CropFaceAgrees | utils/preprocessing.py:23-28 | where no edge falls below zero, the corrected crop is the crop as written |
| Preprocessing.CropFaceSize | utils/preprocessing.py:23-28 | the crop is at most `h + 2·margin` by `w + 2·margin`, and empty (not an error) when `x1 >= x2` or `y1 >= y2` |
| Preprocessing.CropFaceInside | utils/preprocessing.py:21-28 | when the margin-expanded box lies inside the image, the crop is exactly that region |
| AgeGender.TruncSpec | models/age_gender_model.py:41 | `int()` drops the fractional part toward zero |
| AgeGender.TruncMonotone | models/age_gender_model.py:41 | truncation never reverses an order |
| AgeGender.Age | models/age_gender_model.py:41 | the prediction times 116, truncated toward zero and clamped to [0, 116]; AgeSpec states its range and monotonicity |
| AgeGender.AgeSpec | models/age_gender_model.py:41 | the age lies in [0, 116], equals the truncated scaled prediction when that is in range, and grows with the raw prediction |
| AgeGender.GenderOf | models/age_gender_model.py:45-49 | the gender and confidence from the network's probability; GenderRule states its three branches |
| AgeGender.GenderRule | models/age_gender_model.py:45-49 | below 0.45: "Femme" with 1 − p; 0.45 to 0.5: "Homme" with p; above 0.5: "Femme" with p; the confidence is at least 0.45, and at most 1 for p in [0, 1] |
| AgeGender.Predict | models/age_gender_model.py:32-51 | fails exactly when no model is loaded (checked first); no triple exactly when there is no face |
| AgeGender.PredictBounds | models/age_gender_model.py:32-51 | every prediction made has an age in [0, 116], a confidence of at least 0.45, and "Homme" exactly for p in [0.45, 0.5] |
| Registre.Average | interfaces/registre_interface.py:105 | the sum of the ages divided by their count, truncated toward zero; AverageSpec and AverageOfCopies state its value |
| Registre.AverageSpec | interfaces/registre_interface.py:105 | the truncated mean of non-negative ages is the floor division of their sum, and stays in [0, 116] |
| Registre.AverageOfCopies | interfaces/registre_interface.py:105 | the mean of equal ages is that age |
| Registre.MostCommonOfCopies | interfaces/registre_interface.py:108 | the most common of equal genders is that gender |
| Registre.CountTotal | interfaces/registre_interface.py:108 | the two gender counts add up to the buffer length |
| Registre.MostCommon | interfaces/registre_interface.py:108 | the most frequent gender in the buffer, a tie going to the one buffered first; MostCommonSpec and MostCommonOfCopies characterise it |
| Registre.MostCommonSpec | interfaces/registre_interface.py:108 | the chosen gender occurs, no gender occurs more often, and a tie goes to the first one buffered |
| Registre.Next | interfaces/registre_interface.py:72-116 | one loop iteration with the crop call repaired; NextValid, NextCounter and NextBuffers state what it does |
| Registre.NextAsWritten | interfaces/registre_interface.py:72-116 | one loop iteration as written, where the crop call always raises; RunAsWrittenNeverFinalises states what it does |
| Registre.InitValid | interfaces/registre_interface.py:48-62 | the initial state satisfies the invariant |
| Registre.NextValid | interfaces/registre_interface.py:72-112 | with the crop call repaired, every frame keeps the invariant: equal buffer lengths, at most 4 until finalised and exactly 5 after, a final prediction exactly when finalised (the mean age and most common gender of the buffers), ages in [0, 116], counter in [0, 20] |
| Registre.RunValid | interfaces/registre_interface.py:64-112 | with the crop call repaired, the invariant holds after any sequence of frames |
| Registre.NextCounter | interfaces/registre_interface.py:72-116 | a frame with a face resets the counter; a faceless frame adds one, or clears prediction, buffers and counter once it would exceed 20; a face whose crop or prediction raised (caught at lines 115-116) changes nothing else |
| Registre.NextBuffers | interfaces/registre_interface.py:86-112 | with the crop call repaired: while not finalised and with a model, a face frame appends to each buffer exactly its predicted age and gender, keeps the earlier entries, and finalises exactly on the fifth; a finalised state is frozen by face frames |
| Registre.RunStep | interfaces/registre_interface.py:64 | helper: running one more frame applies one more step |
| Registre.FiveFacesFinalise | interfaces/registre_interface.py:99-112 | with the crop call repaired and a model, five face frames finalise the prediction, frozen as the mean age and most common gender of the five predictions: for one repeated network output, its own age and gender |
| Registre.RunAsWrittenNeverFinalises | interfaces/registre_interface.py:86-116 | as written, the buffers stay empty and nothing is ever finalised |
| Registre.AsWrittenNeverRegisters | interfaces/registre_interface.py:86-116 | five face frames finalise with a working crop but not as written |
| Registre.Stabiliser.constructor | interfaces/registre_interface.py:48-62 | the loop starts with empty buffers, counter 0 and no final prediction |
| Registre.Stabiliser.Step | interfaces/registre_interface.py:72-116 | with the crop call repaired, one loop iteration updates the fields as the step function says |
| Registre.Stabiliser.RunFrames | interfaces/registre_interface.py:64-116 | with the crop call repaired, the loop over frames updates the fields as the run function says |
| Camera.FirstMatchSpec | interfaces/camera_interface.py:76 | the search finds the leftmost `face_` followed by a digit, and finds none only when there is none |
| Camera.DigitRunEnd | interfaces/camera_interface.py:76-78 | `\d+` takes the whole (greedy) digit run |
| Camera.ParseIndex | interfaces/camera_interface.py:76-78 | the number written in the digits after the first `face_` that a digit follows, or None; ParseIndexSpec characterises it |
| Camera.ParseIndexSpec | interfaces/camera_interface.py:76-78 | a name parses exactly when the pattern occurs, and then to the full digit run after the leftmost match |
| Camera.NatToString | interfaces/camera_interface.py:129 | the counter is written in decimal with no leading zeros |
| Camera.NatToStringValue | interfaces/camera_interface.py:78 | reading the written digits gives back the number |
| Camera.DigitRunEndIs | interfaces/camera_interface.py:76-78 | helper: a digit run ends at the first non-digit |
| Camera.ParseFileName | interfaces/camera_interface.py:76-129 | round trip: `face_{n}.jpg` parses back to `n` |
| Camera.IndicesAt | interfaces/camera_interface.py:74-76 | helper: each name contributes its own parse |
| Camera.IndicesAppend | interfaces/camera_interface.py:74-76 | helper: the parses of two name lists concatenate |
| Camera.MaxOfSpec | interfaces/camera_interface.py:73-80 | the kept maximum bounds every index and is 0 or one of them |
| Camera.MaxIndex | interfaces/camera_interface.py:73-81 | the largest parsed index, 0 when none parses; MaxIndexSpec characterises it |
| Camera.MaxIndexSpec | interfaces/camera_interface.py:73-81 | the maximum bounds every parsed index and is 0 or one of them |
| Camera.MaxIndexIgnores | interfaces/camera_interface.py:77 | names without a match are ignored |
| Camera.NextFaceCount | interfaces/camera_interface.py:72-81 | the counter is 1 + the largest parsed index (1 when none matches), so strictly above every parsed index |
| Camera.Written | interfaces/camera_interface.py:126-132 | capturing `n` faces writes `n` names |
| Camera.CaptureFaces | interfaces/camera_interface.py:122-132 | every detected face is saved under the current counter, which goes up by one per face; each name parses back to its counter |
| Camera.WrittenParses | interfaces/camera_interface.py:129-132 | the k-th name written parses back to the start counter plus k |
| Camera.MaxOfConsecutive | interfaces/camera_interface.py:73-81 | appending the indices just above the maximum raises it by their number |
| Camera.MaxIndexConsecutive | interfaces/camera_interface.py:73-81 | appending names that parse to the indices just above the maximum raises it by their number |
| Camera.RecountAfterCapture | interfaces/camera_interface.py:72-132 | deriving the counter again after saving gives the counter the capture loop ended with |

## Left out

- Camera capture, detection, drawing, key handling and the Tk windows are device and UI code. So are the temporary-file write and read and the `encode_face` call in `recognize` (models/face_recognizer.py:75-98). The query embedding is an input.
- Every face detector box in `Registre` and `Camera` is an input. The network outputs in `AgeGender` and `Registre` are inputs too.
- The database is modelled only as rows. `get_all_embeddings` is not defined in `database/database_manager.py` and is not part of this model: its rows are an input.
- The dlib and Keras models, `set_shape_predictor`, `_approximate_shape_from_rect` and `preprocess_face` are foreign library calls.
- The random age and gender comments only format strings from a random choice.
- Printing and logging are not modelled.
- The square root is a parameter constrained by `IsSqrt`. It is not computed.
- Numbers are exact reals. float32 and float64 rounding, including that of the `1e-10` guard, is not modelled.
- FaceRecognizer.Recognizer.Recognize: under the Euclidean metric only, numpy broadcasts a length-1 array against any length, so a length-1 embedding would be compared instead of raising. The model reports a shape mismatch for every length difference. Under cosine, `np.dot` raises on such shapes, as the model says.
- FaceRecognizer.Compare: it requires equal lengths. Unequal lengths make `np.dot` raise, or broadcast a length-1 array in the Euclidean branch; the error path is modelled one level up, in `Recognize`.
- Vectors.EuclideanDistance: it requires equal lengths. numpy raises on unequal ones, or broadcasts a length-1 array, and the model does not model either path.
- FaceEncoder.CosineSimilarity: it requires equal lengths. numpy raises on unequal ones, and the model does not model that error path.
- FaceEncoder.IsMatch: it requires equal lengths, for the same reason.
- FaceEncoder.CompareEmbeddings: it requires equal lengths, for the same reason.
- FaceEncoder.EnsureRgb: the image holds integers, and `astype(np.uint8)` is modelled as wrap-around modulo 256. Float images, whose out-of-range casts numpy leaves unspecified, are not modelled.
- FaceEncoder.EnsureRgb: `cv2.cvtColor` is modelled as the exchange of channels 0 and 2.
- Preprocessing.CropFace: the pixel type is left open.
- Camera.ParseIndex: `\d` is taken as the ASCII digits 0-9. Python's `re` on strings also matches other Unicode decimal digits.
- The directory listing is an input; `glob` is not modelled.
- Camera.CaptureFaces: an empty crop makes `cv2.imwrite` raise (interfaces/camera_interface.py:127-130), and nothing catches it. The model saves every box's crop. An empty crop needs a box outside the frame, which the detector does not report.
- `face_count` at interfaces/registre_interface.py:25 counts the files and is not read by the stabilisation loop. It is not part of this model.
- `BUFFER_SIZE` (interfaces/registre_interface.py:50) is never used.
- Registre.Next: the percentage margin the registration window meant to pass to `crop_face` is not modelled. The crop only feeds the network, whose outputs are inputs.

## Findings

| source | as written | input that shows it | evidently intended | confidence | as-written member | corrected member |
|---|---|---|---|---|---|---|
| interfaces/registre_interface.py:93 | the prediction block calls `crop_face` with a keyword `margin_pct` that `crop_face` (utils/preprocessing.py:16) does not accept. The TypeError is caught (lines 115-116), so no prediction is ever buffered and registration never finalises an age and gender | five consecutive frames with a face, with the age/gender model loaded | each face frame buffers one prediction, and the fifth freezes the mean age and most common gender | not executed; high | Registre.AsWrittenNeverRegisters | Registre.FiveFacesFinalise |
| utils/preprocessing.py:25-28 | the right and bottom edges are clamped to the image size but not at 0. A negative slice stop is read from the end of the row, so a box left of the image yields a wide crop instead of an empty one | an image 100 pixels wide, box (-30, 0, 1, 1), margin 10: the crop is 81 pixels wide | a crop at most `w + 2·margin` wide, empty when the box lies outside the image | not executed; medium (detector boxes normally lie inside the frame) | Preprocessing.CropFaceAsWrittenWraps | Preprocessing.CropFaceSize |
