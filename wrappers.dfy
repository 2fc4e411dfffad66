/** Option and Result, the failure-carrying values used across the model. */
module Wrappers {

  datatype Option<+T> = None | Some(value: T)

  /** The errors the modelled Python code raises (as exceptions). */
  datatype Error =
    | ShapeMismatch      // numpy refuses to stack or combine arrays of different lengths
    | NoModelLoaded      // AgeGenderPredictor.predict without a loaded model (ValueError)
    | NotColourImage     // FaceEncoder._ensure_rgb on an image that is not (H, W, 3) (ValueError)

  datatype Result<+T> = Ok(value: T) | Err(error: Error)
}
