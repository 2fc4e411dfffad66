/**
 * `crop_face` of `utils/preprocessing.py`: clamp the margin-expanded
 * detector box to the image and slice the image with Python's slice
 * semantics. An image is a sequence of rows of `width` pixels each; the
 * pixel type is left open.
 */
module Preprocessing {

  /** A detector box `(x, y, w, h)` in pixels. */
  datatype Box = Box(x: int, y: int, w: int, h: int)

  /** The default `margin` of `crop_face`. */
  const DefaultMargin: int := 10

  /** `image`: `height` rows (`shape[0]`) of `width` pixels (`shape[1]`). */
  datatype Frame<T> = Frame(rows: seq<seq<T>>, width: nat)
  {
    predicate Valid() {
      forall i :: 0 <= i < |rows| ==> |rows[i]| == width
    }

    function Height(): nat {
      |rows|
    }
  }

  /**
   * Python's normalisation of one slice bound against a length `n`: a
   * negative bound counts from the end, and the result is clamped to [0, n].
   */
  function SliceBound(i: int, n: nat): (r: nat)
    ensures r <= n
    ensures 0 <= i <= n ==> r == i
    ensures i > n ==> r == n
    ensures i < 0 ==> r == if i + n < 0 then 0 else i + n
  {
    if i < 0 then (if i + n < 0 then 0 else i + n)
    else if i > n then n
    else i
  }

  /** The index range `[lo, hi)` that `s[start:stop]` selects from a sequence of length `n`. */
  datatype Range = Range(lo: nat, hi: nat)

  function SliceRange(start: int, stop: int, n: nat): (r: Range)
    ensures r.lo <= r.hi <= n
  {
    var lo := SliceBound(start, n);
    var hi := SliceBound(stop, n);
    if lo < hi then Range(lo, hi) else Range(lo, lo)
  }

  /** `s[start:stop]`. */
  function Slice<T>(s: seq<T>, start: int, stop: int): (r: seq<T>)
    ensures var rg := SliceRange(start, stop, |s|); r == s[rg.lo..rg.hi]
  {
    var rg := SliceRange(start, stop, |s|);
    s[rg.lo..rg.hi]
  }

  /** The corners `(x1, y1, x2, y2)` passed to the slice. */
  datatype Corners = Corners(x1: int, y1: int, x2: int, y2: int)

  /**
   * Lines 23-26 as written: the left and top edges are clamped at 0 and the
   * right and bottom edges at the image size, but the right and bottom edges
   * are not clamped at 0.
   */
  function CornersAsWritten(width: nat, height: nat, box: Box, margin: int): Corners {
    Corners(Max(box.x - margin, 0), Max(box.y - margin, 0),
      Min(box.x + box.w + margin, width), Min(box.y + box.h + margin, height))
  }

  /** The corrected corners: the right and bottom edges are also clamped at 0. */
  function ClampedCorners(width: nat, height: nat, box: Box, margin: int): Corners {
    var c := CornersAsWritten(width, height, box, margin);
    Corners(c.x1, c.y1, Max(c.x2, 0), Max(c.y2, 0))
  }

  function Max(a: int, b: int): int { if a < b then b else a }

  function Min(a: int, b: int): int { if a < b then a else b }

  /** The top and left corners are never negative; the right and bottom edges never pass the image. */
  lemma CornersBounds(width: nat, height: nat, box: Box, margin: int)
    ensures var c := CornersAsWritten(width, height, box, margin);
      0 <= c.x1 && 0 <= c.y1 && c.x2 <= width && c.y2 <= height &&
      c.x1 >= box.x - margin && c.y1 >= box.y - margin &&
      c.x2 <= box.x + box.w + margin && c.y2 <= box.y + box.h + margin
    ensures var c := ClampedCorners(width, height, box, margin);
      0 <= c.x1 && 0 <= c.y1 && 0 <= c.x2 <= width && 0 <= c.y2 <= height
  {
  }

  /** `image[y1:y2, x1:x2]`: always a (possibly empty) well-formed image. */
  function CropAt<T>(img: Frame<T>, c: Corners): (r: Frame<T>)
    requires img.Valid()
    ensures r.Valid()
    ensures var ys := SliceRange(c.y1, c.y2, img.Height());
      var xs := SliceRange(c.x1, c.x2, img.width);
      r.Height() == ys.hi - ys.lo && r.width == xs.hi - xs.lo &&
      forall i, j :: 0 <= i < r.Height() && 0 <= j < r.width ==>
        r.rows[i][j] == img.rows[ys.lo + i][xs.lo + j]
  {
    var xs := SliceRange(c.x1, c.x2, img.width);
    var rows := Slice(img.rows, c.y1, c.y2);
    Frame(seq(|rows|, i requires 0 <= i < |rows| => rows[i][xs.lo..xs.hi]), xs.hi - xs.lo)
  }

  /** `crop_face` exactly as written. */
  function CropFaceAsWritten<T>(img: Frame<T>, box: Box, margin: int := DefaultMargin): (r: Frame<T>)
    requires img.Valid()
    ensures r.Valid()
  {
    CropAt(img, CornersAsWritten(img.width, img.Height(), box, margin))
  }

  /** `crop_face` with the corrected corners. */
  function CropFace<T>(img: Frame<T>, box: Box, margin: int := DefaultMargin): (r: Frame<T>)
    requires img.Valid()
    ensures r.Valid()
  {
    CropAt(img, ClampedCorners(img.width, img.Height(), box, margin))
  }

  /**
   * As written, a box far enough to the left makes `x + w + margin`
   * negative; Python reads the negative stop from the right end, so an image
   * 100 pixels wide yields a crop 81 pixels wide for a box 1 pixel wide,
   * more than `w + 2 * margin` = 21.
   */
  lemma CropFaceAsWrittenWraps()
    ensures var img := Frame([seq(100, j => 0)], 100);
      img.Valid() && CropFaceAsWritten(img, Box(-30, 0, 1, 1), DefaultMargin).width == 81
  {
    var img := Frame([seq(100, j => 0)], 100);
    var c := CornersAsWritten(img.width, img.Height(), Box(-30, 0, 1, 1), DefaultMargin);
    assert c == Corners(0, 0, -19, 1);
    assert SliceRange(c.x1, c.x2, 100) == Range(0, 81);
  }

  /** Where no edge goes below zero, the corrected crop is the crop as written. */
  lemma CropFaceAgrees<T>(img: Frame<T>, box: Box, margin: int)
    requires img.Valid()
    requires 0 <= box.x + box.w + margin && 0 <= box.y + box.h + margin
    ensures CropFace(img, box, margin) == CropFaceAsWritten(img, box, margin)
  {
    assert ClampedCorners(img.width, img.Height(), box, margin)
      == CornersAsWritten(img.width, img.Height(), box, margin);
  }

  /**
   * The corrected crop is at most `h + 2 * margin` rows by `w + 2 * margin`
   * columns, and it is empty (not an error) when `x1 >= x2` or `y1 >= y2`.
   */
  lemma CropFaceSize<T>(img: Frame<T>, box: Box, margin: int)
    requires img.Valid()
    ensures var r := CropFace(img, box, margin);
      r.Height() <= Max(box.h + 2 * margin, 0) && r.width <= Max(box.w + 2 * margin, 0)
    ensures var c := ClampedCorners(img.width, img.Height(), box, margin);
      var r := CropFace(img, box, margin);
      (c.x1 >= c.x2 ==> r.width == 0) && (c.y1 >= c.y2 ==> r.Height() == 0)
  {
    CornersBounds(img.width, img.Height(), box, margin);
  }

  /**
   * When the margin-expanded box lies inside the image, the crop is exactly
   * rows `[y - margin, y + h + margin)` by columns `[x - margin, x + w + margin)`.
   */
  lemma CropFaceInside<T>(img: Frame<T>, box: Box, margin: int)
    requires img.Valid()
    requires 0 <= box.x - margin <= box.x + box.w + margin <= img.width
    requires 0 <= box.y - margin <= box.y + box.h + margin <= img.Height()
    ensures var r := CropFace(img, box, margin);
      r.Height() == box.h + 2 * margin && r.width == box.w + 2 * margin &&
      forall i, j :: 0 <= i < r.Height() && 0 <= j < r.width ==>
        r.rows[i][j] == img.rows[box.y - margin + i][box.x - margin + j]
  {
    var c := ClampedCorners(img.width, img.Height(), box, margin);
    assert c == Corners(box.x - margin, box.y - margin, box.x + box.w + margin, box.y + box.h + margin);
  }
}
