/**
  The overlap of two grey-scale images from `mujtaba_charm.analysis.image`:
  a pixel of the result is set exactly where both images are dark.
  An image is a grid of pixel intensities, row by row.
 */
module Image {

  type Grid = seq<seq<int>>
  type Mask = seq<seq<bool>>

  /** Pixels strictly below this intensity count as dark (ink on a white page). */
  const DarkThreshold: int := 128

  /** The intensity of the white background a digit is drawn on. */
  const White: int := 255

  predicate IsDark(p: int) { p < DarkThreshold }

  /** Two grids with the same number of rows, and row by row the same number of columns. */
  predicate SameShape<T, U>(a: seq<seq<T>>, b: seq<seq<U>>) {
    |a| == |b| && forall i :: 0 <= i < |a| ==> |a[i]| == |b[i]|
  }

  /** One row of the overlap: element-wise "both dark". */
  function OverlapRow(r1: seq<int>, r2: seq<int>): (o: seq<bool>)
    requires |r1| == |r2|
    ensures |o| == |r1|
    ensures forall j :: 0 <= j < |o| ==> (o[j] <==> IsDark(r1[j]) && IsDark(r2[j]))
  {
    seq(|r1|, j requires 0 <= j < |r1| => IsDark(r1[j]) && IsDark(r2[j]))
  }

  /**
    `get_image_overlapping(img1, img2)`: a new mask of the inputs' shape whose
    pixel (i, j) is set exactly when both images are dark at (i, j).
   */
  function Overlap(img1: Grid, img2: Grid): (o: Mask)
    requires SameShape(img1, img2)
    ensures SameShape(o, img1)
    ensures forall i, j :: 0 <= i < |o| && 0 <= j < |o[i]| ==>
              (o[i][j] <==> IsDark(img1[i][j]) && IsDark(img2[i][j]))
  {
    seq(|img1|, i requires 0 <= i < |img1| => OverlapRow(img1[i], img2[i]))
  }

  /** The dark pixels of one image. */
  function DarkMask(img: Grid): (m: Mask)
    ensures SameShape(m, img)
    ensures forall i, j :: 0 <= i < |m| && 0 <= j < |m[i]| ==> (m[i][j] <==> IsDark(img[i][j]))
  {
    seq(|img|, i requires 0 <= i < |img| => seq(|img[i]|, j requires 0 <= j < |img[i]| => IsDark(img[i][j])))
  }

  /** A blank page of the given image's shape: every pixel white. */
  function BlankLike(img: Grid): (w: Grid)
    ensures SameShape(w, img)
    ensures forall i, j :: 0 <= i < |w| && 0 <= j < |w[i]| ==> w[i][j] == White
  {
    seq(|img|, i requires 0 <= i < |img| => seq(|img[i]|, _ => White))
  }

  /** A mask with no pixel set. */
  predicate IsEmptyMask(m: Mask) {
    forall i, j :: 0 <= i < |m| && 0 <= j < |m[i]| ==> !m[i][j]
  }

  /** The threshold is strict: a pixel of intensity 128 in either image is never in the overlap. */
  lemma ThresholdIsStrict(img1: Grid, img2: Grid, i: int, j: int)
    requires SameShape(img1, img2)
    requires 0 <= i < |img1| && 0 <= j < |img1[i]|
    requires img1[i][j] == 128 || img2[i][j] == 128
    ensures !Overlap(img1, img2)[i][j]
  {
  }

  /** Overlap does not depend on the order of the two images. */
  lemma OverlapSymmetric(img1: Grid, img2: Grid)
    requires SameShape(img1, img2)
    ensures Overlap(img1, img2) == Overlap(img2, img1)
  {
    var o, p := Overlap(img1, img2), Overlap(img2, img1);
    forall i | 0 <= i < |o| ensures o[i] == p[i] {
      assert |o[i]| == |p[i]|;
    }
  }

  /** Overlap is the pixel-wise conjunction of the two images' dark masks. */
  lemma OverlapOfMasks(img1: Grid, img2: Grid)
    requires SameShape(img1, img2)
    ensures var o, m1, m2 := Overlap(img1, img2), DarkMask(img1), DarkMask(img2);
            forall i, j :: 0 <= i < |o| && 0 <= j < |o[i]| ==> (o[i][j] <==> m1[i][j] && m2[i][j])
  {
  }

  /** An image overlaps itself exactly in its own dark pixels. */
  lemma OverlapSelf(img: Grid)
    ensures Overlap(img, img) == DarkMask(img)
  {
    var o, m := Overlap(img, img), DarkMask(img);
    forall i | 0 <= i < |o| ensures o[i] == m[i] {
      assert |o[i]| == |m[i]|;
    }
  }

  /** Nothing overlaps a blank white page. */
  lemma OverlapBlank(img: Grid)
    ensures SameShape(img, BlankLike(img))
    ensures IsEmptyMask(Overlap(img, BlankLike(img)))
  {
  }

  /** Every overlap pixel is dark in both images: the overlap lies inside each dark mask. */
  lemma OverlapWithinEach(img1: Grid, img2: Grid, i: int, j: int)
    requires SameShape(img1, img2)
    requires 0 <= i < |img1| && 0 <= j < |img1[i]|
    requires Overlap(img1, img2)[i][j]
    ensures DarkMask(img1)[i][j] && DarkMask(img2)[i][j]
  {
  }
}
