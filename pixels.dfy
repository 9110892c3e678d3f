/** Pixel rasters and the two OpenCV operations of the detector whose arithmetic
    is fully determined: `cv2.absdiff` and `cv2.threshold` with `THRESH_BINARY`. */
module Pixels {
  import opened Wrappers

  /** An unsigned 8-bit sample (OpenCV's `CV_8U` depth). */
  type Byte = x: int | 0 <= x < 256

  /** One colour pixel, in OpenCV's default blue-green-red channel order. */
  datatype Bgr = Bgr(blue: Byte, green: Byte, red: Byte)

  /** A buffer of `width * height` pixels stored row by row. */
  datatype Raster<P> = Raster(width: nat, height: nat, pixels: seq<P>)

  predicate WellFormed<P>(r: Raster<P>) {
    |r.pixels| == r.width * r.height
  }

  /** A single-channel (grayscale, difference or mask) image. */
  type Image = r: Raster<Byte> | WellFormed(r) witness Raster(0, 0, [])

  /** A decoded colour video frame. */
  type Frame = r: Raster<Bgr> | WellFormed(r) witness Raster(0, 0, [])

  predicate SameSize<P, Q>(a: Raster<P>, b: Raster<Q>) {
    a.width == b.width && a.height == b.height
  }

  predicate IsBlank(m: Image) {
    forall k :: 0 <= k < |m.pixels| ==> m.pixels[k] == 0
  }

  /** The distance between two samples, computed without leaving the byte range. */
  function Dist(a: Byte, b: Byte): Byte {
    if a < b then b - a else a - b
  }

  /** `cv2.absdiff` of two 8-bit images. OpenCV raises when the sizes differ;
      that case is `None` here. */
  function AbsDiff(a: Image, b: Image): Option<Image> {
    if SameSize(a, b) then
      var d: Image := Raster(a.width, a.height,
        seq(|a.pixels|, k requires 0 <= k < |a.pixels| => Dist(a.pixels[k], b.pixels[k])));
      Some(d)
    else
      None
  }

  /** `cv2.threshold(src, thresh, maxval, THRESH_BINARY)`: `maxval` where the
      sample is strictly above `thresh`, 0 elsewhere. */
  function BinaryThreshold(src: Image, thresh: Byte, maxval: Byte): Image {
    Raster(src.width, src.height,
      seq(|src.pixels|, k requires 0 <= k < |src.pixels| =>
        if src.pixels[k] > thresh then maxval else 0))
  }

  /** The cutoff the detector applies to the difference image. */
  const DiffThreshold: Byte := 30

  /** The value of a changed pixel in the mask. */
  const MaskValue: Byte := 255

  /** The binary motion mask the detector builds from a difference image. */
  function MotionMask(diff: Image): Image {
    BinaryThreshold(diff, DiffThreshold, MaskValue)
  }

  /** `absdiff` fails exactly on a size mismatch, and otherwise keeps the size. */
  lemma AbsDiffDefinedIffSameSize(a: Image, b: Image)
    ensures AbsDiff(a, b).Some? <==> SameSize(a, b)
    ensures AbsDiff(a, b).Some? ==> SameSize(AbsDiff(a, b).value, a)
  {
  }

  /** The difference does not depend on the order of its operands. */
  lemma AbsDiffSymmetric(a: Image, b: Image)
    ensures AbsDiff(a, b) == AbsDiff(b, a)
  {
    if SameSize(a, b) {
      assert AbsDiff(a, b).value.pixels == AbsDiff(b, a).value.pixels;
    }
  }

  /** Two images of one size have an all-zero difference exactly when they are equal. */
  lemma AbsDiffBlankIffEqual(a: Image, b: Image)
    requires SameSize(a, b)
    ensures IsBlank(AbsDiff(a, b).value) <==> a == b
  {
    var d := AbsDiff(a, b).value;
    if IsBlank(d) {
      forall k | 0 <= k < |a.pixels|
        ensures a.pixels[k] == b.pixels[k]
      {
        assert d.pixels[k] == 0;
      }
      assert a.pixels == b.pixels;
    }
  }

  /** A pixel of the motion mask is set (255) exactly where the two images differ
      by more than the cutoff in either direction, and is 0 everywhere else. */
  lemma MaskMarksChangedPixels(a: Image, b: Image, k: nat)
    requires SameSize(a, b) && k < |a.pixels|
    ensures SameSize(MotionMask(AbsDiff(a, b).value), a)
    ensures |MotionMask(AbsDiff(a, b).value).pixels| == |a.pixels|
    ensures MotionMask(AbsDiff(a, b).value).pixels[k] == 255 <==>
              a.pixels[k] as int - b.pixels[k] as int > 30 || b.pixels[k] as int - a.pixels[k] as int > 30
    ensures MotionMask(AbsDiff(a, b).value).pixels[k] != 255 ==>
              MotionMask(AbsDiff(a, b).value).pixels[k] == 0
  {
  }

  /** The mask is blank exactly when no difference sample exceeds the cutoff. */
  lemma MaskBlankIffNoChange(diff: Image)
    ensures IsBlank(MotionMask(diff)) <==>
              forall k :: 0 <= k < |diff.pixels| ==> diff.pixels[k] <= DiffThreshold
  {
    var m := MotionMask(diff);
    if IsBlank(m) {
      forall k | 0 <= k < |diff.pixels|
        ensures diff.pixels[k] <= DiffThreshold
      {
        assert m.pixels[k] == 0;
      }
    }
  }
}
