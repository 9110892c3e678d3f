/** The frame-differencing detector as a specification: one step per decoded
    frame, a run over a sequence of frames, and a stateless reference that
    compares each frame with the one just before it. */
module Detection {
  import opened Wrappers
  import opened Pixels

  /** The OpenCV calls whose internals are not modelled. `luma` is the per-pixel
      weighting of `cv2.cvtColor(..., COLOR_BGR2GRAY)`; `contourAreas` gives, in
      extraction order, the `cv2.contourArea` of each external contour that
      `cv2.findContours(mask, RETR_EXTERNAL, CHAIN_APPROX_SIMPLE)` finds. */
  datatype Vision = Vision(luma: Bgr -> Byte, contourAreas: Image -> seq<real>)

  /** A contour counts as motion when its area is strictly above this. */
  const AreaThreshold: real := 500.0

  datatype Failure =
    | NoVideoSelected  // the capture is `None`: Python raises AttributeError
    | SizeMismatch     // `cv2.absdiff` raises on frames of different sizes

  /** What `contourAreas` must satisfy for the "no change, no motion" property:
      an all-zero mask has no contour. */
  ghost predicate BlankHasNoContours(lib: Vision) {
    forall m: Image :: IsBlank(m) ==> lib.contourAreas(m) == []
  }

  function Luma(lib: Vision, p: Bgr): Byte {
    lib.luma(p)
  }

  /** `cv2.cvtColor(frame, COLOR_BGR2GRAY)`. */
  function Gray(lib: Vision, f: Frame): (g: Image)
    ensures SameSize(g, f)
  {
    var samples: seq<Byte> := seq(|f.pixels|, k requires 0 <= k < |f.pixels| => Luma(lib, f.pixels[k]));
    var g: Raster<Byte> := Raster(f.width, f.height, samples);
    assert WellFormed(g) by { assert WellFormed(f); }
    g
  }

  predicate AnyExceeds(areas: seq<real>, cutoff: real) {
    exists k :: 0 <= k < |areas| && areas[k] > cutoff
  }

  /** The inner `for contour in contours` loop: stops at the first contour whose
      area is above the cutoff. `examined` is how many areas were computed. */
  method IsSignificant(areas: seq<real>) returns (motionDetected: bool, examined: nat)
    ensures motionDetected <==> AnyExceeds(areas, AreaThreshold)
    ensures examined <= |areas|
    ensures motionDetected ==> examined > 0 && areas[examined - 1] > AreaThreshold
    ensures !motionDetected ==> examined == |areas|
    ensures forall k :: 0 <= k < examined - 1 ==> areas[k] <= AreaThreshold
  {
    motionDetected := false;
    examined := 0;
    while examined < |areas|
      invariant examined <= |areas|
      invariant !motionDetected
      invariant forall k :: 0 <= k < examined ==> areas[k] <= AreaThreshold
    {
      var area := areas[examined];
      examined := examined + 1;
      if area > AreaThreshold {
        motionDetected := true;
        break;
      }
    }
  }

  /** Whether `cur` is flagged when compared with `prev`. */
  predicate Flags(lib: Vision, prev: Image, cur: Image)
    requires SameSize(prev, cur)
  {
    AnyExceeds(lib.contourAreas(MotionMask(AbsDiff(prev, cur).value)), AreaThreshold)
  }

  /** The detector's fields: `previous_frame`, `processed_frames` and
      `motion_detected_frames`. */
  datatype DetectorState = DetectorState(previous: Option<Image>, processed: nat, detected: seq<Frame>)

  /** The state after a video is selected and analysis is started. */
  function Fresh(): DetectorState {
    DetectorState(None, 0, [])
  }

  /** One pass of the `while` loop's body for a frame that was read. */
  function Step(lib: Vision, s: DetectorState, frame: Frame): Result<DetectorState, Failure> {
    var gray := Gray(lib, frame);
    match s.previous
    case None => Ok(DetectorState(Some(gray), s.processed, s.detected))
    case Some(prev) =>
      if !SameSize(prev, gray) then Err(SizeMismatch)
      else
        Ok(DetectorState(Some(gray), s.processed + 1,
          if Flags(lib, prev, gray) then s.detected + [frame] else s.detected))
  }

  /** The loop over frames read in order; the first failure ends it. */
  function Run(lib: Vision, s: DetectorState, frames: seq<Frame>): Result<DetectorState, Failure>
    decreases |frames|
  {
    if frames == [] then Ok(s)
    else
      match Run(lib, s, frames[..|frames| - 1])
      case Err(e) => Err(e)
      case Ok(t) => Step(lib, t, frames[|frames| - 1])
  }

  /** The frames a decoder yields before its first failed read. */
  function ReadablePrefix(attempts: seq<Option<Frame>>): (frames: seq<Frame>)
    ensures |frames| <= |attempts|
    ensures forall k :: 0 <= k < |frames| ==> attempts[k] == Some(frames[k])
    ensures |frames| < |attempts| ==> attempts[|frames|].None?
  {
    if attempts == [] || attempts[0].None? then []
    else [attempts[0].value] + ReadablePrefix(attempts[1..])
  }

  /** The number of comparisons made on `n` frames from a fresh state. */
  function Comparisons(n: nat): nat {
    if n == 0 then 0 else n - 1
  }

  /** All frames of a stream have the resolution of its first frame. */
  predicate UniformSize(frames: seq<Frame>) {
    forall j :: 0 <= j < |frames| ==> SameSize(frames[j], frames[0])
  }

  /** The reference definition: the source indices of the frames that differ
      significantly from the frame immediately before them. */
  function FlaggedIndices(lib: Vision, frames: seq<Frame>): (r: seq<nat>)
    requires UniformSize(frames)
    ensures forall k :: 0 <= k < |r| ==> 1 <= r[k] < |frames|
    ensures forall k, l :: 0 <= k < l < |r| ==> r[k] < r[l]
    ensures forall j :: 1 <= j < |frames| ==>
              (j in r <==> Flags(lib, Gray(lib, frames[j - 1]), Gray(lib, frames[j])))
    decreases |frames|
  {
    if |frames| < 2 then []
    else
      var n := |frames|;
      var init := frames[..n - 1];
      assert forall j :: 0 <= j < n - 1 ==> init[j] == frames[j];
      FlaggedIndices(lib, init) +
        (if Flags(lib, Gray(lib, frames[n - 2]), Gray(lib, frames[n - 1])) then [n - 1] else [])
  }

  /** The elements of `xs` at the positions `idx`, in the order of `idx`. */
  function Pick<T>(xs: seq<T>, idx: seq<nat>): seq<T>
    requires forall k :: 0 <= k < |idx| ==> idx[k] < |xs|
  {
    seq(|idx|, k requires 0 <= k < |idx| => xs[idx[k]])
  }

  /** Every frame after the first adds one comparison, the previous frame is the
      grayscale of the last frame read, and detections are only appended, at most
      one per comparison. */
  lemma {:induction false} RunCountsComparisons(lib: Vision, s: DetectorState, frames: seq<Frame>)
    ensures Run(lib, s, frames).Ok? ==>
              var t := Run(lib, s, frames).value;
              t.processed == s.processed + |frames| - (if s.previous.None? && frames != [] then 1 else 0) &&
              (frames == [] ==> t.previous == s.previous) &&
              (frames != [] ==> t.previous == Some(Gray(lib, frames[|frames| - 1]))) &&
              s.detected <= t.detected &&
              |t.detected| - |s.detected| <= t.processed - s.processed
    decreases |frames|
  {
    if frames != [] {
      RunCountsComparisons(lib, s, frames[..|frames| - 1]);
    }
  }

  /** Once a step fails, the run has failed: no later frame is processed. */
  lemma {:induction false} RunErrorIsFinal(lib: Vision, s: DetectorState, frames: seq<Frame>, k: nat)
    requires k <= |frames| && Run(lib, s, frames[..k]).Err?
    ensures Run(lib, s, frames) == Run(lib, s, frames[..k])
    decreases |frames|
  {
    if k < |frames| {
      var init := frames[..|frames| - 1];
      assert init[..k] == frames[..k];
      RunErrorIsFinal(lib, s, init, k);
    } else {
      assert frames[..k] == frames;
    }
  }

  lemma PickExtend<T>(xs: seq<T>, x: T, idx: seq<nat>)
    requires forall k :: 0 <= k < |idx| ==> idx[k] < |xs|
    ensures Pick(xs + [x], idx) == Pick(xs, idx)
    ensures Pick(xs + [x], idx + [|xs|]) == Pick(xs, idx) + [x]
  {
  }

  /** The reference outcome of a run from a fresh state: it fails exactly when
      the stream changes resolution; otherwise every consecutive pair has been
      compared, the last grayscale frame is kept and the collected frames are
      those that differ significantly from their predecessor, in stream order. */
  function Pairwise(lib: Vision, frames: seq<Frame>): Result<DetectorState, Failure> {
    if !UniformSize(frames) then Err(SizeMismatch)
    else Ok(DetectorState(
      if frames == [] then None else Some(Gray(lib, frames[|frames| - 1])),
      Comparisons(|frames|),
      Pick(frames, FlaggedIndices(lib, frames))))
  }

  /** The state machine computes the stateless reference. */
  lemma {:induction false} RunFromFreshIsPairwise(lib: Vision, frames: seq<Frame>)
    ensures Run(lib, Fresh(), frames) == Pairwise(lib, frames)
    decreases |frames|
  {
    if frames != [] {
      var n := |frames|;
      var init, f := frames[..n - 1], frames[n - 1];
      assert frames == init + [f];
      RunFromFreshIsPairwise(lib, init);
      if !UniformSize(init) {
        var j :| 0 <= j < |init| && !SameSize(init[j], init[0]);
        assert init[j] == frames[j] && init[0] == frames[0];
      } else if n == 1 {
        assert UniformSize(frames);
        assert Run(lib, Fresh(), frames) == Step(lib, Fresh(), f);
        assert Pick(frames, FlaggedIndices(lib, frames)) == [];
      } else {
        PairwiseExtend(lib, init, f);
      }
    } else {
      assert Pick(frames, FlaggedIndices(lib, frames)) == [];
    }
  }

  lemma PairwiseExtend(lib: Vision, init: seq<Frame>, f: Frame)
    requires |init| >= 1 && UniformSize(init)
    requires Run(lib, Fresh(), init) == Pairwise(lib, init)
    ensures Run(lib, Fresh(), init + [f]) == Pairwise(lib, init + [f])
  {
    var frames := init + [f];
    var n := |frames|;
    assert frames[..n - 1] == init;
    assert frames[n - 2] == init[n - 2] && frames[0] == init[0];
    var prev, cur := Gray(lib, frames[n - 2]), Gray(lib, f);
    var idx := FlaggedIndices(lib, init);
    var t := DetectorState(Some(prev), Comparisons(n - 1), Pick(init, idx));
    assert Run(lib, Fresh(), frames) == Step(lib, t, f);
    if SameSize(f, frames[0]) {
      assert UniformSize(frames) by {
        forall j | 0 <= j < n ensures SameSize(frames[j], frames[0]) {
          if j < n - 1 { assert frames[j] == init[j]; }
        }
      }
      var flagged := Flags(lib, prev, cur);
      assert FlaggedIndices(lib, frames) == idx + (if flagged then [n - 1] else []);
      PickExtend(init, f, idx);
      var picked := Pick(init, idx) + (if flagged then [f] else []);
      assert SameSize(init[n - 2], init[0]);
      assert SameSize(prev, cur);
      assert Pick(frames, FlaggedIndices(lib, frames)) == picked;
      assert t.previous == Some(prev);
      assert Step(lib, t, f) == Ok(DetectorState(Some(cur), t.processed + 1,
        if flagged then t.detected + [f] else t.detected));
      assert t.processed + 1 == Comparisons(n);
      assert (if flagged then t.detected + [f] else t.detected) == picked;
    } else {
      assert !UniformSize(frames);
    }
  }

  /** A change no pixel of which exceeds the difference cutoff is never flagged. */
  lemma SmallChangeNeverFlagged(lib: Vision, a: Image, b: Image)
    requires BlankHasNoContours(lib)
    requires SameSize(a, b)
    requires forall k :: 0 <= k < |a.pixels| ==> Dist(a.pixels[k], b.pixels[k]) <= DiffThreshold
    ensures !Flags(lib, a, b)
  {
    var diff := AbsDiff(a, b).value;
    MaskBlankIffNoChange(diff);
    assert IsBlank(MotionMask(diff));
  }

  /** Two identical consecutive grayscale frames are never flagged. */
  lemma IdenticalFramesNeverFlagged(lib: Vision, g: Image)
    requires BlankHasNoContours(lib)
    ensures !Flags(lib, g, g)
  {
    SmallChangeNeverFlagged(lib, g, g);
  }

  /** A stream whose grayscale never changes yields comparisons but no detection. */
  lemma StaticSceneDetectsNothing(lib: Vision, frames: seq<Frame>)
    requires BlankHasNoContours(lib)
    requires forall j :: 0 < j < |frames| ==> Gray(lib, frames[j]) == Gray(lib, frames[j - 1])
    ensures Run(lib, Fresh(), frames) == Ok(DetectorState(
              if frames == [] then None else Some(Gray(lib, frames[|frames| - 1])),
              Comparisons(|frames|), []))
  {
    forall j | 0 <= j < |frames|
      ensures SameSize(frames[j], frames[0])
    {
      SameGraySize(lib, frames, j);
    }
    RunFromFreshIsPairwise(lib, frames);
    assert UniformSize(frames);
    var r := FlaggedIndices(lib, frames);
    if r != [] {
      assert r[0] in r;
      IdenticalFramesNeverFlagged(lib, Gray(lib, frames[r[0] - 1]));
    }
  }

  lemma {:induction false} SameGraySize(lib: Vision, frames: seq<Frame>, j: nat)
    requires j < |frames|
    requires forall i :: 0 < i < |frames| ==> Gray(lib, frames[i]) == Gray(lib, frames[i - 1])
    ensures SameSize(frames[j], frames[0])
  {
    if j > 0 {
      SameGraySize(lib, frames, j - 1);
      assert Gray(lib, frames[j]) == Gray(lib, frames[j - 1]);
    }
  }
}
