/** The application object: the capture it reads from, the detector fields it
    updates in place, and the files it writes once the stream ends. */
module App {
  import opened Wrappers
  import opened Pixels
  import opened Naming
  import opened Detection

  /** A `cv2.VideoCapture`: whether it is open, and what its successive reads
      return (`None` for a read that fails). Reading past the end fails. */
  class Capture {
    var isOpen: bool
    var pending: seq<Option<Frame>>

    constructor (opens: bool, attempts: seq<Option<Frame>>)
      ensures isOpen == opens && pending == attempts
    {
      isOpen := opens;
      pending := attempts;
    }

    function IsOpened(): bool
      reads this
    {
      isOpen
    }

    /** `cap.read()`: the next decoded frame, or `None`; a closed capture reads nothing. */
    method Read() returns (r: Option<Frame>)
      modifies this
      ensures isOpen == old(isOpen)
      ensures !isOpen || old(pending) == [] ==> r.None? && pending == old(pending)
      ensures isOpen && old(pending) != [] ==> r == old(pending)[0] && pending == old(pending)[1..]
    {
      if !isOpen || pending == [] {
        r := None;
      } else {
        r := pending[0];
        pending := pending[1..];
      }
    }

    /** `cap.release()`. */
    method Release()
      modifies this
      ensures !isOpen && pending == old(pending)
    {
      isOpen := false;
    }
  }

  /** One `cv2.imwrite(path, image)` the run performs. */
  datatype Written = Written(path: string, image: Frame)

  /** The writes of the final loop, one per detection in accumulation order. */
  function Outputs(dir: string, videoPath: string, detected: seq<Frame>): seq<Written> {
    seq(|detected|, k requires 0 <= k < |detected| => Written(OutputPath(dir, videoPath, k), detected[k]))
  }

  /** The k-th write stores the k-th detection under the k-th name, and no two
      writes share a path. */
  lemma OutputsOrderedAndDistinct(dir: string, videoPath: string, detected: seq<Frame>)
    ensures |Outputs(dir, videoPath, detected)| == |detected|
    ensures forall k :: 0 <= k < |detected| ==>
              Outputs(dir, videoPath, detected)[k].image == detected[k] &&
              Outputs(dir, videoPath, detected)[k].path == Join(dir, FrameName(BaseName(videoPath), k))
    ensures forall k, l :: 0 <= k < l < |detected| ==>
              Outputs(dir, videoPath, detected)[k].path != Outputs(dir, videoPath, detected)[l].path
  {
    forall k, l | 0 <= k < l < |detected|
      ensures Outputs(dir, videoPath, detected)[k].path != Outputs(dir, videoPath, detected)[l].path
    {
      OutputPathsDistinct(dir, videoPath, k, l);
    }
  }

  class MotionDetectionApp {
    const lib: Vision
    const outputDirectory: string
    var videoPath: string
    var cap: Capture?
    var previousFrame: Option<Image>
    var motionDetectedFrames: seq<Frame>
    var processedFrames: nat

    /** The detector fields as one value. */
    function State(): DetectorState
      reads this
    {
      DetectorState(previousFrame, processedFrames, motionDetectedFrames)
    }

    constructor (lib: Vision)
      ensures this.lib == lib && outputDirectory == "yakalanan_hareketler"
      ensures videoPath == "" && cap == null
      ensures State() == Fresh()
    {
      this.lib := lib;
      outputDirectory := "yakalanan_hareketler";
      videoPath := "";
      cap := null;
      previousFrame := None;
      motionDetectedFrames := [];
      processedFrames := 0;
    }

    /** Choosing a video: a new capture, a cleared detector (the comparison count
        is kept) and one preview read; when that read fails the capture is
        released, and an unopened capture is dropped. */
    method SelectVideo(filePath: string, opens: bool, attempts: seq<Option<Frame>>)
      modifies this
      ensures filePath == "" ==> videoPath == old(videoPath) && cap == old(cap) && State() == old(State())
      ensures filePath != "" ==>
                videoPath == filePath &&
                State() == DetectorState(None, old(processedFrames), []) &&
                (opens ==> (cap != null && fresh(cap) &&
                   cap.isOpen == (attempts != [] && attempts[0].Some?) &&
                   cap.pending == (if attempts == [] then [] else attempts[1..]))) &&
                (!opens ==> cap == null)
    {
      if filePath != "" {
        videoPath := filePath;
        var c := new Capture(opens, attempts);
        cap := c;
        previousFrame := None;
        motionDetectedFrames := [];
        if c.IsOpened() {
          var preview := c.Read();
          if preview.None? {
            c.Release();
          }
        } else {
          cap := null;
        }
      }
    }

    /** The loop body for one frame that was read. */
    method ProcessFrame(frame: Frame) returns (outcome: Outcome<Failure>)
      modifies this`previousFrame, this`processedFrames, this`motionDetectedFrames
      ensures match Step(lib, old(State()), frame)
              case Ok(t) => outcome == Pass && State() == t
              case Err(e) => outcome == Fail(e) && State() == old(State())
    {
      var grayFrame := Gray(lib, frame);
      if previousFrame.Some? {
        var diff := AbsDiff(previousFrame.value, grayFrame);
        if diff.None? {
          return Fail(SizeMismatch);
        }
        var thresholded := MotionMask(diff.value);
        var motionDetected, _ := IsSignificant(lib.contourAreas(thresholded));
        if motionDetected {
          motionDetectedFrames := motionDetectedFrames + [frame];
        }
        processedFrames := processedFrames + 1;
      }
      previousFrame := Some(grayFrame);
      return Pass;
    }

    /** The `while self.cap.isOpened()` loop: reads until the first failed read
        and runs each frame through the detector. A size mismatch stops it
        where it happens. `consumed` is the frames that were processed. */
    method AnalyseStream(capture: Capture) returns (outcome: Outcome<Failure>, ghost consumed: seq<Frame>)
      modifies this`previousFrame, this`processedFrames, this`motionDetectedFrames, capture
      ensures capture.isOpen == old(capture.isOpen)
      ensures var frames := if old(capture.isOpen) then ReadablePrefix(old(capture.pending)) else [];
              outcome.Pass? ==>
                consumed == frames &&
                Run(lib, old(State()), frames) == Ok(State()) &&
                capture.pending == (if !old(capture.isOpen) then old(capture.pending)
                                    else if |frames| < |old(capture.pending)| then old(capture.pending)[|frames| + 1..]
                                    else [])
      ensures var frames := if old(capture.isOpen) then ReadablePrefix(old(capture.pending)) else [];
              outcome.Fail? ==>
                outcome.error == SizeMismatch &&
                |consumed| < |frames| && consumed == frames[..|consumed|] &&
                Run(lib, old(State()), consumed) == Ok(State()) &&
                Step(lib, State(), frames[|consumed|]) == Err(SizeMismatch) &&
                Run(lib, old(State()), frames).Err? &&
                old(capture.isOpen) && capture.pending == old(capture.pending)[|consumed| + 1..]
    {
      ghost var s0 := State();
      ghost var attempts := capture.pending;
      ghost var all := ReadablePrefix(attempts);
      consumed := [];
      while capture.IsOpened()
        invariant capture.isOpen == old(capture.isOpen)
        invariant |consumed| <= |all| && consumed == all[..|consumed|]
        invariant capture.pending == attempts[|consumed|..]
        invariant !capture.isOpen ==> consumed == []
        invariant Run(lib, s0, consumed) == Ok(State())
        decreases |capture.pending|
      {
        var r := capture.Read();
        if r.None? {
          assert |consumed| == |all|;
          break;
        }
        assert |consumed| < |all| && r.value == all[|consumed|] by {
          assert r == attempts[|consumed|];
        }
        assert all[..|consumed| + 1] == consumed + [r.value];
        assert capture.isOpen && capture.pending == attempts[|consumed| + 1..];
        outcome := ProcessFrame(r.value);
        if outcome.Fail? {
          assert Step(lib, State(), r.value) == Err(SizeMismatch) && outcome.error == SizeMismatch;
          assert Run(lib, s0, all[..|consumed| + 1]).Err?;
          RunErrorIsFinal(lib, s0, all, |consumed| + 1);
          return;
        }
        consumed := consumed + [r.value];
      }
      assert consumed == (if old(capture.isOpen) then all else []);
      outcome := Pass;
    }

    /** `detect_motion_frames`: the reading loop, then the release of the
        capture and the writes of the detections. A size mismatch aborts the run
        where it happens: the capture stays open and nothing is written. */
    method DetectMotionFrames() returns (result: Result<seq<Written>, Failure>)
      modifies this`previousFrame, this`processedFrames, this`motionDetectedFrames, cap
      ensures old(cap) == null ==> result == Err(NoVideoSelected) && State() == old(State())
      ensures old(cap) != null ==>
                var frames := if old(cap.isOpen) then ReadablePrefix(old(cap.pending)) else [];
                (result.Ok? <==> Run(lib, old(State()), frames).Ok?) &&
                (result.Ok? ==>
                   State() == Run(lib, old(State()), frames).value &&
                   result.value == Outputs(outputDirectory, videoPath, motionDetectedFrames) &&
                   !cap.isOpen &&
                   cap.pending == (if !old(cap.isOpen) then old(cap.pending)
                                   else if |frames| < |old(cap.pending)| then old(cap.pending)[|frames| + 1..]
                                   else [])) &&
                (result.Err? ==>
                   result.error == SizeMismatch && cap.isOpen == old(cap.isOpen) &&
                   exists k :: 0 <= k < |frames| &&
                     Run(lib, old(State()), frames[..k]) == Ok(State()) &&
                     Step(lib, State(), frames[k]) == Err(SizeMismatch) &&
                     cap.pending == old(cap.pending)[k + 1..])
    {
      if cap == null {
        return Err(NoVideoSelected);
      }
      var capture := cap;
      ghost var frames := if capture.isOpen then ReadablePrefix(capture.pending) else [];
      var outcome, consumed := AnalyseStream(capture);
      if outcome.Fail? {
        ghost var k := |consumed|;
        assert consumed == frames[..k];
        assert Run(lib, old(State()), frames[..k]) == Ok(State()) &&
               Step(lib, State(), frames[k]) == Err(SizeMismatch) &&
               cap.pending == old(cap.pending)[k + 1..];
        return Err(outcome.error);
      }
      capture.Release();
      var written := SaveDetections();
      return Ok(written);
    }

    /** The final `for i, frame in enumerate(...)` loop: one write per
        detection, in accumulation order. */
    method SaveDetections() returns (written: seq<Written>)
      ensures written == Outputs(outputDirectory, videoPath, motionDetectedFrames)
    {
      written := [];
      for i := 0 to |motionDetectedFrames|
        invariant |written| == i
        invariant forall k :: 0 <= k < i ==>
                    written[k] == Written(OutputPath(outputDirectory, videoPath, k), motionDetectedFrames[k])
      {
        written := written + [Written(OutputPath(outputDirectory, videoPath, i), motionDetectedFrames[i])];
      }
    }

    /** The "Analiz Et" button without its thread: the comparison count is reset
        and the detection loop runs to completion. */
    method DetectMotion() returns (result: Result<seq<Written>, Failure>)
      modifies this`previousFrame, this`processedFrames, this`motionDetectedFrames, cap
      ensures old(cap) == null ==>
                result == Err(NoVideoSelected) &&
                State() == DetectorState(old(previousFrame), 0, old(motionDetectedFrames))
      ensures old(cap) != null ==>
                var frames := if old(cap.isOpen) then ReadablePrefix(old(cap.pending)) else [];
                var s0 := DetectorState(old(previousFrame), 0, old(motionDetectedFrames));
                (result.Ok? <==> Run(lib, s0, frames).Ok?) &&
                (result.Ok? ==>
                   State() == Run(lib, s0, frames).value &&
                   result.value == Outputs(outputDirectory, videoPath, motionDetectedFrames) &&
                   !cap.isOpen &&
                   cap.pending == (if !old(cap.isOpen) then old(cap.pending)
                                   else if |frames| < |old(cap.pending)| then old(cap.pending)[|frames| + 1..]
                                   else [])) &&
                (result.Err? ==>
                   result.error == SizeMismatch && cap.isOpen == old(cap.isOpen) &&
                   exists k :: 0 <= k < |frames| &&
                     Run(lib, s0, frames[..k]) == Ok(State()) &&
                     Step(lib, State(), frames[k]) == Err(SizeMismatch) &&
                     cap.pending == old(cap.pending)[k + 1..])
      ensures old(cap) != null && old(previousFrame) == None && old(motionDetectedFrames) == [] ==>
                var frames := if old(cap.isOpen) then ReadablePrefix(old(cap.pending)) else [];
                result.Ok? <==> UniformSize(frames)
      ensures old(cap) != null && old(previousFrame) == None && old(motionDetectedFrames) == [] && result.Ok? ==>
                var frames := if old(cap.isOpen) then ReadablePrefix(old(cap.pending)) else [];
                Pairwise(lib, frames) == Ok(State()) &&
                result.value == Outputs(outputDirectory, videoPath, motionDetectedFrames)
    {
      processedFrames := 0;
      result := DetectMotionFrames();
      if old(cap) != null && old(previousFrame) == None && old(motionDetectedFrames) == [] {
        ghost var frames := if old(cap.isOpen) then ReadablePrefix(old(cap.pending)) else [];
        RunFromFreshIsPairwise(lib, frames);
      }
    }
  }

  /** A whole session on a video whose every read succeeds and whose frames
      after the first share one resolution: the preview read of `SelectVideo`
      takes the first frame, so its size never matters and the loop compares
      one pair fewer than the video has consecutive pairs. */
  method SessionComparisons(lib: Vision, video: seq<Frame>) returns (compared: nat, result: Result<seq<Written>, Failure>)
    requires |video| < 2 || UniformSize(video[1..])
    ensures result.Ok?
    ensures compared == if |video| < 2 then 0 else |video| - 2
  {
    var attempts := seq(|video|, k requires 0 <= k < |video| => Some(video[k]));
    var app := new MotionDetectionApp(lib);
    app.SelectVideo("video.mp4", true, attempts);
    ghost var rest := if video == [] then [] else video[1..];
    assert ReadablePrefix(app.cap.pending) == rest by {
      ghost var p := ReadablePrefix(app.cap.pending);
      assert |p| == |rest|;
      forall k | 0 <= k < |p| ensures p[k] == rest[k] {
        assert app.cap.pending[k] == Some(rest[k]);
      }
    }
    result := app.DetectMotion();
    compared := app.processedFrames;
  }
}
