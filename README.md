# Motion detection by frame differencing

This project models the analysis core of `hareketalgilama.py`, a small video
motion detector. Each frame of a video goes through these steps:

- it is reduced to grayscale and compared with the grayscale of the frame just before it (`cv2.absdiff`);
- the difference is thresholded at 30 into a 0/255 mask;
- the frame is flagged when some external contour of the mask has an area strictly above 500.

Flagged frames are collected in arrival order. When the reads run out they
are written as `<video basename>_frame_<i>.jpg`, where `i` is the detection
index, not the source frame index.

Layout:

- `wrappers.dfy`: `Option`, `Outcome` and `Result`.
- `pixels.dfy` (module `Pixels`): 8-bit rasters, `AbsDiff`, `BinaryThreshold`, the motion mask and its lemmas.
- `detection.dfy` (module `Detection`): the specification of the detector. It has three parts:
  - `Step` is one loop iteration, and `Run` is the loop over the frames read, on a value `DetectorState` that holds `previous_frame`, `processed_frames` and `motion_detected_frames`.
  - `IsSignificant` is the early-exit contour loop.
  - A stateless reference (`FlaggedIndices`, `Pairwise`) compares each frame with its predecessor. `RunFromFreshIsPairwise` proves that the state machine computes it.
- `naming.dfy` (module `Naming`): `str(i)`, `os.path.basename`, `os.path.join` (POSIX rules) and the output file names, with injectivity lemmas.
- `app.dfy` (module `App`): the imperative layer.
  - A `Capture` class stands for `cv2.VideoCapture`: an open flag plus the sequence of outcomes its reads return.
  - A `MotionDetectionApp` class holds the detector fields and updates them in place. Its methods are proved against `Step`, `Run` and `Outputs`.

Library calls whose internals are not visible are parameters, bundled in `Detection.Vision`:

- the per-pixel BGR-to-gray weighting of `cv2.cvtColor`;
- the function from a mask to the areas of its external contours, in extraction order (`cv2.findContours` followed by `cv2.contourArea`).

The property "identical frames are never flagged" needs one assumption about that function: a blank mask has no contour (`BlankHasNoContours`).

A few behaviours of the code differ from what one would expect of such a detector; the model follows the code:

- The thresholds 30 and 500 are constants, not configuration. There is no configuration error.
- A capture that cannot be opened is dropped by `select_video` (`self.cap = None`). Analysis then raises `AttributeError`, modelled as `Err(NoVideoSelected)`. The run does not end with a clean "no frames, count 0" result.
- Frames of different sizes make `cv2.absdiff` raise. The exception ends the run at that frame, with the capture still open and nothing written (`Err(SizeMismatch)`).
- `select_video` shows a preview by reading one frame, so the first frame of the file never reaches the loop. For a video of N readable frames, the session makes max(N−2, 0) comparisons (`SessionComparisons`), where one would expect N−1. For the same reason the size of the first frame never matters.

## Model

| member | source | states |
|---|---|---|
| Pixels.AbsDiffDefinedIffSameSize | hareketalgilama.py:89 | the difference exists exactly when both images have the same size, and then has that size |
| Pixels.AbsDiffSymmetric | hareketalgilama.py:89 | `absdiff(a, b) == absdiff(b, a)` |
| Pixels.AbsDiffBlankIffEqual | hareketalgilama.py:89 | two same-size images have an all-zero difference iff they are equal |
| Pixels.MaskMarksChangedPixels | hareketalgilama.py:89-90 | a mask pixel is 255 iff the two inputs differ there by more than 30 in either direction, and 0 otherwise; the mask keeps the size |
| Pixels.MaskBlankIffNoChange | hareketalgilama.py:90 | the mask is blank iff no difference sample exceeds 30 |
| Pixels.AbsDiff | hareketalgilama.py:89 | `cv2.absdiff`: per-pixel `|a - b|` on images of one size, no result (OpenCV raises) otherwise |
| Pixels.BinaryThreshold | hareketalgilama.py:90 | `cv2.threshold` with `THRESH_BINARY`: `maxval` where the sample is strictly above `thresh`, 0 elsewhere, same size |
| Pixels.MotionMask | hareketalgilama.py:90 | the threshold with the constants of line 90: cutoff 30, value 255 |
| Detection.Flags | hareketalgilama.py:92-98 | a frame is flagged against its predecessor iff some external contour of their motion mask has area strictly above 500 |
| Detection.Step | hareketalgilama.py:86-109 | one loop iteration: the first frame is only stored; later frames fail on a size mismatch, otherwise add one comparison, append the frame iff flagged, and store the new grayscale frame |
| Detection.Run | hareketalgilama.py:81-109 | the loop over the frames read, in order, stopping at the first failing step |
| Detection.Gray | hareketalgilama.py:86 | the grayscale frame has the dimensions of the colour frame |
| Detection.IsSignificant | hareketalgilama.py:94-98 | the flag is true iff some area is strictly above 500; the scan stops right after the first such area and has computed no earlier area above 500; with no such area every area was computed |
| Detection.ReadablePrefix | hareketalgilama.py:81-84 | the frames processed are exactly the successful reads before the first failed one |
| Detection.FlaggedIndices | hareketalgilama.py:88-101 | strictly increasing source indices, none of them 0 (the first frame is never compared), holding exactly the j whose frame is flagged against frame j-1 |
| Detection.RunCountsComparisons | hareketalgilama.py:88-109 | each frame after the first adds one comparison; `previous_frame` is the grayscale of the last frame read whether or not it was flagged; detections are only appended, at most one per comparison |
| Detection.RunErrorIsFinal | hareketalgilama.py:89 | once a step fails, no later frame changes the outcome |
| Detection.RunFromFreshIsPairwise | hareketalgilama.py:80-109 | from a fresh state the run fails iff the resolution changes; otherwise it makes max(n-1, 0) comparisons, keeps the last grayscale frame and collects exactly the frames flagged against their predecessor, in stream order |
| Detection.SmallChangeNeverFlagged | hareketalgilama.py:89-98 | a change of at most 30 at every pixel is never flagged |
| Detection.IdenticalFramesNeverFlagged | hareketalgilama.py:89-98 | two identical consecutive grayscale frames are never flagged |
| Detection.StaticSceneDetectsNothing | hareketalgilama.py:80-109 | a stream whose grayscale never changes gives max(n-1, 0) comparisons and no detection |
| Naming.DecimalString | hareketalgilama.py:115 | `str(i)`: at least one digit, only digits, no leading zero |
| Naming.ParseDecimalString | hareketalgilama.py:115 | reading the decimal string back gives the index |
| Naming.DecimalStringInjective | hareketalgilama.py:115 | distinct indices print differently |
| Naming.BaseName | hareketalgilama.py:115 | the longest suffix of the path without '/' |
| Naming.FrameNameInjective | hareketalgilama.py:115 | distinct detection indices give distinct file names |
| Naming.FrameNameIsRelative | hareketalgilama.py:115 | a file name built on a basename never starts with '/' |
| Naming.JoinInjective | hareketalgilama.py:115 | joining one directory with two different relative names gives two different paths |
| Naming.OutputPathsDistinct | hareketalgilama.py:114-115 | different detection indices are written to different paths |
| Naming.Join | hareketalgilama.py:115 | `posixpath.join` of two components: an absolute name replaces the directory, otherwise one '/' separates them |
| Naming.FrameName | hareketalgilama.py:115 | `f'{basename}_frame_{i}.jpg'` |
| Naming.OutputPath | hareketalgilama.py:115 | the path of detection `i`: the output directory joined with the file name built on the video's basename |
| App.Outputs | hareketalgilama.py:114-116 | the writes of the final loop: detection k under the path of index k, in accumulation order |
| App.Capture.IsOpened | hareketalgilama.py:81 | `cap.isOpened()`: the capture's open flag |
| App.OutputsOrderedAndDistinct | hareketalgilama.py:114-116 | the k-th write stores the k-th detection under `<basename>_frame_<k>.jpg`, and no two writes share a path |
| App.Capture.constructor | hareketalgilama.py:57 | a capture with the given open flag and read outcomes |
| App.Capture.Read | hareketalgilama.py:82 | the next outcome is consumed; a closed or exhausted capture returns a failed read |
| App.Capture.Release | hareketalgilama.py:111 | the capture is closed |
| App.MotionDetectionApp.constructor | hareketalgilama.py:15-48 | the fields set at lines 15-21 and 48: no video, no capture, no previous frame, no detections, count 0, output directory `yakalanan_hareketler` |
| App.MotionDetectionApp.SelectVideo | hareketalgilama.py:53-64 | an empty path changes nothing; otherwise a fresh capture, previous frame and detections cleared, count kept, and the preview read of lines 141-154 consumed (releasing the capture if it fails, dropping an unopened one) |
| App.MotionDetectionApp.ProcessFrame | hareketalgilama.py:86-109 | the new detector state is `Step` of the old one; on a size mismatch nothing changes |
| App.MotionDetectionApp.AnalyseStream | hareketalgilama.py:81-109 | processes exactly the frames before the first failed read, ending in `Run` of them; a failed read consumes one outcome; on a size mismatch it stops at that frame with the state of the frames before it, the capture still open and positioned just after the failing frame |
| App.MotionDetectionApp.SaveDetections | hareketalgilama.py:114-116 | the writes are `Outputs(dir, video, motion_detected_frames)` |
| App.MotionDetectionApp.DetectMotionFrames | hareketalgilama.py:80-116 | no capture fails; otherwise it succeeds iff `Run` does, then ends in `Run`'s state with the capture released and one write per detection; on failure nothing is written and the capture stays open, positioned just after the failing frame, so a later run resumes from there |
| App.MotionDetectionApp.DetectMotion | hareketalgilama.py:66-68 | without a capture fails with `NoVideoSelected`, keeping the previous frame and detections with the count reset to 0; otherwise resets the count and ends exactly as `Run` from the kept previous frame and detections with count 0 (so a second press on a released capture reads nothing and rewrites the same files). On success it returns the `Outputs` writes of the detections and leaves the capture released with the reads past the last readable frame's terminating read still pending. On failure the error is `SizeMismatch` at some frame k, the state is `Run` over the first k frames, the capture stays as open as it was and exactly k+1 reads are consumed. After a fresh `SelectVideo` it succeeds iff the resolution is constant and ends in the `Pairwise` reference state |
| App.SessionComparisons | hareketalgilama.py:53-68 | a session on a video whose every read succeeds and whose frames after the first share one resolution (the first frame's size is free) succeeds with max(N-2, 0) comparisons, because the preview read takes the first frame |

## Left out

- Tkinter widgets, labels, progress bar, message box, preview rendering and `update_process_info`: these are display only. The progress count is the `processed` field.
- The worker thread and the `root.after` polling (`detect_motion`, `check_thread_status`): `DetectMotion` calls the loop directly.
- `os.makedirs`, `os.system('explorer ...')` and `cv2.imwrite` with JPEG encoding: these are file-system and OS effects. The model returns the ordered sequence of (path, frame) writes, and does not model a failing write.
- `cv2.VideoCapture` decoding and `get_total_frames`: a capture is a given sequence of read outcomes.
- The BGR-to-gray weighting of `cv2.cvtColor`, and the internals of `cv2.findContours` and of the floating-point `cv2.contourArea`: they are parameters (`Vision`). Only the strict comparison with 500 is modelled.
- The field `motion_threshold = 50`: it is never read.
- Windows path rules (`ntpath`, with '\\' separators and drive letters): `BaseName` and `Join` follow POSIX `posixpath`.
- `frame.copy()`: frames are values here, so the copy and the buffer reuse it guards against are not modelled.
