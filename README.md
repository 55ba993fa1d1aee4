# video-sampler: sequential frame sampling, modelled in Dafny

This project models the sequential path of the video sampler:

- `sample_video` (src/sampler.py) turns a sampling request into target frame
  indices. The request is a mode (`"seconds"` or anything else, meaning
  frames) plus either explicit `points` or a regular `interval`. The
  function drops out-of-range indices, then for each target seeks the
  decoder, reads one frame and saves it when the read succeeds. Finally it
  releases the decoder.
- The naming side of src/export.py: the `{m}m{ss}s` / `{n}f` label of
  `_frame_label`, the file-name choice in `save_frame`, and the identity case
  of `resize_frame`.

Modules:

- `Wrappers`: `Option` and `Result`.
- `Numeric`: Python's `int()` on a number (truncation toward zero) and the
  float operators `//` and `%`, on exact reals.
- `Decimal`: `str(i)` and `format(i, "0Nd")`, and parsing them back.
- `Export`: the label, the file name, resizing and `save_frame`. `cv2.imwrite`
  is a `Disk` object whose `files` map the method updates.
- `Sampler`: target selection as functions over `seq<int>`. The decoder is a
  `Capture` object that records every call in a `trace`. The extraction loop
  is the method `ExtractFrames`, proved against the specification functions
  `Writes`, `ApplyWrites` and `AttemptTrace`.

Modelling decisions:

- The frame rate is a natural number. Points and intervals are exact reals.
  On exact reals, `Numeric.MinutesAndSeconds` shows that the truncated
  minutes and seconds of the label equal integer division:
  `(frame_num / fps) / 60` minutes and `(frame_num / fps) % 60` seconds.
  IEEE rounding is listed under "## Left out".
- A frame rate of 0 in seconds mode makes `_frame_label` divide by zero. The
  model returns `Failure(ZeroDivision)` there, standing for Python's
  `ZeroDivisionError`.
- A zero interval step makes `range()` raise; a negative step counts down,
  and selects nothing once out-of-range frames are dropped. Both follow
  Python, because the source has no guard of its own.
- `sample_video` calls `save_frame(frame, output_folder, idx, resize)`
  (src/sampler.py:42) without `frame_num`, `fps` or `mode`. On this path
  every file is therefore named `frame_{idx:06d}.png`, and the labelled form
  of src/export.py:39 is never produced. The model follows the code
  (`Sampler.FramePath`).
- When selection raises (no selection, zero step), the source never reaches
  `cap.release()`. `Sampler.SampleVideo` states this: on failure the trace is
  unchanged and the capture is still not released.

## Model

| member | source | states |
|---|---|---|
| Numeric.Trunc | src/sampler.py:22-29 | `int(x)` truncates toward zero: for `x >= 0` the result is the largest integer not above `x`, for `x < 0` the smallest not below it |
| Numeric.MinutesAndSeconds | src/export.py:26-28 | with an integral frame rate `d > 0`, `int((n/d) // 60)` is `(n / d) / 60` and `int((n/d) % 60)` is `(n / d) % 60` in integer division |
| Decimal.IntToStringLayout | src/export.py:29-31 | `str(i)` is a minus sign for negative `i` followed by the digits of `abs(i)`, and holds only digits and `-` |
| Decimal.IntToStringRoundTrip | src/export.py:29-31 | `str(i)` is an integer literal that parses back to `i` |
| Decimal.FormatPaddedLayout | src/export.py:29-39 | `format(i, "0Nd")` is the sign, then zeros, then the digits of `abs(i)`; its length is `N` unless the sign and digits need more, so it is never cut short |
| Decimal.FormatPaddedRoundTrip | src/export.py:39 | the zero-padded index is an integer literal that parses back to the index |
| Decimal.TwoDigitField | src/export.py:29 | a value below 100 formatted `02d` is exactly its tens digit and its units digit |
| Export.ResizeFrame | src/export.py:14-20 | the frame comes back unchanged exactly when `resize` is `None`; the scale and `(w, h)` forms give a resized image |
| Export.FrameLabel | src/export.py:23-31 | computing the label fails (division by zero) exactly in seconds mode with a zero frame rate |
| Export.SecondsLabel | src/export.py:25-29 | in seconds mode with `fps > 0` the label is unpadded `(frame_num / fps) / 60`, then `m`, then exactly two digits of `(frame_num / fps) % 60`, which is below 60, then `s` |
| Export.FramesLabel | src/export.py:30-31 | in any other mode the label ends in `f` and the text before it parses back to `frame_num` |
| Export.SecondsLabelExamples | src/export.py:25-29 | `(3600, 30)` gives `2m00s`, `(90, 30)` gives `0m03s`, `(240, 30)` gives `0m08s` |
| Export.FramesLabelExample | src/export.py:30-31 | `(1424, 30, "frames")` gives `1424f` |
| Export.LabelHasNoSeparator | src/export.py:29-31 | a label never contains `/` |
| Export.NameLabel | src/export.py:37-38 | a label is used exactly when `frame_num`, `fps` and `mode` are all given; computing it fails only for seconds mode with a zero frame rate |
| Export.FrameFileName | src/export.py:37-41 | choosing the name fails exactly when the label does |
| Export.FileNameLayout | src/export.py:39-41 | a name is `frame_`, the padded index field (at least six characters, reading back as the index), then `_` and the label exactly when there is one, then `.png` |
| Export.DistinctIndicesDistinctNames | src/export.py:39-41 | different indices give different names, whatever the labels |
| Export.FileNameHasNoSeparator | src/export.py:39-41 | a name contains a `/` only if its label does |
| Export.SavedPathInFolder | src/export.py:39-43 | the path written lies directly inside `folder`: one more component than `folder`, and that component has no `/` |
| Export.UnlabelledNameExample | src/export.py:41 | index 0 without a label is named `frame_000000.png` |
| Export.WideIndexNameExample | src/export.py:37-41 | index 1234567 keeps all seven digits, and a missing `fps` drops the label |
| Export.SecondsNameExample | src/export.py:37-39 | index 4, frame 240 at 30 fps in seconds mode is named `frame_000004_0m08s.png` |
| Export.FramesNameExample | src/export.py:37-39 | index 3, frame 1424 in frames mode is named `frame_000003_1424f.png` |
| Export.OneDigitIndexName | src/export.py:39 | a one-digit index is padded with five zeros in a labelled name |
| Export.Disk.Write | src/export.py:42 | `cv2.imwrite` creates or replaces the one file at the path and leaves every other file alone |
| Export.SaveFrame | src/export.py:34-43 | `save_frame` succeeds exactly when the name can be chosen; it then writes the resized frame at `folder / name` and returns that path; on failure nothing is written |
| Sampler.PyRange | src/sampler.py:30 | `range(start, stop, step)` for a non-zero step: element `i` is `start + i*step`; all elements lie before `stop` in the step's direction, and one more step would reach or pass it |
| Sampler.Range | src/sampler.py:30 | `range()` raises exactly for a zero step |
| Sampler.PointFrames | src/sampler.py:20-24 | one frame per point, in input order: `int(t * fps)` in seconds mode, `int(f)` otherwise |
| Sampler.FilterValid | src/sampler.py:35 | the filter never adds entries, and everything it keeps lies in `[0, frame_count)` |
| Sampler.TargetFrames | src/sampler.py:19-35 | selection fails exactly when no request can be formed, and every selected frame lies in `[0, frame_count)` |
| Sampler.PositionsExactly | src/sampler.py:35-43 | the positions listed are increasing and are exactly those whose element satisfies the predicate |
| Sampler.FilterValidSelects | src/sampler.py:35 | the `k`-th kept frame is the frame at the `k`-th in-range position, so relative order is preserved |
| Sampler.FilterValidMembers | src/sampler.py:35 | a frame is kept exactly when it was requested and lies in `[0, frame_count)`; out-of-range frames are dropped, not clamped |
| Sampler.FilterValidAllInRange | src/sampler.py:35 | nothing is dropped when every frame is in range |
| Sampler.FilterValidNoneInRange | src/sampler.py:35 | everything is dropped when no frame is in range |
| Sampler.TargetFramesOfPoints | src/sampler.py:20-35 | with points the interval is ignored; there are at most as many targets as points, the `k`-th target is the frame of the `k`-th in-range point, and the targets are exactly the in-range point frames, with no de-duplication |
| Sampler.TargetFramesOfInterval | src/sampler.py:25-35 | an interval whose step is 0 fails with the `range()` error, a negative step selects nothing, and a positive step selects `range(0, frame_count, step)` unfiltered |
| Sampler.IntervalTargets | src/sampler.py:25-35 | for a positive step the targets are `0, step, 2*step, ...`: strictly increasing, exactly the multiples of `step` in `[0, frame_count)`, starting at 0, `ceil(frame_count / step)` of them (none when `frame_count <= 0`) |
| Sampler.RangeIncreasing | src/sampler.py:30 | `range(0, n, step)` with a positive step is strictly increasing |
| Sampler.RangeMembers | src/sampler.py:30 | `range(0, n, step)` with a positive step holds exactly the multiples of `step` in `[0, n)` |
| Sampler.RangeLength | src/sampler.py:30 | `range(0, n, step)` with a positive step has `ceil(n / step)` elements and starts at 0 when `n > 0`, and is empty otherwise |
| Sampler.NoSelectionFails | src/sampler.py:31-32 | with neither points nor interval, selection fails with the no-selection error |
| Sampler.UnitsAgree | src/sampler.py:20-30 | a seconds request selects the same frames as the frames request with each value multiplied by `fps` |
| Sampler.PointsExample | src/sampler.py:20-35 | points `[0, 149, 299, 350]` in frames mode with 300 frames select `[0, 149, 299]` |
| Sampler.IntervalExample | src/sampler.py:25-35 | a 2-second interval at 30 fps over 300 frames selects `[0, 60, 120, 180, 240]` |
| Sampler.Capture.constructor | src/sampler.py:14-17 | an opened capture reports its frame rate and frame count, reads from position 0, has no seek, read or release on record, and counts as released exactly when a release is on record |
| Sampler.Capture.Seek | src/sampler.py:39 | `cap.set(CAP_PROP_POS_FRAMES, f)` moves the read position to `f` unless released, and is recorded; it keeps the released flag in step with the record |
| Sampler.Capture.Read | src/sampler.py:40 | `cap.read()` returns the frame at the read position when it decodes, and then advances; it returns nothing once released; the call is recorded with its outcome, and the released flag stays in step with the record |
| Sampler.Capture.Release | src/sampler.py:45 | `cap.release()` marks the capture released and is recorded, so the flag and the record agree |
| Sampler.ExtractOne | src/sampler.py:39-43 | one loop iteration seeks and reads the target; when its frame decodes, it writes the resized frame as `frame_{idx:06d}.png` and returns that path; otherwise nothing is written; the read position ends one past the target when it decodes and at the target otherwise |
| Sampler.ExtractFrames | src/sampler.py:37-46 | the loop returns the paths of `Writes(targets)` in order, leaves the disk as the old files with those writes applied, makes one seek and one read per target, then releases the capture; the read position is where the read of the last target left it |
| Sampler.ExtractStep | src/sampler.py:38-43 | one pass of the loop body takes the state after the first `idx` targets to the state after `idx + 1`: saved paths, disk and trace extended by that target's attempt |
| Sampler.SampleVideo | src/sampler.py:6-46 | when selection fails, the error is returned with no seek, read or release made on the capture, its read position unchanged and nothing written; otherwise the result is the extraction of the selected targets, and the capture is released exactly once, by the last call of its trace, with its read position where the read of the last target left it |
| Sampler.WritesFollowPositions | src/sampler.py:38-43 | the `k`-th file written is for the `k`-th target whose frame decodes, named by that target's position, holding its resized frame |
| Sampler.SavedPaths | src/sampler.py:38-43 | at most one path per target, no two alike; the path for position `j` is returned exactly when the frame of target `j` decodes, so a failed read leaves a gap and later indices do not shift |
| Sampler.SavedPathFor | src/sampler.py:38-43 | the path named by position `j` is among the saved paths exactly when target `j` decodes |
| Sampler.SavedPathsDiffer | src/sampler.py:41-42 | two different writes go to different paths |
| Sampler.WrittenAt | src/sampler.py:41-42 | a target whose frame decodes is written at some step, under its position's name, with its resized frame |
| Sampler.FramePathInjective | src/sampler.py:42 | different positions are saved under different paths |
| Sampler.FinalFiles | src/sampler.py:38-43 | afterwards each decodable target's position holds its resized frame, and every other path is as before |
| Sampler.FinalFileAt | src/sampler.py:38-43 | after extraction the file for a decodable target's position holds that target's resized frame |
| Sampler.ApplyWritesUntouched | src/sampler.py:42 | a path no write touches keeps its old contents, or stays absent |
| Sampler.ApplyWritesDistinct | src/sampler.py:42 | when all written paths differ, each holds what was written to it |
| Sampler.TraceShape | src/sampler.py:38-40 | the calls are a seek to each target, in order, each followed by one read, with no release among them |
| Sampler.ReleasedOnceAtEnd | src/sampler.py:45 | a capture that was not released before is released exactly once, by the last call |

## Left out

- `load_video` and `get_video_info` (src/video_utils.py): opening the file and reading its properties are decoder calls. The model starts from an opened `Capture` that supplies `fps`, the frame count and the frames that decode. The error for a video that cannot be opened is not modelled.
- `create_output_folder` (src/export.py:6-11): directory creation and the wall-clock timestamp are I/O. The output folder is a parameter.
- The scale and `(w, h)` branches of `resize_frame` (src/export.py:18-20) call `cv2.resize`. Their result is a symbolic `Resized` image; pixel arithmetic is not modelled.
- Pixel data is opaque. `cv2.imwrite` is reduced to an update of a path-to-image map, and `cap.read` to a lookup of the decodable frames. Decoder behaviour beyond that map, such as a read at one index depending on earlier seeks, is not modelled.
- Floating point: the frame rate is integral and values are exact reals. IEEE rounding of `t * fps`, of `interval * fps` and of `frame_num / fps` is not modelled, and neither are non-integral frame rates.
- Export.Disk.Write: the write always succeeds. `cv2.imwrite` reports a failure by returning `False`, not by raising, and `save_frame` ignores that result and returns the path anyway (src/export.py:42-43). In the source, `saved_paths` can therefore list a file that was never written; the model cannot.
- Other exceptions raised by `cv2` are not modelled.
- The parallel backend, backend selection and progress reporting are not part of this model.
