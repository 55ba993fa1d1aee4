/** Sequential frame sampling (src/sampler.py): turning a request into the
    list of target frame indices, and the seek/read/save loop over them. */
module Sampler {
  import opened Wrappers
  import opened Numeric
  import opened Export

  /** The two `ValueError`s the selection can raise: no selection given, and
      `range()` called with a zero step. */
  datatype SampleError = NoSelection | ZeroStep

  // ---------------------------------------------------------------------
  // Target selection

  /** `range(start, stop, step)` for a non-zero step. */
  function PyRange(start: int, stop: int, step: int): (r: seq<int>)
    requires step != 0
    ensures forall i :: 0 <= i < |r| ==> r[i] == start + i * step
    ensures step > 0 ==> (forall i :: 0 <= i < |r| ==> r[i] < stop) && start + |r| * step >= stop
    ensures step < 0 ==> (forall i :: 0 <= i < |r| ==> r[i] > stop) && start + |r| * step <= stop
    decreases if step > 0 then stop - start else start - stop
  {
    if (step > 0 && start < stop) || (step < 0 && start > stop) then
      var rest := PyRange(start + step, stop, step);
      assert |rest| * step + step == (|rest| + 1) * step;
      [start] + rest
    else
      []
  }

  /** `list(range(start, stop, step))`, which raises on a zero step. */
  function Range(start: int, stop: int, step: int): (r: Result<seq<int>, SampleError>)
    ensures r.Failure? <==> step == 0
    ensures r.Failure? ==> r.error == ZeroStep
  {
    if step == 0 then Failure(ZeroStep) else Success(PyRange(start, stop, step))
  }

  /** `int(t * fps)` for a time in seconds mode, `int(f)` otherwise. */
  function PointToFrame(point: real, fps: nat, mode: string): int
  {
    if mode == "seconds" then Trunc(point * fps as real) else Trunc(point)
  }

  /** The frame step of an interval: `int(interval * fps)` in seconds mode,
      `int(interval)` otherwise. */
  function IntervalStep(interval: real, fps: nat, mode: string): int
  {
    if mode == "seconds" then Trunc(interval * fps as real) else Trunc(interval)
  }

  /** One frame per point, in the order given. */
  function PointFrames(points: seq<real>, fps: nat, mode: string): (r: seq<int>)
    ensures |r| == |points|
    ensures forall i :: 0 <= i < |points| ==> r[i] == PointToFrame(points[i], fps, mode)
  {
    seq(|points|, i requires 0 <= i < |points| => PointToFrame(points[i], fps, mode))
  }

  /** The frame list before filtering: points win over an interval. */
  function RequestedFrames(mode: string, interval: Option<real>, points: Option<seq<real>>, fps: nat, frameCount: int)
    : Result<seq<int>, SampleError>
  {
    if points.Some? then Success(PointFrames(points.value, fps, mode))
    else if interval.Some? then Range(0, frameCount, IntervalStep(interval.value, fps, mode))
    else Failure(NoSelection)
  }

  /** `[f for f in frames if 0 <= f < frame_count]`. */
  function FilterValid(frames: seq<int>, frameCount: int): (r: seq<int>)
    ensures |r| <= |frames|
    ensures forall k :: 0 <= k < |r| ==> 0 <= r[k] < frameCount
    decreases |frames|
  {
    if frames == [] then []
    else
      var n := |frames| - 1;
      FilterValid(frames[..n], frameCount) + (if 0 <= frames[n] < frameCount then [frames[n]] else [])
  }

  /** Lines 19-35 of `sample_video`: the request resolved to target frames. */
  function TargetFrames(mode: string, interval: Option<real>, points: Option<seq<real>>, fps: nat, frameCount: int)
    : (r: Result<seq<int>, SampleError>)
    ensures r.Failure? <==> RequestedFrames(mode, interval, points, fps, frameCount).Failure?
    ensures r.Success? ==> forall k :: 0 <= k < |r.value| ==> 0 <= r.value[k] < frameCount
  {
    match RequestedFrames(mode, interval, points, fps, frameCount)
    case Success(frames) => Success(FilterValid(frames, frameCount))
    case Failure(e) => Failure(e)
  }

  /** The positions `j` of `s`, in increasing order, whose element satisfies `keep`. */
  function Positions(s: seq<int>, keep: int -> bool): (ps: seq<nat>)
    ensures |ps| <= |s| && forall k :: 0 <= k < |ps| ==> ps[k] < |s|
    decreases |s|
  {
    if s == [] then []
    else
      var n := |s| - 1;
      Positions(s[..n], keep) + (if keep(s[n]) then [n] else [])
  }

  /** `Positions` lists, in increasing order, exactly the positions whose
      element satisfies `keep`. */
  lemma PositionsExactly(s: seq<int>, keep: int -> bool)
    ensures var ps := Positions(s, keep);
            && (forall k :: 0 <= k < |ps| ==> keep(s[ps[k]]))
            && (forall k, l :: 0 <= k < l < |ps| ==> ps[k] < ps[l])
            && (forall j :: 0 <= j < |s| && keep(s[j]) <==> j in ps)
  {
    PositionsSound(s, keep);
    PositionsComplete(s, keep);
  }

  lemma {:induction false} PositionsSound(s: seq<int>, keep: int -> bool)
    ensures forall k :: 0 <= k < |Positions(s, keep)| ==> keep(s[Positions(s, keep)[k]])
    ensures forall k, l :: 0 <= k < l < |Positions(s, keep)| ==> Positions(s, keep)[k] < Positions(s, keep)[l]
    decreases |s|
  {
    if s != [] {
      var n := |s| - 1;
      PositionsSound(s[..n], keep);
      var ps0 := Positions(s[..n], keep);
      assert forall k :: 0 <= k < |ps0| ==> s[..n][ps0[k]] == s[ps0[k]];
    }
  }

  lemma {:induction false} PositionsComplete(s: seq<int>, keep: int -> bool)
    ensures forall j :: 0 <= j < |s| && keep(s[j]) <==> j in Positions(s, keep)
    decreases |s|
  {
    if s != [] {
      var n := |s| - 1;
      PositionsComplete(s[..n], keep);
      var ps0 := Positions(s[..n], keep);
      assert forall j :: 0 <= j < n ==> s[..n][j] == s[j];
      assert Positions(s, keep) == ps0 + (if keep(s[n]) then [n] else []);
    }
  }

  function InRange(frameCount: int): int -> bool
  {
    f => 0 <= f < frameCount
  }

  // ---------------------------------------------------------------------
  // Properties of target selection

  /** `a == q * d + r` with `0 <= r < d` determines Dafny's `/` and `%`. */
  lemma DivModUnique(a: int, d: int, q: int, r: int)
    requires d > 0 && 0 <= r < d && a == q * d + r
    ensures a / d == q && a % d == r
  {
    var q0, r0 := a / d, a % d;
    if q0 < q {
      MulAtLeast(q - q0, d);
    } else if q0 > q {
      MulAtLeast(q0 - q, d);
    }
  }

  lemma MulAtLeast(k: int, d: int)
    requires k >= 1 && d > 0
    ensures k * d >= d
  {
    assert k * d == (k - 1) * d + d;
    assert (k - 1) * d >= 0;
  }

  /** `range(0, n, step)` with a positive step is strictly increasing. */
  lemma RangeIncreasing(n: int, step: int)
    requires step > 0
    ensures var r := PyRange(0, n, step);
            forall i, j :: 0 <= i < j < |r| ==> r[i] < r[j]
  {
    var r := PyRange(0, n, step);
    forall i, j | 0 <= i < j < |r|
      ensures r[i] < r[j]
    {
      MulAtLeast(j - i, step);
      assert r[j] - r[i] == (j - i) * step;
    }
  }

  /** `range(0, n, step)` with a positive step holds exactly the multiples
      of `step` in `[0, n)`. */
  lemma RangeMembers(n: int, step: int)
    requires step > 0
    ensures var r := PyRange(0, n, step);
            forall f :: f in r <==> 0 <= f < n && f % step == 0
  {
    var r := PyRange(0, n, step);
    forall f | f in r
      ensures 0 <= f < n && f % step == 0
    {
      var i :| 0 <= i < |r| && r[i] == f;
      RangeMultiple(f, step, i);
    }
    forall f | 0 <= f < n && f % step == 0
      ensures f in r
    {
      RangeIndex(n, step, f);
    }
  }

  lemma RangeMultiple(f: int, step: int, i: nat)
    requires step > 0 && f == i * step
    ensures 0 <= f && f % step == 0
  {
    if i > 0 {
      MulAtLeast(i, step);
    }
    DivModUnique(f, step, i, 0);
  }

  lemma RangeIndex(n: int, step: int, f: int)
    requires step > 0 && 0 <= f < n && f % step == 0
    ensures var r := PyRange(0, n, step);
            0 <= f / step < |r| && r[f / step] == f
  {
    var r := PyRange(0, n, step);
    var i := f / step;
    assert f == i * step;
    if i < 0 {
      MulAtLeast(-i, step);
    }
    if i >= |r| {
      if i > |r| {
        MulAtLeast(i - |r|, step);
      }
    }
  }

  /** `range(0, n, step)` with a positive step has `ceil(n / step)` elements
      and starts at 0 when `n > 0`, and is empty otherwise. */
  lemma RangeLength(n: int, step: int)
    requires step > 0
    ensures var r := PyRange(0, n, step);
            && (n <= 0 ==> r == [])
            && (n > 0 ==> |r| == (n + step - 1) / step && r[0] == 0)
  {
    var r := PyRange(0, n, step);
    if n > 0 {
      assert |r| > 0;
      assert r[|r| - 1] == (|r| - 1) * step < n;
      assert (|r| - 1) * step == |r| * step - step;
      DivModUnique(n + step - 1, step, |r|, n + step - 1 - |r| * step);
    }
  }

  /** The filter keeps exactly the in-range frames, in their original order:
      the `k`-th kept frame is the one at the `k`-th in-range position. */
  lemma {:induction false} FilterValidSelects(frames: seq<int>, frameCount: int)
    ensures var r := FilterValid(frames, frameCount);
            var ps := Positions(frames, InRange(frameCount));
            && |r| == |ps|
            && forall k :: 0 <= k < |r| ==> r[k] == frames[ps[k]]
    decreases |frames|
  {
    if frames != [] {
      var n := |frames| - 1;
      FilterValidSelects(frames[..n], frameCount);
      var ps := Positions(frames[..n], InRange(frameCount));
      assert forall k :: 0 <= k < |ps| ==> frames[..n][ps[k]] == frames[ps[k]];
    }
  }

  /** A frame survives the filter exactly when it was requested and lies in
      `[0, frameCount)`: an out-of-range frame is dropped, never clamped. */
  lemma {:induction false} FilterValidMembers(frames: seq<int>, frameCount: int)
    ensures forall f :: f in FilterValid(frames, frameCount) <==> f in frames && 0 <= f < frameCount
    decreases |frames|
  {
    if frames != [] {
      var n := |frames| - 1;
      FilterValidMembers(frames[..n], frameCount);
      assert frames == frames[..n] + [frames[n]];
    }
  }

  /** Nothing is dropped when every frame is in range. */
  lemma {:induction false} FilterValidAllInRange(frames: seq<int>, frameCount: int)
    requires forall k :: 0 <= k < |frames| ==> 0 <= frames[k] < frameCount
    ensures FilterValid(frames, frameCount) == frames
    decreases |frames|
  {
    if frames != [] {
      var n := |frames| - 1;
      FilterValidAllInRange(frames[..n], frameCount);
      assert frames == frames[..n] + [frames[n]];
    }
  }

  /** Everything is dropped when no frame is in range. */
  lemma {:induction false} FilterValidNoneInRange(frames: seq<int>, frameCount: int)
    requires forall k :: 0 <= k < |frames| ==> !(0 <= frames[k] < frameCount)
    ensures FilterValid(frames, frameCount) == []
    decreases |frames|
  {
    if frames != [] {
      FilterValidNoneInRange(frames[..|frames| - 1], frameCount);
    }
  }

  /** Points take priority over an interval: each point becomes one frame,
      out-of-range frames are dropped, and the rest keep the points' order. */
  lemma TargetFramesOfPoints(mode: string, interval: Option<real>, points: seq<real>, fps: nat, frameCount: int)
    ensures var r := TargetFrames(mode, interval, Some(points), fps, frameCount);
            var frames := PointFrames(points, fps, mode);
            var ps := Positions(frames, InRange(frameCount));
            && r.Success?
            && r == TargetFrames(mode, None, Some(points), fps, frameCount)
            && |r.value| == |ps| <= |points|
            && (forall k :: 0 <= k < |r.value| ==> r.value[k] == PointToFrame(points[ps[k]], fps, mode))
            && (forall f :: f in r.value <==>
                  0 <= f < frameCount && exists i :: 0 <= i < |points| && PointToFrame(points[i], fps, mode) == f)
  {
    var frames := PointFrames(points, fps, mode);
    FilterValidSelects(frames, frameCount);
    FilterValidMembers(frames, frameCount);
    forall f ensures f in frames <==> exists i :: 0 <= i < |points| && PointToFrame(points[i], fps, mode) == f {
      if f in frames {
        var i :| 0 <= i < |frames| && frames[i] == f;
        assert PointToFrame(points[i], fps, mode) == f;
      }
    }
  }

  /** An interval enumerates `0, step, 2*step, ...` below the frame count;
      a zero step fails as `range()` does and a negative step selects nothing. */
  lemma TargetFramesOfInterval(mode: string, interval: real, fps: nat, frameCount: int)
    ensures var step := IntervalStep(interval, fps, mode);
            var r := TargetFrames(mode, Some(interval), None, fps, frameCount);
            && (step == 0 ==> r == Failure(ZeroStep))
            && (step < 0 ==> r == Success([]))
            && (step > 0 ==> r == Success(PyRange(0, frameCount, step)))
  {
    var step := IntervalStep(interval, fps, mode);
    if step > 0 {
      FilterValidAllInRange(PyRange(0, frameCount, step), frameCount);
    } else if step < 0 {
      FilterValidNoneInRange(PyRange(0, frameCount, step), frameCount);
    }
  }

  /** For a positive step the interval targets are `0, step, 2*step, ...`:
      strictly increasing, exactly the multiples of `step` below the frame
      count, `ceil(frameCount / step)` of them. */
  lemma IntervalTargets(mode: string, interval: real, fps: nat, frameCount: int)
    requires IntervalStep(interval, fps, mode) > 0
    ensures var step := IntervalStep(interval, fps, mode);
            var r := TargetFrames(mode, Some(interval), None, fps, frameCount);
            && r.Success?
            && (forall i :: 0 <= i < |r.value| ==> r.value[i] == i * step)
            && (forall i, j :: 0 <= i < j < |r.value| ==> r.value[i] < r.value[j])
            && (forall f :: f in r.value <==> 0 <= f < frameCount && f % step == 0)
            && (frameCount <= 0 ==> r.value == [])
            && (frameCount > 0 ==> |r.value| == (frameCount + step - 1) / step && r.value[0] == 0)
  {
    var step := IntervalStep(interval, fps, mode);
    assert TargetFrames(mode, Some(interval), None, fps, frameCount) == Success(PyRange(0, frameCount, step)) by {
      TargetFramesOfInterval(mode, interval, fps, frameCount);
    }
    RangeIncreasing(frameCount, step);
    RangeMembers(frameCount, step);
    RangeLength(frameCount, step);
  }

  /** No selection at all is rejected before anything else happens. */
  lemma NoSelectionFails(mode: string, fps: nat, frameCount: int)
    ensures TargetFrames(mode, None, None, fps, frameCount) == Failure(NoSelection)
  {
  }

  /** Seconds are frames scaled by the frame rate: a seconds request and the
      frames request with every value multiplied by `fps` select the same
      frames. */
  lemma UnitsAgree(interval: Option<real>, points: Option<seq<real>>, fps: nat, frameCount: int)
    ensures var scaledInterval := if interval.Some? then Some(interval.value * fps as real) else None;
            var scaledPoints := if points.Some? then Some(seq(|points.value|, i requires 0 <= i < |points.value| => points.value[i] * fps as real)) else None;
            TargetFrames("seconds", interval, points, fps, frameCount)
            == TargetFrames("frames", scaledInterval, scaledPoints, fps, frameCount)
  {
    if points.Some? {
      var ps := points.value;
      var scaled := seq(|ps|, i requires 0 <= i < |ps| => ps[i] * fps as real);
      assert "frames" != "seconds" by { assert "frames"[0] != "seconds"[0]; }
      forall i | 0 <= i < |ps|
        ensures PointToFrame(ps[i], fps, "seconds") == PointToFrame(scaled[i], fps, "frames")
      {
      }
      assert PointFrames(ps, fps, "seconds") == PointFrames(scaled, fps, "frames");
    }
  }

  /** 30 fps, 300 frames, points `[0, 149, 299, 350]` in frames: the last
      point is past the end and is dropped. */
  lemma PointsExample()
    ensures TargetFrames("frames", None, Some([0.0, 149.0, 299.0, 350.0]), 30, 300) == Success([0, 149, 299])
  {
    var frames := PointFrames([0.0, 149.0, 299.0, 350.0], 30, "frames");
    assert "frames" != "seconds" by { assert "frames"[0] != "seconds"[0]; }
    assert frames == [0, 149, 299, 350];
    assert frames[..3] == [0, 149, 299];
    FilterValidAllInRange(frames[..3], 300);
    assert FilterValid(frames, 300) == FilterValid(frames[..3], 300);
  }

  /** 30 fps, 300 frames, an interval of 2 seconds: every 60th frame. */
  lemma IntervalExample()
    ensures TargetFrames("seconds", Some(2.0), None, 30, 300) == Success([0, 60, 120, 180, 240])
  {
    assert IntervalStep(2.0, 30, "seconds") == 60;
    assert PyRange(240, 300, 60) == [240];
    assert PyRange(180, 300, 60) == [180, 240];
    assert PyRange(120, 300, 60) == [120, 180, 240];
    assert PyRange(60, 300, 60) == [60, 120, 180, 240];
    assert PyRange(0, 300, 60) == [0, 60, 120, 180, 240];
    FilterValidAllInRange([0, 60, 120, 180, 240], 300);
  }

  // ---------------------------------------------------------------------
  // The decoder and the extraction loop

  /** What the capture handle is asked to do, in order. */
  datatype Event = SeekEvent(frame: int) | ReadEvent(ok: bool) | ReleaseEvent

  /** A `cv2.VideoCapture` opened on a video: its reported frame rate and
      frame count, the frames it can decode (by index), its read position,
      and the calls made on it. */
  class Capture {
    const fps: nat
    const frameCount: int
    const decodable: map<int, Image>
    var position: int
    var released: bool
    var trace: seq<Event>

    /** The capture counts as released exactly when a release is on record. */
    ghost predicate Valid()
      reads this
    {
      released <==> ReleaseEvent in trace
    }

    constructor (fps: nat, frameCount: int, decodable: map<int, Image>)
      ensures this.fps == fps && this.frameCount == frameCount && this.decodable == decodable
      ensures position == 0 && !released && trace == []
      ensures Valid()
    {
      this.fps := fps;
      this.frameCount := frameCount;
      this.decodable := decodable;
      position := 0;
      released := false;
      trace := [];
    }

    /** `cap.set(cv2.CAP_PROP_POS_FRAMES, frame)`; no effect once released. */
    method Seek(frame: int)
      requires Valid()
      modifies this
      ensures Valid()
      ensures position == (if released then old(position) else frame)
      ensures released == old(released) && trace == old(trace) + [SeekEvent(frame)]
    {
      if !released {
        position := frame;
      }
      trace := trace + [SeekEvent(frame)];
    }

    /** `cap.read()`: the frame at the read position, if it decodes, and the
        position moves past it; nothing once released. */
    method Read() returns (frame: Option<Image>)
      requires Valid()
      modifies this
      ensures Valid()
      ensures frame == (if !released && old(position) in decodable then Some(decodable[old(position)]) else None)
      ensures position == (if frame.Some? then old(position) + 1 else old(position))
      ensures released == old(released) && trace == old(trace) + [ReadEvent(frame.Some?)]
    {
      if !released && position in decodable {
        frame := Some(decodable[position]);
        position := position + 1;
      } else {
        frame := None;
      }
      trace := trace + [ReadEvent(frame.Some?)];
    }

    /** `cap.release()`. */
    method Release()
      requires Valid()
      modifies this
      ensures Valid()
      ensures released && position == old(position) && trace == old(trace) + [ReleaseEvent]
    {
      released := true;
      trace := trace + [ReleaseEvent];
    }
  }

  /** One file `save_frame` writes. */
  datatype Write = Write(path: Path, image: Image)

  /** The path `save_frame(frame, folder, index, resize)` writes: no label
      arguments are passed, so the name is `frame_{index:06d}.png`. */
  function FramePath(folder: Path, index: int): Path
  {
    Join(folder, FileName(index, None))
  }

  function Decodes(decodable: map<int, Image>): int -> bool
  {
    t => t in decodable
  }

  /** The files written for `targets`, in order: one for each position whose
      frame decodes, named by that position. */
  function Writes(targets: seq<int>, decodable: map<int, Image>, folder: Path, resize: Resize): seq<Write>
    decreases |targets|
  {
    if targets == [] then []
    else
      var n := |targets| - 1;
      Writes(targets[..n], decodable, folder, resize)
      + (if targets[n] in decodable then [Write(FramePath(folder, n), ResizeFrame(decodable[targets[n]], resize))] else [])
  }

  function PathsOf(writes: seq<Write>): (paths: seq<Path>)
    ensures |paths| == |writes| && forall k :: 0 <= k < |writes| ==> paths[k] == writes[k].path
  {
    seq(|writes|, k requires 0 <= k < |writes| => writes[k].path)
  }

  /** The files after performing `writes` in order. */
  function ApplyWrites(files: map<Path, Image>, writes: seq<Write>): map<Path, Image>
    decreases |writes|
  {
    if writes == [] then files
    else
      var last := writes[|writes| - 1];
      ApplyWrites(files, writes[..|writes| - 1])[last.path := last.image]
  }

  lemma PathsOfSnoc(writes: seq<Write>, w: Write)
    ensures PathsOf(writes + [w]) == PathsOf(writes) + [w.path]
  {
  }

  lemma ApplyWritesSnoc(files: map<Path, Image>, writes: seq<Write>, w: Write)
    ensures ApplyWrites(files, writes + [w]) == ApplyWrites(files, writes)[w.path := w.image]
  {
    assert (writes + [w])[..|writes|] == writes;
  }

  /** The calls on the capture for `targets`: a seek and a read per target. */
  function AttemptTrace(targets: seq<int>, decodable: map<int, Image>): seq<Event>
    decreases |targets|
  {
    if targets == [] then []
    else
      var n := |targets| - 1;
      AttemptTrace(targets[..n], decodable) + [SeekEvent(targets[n]), ReadEvent(targets[n] in decodable)]
  }

  /** Extending the prefix of targets by one adds that target's write (if
      its frame decodes) and its seek and read. */
  lemma PrefixStep(targets: seq<int>, idx: nat, decodable: map<int, Image>, folder: Path, resize: Resize)
    requires idx < |targets|
    ensures Writes(targets[..idx + 1], decodable, folder, resize)
            == Writes(targets[..idx], decodable, folder, resize)
               + (if targets[idx] in decodable
                  then [Write(FramePath(folder, idx), ResizeFrame(decodable[targets[idx]], resize))] else [])
    ensures AttemptTrace(targets[..idx + 1], decodable)
            == AttemptTrace(targets[..idx], decodable) + [SeekEvent(targets[idx]), ReadEvent(targets[idx] in decodable)]
  {
    assert targets[..idx + 1][..idx] == targets[..idx];
  }

  /** The read position after seeking to `target` and reading once: one past
      it when its frame decodes, on it otherwise. */
  function AfterRead(target: int, decodable: map<int, Image>): int
  {
    if target in decodable then target + 1 else target
  }

  /** One iteration of the extraction loop for the target at position `idx`:
      seek to it, read one frame and, when the read succeeds, save it as
      `frame_{idx:06d}.png`. */
  method ExtractOne(cap: Capture, disk: Disk, outputFolder: Path, target: int, idx: int, resize: Resize)
    returns (saved: Option<Path>)
    requires cap.Valid() && !cap.released
    modifies cap, disk
    ensures saved == (if target in cap.decodable then Some(FramePath(outputFolder, idx)) else None)
    ensures disk.files == (if target in cap.decodable
                           then old(disk.files)[FramePath(outputFolder, idx) := ResizeFrame(cap.decodable[target], resize)]
                           else old(disk.files))
    ensures cap.Valid() && !cap.released
    ensures cap.trace == old(cap.trace) + [SeekEvent(target), ReadEvent(target in cap.decodable)]
    ensures cap.position == AfterRead(target, cap.decodable)
  {
    cap.Seek(target);
    var frame := cap.Read();
    if frame.Some? {
      var path := SaveFrame(disk, frame.value, outputFolder, idx, resize, None, None, None);
      saved := Some(path.value);
    } else {
      saved := None;
    }
  }

  /** The state after the first `idx` targets have been attempted, from a
      disk holding `files0` and a capture whose calls were `trace0`. */
  ghost predicate Attempted(cap: Capture, disk: Disk, outputFolder: Path, targets: seq<int>, resize: Resize,
                            idx: nat, savedPaths: seq<Path>, files0: map<Path, Image>, trace0: seq<Event>)
    requires idx <= |targets|
    reads cap, disk
  {
    var writes := Writes(targets[..idx], cap.decodable, outputFolder, resize);
    && savedPaths == PathsOf(writes)
    && disk.files == ApplyWrites(files0, writes)
    && cap.trace == trace0 + AttemptTrace(targets[..idx], cap.decodable)
  }

  /** The body of the extraction loop for position `idx`, with the paths
      saved so far. */
  method ExtractStep(cap: Capture, disk: Disk, outputFolder: Path, targets: seq<int>, resize: Resize, idx: nat,
                     savedPaths: seq<Path>, ghost files0: map<Path, Image>, ghost trace0: seq<Event>)
    returns (savedNext: seq<Path>)
    requires idx < |targets|
    requires cap.Valid() && !cap.released
    requires Attempted(cap, disk, outputFolder, targets, resize, idx, savedPaths, files0, trace0)
    modifies cap, disk
    ensures cap.Valid() && !cap.released
    ensures cap.position == AfterRead(targets[idx], cap.decodable)
    ensures Attempted(cap, disk, outputFolder, targets, resize, idx + 1, savedNext, files0, trace0)
  {
    ghost var done := Writes(targets[..idx], cap.decodable, outputFolder, resize);
    PrefixStep(targets, idx, cap.decodable, outputFolder, resize);
    var saved := ExtractOne(cap, disk, outputFolder, targets[idx], idx, resize);
    if saved.Some? {
      savedNext := savedPaths + [saved.value];
      ghost var w := Write(saved.value, ResizeFrame(cap.decodable[targets[idx]], resize));
      PathsOfSnoc(done, w);
      ApplyWritesSnoc(files0, done, w);
    } else {
      savedNext := savedPaths;
      assert done + [] == done;
    }
  }

  /** Lines 37-46 of `sample_video`: for each target, in order, seek, read one
      frame and save it under its position when the read succeeds; a failed
      read is skipped; finally release the capture. */
  method ExtractFrames(cap: Capture, disk: Disk, outputFolder: Path, targets: seq<int>, resize: Resize)
    returns (savedPaths: seq<Path>)
    requires cap.Valid() && !cap.released
    modifies cap, disk
    ensures var writes := Writes(targets, cap.decodable, outputFolder, resize);
            && savedPaths == PathsOf(writes)
            && disk.files == ApplyWrites(old(disk.files), writes)
    ensures cap.trace == old(cap.trace) + AttemptTrace(targets, cap.decodable) + [ReleaseEvent]
    ensures cap.Valid() && cap.released
    ensures cap.position == if targets == [] then old(cap.position) else AfterRead(targets[|targets| - 1], cap.decodable)
  {
    savedPaths := [];
    for idx := 0 to |targets|
      invariant cap.Valid() && !cap.released
      invariant cap.position == if idx == 0 then old(cap.position) else AfterRead(targets[idx - 1], cap.decodable)
      invariant Attempted(cap, disk, outputFolder, targets, resize, idx, savedPaths, old(disk.files), old(cap.trace))
    {
      savedPaths := ExtractStep(cap, disk, outputFolder, targets, resize, idx, savedPaths, old(disk.files), old(cap.trace));
    }
    assert targets[..|targets|] == targets;
    assert cap.trace == old(cap.trace) + AttemptTrace(targets, cap.decodable);
    cap.Release();
  }

  /** `sample_video` on an opened capture: resolve the targets, failing before
      any seek, read or release, then extract them. */
  method SampleVideo(cap: Capture, disk: Disk, outputFolder: Path, mode: string,
                     interval: Option<real>, points: Option<seq<real>>, resize: Resize)
    returns (r: Result<seq<Path>, SampleError>)
    requires cap.Valid() && !cap.released
    modifies cap, disk
    ensures cap.Valid()
    ensures var targets := TargetFrames(mode, interval, points, cap.fps, cap.frameCount);
            targets.Failure? ==>
              && r == Failure(targets.error)
              && cap.trace == old(cap.trace) && !cap.released
              && cap.position == old(cap.position)
              && disk.files == old(disk.files)
    ensures var targets := TargetFrames(mode, interval, points, cap.fps, cap.frameCount);
            targets.Success? ==>
              var writes := Writes(targets.value, cap.decodable, outputFolder, resize);
              && r == Success(PathsOf(writes))
              && disk.files == ApplyWrites(old(disk.files), writes)
              && cap.trace == old(cap.trace) + AttemptTrace(targets.value, cap.decodable) + [ReleaseEvent]
              && cap.released
              && cap.position == if targets.value == [] then old(cap.position)
                                 else AfterRead(targets.value[|targets.value| - 1], cap.decodable)
    ensures TargetFrames(mode, interval, points, cap.fps, cap.frameCount).Success? ==>
              && cap.trace[|cap.trace| - 1] == ReleaseEvent
              && forall i :: 0 <= i < |cap.trace| - 1 ==> cap.trace[i] != ReleaseEvent
  {
    var resolved := TargetFrames(mode, interval, points, cap.fps, cap.frameCount);
    if resolved.Failure? {
      return Failure(resolved.error);
    }
    ReleasedOnceAtEnd(cap.trace, resolved.value, cap.decodable);
    var savedPaths := ExtractFrames(cap, disk, outputFolder, resolved.value, resize);
    r := Success(savedPaths);
  }

  // ---------------------------------------------------------------------
  // Properties of the extraction loop

  /** The `k`-th file written is for the `k`-th target whose frame decodes,
      and is named by that target's position. */
  lemma {:induction false} WritesFollowPositions(targets: seq<int>, decodable: map<int, Image>, folder: Path, resize: Resize)
    ensures var writes := Writes(targets, decodable, folder, resize);
            var ps := Positions(targets, Decodes(decodable));
            && |writes| == |ps|
            && forall k :: 0 <= k < |writes| ==>
                 && writes[k].path == FramePath(folder, ps[k])
                 && targets[ps[k]] in decodable
                 && writes[k].image == ResizeFrame(decodable[targets[ps[k]]], resize)
    decreases |targets|
  {
    if targets != [] {
      var n := |targets| - 1;
      WritesFollowPositions(targets[..n], decodable, folder, resize);
      var ps := Positions(targets[..n], Decodes(decodable));
      assert forall k :: 0 <= k < |ps| ==> targets[..n][ps[k]] == targets[ps[k]];
    }
  }

  /** Different positions are saved under different paths. */
  lemma FramePathInjective(folder: Path, i: int, j: int)
    requires i != j
    ensures FramePath(folder, i) != FramePath(folder, j)
  {
    DistinctIndicesDistinctNames(i, j, None, None);
    assert FramePath(folder, i).parts[|folder.parts|] == FileName(i, None);
    assert FramePath(folder, j).parts[|folder.parts|] == FileName(j, None);
  }

  /** The returned paths: one per target whose frame decodes, named by its
      position, no two alike; a target whose read fails is skipped. */
  lemma SavedPaths(targets: seq<int>, decodable: map<int, Image>, folder: Path, resize: Resize)
    ensures var paths := PathsOf(Writes(targets, decodable, folder, resize));
            && |paths| <= |targets|
            && (forall j :: FramePath(folder, j) in paths <==> 0 <= j < |targets| && targets[j] in decodable)
            && (forall k, l :: 0 <= k < l < |paths| ==> paths[k] != paths[l])
  {
    var paths := PathsOf(Writes(targets, decodable, folder, resize));
    WritesFollowPositions(targets, decodable, folder, resize);
    forall j ensures FramePath(folder, j) in paths <==> 0 <= j < |targets| && targets[j] in decodable {
      SavedPathFor(targets, decodable, folder, resize, j);
    }
    forall k, l | 0 <= k < l < |paths|
      ensures paths[k] != paths[l]
    {
      SavedPathsDiffer(targets, decodable, folder, resize, k, l);
    }
  }

  /** A target whose frame decodes is written at some step `k`. */
  lemma WrittenAt(targets: seq<int>, decodable: map<int, Image>, folder: Path, resize: Resize, j: int)
    returns (k: nat)
    requires 0 <= j < |targets| && targets[j] in decodable
    ensures var writes := Writes(targets, decodable, folder, resize);
            && k < |writes|
            && writes[k].path == FramePath(folder, j)
            && writes[k].image == ResizeFrame(decodable[targets[j]], resize)
  {
    var ps := Positions(targets, Decodes(decodable));
    assert j in ps by {
      PositionsExactly(targets, Decodes(decodable));
      assert Decodes(decodable)(targets[j]);
    }
    k :| 0 <= k < |ps| && ps[k] == j;
    WritesFollowPositions(targets, decodable, folder, resize);
  }

  lemma SavedPathFor(targets: seq<int>, decodable: map<int, Image>, folder: Path, resize: Resize, j: int)
    ensures FramePath(folder, j) in PathsOf(Writes(targets, decodable, folder, resize))
            <==> 0 <= j < |targets| && targets[j] in decodable
  {
    var paths := PathsOf(Writes(targets, decodable, folder, resize));
    if FramePath(folder, j) in paths {
      var ps := Positions(targets, Decodes(decodable));
      WritesFollowPositions(targets, decodable, folder, resize);
      var k :| 0 <= k < |paths| && paths[k] == FramePath(folder, j);
      if ps[k] != j {
        FramePathInjective(folder, ps[k], j);
      }
    }
    if 0 <= j < |targets| && targets[j] in decodable {
      var k := WrittenAt(targets, decodable, folder, resize, j);
      assert paths[k] == FramePath(folder, j);
    }
  }

  lemma SavedPathsDiffer(targets: seq<int>, decodable: map<int, Image>, folder: Path, resize: Resize, k: int, l: int)
    requires 0 <= k < l < |Writes(targets, decodable, folder, resize)|
    ensures Writes(targets, decodable, folder, resize)[k].path != Writes(targets, decodable, folder, resize)[l].path
  {
    var ps := Positions(targets, Decodes(decodable));
    WritesFollowPositions(targets, decodable, folder, resize);
    assert ps[k] < ps[l] by {
      PositionsExactly(targets, Decodes(decodable));
    }
    FramePathInjective(folder, ps[k], ps[l]);
  }

  /** A path no write touches keeps its old contents (or stays absent). */
  lemma {:induction false} ApplyWritesUntouched(files: map<Path, Image>, writes: seq<Write>, p: Path)
    requires p !in PathsOf(writes)
    ensures var after := ApplyWrites(files, writes);
            && (p in after <==> p in files)
            && (p in files ==> after[p] == files[p])
    decreases |writes|
  {
    if writes != [] {
      var n := |writes| - 1;
      assert PathsOf(writes)[n] == writes[n].path;
      ApplyWritesUntouched(files, writes[..n], p);
    }
  }

  /** With distinct paths, every write's image is what ends up at its path. */
  lemma {:induction false} ApplyWritesDistinct(files: map<Path, Image>, writes: seq<Write>, k: nat)
    requires k < |writes|
    requires forall i, j :: 0 <= i < j < |writes| ==> writes[i].path != writes[j].path
    ensures var after := ApplyWrites(files, writes);
            writes[k].path in after && after[writes[k].path] == writes[k].image
    decreases |writes|
  {
    var n := |writes| - 1;
    if k < n {
      ApplyWritesDistinct(files, writes[..n], k);
    }
  }

  /** The files after extraction: every decodable target's position holds
      its (resized) frame, and every other path is as before. */
  lemma FinalFiles(files: map<Path, Image>, targets: seq<int>, decodable: map<int, Image>, folder: Path, resize: Resize)
    ensures var writes := Writes(targets, decodable, folder, resize);
            var after := ApplyWrites(files, writes);
            && (forall j :: 0 <= j < |targets| && targets[j] in decodable ==>
                  FramePath(folder, j) in after && after[FramePath(folder, j)] == ResizeFrame(decodable[targets[j]], resize))
            && (forall p :: p !in PathsOf(writes) ==>
                  (p in after <==> p in files) && (p in files ==> after[p] == files[p]))
  {
    var writes := Writes(targets, decodable, folder, resize);
    forall j | 0 <= j < |targets| && targets[j] in decodable
      ensures var after := ApplyWrites(files, writes);
              FramePath(folder, j) in after && after[FramePath(folder, j)] == ResizeFrame(decodable[targets[j]], resize)
    {
      FinalFileAt(files, targets, decodable, folder, resize, j);
    }
    forall p | p !in PathsOf(writes)
      ensures var after := ApplyWrites(files, writes);
              (p in after <==> p in files) && (p in files ==> after[p] == files[p])
    {
      ApplyWritesUntouched(files, writes, p);
    }
  }

  lemma FinalFileAt(files: map<Path, Image>, targets: seq<int>, decodable: map<int, Image>, folder: Path, resize: Resize, j: int)
    requires 0 <= j < |targets| && targets[j] in decodable
    ensures var after := ApplyWrites(files, Writes(targets, decodable, folder, resize));
            FramePath(folder, j) in after && after[FramePath(folder, j)] == ResizeFrame(decodable[targets[j]], resize)
  {
    var writes := Writes(targets, decodable, folder, resize);
    var k := WrittenAt(targets, decodable, folder, resize, j);
    forall i, l | 0 <= i < l < |writes|
      ensures writes[i].path != writes[l].path
    {
      SavedPathsDiffer(targets, decodable, folder, resize, i, l);
    }
    ApplyWritesDistinct(files, writes, k);
  }

  /** The calls on the capture: a seek to each target, in order, each
      followed by one read, and no release among them. */
  lemma {:induction false} TraceShape(targets: seq<int>, decodable: map<int, Image>)
    ensures var t := AttemptTrace(targets, decodable);
            && |t| == 2 * |targets|
            && (forall i :: 0 <= i < |targets| ==>
                  t[2 * i] == SeekEvent(targets[i]) && t[2 * i + 1] == ReadEvent(targets[i] in decodable))
            && ReleaseEvent !in t
    decreases |targets|
  {
    if targets != [] {
      var n := |targets| - 1;
      TraceShape(targets[..n], decodable);
      var t0 := AttemptTrace(targets[..n], decodable);
      assert forall i :: 0 <= i < n ==> targets[..n][i] == targets[i];
      assert forall i :: 0 <= i < |t0| ==> AttemptTrace(targets, decodable)[i] == t0[i];
    }
  }

  /** A capture that had not been released is released exactly once, as the
      last call, after a successful extraction. */
  lemma ReleasedOnceAtEnd(before: seq<Event>, targets: seq<int>, decodable: map<int, Image>)
    requires ReleaseEvent !in before
    ensures var t := before + AttemptTrace(targets, decodable) + [ReleaseEvent];
            && t[|t| - 1] == ReleaseEvent
            && forall i :: 0 <= i < |t| - 1 ==> t[i] != ReleaseEvent
  {
    TraceShape(targets, decodable);
  }
}
