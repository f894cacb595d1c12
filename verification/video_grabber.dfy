/** `VideoGrabber`: frame numbering and counts of a capture.  The capture
    itself is an oracle: its frame rate and frame count are parameters, and
    `read(n)` is what the capture yields when frame number `n` is requested
    (`None` when the read fails).
 */
module Grabber {
  import opened Wrappers
  import Numeric

  datatype Grabber = Grabber(fps: real, totalFrames: int, framesToProcess: int, startFrame: int)

  /** What `__init__` writes into the video record it is given. */
  datatype VideoRecord = VideoRecord(fpsReal: real, fps: int, duration: int)

  /** A frame handed to the callback, with its 1-based number. */
  datatype Delivery<F> = Delivery(number: int, frame: F)

  /** `frames_to_process`: up to the end frame when one is given, to the end
      of the capture otherwise; an end frame of 0 is falsy and counts as
      absent. */
  function FramesToProcess(frameCount: int, start: int, endFrame: Option<int>): (n: int)
    ensures n + start == (if endFrame.Some? && endFrame.value != 0 then endFrame.value else frameCount)
  {
    if endFrame.Some? && endFrame.value != 0 then endFrame.value - start else frameCount - start
  }

  /** `frames / fps` for a positive number of frames, `None` otherwise; a
      zero frame rate raises. */
  function FramesDuration(frames: int, fps: real): (r: Result<Option<real>>)
    ensures frames <= 0 <==> r == Ok(None)
    ensures r.Err? <==> frames > 0 && fps == 0.0
    ensures r.Err? ==> r.error == ZeroDivisionError
    ensures r.Ok? && r.value.Some? ==> r.value.value * fps == frames as real
    ensures r.Ok? && r.value.Some? && fps > 0.0 ==> r.value.value > 0.0
  {
    if frames <= 0 then Ok(None)
    else if fps == 0.0 then Err(ZeroDivisionError)
    else
      var d := frames as real / fps;
      assert d * fps == frames as real;
      assert fps > 0.0 ==> d > 0.0 by {
        if fps > 0.0 && d <= 0.0 {
          Numeric.MulMonotone(d, 0.0, fps);
        }
      }
      Ok(Some(d))
  }

  /** `duration`: the length in seconds of the frames to process. */
  function Duration(g: Grabber): (r: Result<Option<real>>)
    ensures r.Ok? && r.value.Some? ==> r.value.value * g.fps == g.framesToProcess as real
    ensures r == Ok(None) <==> g.framesToProcess <= 0
  {
    FramesDuration(g.framesToProcess, g.fps)
  }

  /** `total_duration`: the length in seconds of the whole capture. */
  function TotalDuration(g: Grabber): (r: Result<Option<real>>)
    ensures r.Ok? && r.value.Some? ==> r.value.value * g.fps == g.totalFrames as real
    ensures r == Ok(None) <==> g.totalFrames <= 0
  {
    FramesDuration(g.totalFrames, g.fps)
  }

  /** `__init__`: the frame rate is rounded to two decimals and the frame
      count truncated.  The record, when given, receives the rounded rate and
      duration; rounding an absent duration raises `TypeError`.  The debug
      lines evaluate both durations whatever the log level, so a zero frame
      rate with frames to process raises `ZeroDivisionError`. */
  function Open(capFps: real, capFrameCount: real, start: int, endFrame: Option<int>, withRecord: bool)
    : (r: Result<(Grabber, Option<VideoRecord>)>)
    ensures r.Ok? ==> r.value.0.fps == Numeric.RoundDecimals(capFps, 2)
    ensures r.Ok? ==> r.value.0.startFrame == start
    ensures r.Ok? ==> r.value.0.framesToProcess
                      == FramesToProcess(Numeric.Trunc(capFrameCount), start, endFrame)
    ensures r.Ok? ==> (r.value.1.Some? <==> withRecord)
    ensures r.Ok? && withRecord ==> r.value.0.framesToProcess > 0
    ensures r.Ok? && r.value.1.Some? ==>
              r.value.1.value.fps as real - 0.5 <= r.value.0.fps <= r.value.1.value.fps as real + 0.5
    ensures r.Ok? && r.value.1.Some? ==>
              && r.value.1.value.fpsReal == r.value.0.fps
              && r.value.1.value.fps == Numeric.RoundHalfEven(r.value.0.fps)
              && Duration(r.value.0).Ok? && Duration(r.value.0).value.Some?
              && r.value.1.value.duration == Numeric.RoundHalfEven(Duration(r.value.0).value.value)
    ensures var total := Numeric.Trunc(capFrameCount);
            var n := FramesToProcess(total, start, endFrame);
            && (r == Err(TypeError) <==> withRecord && n <= 0)
            && (r == Err(ZeroDivisionError) <==>
                  !(withRecord && n <= 0) && Numeric.RoundDecimals(capFps, 2) == 0.0 && (n > 0 || total > 0))
    ensures r.Err? ==> r.error in {ZeroDivisionError, TypeError}
  {
    var fps := Numeric.RoundDecimals(capFps, 2);
    var total := Numeric.Trunc(capFrameCount);
    var g := Grabber(fps, total, FramesToProcess(total, start, endFrame), start);
    var record: Result<Option<VideoRecord>> :=
      if !withRecord then Ok(None)
      else match Duration(g)
        case Err(e) => Err(e)
        case Ok(None) => Err(TypeError)
        case Ok(Some(d)) =>
          Ok(Some(VideoRecord(fps, Numeric.RoundHalfEven(fps), Numeric.RoundHalfEven(d))));
    if record.Err? then Err(record.error)
    else if Duration(g).Err? then Err(Duration(g).error)
    else if TotalDuration(g).Err? then Err(TotalDuration(g).error)
    else Ok((g, record.value))
  }

  /** `first_frame`: the callback runs once, with number 1, whatever the
      read returned. */
  function FirstFrame<F>(read: int -> Option<F>): (d: Delivery<Option<F>>)
    ensures d.number == 1 && d.frame == read(1)
  {
    Delivery(1, read(1))
  }

  /** Whether some delivery carries frame number `n`. */
  predicate Delivered<F>(ds: seq<Delivery<F>>, n: int)
  {
    exists i :: 0 <= i < |ds| && ds[i].number == n
  }

  /** The deliveries of frame numbers `from..last`: a failed read is skipped
      and not retried. */
  function GrabFrom<F>(from: int, last: int, read: int -> Option<F>): (ds: seq<Delivery<F>>)
    ensures forall i :: 0 <= i < |ds| ==> from <= ds[i].number <= last
    ensures forall i :: 0 <= i < |ds| ==> read(ds[i].number) == Some(ds[i].frame)
    ensures forall i, j :: 0 <= i < j < |ds| ==> ds[i].number < ds[j].number
    ensures |ds| <= if last < from then 0 else last - from + 1
    decreases last - from
  {
    if last < from then []
    else if read(from).Some? then [Delivery(from, read(from).value)] + GrabFrom(from + 1, last, read)
    else GrabFrom(from + 1, last, read)
  }

  /** No successful read is lost: every frame number in range whose read
      succeeds is delivered. */
  lemma {:induction false} GrabFromComplete<F>(from: int, last: int, read: int -> Option<F>, n: int)
    requires from <= n <= last && read(n).Some?
    ensures Delivered(GrabFrom(from, last, read), n)
    decreases last - from
  {
    var ds := GrabFrom(from, last, read);
    if n == from {
      assert ds[0].number == n;
    } else {
      var rest := GrabFrom(from + 1, last, read);
      GrabFromComplete(from + 1, last, read, n);
      var i :| 0 <= i < |rest| && rest[i].number == n;
      var k := if read(from).Some? then i + 1 else i;
      assert ds[k].number == n;
    }
  }

  /** `grab`: frames 2 to `frames_to_process`, in increasing order. */
  function Grab<F>(g: Grabber, read: int -> Option<F>): (ds: seq<Delivery<F>>)
    ensures forall i :: 0 <= i < |ds| ==> 2 <= ds[i].number <= g.framesToProcess
    ensures forall i, j :: 0 <= i < j < |ds| ==> ds[i].number < ds[j].number
    ensures forall n :: 2 <= n <= g.framesToProcess && read(n).Some? ==> Delivered(ds, n)
    ensures forall i :: 0 <= i < |ds| ==> read(ds[i].number) == Some(ds[i].frame)
  {
    var ds := GrabFrom(2, g.framesToProcess, read);
    forall n | 2 <= n <= g.framesToProcess && read(n).Some?
      ensures Delivered(ds, n)
    {
      GrabFromComplete(2, g.framesToProcess, read, n);
    }
    ds
  }

  /** With every read succeeding, the first frame and the grabbed ones number
      exactly `frames_to_process` callbacks; fewer when reads fail. */
  lemma GrabCount<F>(g: Grabber, read: int -> Option<F>)
    requires g.framesToProcess >= 1
    ensures 1 + |Grab(g, read)| <= g.framesToProcess
    ensures (forall n :: read(n).Some?) ==> 1 + |Grab(g, read)| == g.framesToProcess
  {
    if forall n :: read(n).Some? {
      GrabFromAll(2, g.framesToProcess, read);
    }
  }

  lemma {:induction false} GrabFromAll<F>(from: int, last: int, read: int -> Option<F>)
    requires from <= last + 1
    requires forall n :: read(n).Some?
    ensures |GrabFrom(from, last, read)| == last - from + 1
    decreases last - from
  {
    if from <= last {
      GrabFromAll(from + 1, last, read);
    }
  }
}
