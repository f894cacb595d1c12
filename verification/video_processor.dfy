/** `ENFSuperpixelVideoProcessor`: the composition of the grabber, the
    motion detector and the region aggregator over one video.

    What OpenCV computes is given: the segmentation of the first frame
    (its label grid and reported region count) and, for every delivered
    frame, its gray image and the motion mask the background subtractor
    produced for it.  The aggregator runs in mode `'mean'`.
 */
module VideoProcessor {
  import opened Wrappers
  import opened NumpyInt
  import Grabber
  import MotionDetector
  import SuperpixelCalculator

  /** What the segmentation reports for the first frame. */
  datatype Segmentation = Segmentation(height: nat, width: nat, labels: seq<nat>, superpixels: nat)

  /** A delivered frame: its flattened gray image and its motion mask. */
  datatype Frame = Frame(gray: seq<nat>, motion: seq<int>)

  /** The processor's settings that reach the modelled core. */
  datatype Settings = Settings(factor: real, threshold: Option<int>, motionDetection: bool)

  /** The result of a run: the final steadiness vector, the final aggregator
      and the rows `process_video` returns. */
  datatype Outcome = Outcome(steady: seq<bool>, aggregator: SuperpixelCalculator.Calculator, rows: seq<seq<real>>)

  /** `get_mean_data_filename(video_file)`: the file name of the saved
      rows, from the given name or else the stored video file name. */
  function MeanDataFilename(dataDir: string, stored: string, videoFile: Option<string>): (r: string)
    ensures var name := if videoFile.Some? then videoFile.value else stored;
            r == dataDir + "/" + name + "_mean_per_spx.npy"
  {
    var name := match videoFile case Some(f) => f case None => stored;
    dataDir + "/" + name + "_mean_per_spx.npy"
  }

  /** The given name wins over the stored one; without one the stored one
      is used, and the directory always leads the path. */
  lemma MeanDataFilenameParts(dataDir: string, stored: string, videoFile: Option<string>)
    ensures MeanDataFilename(dataDir, stored, videoFile)[..|dataDir| + 1] == dataDir + "/"
    ensures var r := MeanDataFilename(dataDir, stored, videoFile);
            var name := if videoFile.Some? then videoFile.value else stored;
            |r| == |dataDir| + |name| + 18 && r[|dataDir| + 1..|r| - 17] == name
  {
    var r := MeanDataFilename(dataDir, stored, videoFile);
    var name := if videoFile.Some? then videoFile.value else stored;
    assert r == (dataDir + "/") + name + "_mean_per_spx.npy";
    assert r[|dataDir| + 1..|r| - 17] == name;
  }

  // ---------------------------------------------------------------------
  // Invariant

  /** The segmentation uses exactly the labels `0 .. superpixels - 1`. */
  predicate Contiguous(seg: Segmentation)
  {
    && (forall i :: 0 <= i < |seg.labels| ==> seg.labels[i] < seg.superpixels)
    && (forall v :: 0 <= v < seg.superpixels ==> MotionDetector.Uses(seg.labels, v))
  }

  /** What holds between the detector and the aggregator after the first
      frame: they share the shifted label grid, and every steady position
      `p` stands for a region id `p + 1` the aggregator selected. */
  predicate Paired(d: MotionDetector.Detector, c: SuperpixelCalculator.Calculator)
  {
    && Consistent(d, c)
    && (forall p :: 0 <= p < |d.steady| && d.steady[p] ==> p + 1 in c.selected)
  }

  /** The two share the shifted label grid, whose ids start at 1. */
  predicate Consistent(d: MotionDetector.Detector, c: SuperpixelCalculator.Calculator)
  {
    && SuperpixelCalculator.Initialized(c)
    && d.segmented == c.segmented
    && (forall i :: 0 <= i < |d.segmented| ==> d.segmented[i] >= 1)
  }

  /** Contiguous labels line the two id lists up: both are `1 .. n`. */
  ghost predicate Aligned(d: MotionDetector.Detector, c: SuperpixelCalculator.Calculator, n: nat)
  {
    && MotionDetector.WellFormed(d)
    && d.superpixels == n
    && |c.ids| == n
    && (forall i :: i in c.ids <==> 1 <= i <= n)
  }

  // ---------------------------------------------------------------------
  // __process_first_frame

  /** `__process_first_frame`: segment and set up the detector, initialise
      the aggregator with the label grid and `total_frames()` (which is
      the grabber's frame count to process), select regions on the first
      frame, then force the regions it did not select to unsteady.  A failed
      first read hands OpenCV no frame. */
  function ProcessFirstFrame(s: Settings, g: Grabber.Grabber, seg: Segmentation, frame: Option<Frame>)
    : (r: Result<(MotionDetector.Detector, SuperpixelCalculator.Calculator)>)
    ensures frame.None? ==> r == Err(CvError)
    ensures r.Ok? ==> r.value.1.frames == g.framesToProcess && r.value.1.current == 1
    ensures r.Ok? ==> |r.value.0.steady| == |r.value.0.ids|
    ensures r.Ok? ==> r.value.0.segmented == MotionDetector.Shift(seg.labels)
    ensures r.Ok? ==> Consistent(r.value.0, r.value.1)
  {
    if frame.None? then Err(CvError)
    else
      var d := SetUpDetector(s, seg);
      var c := SetUpAggregator(s, g, d, frame.value);
      if c.Err? then Err(c.error)
      else
        var d' := DisableUnselected(d, c.value);
        if d'.Err? then Err(d'.error)
        else Ok((d'.value, c.value))
  }

  /** `md.apply_disabled_superpixel(mmc.get_disabled_superpixels())`. */
  function DisableUnselected(d: MotionDetector.Detector, c: SuperpixelCalculator.Calculator)
    : (r: Result<MotionDetector.Detector>)
    requires SuperpixelCalculator.Initialized(c)
    ensures r.Ok? ==> r.value == d.(steady := r.value.steady)
    ensures r.Ok? ==> |r.value.steady| == |d.steady|
  {
    MotionDetector.ApplyDisabled(d, SuperpixelCalculator.Disabled(c))
  }

  /** `md.first_frame`: the detector for the first frame's segmentation. */
  function SetUpDetector(s: Settings, seg: Segmentation): (d: MotionDetector.Detector)
    ensures d.segmented == MotionDetector.Shift(seg.labels)
    ensures |d.steady| == |d.ids|
  {
    MotionDetector.FirstFrame(seg.height, seg.width, seg.labels, seg.superpixels, s.factor)
  }

  /** `mmc.initialize` with the detector's label grid, then
      `mmc.first_frame`. */
  function SetUpAggregator(s: Settings, g: Grabber.Grabber, d: MotionDetector.Detector, f: Frame)
    : (r: Result<SuperpixelCalculator.Calculator>)
    ensures r.Ok? ==> SuperpixelCalculator.Initialized(r.value)
    ensures r.Ok? ==> r.value.segmented == d.segmented
    ensures r.Ok? ==> r.value.frames == g.framesToProcess && r.value.current == 1
  {
    match SuperpixelCalculator.Initialize(s.threshold, SuperpixelCalculator.MeanMode, d.segmented, g.framesToProcess)
    case Err(e) => Err(e)
    case Ok(c0) => SuperpixelCalculator.FirstFrame(c0, f.gray)
  }

  /** After the first frame, with contiguous labels, the two id lists line
      up and every steady position stands for a selected region. */
  lemma FirstFramePairs(s: Settings, g: Grabber.Grabber, seg: Segmentation, frame: Option<Frame>)
    requires Contiguous(seg)
    requires ProcessFirstFrame(s, g, seg, frame).Ok?
    ensures Paired(ProcessFirstFrame(s, g, seg, frame).value.0, ProcessFirstFrame(s, g, seg, frame).value.1)
    ensures Aligned(ProcessFirstFrame(s, g, seg, frame).value.0, ProcessFirstFrame(s, g, seg, frame).value.1,
                    seg.superpixels)
  {
    var n := seg.superpixels;
    var d := SetUpDetector(s, seg);
    MotionDetector.FirstFrameWellFormed(seg.height, seg.width, seg.labels, n, s.factor);
    var c := SetUpAggregator(s, g, d, frame.value).value;
    var d' := DisableUnselected(d, c).value;
    assert ProcessFirstFrame(s, g, seg, frame).value == (d', c);
    ShiftedLabelsOneToN(seg);
    IdsAreOneBased(c.ids, n);
    DisablingPairs(d, c, n);
    MotionDetector.WellFormedAnySteadiness(d, d'.steady);
  }

  /** Forcing the unselected ids unsteady leaves a steady position `p`
      only where id `p + 1` was selected. */
  lemma DisablingPairs(d: MotionDetector.Detector, c: SuperpixelCalculator.Calculator, n: nat)
    requires MotionDetector.WellFormed(d) && d.superpixels == n
    requires SuperpixelCalculator.Initialized(c)
    requires forall i :: i in c.ids <==> 1 <= i <= n
    requires DisableUnselected(d, c).Ok?
    ensures var d' := DisableUnselected(d, c).value;
            forall p :: 0 <= p < |d'.steady| && d'.steady[p] ==> p + 1 in c.selected
  {
    var disabled := SuperpixelCalculator.Disabled(c);
    var d' := DisableUnselected(d, c).value;
    forall p | 0 <= p < |d'.steady| && d'.steady[p]
      ensures p + 1 in c.selected
    {
      assert p + 1 in c.ids;
    }
  }

  /** Contiguous labels, shifted, are exactly the ids `1 .. n`. */
  lemma ShiftedLabelsOneToN(seg: Segmentation)
    requires Contiguous(seg)
    ensures forall v :: v in MotionDetector.Shift(seg.labels) <==> 1 <= v <= seg.superpixels
  {
    var shifted := MotionDetector.Shift(seg.labels);
    forall v
      ensures v in shifted <==> 1 <= v <= seg.superpixels
    {
      if v in shifted {
        var i :| 0 <= i < |shifted| && shifted[i] == v;
      }
      if 1 <= v <= seg.superpixels {
        assert MotionDetector.Uses(seg.labels, v - 1);
        var i :| 0 <= i < |seg.labels| && seg.labels[i] == v - 1;
        assert shifted[i] == v;
      }
    }
  }

  // ---------------------------------------------------------------------
  // __process_frame

  /** The detector's part of `__process_frame`: the motion update runs only
      when motion detection is on. */
  function MoveDetector(s: Settings, d: MotionDetector.Detector, f: Frame): (r: Result<MotionDetector.Detector>)
    requires forall i :: 0 <= i < |d.segmented| ==> d.segmented[i] >= 1
    ensures !s.motionDetection ==> r == Ok(d)
    ensures r.Ok? ==> r.value == d.(steady := r.value.steady)
    ensures r.Ok? ==> MotionDetector.Below(d.steady, r.value.steady)
  {
    if !s.motionDetection then Ok(d)
    else
      var r := MotionDetector.NextFrame(d, f.motion);
      assert r.Ok? ==> MotionDetector.Below(d.steady, r.value.steady) by {
        if r.Ok? {
          MotionDetector.NextFrameMonotone(d, f.motion);
        }
      }
      r
  }

  /** `__process_frame`: the optional motion update, then the aggregator's
      `next_frame`, which runs on every frame. */
  function ProcessFrame(s: Settings, d: MotionDetector.Detector, c: SuperpixelCalculator.Calculator, f: Frame)
    : (r: Result<(MotionDetector.Detector, SuperpixelCalculator.Calculator)>)
    requires Consistent(d, c)
    ensures r.Ok? ==> Consistent(r.value.0, r.value.1)
    ensures r.Ok? && Paired(d, c) ==> Paired(r.value.0, r.value.1)
    ensures r.Ok? ==> MotionDetector.Below(d.steady, r.value.0.steady)
    ensures r.Ok? && !s.motionDetection ==> r.value.0 == d
    ensures r.Ok? ==> r.value.1.selected == c.selected && r.value.1.current == c.current + 1
    ensures r.Ok? ==> r.value.1.frames == c.frames
  {
    match MoveDetector(s, d, f)
    case Err(e) => Err(e)
    case Ok(d') =>
      match AdvanceAggregator(c, f.gray)
      case Err(e) => Err(e)
      case Ok(c') =>
        StepKeepsPairing(d, c, d', c');
        Ok((d', c'))
  }

  /** Lowering flags and advancing the aggregator over the same selection
      keeps the two consistent, and paired when they were. */
  lemma StepKeepsPairing(d: MotionDetector.Detector, c: SuperpixelCalculator.Calculator,
                         d': MotionDetector.Detector, c': SuperpixelCalculator.Calculator)
    requires Consistent(d, c)
    requires d' == d.(steady := d'.steady) && MotionDetector.Below(d.steady, d'.steady)
    requires SuperpixelCalculator.Initialized(c')
    requires c'.segmented == c.segmented && c'.selected == c.selected
    ensures Consistent(d', c')
    ensures Paired(d, c) ==> Paired(d', c')
  {
  }

  /** The aggregator's part of `__process_frame`: `next_frame` records the
      selected regions and counts the frame, keeping the label grid, the
      selection and the buffer width. */
  function AdvanceAggregator(c: SuperpixelCalculator.Calculator, gray: seq<nat>)
    : (r: Result<SuperpixelCalculator.Calculator>)
    requires SuperpixelCalculator.Initialized(c)
    ensures r.Ok? ==> SuperpixelCalculator.Initialized(r.value)
    ensures r.Ok? ==> r.value.segmented == c.segmented && r.value.selected == c.selected
    ensures r.Ok? ==> r.value.current == c.current + 1 && r.value.frames == c.frames
  {
    SuperpixelCalculator.NextFrame(c, gray)
  }

  /** A frame of the label grid's size is processed without error while a
      column is left. */
  lemma ProcessFrameSucceeds(s: Settings, d: MotionDetector.Detector, c: SuperpixelCalculator.Calculator,
                             f: Frame, n: nat)
    requires Paired(d, c) && Aligned(d, c, n)
    requires |f.gray| == |d.segmented| && |f.motion| == |d.segmented|
    requires c.current < c.frames
    ensures ProcessFrame(s, d, c, f).Ok?
    ensures Aligned(ProcessFrame(s, d, c, f).value.0, ProcessFrame(s, d, c, f).value.1, n)
  {
    if s.motionDetection {
      MotionDetector.NextFrameSucceeds(d, f.motion);
    }
    var d' := MoveDetector(s, d, f).value;
    MotionDetector.WellFormedAnySteadiness(d, d'.steady);
    SuperpixelCalculator.NextFrameSucceeds(c, f.gray);
  }

  // ---------------------------------------------------------------------
  // process_video

  /** What makes a run go through: contiguous labels, at least one frame to
      process, a first frame, and every frame the size of the label grid. */
  ghost predicate Fits(g: Grabber.Grabber, seg: Segmentation, read: int -> Option<Frame>)
  {
    && Contiguous(seg)
    && g.framesToProcess >= 1
    && 0 < |seg.labels|
    && read(1).Some?
    && (forall n :: 1 <= n <= g.framesToProcess && read(n).Some? ==>
          |read(n).value.gray| == |seg.labels| && |read(n).value.motion| == |seg.labels|)
  }

  /** The first frame goes through for contiguous labels, a frame of the
      grid's size and at least one frame to process. */
  lemma FirstFrameSucceeds(s: Settings, g: Grabber.Grabber, seg: Segmentation, f: Frame)
    requires Contiguous(seg) && g.framesToProcess >= 1
    requires 0 < |f.gray| == |seg.labels|
    ensures ProcessFirstFrame(s, g, seg, Some(f)).Ok?
  {
    DetectorReady(s, seg);
    AggregatorAndDisablingSucceed(s, g, SetUpDetector(s, seg), f, seg.superpixels);
  }

  /** On a well-formed detector over ids `1 .. n`, a first frame of the
      grid's size sets up the aggregator and disables its unselected ids
      without error. */
  lemma AggregatorAndDisablingSucceed(s: Settings, g: Grabber.Grabber, d: MotionDetector.Detector, f: Frame, n: nat)
    requires MotionDetector.WellFormed(d) && d.superpixels == n
    requires forall v :: v in d.segmented <==> 1 <= v <= n
    requires 0 < |f.gray| == |d.segmented|
    requires g.framesToProcess >= 1
    ensures SetUpAggregator(s, g, d, f).Ok?
    ensures DisableUnselected(d, SetUpAggregator(s, g, d, f).value).Ok?
  {
    SetUpAggregatorSucceeds(s, g, d, f, n);
    DisableUnselectedSucceeds(d, SetUpAggregator(s, g, d, f).value, n);
  }

  /** Contiguous labels set up a well-formed detector whose label grid
      holds exactly the ids `1 .. n`. */
  lemma DetectorReady(s: Settings, seg: Segmentation)
    requires Contiguous(seg)
    ensures var d := SetUpDetector(s, seg);
            && MotionDetector.WellFormed(d) && d.superpixels == seg.superpixels
            && |d.segmented| == |seg.labels|
            && forall v :: v in d.segmented <==> 1 <= v <= seg.superpixels
  {
    ShiftedLabelsOneToN(seg);
    MotionDetector.FirstFrameWellFormed(seg.height, seg.width, seg.labels, seg.superpixels, s.factor);
  }

  /** Initialising and selecting go through for a frame of the grid's size,
      ids `1 .. n` and at least one column. */
  lemma SetUpAggregatorSucceeds(s: Settings, g: Grabber.Grabber, d: MotionDetector.Detector, f: Frame, n: nat)
    requires forall v :: v in d.segmented <==> 1 <= v <= n
    requires 0 < |f.gray| == |d.segmented|
    requires g.framesToProcess >= 1
    ensures SetUpAggregator(s, g, d, f).Ok?
    ensures forall i :: i in SetUpAggregator(s, g, d, f).value.ids <==> 1 <= i <= n
  {
    var c0 := SuperpixelCalculator.Initialize(s.threshold, SuperpixelCalculator.MeanMode, d.segmented, g.framesToProcess).value;
    IdsAreOneBased(c0.ids, n);
    SuperpixelCalculator.FirstFrameSucceeds(c0, f.gray);
  }

  /** Disabling ids `1 .. n` on a detector with `n` positions goes through. */
  lemma DisableUnselectedSucceeds(d: MotionDetector.Detector, c: SuperpixelCalculator.Calculator, n: nat)
    requires MotionDetector.WellFormed(d) && d.superpixels == n
    requires SuperpixelCalculator.Initialized(c)
    requires forall i :: i in c.ids <==> 1 <= i <= n
    ensures DisableUnselected(d, c).Ok?
  {
    var disabled := SuperpixelCalculator.Disabled(c);
    forall k | 0 <= k < |disabled|
      ensures InBounds(disabled[k] - 1, |d.steady|)
    {
      assert disabled[k] in disabled;
    }
  }

  /** The frames the grabber delivers after the first. */
  function Grabbed(g: Grabber.Grabber, read: int -> Option<Frame>): (fs: seq<Frame>)
    ensures |fs| == |Grabber.Grab(g, read)|
  {
    var ds := Grabber.Grab(g, read);
    seq(|ds|, k requires 0 <= k < |ds| => ds[k].frame)
  }

  /** Frames that fit leave the first frame paired and aligned, with room
      for every grabbed frame and each of the grid's size. */
  lemma FitsReady(s: Settings, g: Grabber.Grabber, seg: Segmentation, read: int -> Option<Frame>)
    requires Fits(g, seg, read)
    ensures ProcessFirstFrame(s, g, seg, read(1)).Ok?
    ensures var (d1, c1) := ProcessFirstFrame(s, g, seg, read(1)).value;
            var fs := Grabbed(g, read);
            && Paired(d1, c1) && Aligned(d1, c1, seg.superpixels)
            && c1.current + |fs| <= c1.frames
            && (forall k :: 0 <= k < |fs| ==> |fs[k].gray| == |d1.segmented| && |fs[k].motion| == |d1.segmented|)
  {
    FirstFrameSucceeds(s, g, seg, read(1).value);
    FirstFramePairs(s, g, seg, read(1));
    var d1 := ProcessFirstFrame(s, g, seg, read(1)).value.0;
    assert |d1.segmented| == |seg.labels|;
    GrabbedFit(g, seg, read);
  }

  /** Frames that fit leave room for every grabbed frame, each of the
      grid's size. */
  lemma GrabbedFit(g: Grabber.Grabber, seg: Segmentation, read: int -> Option<Frame>)
    requires Fits(g, seg, read)
    ensures 1 + |Grabbed(g, read)| <= g.framesToProcess
    ensures var fs := Grabbed(g, read);
            forall k :: 0 <= k < |fs| ==> |fs[k].gray| == |seg.labels| && |fs[k].motion| == |seg.labels|
  {
    Grabber.GrabCount(g, read);
    var ds := Grabber.Grab(g, read);
    var fs := Grabbed(g, read);
    forall k | 0 <= k < |fs|
      ensures |fs[k].gray| == |seg.labels| && |fs[k].motion| == |seg.labels|
    {
      assert fs[k] == ds[k].frame;
      assert read(ds[k].number) == Some(fs[k]);
    }
  }

  /** The grabber's loop: every delivered frame in turn, stopping at the
      first error. */
  method ProcessFrames(s: Settings, d1: MotionDetector.Detector, c1: SuperpixelCalculator.Calculator,
                       fs: seq<Frame>, n: nat)
    returns (r: Result<(MotionDetector.Detector, SuperpixelCalculator.Calculator)>)
    requires Consistent(d1, c1)
    ensures Paired(d1, c1) && Aligned(d1, c1, n) && c1.current + |fs| <= c1.frames &&
            (forall k :: 0 <= k < |fs| ==> |fs[k].gray| == |d1.segmented| && |fs[k].motion| == |d1.segmented|)
            ==> r.Ok?
    ensures r.Ok? ==> Consistent(r.value.0, r.value.1)
    ensures r.Ok? && Paired(d1, c1) ==> Paired(r.value.0, r.value.1)
    ensures r.Ok? ==> r.value.0.segmented == d1.segmented
    ensures r.Ok? ==> MotionDetector.Below(d1.steady, r.value.0.steady)
    ensures r.Ok? && !s.motionDetection ==> r.value.0 == d1
    ensures r.Ok? ==> r.value.1.selected == c1.selected && r.value.1.current == c1.current + |fs|
    ensures r.Ok? ==> r.value.1.frames == c1.frames
  {
    var fits := Paired(d1, c1) && Aligned(d1, c1, n) && c1.current + |fs| <= c1.frames &&
                (forall k :: 0 <= k < |fs| ==> |fs[k].gray| == |d1.segmented| && |fs[k].motion| == |d1.segmented|);
    var d, c := d1, c1;
    var k := 0;
    while k < |fs|
      invariant 0 <= k <= |fs|
      invariant Consistent(d, c)
      invariant Paired(d1, c1) ==> Paired(d, c)
      invariant d.segmented == d1.segmented
      invariant MotionDetector.Below(d1.steady, d.steady)
      invariant !s.motionDetection ==> d == d1
      invariant c.selected == c1.selected && c.current == c1.current + k && c.frames == c1.frames
      invariant fits ==> Aligned(d, c, n)
    {
      if fits {
        ProcessFrameSucceeds(s, d, c, fs[k], n);
      }
      var step := ProcessFrame(s, d, c, fs[k]);
      if step.Err? {
        return Err(step.error);
      }
      d, c := step.value.0, step.value.1;
      k := k + 1;
    }
    r := Ok((d, c));
  }

  /** `process_video`: the first frame, then every frame the grabber
      delivers, then the mean rows of the positions still steady. */
  method ProcessVideo(s: Settings, g: Grabber.Grabber, seg: Segmentation, read: int -> Option<Frame>)
    returns (r: Result<Outcome>)
    ensures Fits(g, seg, read) ==> r.Ok?
    ensures r.Ok? ==> ProcessFirstFrame(s, g, seg, read(1)).Ok?
    ensures r.Ok? ==> var (d1, c1) := ProcessFirstFrame(s, g, seg, read(1)).value;
              && MotionDetector.Below(d1.steady, r.value.steady)
              && (!s.motionDetection ==> r.value.steady == d1.steady)
              && r.value.aggregator.selected == c1.selected
    ensures r.Ok? ==> r.value.aggregator.current == 1 + |Grabber.Grab(g, read)|
    ensures r.Ok? && Contiguous(seg) ==>
              forall p :: 0 <= p < |r.value.steady| && r.value.steady[p] ==> p + 1 in r.value.aggregator.selected
    ensures r.Ok? ==> SuperpixelCalculator.Initialized(r.value.aggregator)
    ensures r.Ok? ==> SuperpixelCalculator.MeanPerSuperpixel(r.value.aggregator, r.value.steady)
                      == Ok(r.value.rows)
  {
    var first := ProcessFirstFrame(s, g, seg, read(1));
    var fs := Grabbed(g, read);
    ghost var fits := Fits(g, seg, read);
    if fits {
      FitsReady(s, g, seg, read);
    }
    if first.Err? {
      return Err(first.error);
    }
    var d1, c1 := first.value.0, first.value.1;
    if Contiguous(seg) {
      FirstFramePairs(s, g, seg, read(1));
    }
    var moved := ProcessFrames(s, d1, c1, fs, seg.superpixels);
    if moved.Err? {
      return Err(moved.error);
    }
    var d, c := moved.value.0, moved.value.1;
    if fits {
      assert c.ids == c1.ids;
      assert |d.steady| == |d1.steady| == |c1.ids|;
    }
    var rows := SuperpixelCalculator.MeanPerSuperpixel(c, d.steady);
    if rows.Err? {
      return Err(rows.error);
    }
    r := Ok(Outcome(d.steady, c, rows.value));
  }
}
