/** `MeanMedianSuperpixelCalculator`: per-region mean and median lightness,
    frame by frame, into two zero-initialised `[id, frame]` buffers.  Gray
    frames are flattened rows of pixel values.  Regions are selected once, on
    the first frame, by a strict comparison with the lightness threshold.
 */
module SuperpixelCalculator {
  import opened Wrappers
  import opened NumpyInt
  import Numeric

  /** The selection statistic: mode `'mean'`, or any other mode string, which
      selects by the median. */
  datatype Mode = MeanMode | MedianMode

  datatype Calculator = Calculator(
    threshold: Option<int>,
    mode: Mode,
    segmented: seq<nat>,         // the label grid, flattened
    ids: seq<int>,               // the distinct labels, ascending
    selected: seq<int>,          // selected ids, in the order they were chosen
    current: nat,                // frames processed so far
    frames: nat,                 // buffer width
    means: seq<seq<real>>,       // row i: region id i
    medians: seq<seq<real>>)

  /** A buffer of `rows` rows of `cols` entries. */
  predicate Shaped(b: seq<seq<real>>, rows: nat, cols: nat)
  {
    |b| == rows && forall r :: 0 <= r < rows ==> |b[r]| == cols
  }

  function Zeros(rows: nat, cols: nat): (b: seq<seq<real>>)
    ensures Shaped(b, rows, cols)
    ensures forall r, c :: 0 <= r < rows && 0 <= c < cols ==> b[r][c] == 0.0
  {
    seq(rows, r => seq(cols, c => 0.0))
  }

  /** The state `initialize` leaves and every later call keeps. */
  predicate Initialized(c: Calculator)
  {
    && c.ids == Unique(c.segmented)
    && Shaped(c.means, |c.ids| + 1, c.frames)
    && Shaped(c.medians, |c.ids| + 1, c.frames)
    && (forall k :: 0 <= k < |c.selected| ==> c.selected[k] in c.ids)
  }

  // ---------------------------------------------------------------------
  // initialize

  /** `np.where(segmented == i)`: the ascending positions that carry `i`. */
  function Locations(seg: seq<nat>, i: int): (locs: seq<nat>)
    ensures forall k :: 0 <= k < |locs| ==> locs[k] < |seg| && seg[locs[k]] == i
    ensures forall j :: 0 <= j < |seg| && seg[j] == i ==> j in locs
    ensures forall k, l :: 0 <= k < l < |locs| ==> locs[k] < locs[l]
  {
    LocationsFrom(seg, i, 0)
  }

  function LocationsFrom(seg: seq<nat>, i: int, from: nat): (locs: seq<nat>)
    ensures forall k :: 0 <= k < |locs| ==> from <= locs[k] < |seg| && seg[locs[k]] == i
    ensures forall j :: from <= j < |seg| && seg[j] == i ==> j in locs
    ensures forall k, l :: 0 <= k < l < |locs| ==> locs[k] < locs[l]
    decreases |seg| - from
  {
    if from >= |seg| then []
    else (if seg[from] == i then [from] else []) + LocationsFrom(seg, i, from + 1)
  }

  /** The location lists partition the pixels: every position lies in the
      list of its own label and in no other. */
  lemma LocationsPartition(seg: seq<nat>, j: int, i: int)
    requires 0 <= j < |seg|
    ensures j in Locations(seg, i) <==> seg[j] == i
  {
  }

  /** `initialize(segmented, total_nr_frames)`: the ids, their locations and
      two zero buffers with one row per id plus row 0; a negative width is
      refused by numpy with `ValueError`. */
  function Initialize(threshold: Option<int>, mode: Mode, seg: seq<nat>, totalFrames: int)
    : (r: Result<Calculator>)
    ensures r.Err? <==> totalFrames < 0
    ensures r.Err? ==> r.error == ValueError
    ensures r.Ok? ==> Initialized(r.value)
    ensures r.Ok? ==> r.value.selected == [] && r.value.current == 0
    ensures r.Ok? ==> r.value.frames == totalFrames && r.value.threshold == threshold
    ensures r.Ok? ==> forall v :: v in r.value.ids <==> v in seg
    ensures r.Ok? ==> forall row, col :: 0 <= row < |r.value.means| && 0 <= col < totalFrames ==>
                        r.value.means[row][col] == 0.0 && r.value.medians[row][col] == 0.0
  {
    if totalFrames < 0 then Err(ValueError)
    else
      var ids := Unique(seg);
      Ok(Calculator(threshold, mode, seg, ids, [], 0, totalFrames,
                    Zeros(|ids| + 1, totalFrames), Zeros(|ids| + 1, totalFrames)))
  }

  // ---------------------------------------------------------------------
  // Region values

  /** Every location of id `i` lies inside the frame. */
  predicate ReadableId(lum: seq<nat>, seg: seq<nat>, i: int)
  {
    forall l :: 0 <= l < |Locations(seg, i)| ==> Locations(seg, i)[l] < |lum|
  }

  /** Every location of the given ids lies inside the frame. */
  predicate Readable(lum: seq<nat>, seg: seq<nat>, ids: seq<int>)
  {
    forall i :: i in ids ==> ReadableId(lum, seg, i)
  }

  function Gather(lum: seq<nat>, locs: seq<nat>): (px: seq<real>)
    requires forall l :: 0 <= l < |locs| ==> locs[l] < |lum|
    ensures |px| == |locs|
    ensures forall l :: 0 <= l < |locs| ==> px[l] == lum[locs[l]] as real
  {
    seq(|locs|, l requires 0 <= l < |locs| => lum[locs[l]] as real)
  }

  /** The pixel values of region `i`: every pixel of the region, not only
      those above the threshold. */
  function RegionPixels(lum: seq<nat>, seg: seq<nat>, i: int): (px: seq<real>)
    requires i in seg
    requires ReadableId(lum, seg, i)
    ensures |px| > 0
  {
    var locs := Locations(seg, i);
    var j :| 0 <= j < |seg| && seg[j] == i;
    assert j in locs;
    Gather(lum, locs)
  }

  // ---------------------------------------------------------------------
  // first_frame

  /** The threshold `first_frame` settles on: the given one, unless it is
      absent or above the brightest pixel, in which case `int(median)` of the
      frame. */
  function ChooseThreshold(given: Option<int>, lum: seq<nat>): (t: int)
    requires |lum| > 0
    ensures (given.None? || given.value >= 0) ==> 0 <= t
    ensures t as real <= Numeric.Max(Numeric.ToReals(lum))
    ensures given.Some? && given.value as real <= Numeric.Max(Numeric.ToReals(lum)) ==> t == given.value
    ensures given.None? || given.value as real > Numeric.Max(Numeric.ToReals(lum)) ==>
              t == Numeric.Trunc(Numeric.Median(Numeric.ToReals(lum)))
  {
    var px := Numeric.ToReals(lum);
    var median := Numeric.Trunc(Numeric.Median(px));
    TruncMedianBounds(lum);
    match given
    case None => median
    case Some(g) => if Numeric.Max(px) < g as real then median else g
  }

  /** `int(median)` of a frame lies between 0 and its brightest pixel. */
  lemma TruncMedianBounds(lum: seq<nat>)
    requires |lum| > 0
    ensures 0 <= Numeric.Trunc(Numeric.Median(Numeric.ToReals(lum)))
    ensures Numeric.Trunc(Numeric.Median(Numeric.ToReals(lum))) as real <= Numeric.Max(Numeric.ToReals(lum))
  {
    var px := Numeric.ToReals(lum);
    Numeric.MedianBounds(px);
    var k :| 0 <= k < |px| && px[k] == Numeric.Min(px);
    assert Numeric.Min(px) >= 0.0;
  }

  /** Whether `ChooseThreshold` replaced a given threshold. */
  lemma ThresholdSubstitution(given: int, lum: seq<nat>)
    requires |lum| > 0
    ensures ChooseThreshold(Some(given), lum) != given ==>
              given as real > Numeric.Max(Numeric.ToReals(lum))
    ensures ChooseThreshold(Some(given), lum) <= given
  {
  }

  /** The selection statistic of every id: its mean or its median. */
  function Score(mode: Mode, px: seq<real>): real
    requires |px| > 0
  {
    if mode == MeanMode then Numeric.Mean(px) else Numeric.Median(px)
  }

  /** The ids whose score is strictly above the threshold, in id order. */
  function Select(ids: seq<int>, score: map<int, real>, t: int): (r: seq<int>)
    requires forall i :: i in ids ==> i in score
    ensures forall x :: x in r <==> x in ids && score[x] > t as real
    ensures StrictlyIncreasing(ids) ==> StrictlyIncreasing(r)
    ensures |r| <= |ids|
  {
    if |ids| == 0 then []
    else
      var x := ids[0];
      assert ids == [x] + ids[1..];
      assert x in ids;
      assert x in score;
      var rest := Select(ids[1..], score, t);
      if score[x] > t as real then
        var r := [ids[0]] + rest;
        assert StrictlyIncreasing(ids) ==> StrictlyIncreasing(r) by {
          if StrictlyIncreasing(ids) {
            forall k | 0 < k < |r| ensures ids[0] < r[k] {
              assert r[k] in rest;
              var j :| 0 <= j < |ids[1..]| && ids[1..][j] == r[k];
              assert ids[j + 1] == r[k];
            }
          }
        }
        r
      else rest
  }

  /** Writes `vals[i]` at `(i, col)` for every listed row `i`; a row or a
      column outside the buffer raises `IndexError`. */
  function WriteColumn(buf: seq<seq<real>>, rows: seq<int>, col: nat, vals: map<int, real>)
    : (r: Result<seq<seq<real>>>)
    requires forall i :: i in rows ==> i in vals && i >= 0
    ensures r.Err? <==> exists i :: i in rows && (i >= |buf| || col >= |buf[i]|)
    ensures r.Err? ==> r.error == IndexError
    ensures r.Ok? ==> Written(buf, r.value, rows, col, vals)
    decreases |rows|
  {
    if |rows| == 0 then Ok(buf)
    else
      var i := rows[0];
      assert rows == [i] + rows[1..];
      assert i in rows;
      assert forall x :: x in rows <==> x == i || x in rows[1..];
      if i >= |buf| || col >= |buf[i]| then Err(IndexError)
      else
        var written := buf[i := buf[i][col := vals[i]]];
        WriteColumn(written, rows[1..], col, vals)
  }

  /** `after` is `before` with cell `(i, col)` of every listed row `i`
      replaced by `vals[i]`, and every other cell as it was. */
  predicate Written(before: seq<seq<real>>, after: seq<seq<real>>, rows: seq<int>, col: nat,
                    vals: map<int, real>)
    requires forall i :: i in rows ==> i in vals
  {
    && |after| == |before|
    && (forall i :: 0 <= i < |before| ==> |after[i]| == |before[i]|)
    && forall i, j :: 0 <= i < |before| && 0 <= j < |before[i]| ==>
         after[i][j] == if j == col && i in rows then vals[i] else before[i][j]
  }

  /** On a buffer of a known shape, a write fails exactly when a row or the
      column lies outside that shape, and keeps the shape otherwise. */
  lemma WriteColumnShaped(buf: seq<seq<real>>, rows: seq<int>, col: nat, vals: map<int, real>,
                          height: nat, width: nat)
    requires forall i :: i in rows ==> i in vals && i >= 0
    requires Shaped(buf, height, width)
    ensures WriteColumn(buf, rows, col, vals).Err? <==>
              exists i :: i in rows && (i >= height || col >= width)
    ensures WriteColumn(buf, rows, col, vals).Ok? ==>
              Shaped(WriteColumn(buf, rows, col, vals).value, height, width)
  {
  }

  /** The mean and the median of every listed id in this frame. */
  function Means(lum: seq<nat>, seg: seq<nat>, ids: seq<int>): (m: map<int, real>)
    requires forall i :: i in ids ==> i in seg
    requires Readable(lum, seg, ids)
    ensures forall i :: i in m <==> i in ids
    ensures forall i :: i in ids ==> m[i] == Numeric.Mean(RegionPixels(lum, seg, i))
  {
    map i | i in ids :: Numeric.Mean(RegionPixels(lum, seg, i))
  }

  function Medians(lum: seq<nat>, seg: seq<nat>, ids: seq<int>): (m: map<int, real>)
    requires forall i :: i in ids ==> i in seg
    requires Readable(lum, seg, ids)
    ensures forall i :: i in m <==> i in ids
    ensures forall i :: i in ids ==> m[i] == Numeric.Median(RegionPixels(lum, seg, i))
  {
    map i | i in ids :: Numeric.Median(RegionPixels(lum, seg, i))
  }

  /** Writes this frame's values of the given ids into column `current` of
      both buffers and advances the frame counter. */
  function Record(c: Calculator, lum: seq<nat>, rows: seq<int>): (r: Result<Calculator>)
    requires Initialized(c)
    requires forall i :: i in rows ==> i in c.ids
    requires Readable(lum, c.segmented, rows)
    ensures r.Ok? ==> Initialized(r.value)
    ensures r.Ok? ==> r.value == c.(means := r.value.means, medians := r.value.medians,
                                     current := c.current + 1)
    ensures r.Err? <==> exists i :: i in rows && (i >= |c.means| || c.current >= c.frames)
    ensures r.Err? ==> r.error == IndexError
    ensures r.Ok? ==> Recorded(c, lum, rows, r.value)
  {
    forall i | i in rows ensures i in c.segmented && 0 <= i {
      IdInSegmentation(c, i);
    }
    var means := Means(lum, c.segmented, rows);
    var medians := Medians(lum, c.segmented, rows);
    WriteColumnShaped(c.means, rows, c.current, means, |c.ids| + 1, c.frames);
    WriteColumnShaped(c.medians, rows, c.current, medians, |c.ids| + 1, c.frames);
    match WriteColumn(c.means, rows, c.current, means)
    case Err(e) => Err(e)
    case Ok(m) =>
      match WriteColumn(c.medians, rows, c.current, medians)
      case Err(e) => Err(e)
      case Ok(d) =>
        var r := c.(means := m, medians := d, current := c.current + 1);
        WrittenRecorded(c, lum, rows, r, means, medians);
        Ok(r)
  }

  /** Cell `(i, j)` of both buffers after recording `rows` in column
      `c.current`: region `i`'s mean and median in this frame for a listed
      row in that column, the old value everywhere else. */
  ghost predicate Recorded(c: Calculator, lum: seq<nat>, rows: seq<int>, d: Calculator)
    requires Initialized(c)
    requires forall i :: i in rows ==> i in c.ids
    requires Readable(lum, c.segmented, rows)
  {
    && Shaped(d.means, |c.means|, c.frames)
    && Shaped(d.medians, |c.medians|, c.frames)
    && (forall i :: CellRecorded(c, lum, rows, d.means, d.medians, i))
    && forall i, j :: CellKept(c, rows, d.means, d.medians, i, j)
  }

  /** Row `i` of column `c.current` holds region `i`'s mean and median in
      this frame when `i` is listed. */
  ghost predicate CellRecorded(c: Calculator, lum: seq<nat>, rows: seq<int>,
                               means: seq<seq<real>>, medians: seq<seq<real>>, i: int)
    requires Initialized(c)
    requires forall i :: i in rows ==> i in c.ids
    requires Readable(lum, c.segmented, rows)
    requires Shaped(means, |c.means|, c.frames) && Shaped(medians, |c.medians|, c.frames)
  {
    i in rows && 0 <= i < |c.means| && c.current < c.frames ==>
      means[i][c.current] == RegionMean(c, lum, i) &&
      medians[i][c.current] == RegionMedian(c, lum, i)
  }

  /** Cell `(i, j)` keeps its value unless it lies in column `c.current` of
      a listed row. */
  ghost predicate CellKept(c: Calculator, rows: seq<int>, means: seq<seq<real>>, medians: seq<seq<real>>,
                           i: int, j: int)
    requires Initialized(c)
    requires Shaped(means, |c.means|, c.frames) && Shaped(medians, |c.medians|, c.frames)
  {
    0 <= i < |c.means| && 0 <= j < c.frames && (j != c.current || i !in rows) ==>
      means[i][j] == c.means[i][j] && medians[i][j] == c.medians[i][j]
  }

  /** Region `i`'s mean and median lightness in this frame. */
  function RegionMean(c: Calculator, lum: seq<nat>, i: int): real
    requires Initialized(c) && i in c.ids && ReadableId(lum, c.segmented, i)
  {
    IdInSegmentation(c, i);
    Numeric.Mean(RegionPixels(lum, c.segmented, i))
  }

  function RegionMedian(c: Calculator, lum: seq<nat>, i: int): real
    requires Initialized(c) && i in c.ids && ReadableId(lum, c.segmented, i)
  {
    IdInSegmentation(c, i);
    Numeric.Median(RegionPixels(lum, c.segmented, i))
  }

  /** Writing this frame's means and medians of `rows` into column
      `c.current` of both buffers records them. */
  lemma WrittenRecorded(c: Calculator, lum: seq<nat>, rows: seq<int>, d: Calculator,
                        means: map<int, real>, medians: map<int, real>)
    requires Initialized(c)
    requires forall i :: i in rows ==> i in c.ids
    requires Readable(lum, c.segmented, rows)
    requires forall i :: i in rows ==> i in means && means[i] == RegionMean(c, lum, i)
    requires forall i :: i in rows ==> i in medians && medians[i] == RegionMedian(c, lum, i)
    requires Written(c.means, d.means, rows, c.current, means)
    requires Written(c.medians, d.medians, rows, c.current, medians)
    ensures Recorded(c, lum, rows, d)
  {
    forall i ensures CellRecorded(c, lum, rows, d.means, d.medians, i) {
      if i in rows && 0 <= i < |c.means| && c.current < c.frames {
        assert d.means[i][c.current] == means[i];
        assert d.medians[i][c.current] == medians[i];
      }
    }
    forall i, j ensures CellKept(c, rows, d.means, d.medians, i, j) {
    }
  }

  lemma IdInSegmentation(c: Calculator, i: int)
    requires Initialized(c)
    requires i in c.ids
    ensures i in c.segmented
    ensures 0 <= i
  {
  }

  /** `first_frame`: settle the threshold, select the regions whose score is
      strictly above it, record their values and count the frame.  An empty
      frame has no median (`ValueError`); a frame smaller than the label grid
      indexes outside it (`IndexError`). */
  function FirstFrame(c: Calculator, lum: seq<nat>): (r: Result<Calculator>)
    requires Initialized(c)
    ensures |lum| == 0 ==> r == Err(ValueError)
    ensures r.Ok? ==> |lum| > 0 && Readable(lum, c.segmented, c.ids)
    ensures r.Ok? ==> Initialized(r.value)
    ensures r.Ok? ==> r.value.threshold == Some(ChooseThreshold(c.threshold, lum))
    ensures r.Ok? ==> r.value.current == c.current + 1
    ensures r.Ok? ==> forall i :: i in r.value.selected <==>
              i in c.selected || (i in c.ids && Selects(c, lum, i))
  {
    if |lum| == 0 then Err(ValueError)
    else if !Readable(lum, c.segmented, c.ids) then Err(IndexError)
    else
      var t := ChooseThreshold(c.threshold, lum);
      var chosen := Chosen(c, lum);
      match Record(c, lum, chosen)
      case Err(e) => Err(e)
      case Ok(d) =>
        SelectionGrows(c.selected, chosen, c.ids);
        Ok(d.(threshold := Some(t), selected := c.selected + chosen))
  }

  /** Appending chosen ids keeps every selected id among the ids. */
  lemma SelectionGrows(selected: seq<int>, chosen: seq<int>, ids: seq<int>)
    requires forall k :: 0 <= k < |selected| ==> selected[k] in ids
    requires forall i :: i in chosen ==> i in ids
    ensures forall k :: 0 <= k < |selected + chosen| ==> (selected + chosen)[k] in ids
    ensures forall i :: i in selected + chosen <==> i in selected || i in chosen
  {
    forall k | 0 <= k < |selected + chosen| ensures (selected + chosen)[k] in ids {
      if k >= |selected| {
        assert (selected + chosen)[k] == chosen[k - |selected|];
      }
    }
  }

  /** The ids `first_frame` selects, in id order. */
  function Chosen(c: Calculator, lum: seq<nat>): (chosen: seq<int>)
    requires Initialized(c) && |lum| > 0
    requires Readable(lum, c.segmented, c.ids)
    ensures forall i :: i in chosen ==> i in c.ids
    ensures Readable(lum, c.segmented, chosen)
    ensures forall i :: i in chosen <==> i in c.ids && Selects(c, lum, i)
    ensures StrictlyIncreasing(chosen)
  {
    forall i | i in c.ids ensures i in c.segmented {
      IdInSegmentation(c, i);
    }
    var means := Means(lum, c.segmented, c.ids);
    var medians := Medians(lum, c.segmented, c.ids);
    var score := if c.mode == MeanMode then means else medians;
    Select(c.ids, score, ChooseThreshold(c.threshold, lum))
  }

  /** Whether region `i`'s mean (or median) in the first frame is strictly
      above the threshold. */
  predicate Selects(c: Calculator, lum: seq<nat>, i: int)
    requires Initialized(c) && |lum| > 0
    requires i in c.ids && Readable(lum, c.segmented, c.ids)
  {
    IdInSegmentation(c, i);
    Score(c.mode, RegionPixels(lum, c.segmented, i)) > ChooseThreshold(c.threshold, lum) as real
  }

  // ---------------------------------------------------------------------
  // next_frame

  /** `next_frame`: record the values of the selected regions and count the
      frame; the threshold and the selection stay as they are.  Each selected
      row receives, in the current column, the region's mean and median in
      this frame; every other cell keeps its value. */
  function NextFrame(c: Calculator, lum: seq<nat>): (r: Result<Calculator>)
    requires Initialized(c)
    ensures r.Ok? ==> Initialized(r.value)
    ensures r.Ok? ==> r.value == c.(means := r.value.means, medians := r.value.medians,
                                     current := c.current + 1)
    ensures r.Ok? ==> Readable(lum, c.segmented, c.selected) && Recorded(c, lum, c.selected, r.value)
    ensures r.Err? ==> r.error == IndexError
    ensures |c.selected| > 0 && c.current >= c.frames ==> r.Err?
  {
    if !Readable(lum, c.segmented, c.selected) then Err(IndexError)
    else
      var r := Record(c, lum, c.selected);
      assert |c.selected| > 0 && c.current >= c.frames ==> r.Err? by {
        if |c.selected| > 0 && c.current >= c.frames {
          var x := c.selected[0];
          assert x in c.selected;
        }
      }
      r
  }

  /** A frame of the label grid's size can be read at every region. */
  lemma ReadableSameSize(lum: seq<nat>, seg: seq<nat>, ids: seq<int>)
    requires |lum| == |seg|
    ensures Readable(lum, seg, ids)
  {
  }

  /** With every id inside the buffers and a column left, a frame of the
      label grid's size is recorded without error. */
  lemma NextFrameSucceeds(c: Calculator, lum: seq<nat>)
    requires Initialized(c)
    requires |lum| == |c.segmented|
    requires c.current < c.frames
    requires forall i :: i in c.ids ==> i <= |c.ids|
    ensures NextFrame(c, lum).Ok?
  {
    ReadableSameSize(lum, c.segmented, c.selected);
  }

  /** The same for the first frame, which also needs a non-empty frame. */
  lemma FirstFrameSucceeds(c: Calculator, lum: seq<nat>)
    requires Initialized(c)
    requires 0 < |lum| == |c.segmented|
    requires c.current < c.frames
    requires forall i :: i in c.ids ==> i <= |c.ids|
    ensures FirstFrame(c, lum).Ok?
  {
    ReadableSameSize(lum, c.segmented, c.ids);
  }

  /** Rows of ids that are not selected hold zeros in both buffers,
      whatever the frames. */
  predicate UnselectedZero(c: Calculator)
    requires Initialized(c)
  {
    forall i, j :: 0 <= i < |c.means| && 0 <= j < c.frames && i !in c.selected ==>
      c.means[i][j] == 0.0 && c.medians[i][j] == 0.0
  }

  lemma InitializeUnselectedZero(threshold: Option<int>, mode: Mode, seg: seq<nat>, totalFrames: int)
    requires totalFrames >= 0
    ensures Initialize(threshold, mode, seg, totalFrames).Ok?
    ensures UnselectedZero(Initialize(threshold, mode, seg, totalFrames).value)
  {
  }

  /** A first frame that goes through is the record of the chosen ids. */
  lemma FirstFrameRecords(c: Calculator, lum: seq<nat>)
    requires Initialized(c)
    requires FirstFrame(c, lum).Ok?
    ensures Record(c, lum, Chosen(c, lum)).Ok?
    ensures FirstFrame(c, lum).value
            == Record(c, lum, Chosen(c, lum)).value.(threshold := Some(ChooseThreshold(c.threshold, lum)),
                                                     selected := c.selected + Chosen(c, lum))
  {
  }

  lemma FirstFrameUnselectedZero(c: Calculator, lum: seq<nat>)
    requires Initialized(c) && UnselectedZero(c)
    requires FirstFrame(c, lum).Ok?
    ensures UnselectedZero(FirstFrame(c, lum).value)
  {
    FirstFrameRecords(c, lum);
    var chosen := Chosen(c, lum);
    var r := Record(c, lum, chosen).value;
    var d := FirstFrame(c, lum).value;
    assert d == r.(threshold := d.threshold, selected := c.selected + chosen);
    SelectionGrows(c.selected, chosen, c.ids);
    RecordedUnselectedZero(c, lum, chosen, d);
  }

  /** Recording a column for some ids and selecting them keeps every
      unselected row at zero in both buffers. */
  lemma RecordedUnselectedZero(c: Calculator, lum: seq<nat>, rows: seq<int>, d: Calculator)
    requires Initialized(c) && UnselectedZero(c)
    requires forall i :: i in rows ==> i in c.ids
    requires Readable(lum, c.segmented, rows)
    requires Recorded(c, lum, rows, d)
    requires Initialized(d) && d.frames == c.frames
    requires forall i :: i in d.selected <==> i in c.selected || i in rows
    ensures UnselectedZero(d)
  {
    forall i, j | 0 <= i < |d.means| && 0 <= j < d.frames && i !in d.selected
      ensures d.means[i][j] == 0.0 && d.medians[i][j] == 0.0
    {
      assert i !in rows && i !in c.selected;
      assert CellKept(c, rows, d.means, d.medians, i, j);
    }
  }

  lemma NextFrameUnselectedZero(c: Calculator, lum: seq<nat>)
    requires Initialized(c) && UnselectedZero(c)
    requires NextFrame(c, lum).Ok?
    ensures UnselectedZero(NextFrame(c, lum).value)
  {
    RecordedUnselectedZero(c, lum, c.selected, NextFrame(c, lum).value);
  }

  // ---------------------------------------------------------------------
  // Queries

  /** `get_disabled_superpixels`: the ids that were not selected, in id
      order. */
  function Disabled(c: Calculator): (r: seq<int>)
    requires Initialized(c)
    ensures forall i :: i in r <==> i in c.ids && i !in c.selected
    ensures StrictlyIncreasing(r)
  {
    Without(c.ids, c.selected)
  }

  function Without(ids: seq<int>, excluded: seq<int>): (r: seq<int>)
    ensures forall i :: i in r <==> i in ids && i !in excluded
    ensures StrictlyIncreasing(ids) ==> StrictlyIncreasing(r)
  {
    if |ids| == 0 then []
    else
      var x := ids[0];
      assert ids == [x] + ids[1..];
      var rest := Without(ids[1..], excluded);
      if x in excluded then rest
      else
        var r := [x] + rest;
        assert StrictlyIncreasing(ids) ==> StrictlyIncreasing(r) by {
          if StrictlyIncreasing(ids) {
            forall k | 0 < k < |r| ensures x < r[k] {
              assert r[k] in rest;
              var j :| 0 <= j < |ids[1..]| && ids[1..][j] == r[k];
              assert ids[j + 1] == r[k];
            }
          }
        }
        r
  }

  /** Disabled and selected ids split the ids between them. */
  lemma DisabledSplitsIds(c: Calculator, i: int)
    requires Initialized(c)
    requires i in c.ids
    ensures i in Disabled(c) <==> i !in c.selected
  {
  }

  /** Buffer row `p + 1` for every true position `p` of the mask, in
      ascending order; a row past the buffer raises `IndexError`. */
  function RowsAfter(buf: seq<seq<real>>, mask: seq<bool>): (r: Result<seq<seq<real>>>)
    ensures r.Err? <==> exists p :: 0 <= p < |mask| && mask[p] && p + 1 >= |buf|
    ensures r.Err? ==> r.error == IndexError
    ensures r.Ok? ==> |r.value| == |TruePositions(mask)|
    ensures r.Ok? ==> forall k :: 0 <= k < |r.value| ==>
              TruePositions(mask)[k] + 1 < |buf| &&
              r.value[k] == buf[TruePositions(mask)[k] + 1]
  {
    var ps := TruePositions(mask);
    if exists p :: 0 <= p < |mask| && mask[p] && p + 1 >= |buf| then Err(IndexError)
    else
      assert forall k :: 0 <= k < |ps| ==> ps[k] in ps;
      Ok(seq(|ps|, k requires 0 <= k < |ps| => buf[ps[k] + 1]))
  }

  /** `get_mean_per_superpixel(mask)`: the mean rows of the regions a mask
      over ids `1, 2, ...` marks. */
  function MeanPerSuperpixel(c: Calculator, mask: seq<bool>): (r: Result<seq<seq<real>>>)
    requires Initialized(c)
    ensures r.Ok? <==> |mask| <= |c.ids| || forall p :: |c.ids| <= p < |mask| ==> !mask[p]
    ensures r.Ok? ==> |r.value| == |TruePositions(mask)|
    ensures r.Ok? ==> forall k :: 0 <= k < |r.value| ==> |r.value[k]| == c.frames
  {
    RowsAfter(c.means, mask)
  }

  /** `get_median_per_superpixel(mask)`: the same rows of the median buffer. */
  function MedianPerSuperpixel(c: Calculator, mask: seq<bool>): (r: Result<seq<seq<real>>>)
    requires Initialized(c)
    ensures r.Ok? <==> |mask| <= |c.ids| || forall p :: |c.ids| <= p < |mask| ==> !mask[p]
    ensures r.Ok? ==> |r.value| == |TruePositions(mask)|
    ensures r.Ok? ==> forall k :: 0 <= k < |r.value| ==> |r.value[k]| == c.frames
  {
    RowsAfter(c.medians, mask)
  }

  /** Row `k` of the result belongs to the `k`-th marked region, id
      `p + 1` for the `k`-th true position `p`. */
  lemma MeanRowsOfMarkedIds(c: Calculator, mask: seq<bool>, p: nat)
    requires Initialized(c)
    requires MeanPerSuperpixel(c, mask).Ok?
    requires p < |mask| && mask[p]
    ensures exists k :: 0 <= k < |MeanPerSuperpixel(c, mask).value| &&
              MeanPerSuperpixel(c, mask).value[k] == c.means[p + 1]
  {
    var ps := TruePositions(mask);
    assert p in ps;
    var k :| 0 <= k < |ps| && ps[k] == p;
    assert MeanPerSuperpixel(c, mask).value[k] == c.means[p + 1];
  }

  /** The same for the median buffer. */
  lemma MedianRowsOfMarkedIds(c: Calculator, mask: seq<bool>, p: nat)
    requires Initialized(c)
    requires MedianPerSuperpixel(c, mask).Ok?
    requires p < |mask| && mask[p]
    ensures exists k :: 0 <= k < |MedianPerSuperpixel(c, mask).value| &&
              MedianPerSuperpixel(c, mask).value[k] == c.medians[p + 1]
  {
    var ps := TruePositions(mask);
    assert p in ps;
    var k :| 0 <= k < |ps| && ps[k] == p;
    assert MedianPerSuperpixel(c, mask).value[k] == c.medians[p + 1];
  }

  /** After a later frame, the median row of a marked, selected region holds
      that region's median in the frame's column. */
  lemma NextFrameMedianRow(c: Calculator, lum: seq<nat>, mask: seq<bool>, p: nat)
    requires Initialized(c)
    requires NextFrame(c, lum).Ok?
    requires MedianPerSuperpixel(NextFrame(c, lum).value, mask).Ok?
    requires p < |mask| && mask[p] && p + 1 in c.selected && c.current < c.frames
    ensures p + 1 in c.ids && ReadableId(lum, c.segmented, p + 1)
    ensures exists k :: 0 <= k < |MedianPerSuperpixel(NextFrame(c, lum).value, mask).value| &&
              MedianPerSuperpixel(NextFrame(c, lum).value, mask).value[k][c.current]
                == RegionMedian(c, lum, p + 1)
  {
    var d := NextFrame(c, lum).value;
    assert p + 1 in c.ids;
    assert p < |c.ids|;
    MedianRowsOfMarkedIds(d, mask, p);
    var k :| 0 <= k < |MedianPerSuperpixel(d, mask).value| &&
             MedianPerSuperpixel(d, mask).value[k] == d.medians[p + 1];
    assert CellRecorded(c, lum, c.selected, d.means, d.medians, p + 1);
  }
}
