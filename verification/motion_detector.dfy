/** `MotionDetectorGSOC`: the region bookkeeping around the segmentation and
    the background subtractor.  The segmentation's label grid (flattened in
    row-major order) and the subtractor's motion mask for each frame are
    inputs; what the detector keeps is the shifted label grid, the sorted
    region ids, the pixel count of every id and the steadiness vector, whose
    position `p` stands for region id `p + 1`.
 */
module MotionDetector {
  import opened Wrappers
  import opened NumpyInt

  /** Denominator of the region size: regions are about 1/18 of the shorter
      side of the frame. */
  const SizeDenominator := 18

  /** The value the subtractor writes for a foreground pixel. */
  const Foreground := 255

  datatype Detector = Detector(
    regionSize: int,
    superpixels: nat,           // the count the segmentation reports
    segmented: seq<nat>,        // labels shifted to start at 1
    ids: seq<int>,              // the distinct shifted labels, ascending
    steady: seq<bool>,          // position p: region p + 1 has not moved
    totals: seq<nat>,           // totals[v]: pixels carrying id v
    factor: real)               // the motion threshold factor

  // ---------------------------------------------------------------------
  // first_frame

  /** Whether some pixel carries label `v`. */
  predicate Uses(labels: seq<nat>, v: int)
  {
    exists i :: 0 <= i < |labels| && labels[i] == v
  }

  /** The region ids: the distinct shifted labels, ascending. */
  function ShiftedIds(labels: seq<nat>): (ids: seq<int>)
    ensures StrictlyIncreasing(ids)
    ensures forall v :: v in ids <==> Uses(labels, v - 1)
    ensures forall v :: v in ids <==> v in Shift(labels)
    ensures 0 !in ids
  {
    var seg := Shift(labels);
    var ids := Unique(seg);
    forall v | v in ids
      ensures Uses(labels, v - 1)
    {
      assert v in seg;
      var i :| 0 <= i < |seg| && seg[i] == v;
    }
    forall v | Uses(labels, v - 1)
      ensures v in ids
    {
      var i :| 0 <= i < |labels| && labels[i] == v - 1;
      assert seg[i] == v;
    }
    assert !Uses(labels, -1);
    ids
  }

  /** `np.bincount` of the shifted labels, at least one count per id and
      one for the unused id 0, which no pixel carries. */
  function ShiftedTotals(labels: seq<nat>, superpixels: nat): (totals: seq<nat>)
    ensures |totals| >= superpixels + 1
    ensures forall v :: 0 <= v < |totals| ==> totals[v] == Count(Shift(labels), v)
    ensures totals[0] == 0
  {
    var seg := Shift(labels);
    CountAbsent(seg, 0);
    Bincount(seg, superpixels + 1)
  }

  /** `int(min(height, width) / 18)`. */
  function RegionSize(height: nat, width: nat): (r: nat)
    ensures var m := if height < width then height else width;
            r * SizeDenominator <= m < (r + 1) * SizeDenominator
  {
    (if height < width then height else width) / SizeDenominator
  }

  function Shift(labels: seq<nat>): (s: seq<nat>)
    ensures |s| == |labels|
    ensures forall i :: 0 <= i < |s| ==> s[i] == labels[i] + 1
  {
    seq(|labels|, i requires 0 <= i < |labels| => labels[i] + 1)
  }

  /** `first_frame`, given the segmentation's labels and its reported number
      of superpixels. */
  function FirstFrame(height: nat, width: nat, labels: seq<nat>, superpixels: nat, factor: real)
    : (d: Detector)
    ensures d.regionSize == RegionSize(height, width)
    ensures d.segmented == Shift(labels)
    ensures 0 !in d.ids
    ensures StrictlyIncreasing(d.ids)
    ensures forall v :: v in d.ids <==> v in d.segmented
    ensures |d.steady| == |d.ids| && forall p :: 0 <= p < |d.steady| ==> d.steady[p]
    ensures |d.totals| >= superpixels + 1
    ensures forall v :: 0 <= v < |d.totals| ==> d.totals[v] == Count(d.segmented, v)
    ensures |d.totals| > 0 && d.totals[0] == 0
  {
    var ids := ShiftedIds(labels);
    var steady := seq(|ids|, p requires 0 <= p < |ids| => true);
    Detector(RegionSize(height, width), superpixels, Shift(labels), ids, steady,
             ShiftedTotals(labels, superpixels), factor)
  }

  /** The pixel counts of the ids from 1 on add up to the number of pixels. */
  lemma TotalsCoverAllPixels(height: nat, width: nat, labels: seq<nat>, superpixels: nat, factor: real)
    ensures var d := FirstFrame(height, width, labels, superpixels, factor);
            CountSum(d.segmented, 1, |d.totals|) == |labels|
  {
    var d := FirstFrame(height, width, labels, superpixels, factor);
    CountSumAll(d.segmented, 1, |d.totals|);
  }

  /** A detector whose shifted labels are exactly the ids `1..superpixels`:
      the steadiness vector, the id list and the pixel counts line up. */
  predicate WellFormed(d: Detector)
  {
    && (forall i :: 0 <= i < |d.segmented| ==> 1 <= d.segmented[i] <= d.superpixels)
    && |d.steady| == d.superpixels
    && |d.totals| == d.superpixels + 1
    && |d.ids| == d.superpixels
    && (forall p :: 0 <= p < |d.ids| ==> d.ids[p] == p + 1)
    && (forall v :: 0 <= v < |d.totals| ==> d.totals[v] == Count(d.segmented, v))
  }

  /** Well-formedness does not depend on which positions are steady. */
  lemma WellFormedAnySteadiness(d: Detector, steady: seq<bool>)
    requires WellFormed(d) && |steady| == |d.steady|
    ensures WellFormed(d.(steady := steady))
  {
  }

  /** When the segmentation uses every label below its reported count and no
      other, position `p` of the steadiness vector stands for id `p + 1`. */
  lemma FirstFrameWellFormed(height: nat, width: nat, labels: seq<nat>, superpixels: nat, factor: real)
    requires forall i :: 0 <= i < |labels| ==> labels[i] < superpixels
    requires forall v :: 0 <= v < superpixels ==> Uses(labels, v)
    ensures WellFormed(FirstFrame(height, width, labels, superpixels, factor))
  {
    var d := FirstFrame(height, width, labels, superpixels, factor);
    FirstFrameIds(height, width, labels, superpixels, factor);
    FirstFrameTotals(height, width, labels, superpixels, factor);
    assert forall i :: 0 <= i < |d.segmented| ==> 1 <= d.segmented[i] <= superpixels;
  }

  /** Labels `0 .. superpixels - 1`, each used, give the ids `1 .. superpixels`. */
  lemma FirstFrameIds(height: nat, width: nat, labels: seq<nat>, superpixels: nat, factor: real)
    requires forall i :: 0 <= i < |labels| ==> labels[i] < superpixels
    requires forall v :: 0 <= v < superpixels ==> Uses(labels, v)
    ensures var d := FirstFrame(height, width, labels, superpixels, factor);
            |d.ids| == superpixels && forall p :: 0 <= p < |d.ids| ==> d.ids[p] == p + 1
  {
    var d := FirstFrame(height, width, labels, superpixels, factor);
    forall y
      ensures y in d.ids <==> 1 <= y <= superpixels
    {
      if y in d.ids {
        var i :| 0 <= i < |labels| && labels[i] == y - 1;
      }
    }
    IdsAreOneBased(d.ids, superpixels);
  }

  /** Labels below `superpixels` leave one count per id and one for id 0. */
  lemma FirstFrameTotals(height: nat, width: nat, labels: seq<nat>, superpixels: nat, factor: real)
    requires forall i :: 0 <= i < |labels| ==> labels[i] < superpixels
    ensures |FirstFrame(height, width, labels, superpixels, factor).totals| == superpixels + 1
  {
    var seg := Shift(labels);
    assert forall i :: 0 <= i < |seg| ==> seg[i] <= superpixels;
    assert Span(seg) <= superpixels + 1 by {
      if |seg| > 0 && Span(seg) != 0 {
        assert Span(seg) - 1 in seg;
      }
    }
  }

  // ---------------------------------------------------------------------
  // next_frame

  /** Whether a share of moving pixels is above the factor.  A zero total
      divides to infinity when pixels moved, which exceeds any factor, and
      to NaN when none did, which compares false. */
  predicate Exceeds(affected: nat, total: nat, factor: real)
  {
    if total == 0 then affected > 0 else affected as real / total as real > factor
  }

  /** The shifted labels of the pixels where the mask is nonzero. */
  function Affected(segmented: seq<int>, motion: seq<int>): (a: seq<int>)
    requires |motion| == |segmented|
    ensures |a| <= |segmented|
    ensures forall i :: 0 <= i < |a| ==> a[i] in segmented
    decreases |segmented|
  {
    if |segmented| == 0 then []
    else (if motion[0] != 0 then [segmented[0]] else [])
         + Affected(segmented[1..], motion[1..])
  }

  /** A region never has more moving pixels than pixels. */
  lemma {:induction false} AffectedCountBelow(segmented: seq<int>, motion: seq<int>, v: int)
    requires |motion| == |segmented|
    ensures Count(Affected(segmented, motion), v) <= Count(segmented, v)
    decreases |segmented|
  {
    if |segmented| > 0 {
      AffectedCountBelow(segmented[1..], motion[1..], v);
      var head := if motion[0] != 0 then [segmented[0]] else [];
      CountAppend(head, Affected(segmented[1..], motion[1..]), v);
    }
  }

  predicate HasForeground(motion: seq<int>)
  {
    exists i :: 0 <= i < |motion| && motion[i] == Foreground
  }

  /** `v[1:]`, which is empty for an empty vector. */
  function Tail(v: seq<nat>): (t: seq<nat>)
    ensures |t| == if |v| == 0 then 0 else |v| - 1
    ensures forall i :: 0 <= i < |t| ==> t[i] == v[i + 1]
  {
    if |v| == 0 then [] else v[1..]
  }

  /** Whether numpy broadcasts two vectors against each other: equal
      lengths, or one of them of length 1. */
  predicate Broadcasts(a: seq<nat>, b: seq<nat>)
  {
    |a| == |b| || |a| == 1 || |b| == 1
  }

  /** The length of the broadcast result. */
  function BroadcastLength(a: seq<nat>, b: seq<nat>): (n: nat)
    requires Broadcasts(a, b)
    ensures n == if |a| == 1 then |b| else |a|
  {
    if |a| == 1 then |b| else |a|
  }

  /** The positions `next_frame` flags: entry `p` of
      `np.divide(affected[1:], totals[1:]) > factor`, where a vector of
      length 1 stands for every position. */
  predicate Flagged(affected: seq<nat>, totals: seq<nat>, factor: real, p: int)
    requires Broadcasts(Tail(affected), Tail(totals))
  {
    var a, t := Tail(affected), Tail(totals);
    0 <= p < BroadcastLength(a, t) &&
    Exceeds(a[if |a| == 1 then 0 else p], t[if |t| == 1 then 0 else p], factor)
  }

  /** `next_frame` with the subtractor's mask for the frame.  A mask without
      a foreground value changes nothing, whatever its size; otherwise a mask
      of the wrong size, or counts that do not broadcast against the totals,
      raise `ValueError`, and a flagged position past the steadiness vector
      raises `IndexError`. */
  function NextFrame(d: Detector, motion: seq<int>): (r: Result<Detector>)
    requires forall i :: 0 <= i < |d.segmented| ==> d.segmented[i] >= 1
    ensures r.Err? <==> HasForeground(motion) && (|motion| != |d.segmented| || (
                          var aff := MovingCounts(d, motion);
                          !Broadcasts(Tail(aff), Tail(d.totals))
                          || exists p :: |d.steady| <= p && Flagged(aff, d.totals, d.factor, p)))
    ensures r.Err? && |motion| != |d.segmented| ==> r.error == ValueError
    ensures r.Err? && |motion| == |d.segmented| ==>
              var aff := MovingCounts(d, motion);
              r.error == if !Broadcasts(Tail(aff), Tail(d.totals)) then ValueError else IndexError
    ensures r.Ok? ==> r.value == d.(steady := r.value.steady)
    ensures r.Ok? ==> |r.value.steady| == |d.steady|
    ensures !HasForeground(motion) ==> r == Ok(d)
    ensures r.Ok? && HasForeground(motion) ==>
              var aff := MovingCounts(d, motion);
              Broadcasts(Tail(aff), Tail(d.totals)) &&
              forall p :: 0 <= p < |d.steady| ==>
                (r.value.steady[p] <==> d.steady[p] && !Flagged(aff, d.totals, d.factor, p))
  {
    if !HasForeground(motion) then Ok(d)
    else if |motion| != |d.segmented| then Err(ValueError)
    else FlagMoving(d, motion)
  }

  /** The moving pixels of each id: `np.bincount` over the labels under a
      foreground pixel, at least one count per id and the background. */
  function MovingCounts(d: Detector, motion: seq<int>): (aff: seq<nat>)
    requires forall i :: 0 <= i < |d.segmented| ==> d.segmented[i] >= 1
    requires |motion| == |d.segmented|
    ensures |aff| >= d.superpixels + 1
  {
    var affected := Affected(d.segmented, motion);
    assert forall i :: 0 <= i < |affected| ==> affected[i] >= 1 by {
      forall i | 0 <= i < |affected| ensures affected[i] >= 1 {
        var j :| 0 <= j < |d.segmented| && d.segmented[j] == affected[i];
      }
    }
    Bincount(affected, d.superpixels + 1)
  }

  /** The part of `next_frame` after the mask has broadcast against the
      label grid: divide the moving counts by the totals, numpy broadcasting
      a vector of length 1, and clear the flags of the regions whose share
      exceeds the factor. */
  function FlagMoving(d: Detector, motion: seq<int>): (r: Result<Detector>)
    requires forall i :: 0 <= i < |d.segmented| ==> d.segmented[i] >= 1
    requires |motion| == |d.segmented|
    ensures r.Ok? ==> r.value == d.(steady := r.value.steady)
    ensures r.Ok? ==> |r.value.steady| == |d.steady|
    ensures var aff := MovingCounts(d, motion);
            r.Err? <==> !Broadcasts(Tail(aff), Tail(d.totals))
                        || exists p :: |d.steady| <= p && Flagged(aff, d.totals, d.factor, p)
    ensures var aff := MovingCounts(d, motion);
            r.Err? ==> r.error == if !Broadcasts(Tail(aff), Tail(d.totals)) then ValueError else IndexError
    ensures var aff := MovingCounts(d, motion);
            r.Ok? ==> Broadcasts(Tail(aff), Tail(d.totals)) &&
                      forall p :: 0 <= p < |d.steady| ==>
                        (r.value.steady[p] <==> d.steady[p] && !Flagged(aff, d.totals, d.factor, p))
  {
    var aff := MovingCounts(d, motion);
    if !Broadcasts(Tail(aff), Tail(d.totals)) then Err(ValueError)
    else if exists p :: |d.steady| <= p < BroadcastLength(Tail(aff), Tail(d.totals)) &&
                        Flagged(aff, d.totals, d.factor, p) then Err(IndexError)
    else
      Ok(d.(steady := seq(|d.steady|, p requires 0 <= p < |d.steady| =>
                                         d.steady[p] && !Flagged(aff, d.totals, d.factor, p))))
  }

  /** Entries of the steadiness vector only ever go from true to false. */
  predicate Below(before: seq<bool>, after: seq<bool>)
  {
    |after| == |before| && forall p :: 0 <= p < |after| && after[p] ==> before[p]
  }

  lemma NextFrameMonotone(d: Detector, motion: seq<int>)
    requires forall i :: 0 <= i < |d.segmented| ==> d.segmented[i] >= 1
    requires NextFrame(d, motion).Ok?
    ensures Below(d.steady, NextFrame(d, motion).value.steady)
  {
  }

  /** On a well-formed detector and a mask of the frame's size, `next_frame`
      never raises. */
  lemma NextFrameSucceeds(d: Detector, motion: seq<int>)
    requires WellFormed(d)
    requires |motion| == |d.segmented|
    ensures NextFrame(d, motion).Ok?
  {
    if HasForeground(motion) {
      var affected := Affected(d.segmented, motion);
      forall i | 0 <= i < |affected|
        ensures 1 <= affected[i] <= d.superpixels
      {
        var j :| 0 <= j < |d.segmented| && d.segmented[j] == affected[i];
      }
      assert Span(affected) <= d.superpixels + 1;
      var aff := MovingCounts(d, motion);
      assert |aff| == |d.totals|;
      assert BroadcastLength(Tail(aff), Tail(d.totals)) == |d.steady|;
    }
  }

  /** A factor of one or more never flags a region: no region has more
      moving pixels than pixels. */
  lemma NextFrameFactorAtLeastOne(d: Detector, motion: seq<int>)
    requires WellFormed(d)
    requires |motion| == |d.segmented|
    requires d.factor >= 1.0
    ensures NextFrame(d, motion).Ok?
    ensures NextFrame(d, motion).value == d
  {
    NextFrameSucceeds(d, motion);
    if HasForeground(motion) {
      var affected := Affected(d.segmented, motion);
      forall i | 0 <= i < |affected|
        ensures affected[i] >= 1
      {
        var j :| 0 <= j < |d.segmented| && d.segmented[j] == affected[i];
      }
      var aff := Bincount(affected, d.superpixels + 1);
      forall p | 0 <= p < |d.steady|
        ensures !Flagged(aff, d.totals, d.factor, p)
      {
        AffectedCountBelow(d.segmented, motion, p + 1);
        ShareAtMostOne(aff[p + 1], d.totals[p + 1], d.factor);
      }
      var r := NextFrame(d, motion).value;
      assert r.steady == d.steady;
    }
  }

  /** A segmentation that reports fewer superpixels than its labels use
      leaves a count vector of length 2, which numpy broadcasts against
      every total: one moving pixel of region 2 clears both flags. */
  lemma NextFrameBroadcastExample()
    ensures var d := FirstFrame(1, 2, [0, 1], 1, 0.2);
            NextFrame(d, [Foreground, 0]) == Ok(d.(steady := [false, false]))
  {
    var d := FirstFrame(1, 2, [0, 1], 1, 0.2);
    assert d.segmented == [1, 2];
    assert d.totals == [0, 1, 1] by {
      assert Span(d.segmented) == 3;
      assert Count(d.segmented, 0) == 0 && Count(d.segmented, 1) == 1 && Count(d.segmented, 2) == 1;
    }
    assert |d.steady| == 2 by {
      assert 1 in d.ids && 2 in d.ids;
      assert forall v :: v in d.ids ==> v == 1 || v == 2;
      assert d.ids == [1, 2];
    }
    assert HasForeground([Foreground, 0]) by { assert [Foreground, 0][0] == Foreground; }
    ExampleFlagMoving(d);
  }

  /** The division step of the example above, on any detector with its
      labels, reported count, totals and factor. */
  lemma ExampleFlagMoving(d: Detector)
    requires d.segmented == [1, 2] && d.totals == [0, 1, 1]
    requires d.superpixels == 1 && |d.steady| == 2 && d.factor == 0.2
    ensures FlagMoving(d, [Foreground, 0]) == Ok(d.(steady := [false, false]))
  {
    var motion := [Foreground, 0];
    var affected := Affected(d.segmented, motion);
    assert affected == [1] by {
      assert d.segmented[1..] == [2] && motion[1..] == [0];
      assert Affected([2], [0]) == [] + Affected([], []);
    }
    var aff := MovingCounts(d, motion);
    assert aff == [0, 1] by {
      assert Span(affected) == 2;
      assert Count(affected, 0) == 0 && Count(affected, 1) == 1;
    }
    assert Tail(aff) == [1] && Tail(d.totals) == [1, 1];
    AllMovingExceeds(1, 0.2);
    assert Flagged(aff, d.totals, d.factor, 0) && Flagged(aff, d.totals, d.factor, 1);
    var r := FlagMoving(d, motion);
    assert r.Ok?;
    assert |r.value.steady| == 2 && !r.value.steady[0] && !r.value.steady[1];
    assert r.value.steady == [false, false];
    assert r.value == d.(steady := [false, false]);
  }

  /** A region whose every pixel moved exceeds any factor below one. */
  lemma AllMovingExceeds(t: nat, factor: real)
    requires t > 0 && factor < 1.0
    ensures Exceeds(t, t, factor)
  {
    assert t as real / t as real == 1.0;
  }

  /** No share of at most one exceeds a factor of one or more. */
  lemma ShareAtMostOne(a: nat, t: nat, factor: real)
    requires a <= t && factor >= 1.0
    ensures !Exceeds(a, t, factor)
  {
    if t > 0 {
      assert a as real / t as real <= 1.0;
    }
  }

  // ---------------------------------------------------------------------
  // apply_disabled_superpixel

  /** Whether some disabled id addresses position `p` as `id - 1`. */
  predicate Targets(disabled: seq<int>, n: nat, p: int)
  {
    exists k :: 0 <= k < |disabled| && WrapIndex(disabled[k] - 1, n) == p
  }

  /** `apply_disabled_superpixel(ids)`: positions `id - 1` become false;
      an index outside the vector raises `IndexError`. */
  function ApplyDisabled(d: Detector, disabled: seq<int>): (r: Result<Detector>)
    ensures r.Err? <==> exists k :: 0 <= k < |disabled| && !InBounds(disabled[k] - 1, |d.steady|)
    ensures |disabled| == 0 ==> r == Ok(d)
    ensures r.Ok? ==> r.value == d.(steady := r.value.steady)
    ensures r.Ok? ==> |r.value.steady| == |d.steady|
    ensures r.Ok? ==> forall p :: 0 <= p < |d.steady| ==>
              (r.value.steady[p] <==> d.steady[p] && !Targets(disabled, |d.steady|, p))
  {
    var n := |d.steady|;
    if |disabled| == 0 then Ok(d)
    else if exists k :: 0 <= k < |disabled| && !InBounds(disabled[k] - 1, n) then Err(IndexError)
    else Ok(d.(steady := seq(n, p requires 0 <= p < n => d.steady[p] && !Targets(disabled, n, p))))
  }

  /** With ids between 1 and the vector's length, exactly the positions of
      the listed ids are switched off, and every other position is
      untouched. */
  lemma ApplyDisabledPositions(d: Detector, disabled: seq<int>)
    requires forall k :: 0 <= k < |disabled| ==> 1 <= disabled[k] <= |d.steady|
    ensures ApplyDisabled(d, disabled).Ok?
    ensures var s := ApplyDisabled(d, disabled).value.steady;
            forall p :: 0 <= p < |d.steady| ==> (s[p] <==> d.steady[p] && p + 1 !in disabled)
  {
    var n := |d.steady|;
    assert !exists k :: 0 <= k < |disabled| && !InBounds(disabled[k] - 1, n);
    forall p | 0 <= p < n
      ensures Targets(disabled, n, p) <==> p + 1 in disabled
    {
      if p + 1 in disabled {
        var k :| 0 <= k < |disabled| && disabled[k] == p + 1;
        assert WrapIndex(disabled[k] - 1, n) == p;
      }
    }
  }

  lemma ApplyDisabledMonotone(d: Detector, disabled: seq<int>)
    requires ApplyDisabled(d, disabled).Ok?
    ensures Below(d.steady, ApplyDisabled(d, disabled).value.steady)
  {
  }
}
