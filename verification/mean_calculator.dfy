/** The single-region variant of the aggregator: one value per frame, the
    mean of the whole gray frame or, when a lightness threshold is set, the
    mean of the pixels strictly above it.

    A frame is its flattened gray image, one `nat` per pixel.  An empty
    selection has no mean (numpy yields NaN); the model records `None`.
 */
module MeanCalculator {
  import opened Wrappers
  import Numeric
  import NumpyInt
  import SuperpixelCalculator

  datatype State = State(threshold: Option<int>, mean: seq<Option<real>>)

  /** A fresh calculator: the configured threshold and no values yet. */
  function Create(threshold: Option<int>): (st: State)
    ensures st.threshold == threshold && st.mean == []
  {
    State(threshold, [])
  }

  /** The pixels strictly brighter than `t`, in frame order. */
  function Above(lum: seq<nat>, t: int): (px: seq<real>)
    ensures |px| <= |lum|
    ensures forall k :: 0 <= k < |px| ==> px[k] > t as real
    ensures forall k :: 0 <= k < |px| ==> exists i :: 0 <= i < |lum| && px[k] == lum[i] as real
    ensures |px| == 0 <==> forall i :: 0 <= i < |lum| ==> lum[i] <= t
  {
    if |lum| == 0 then []
    else
      var rest := Above(lum[1..], t);
      assert forall k :: 0 <= k < |rest| ==> exists i :: 0 <= i < |lum| && rest[k] == lum[i] as real by {
        forall k | 0 <= k < |rest| ensures exists i :: 0 <= i < |lum| && rest[k] == lum[i] as real {
          var j :| 0 <= j < |lum[1..]| && rest[k] == lum[1..][j] as real;
          assert rest[k] == lum[j + 1] as real;
        }
      }
      assert (forall i :: 0 <= i < |lum| ==> lum[i] <= t) <==>
             lum[0] <= t && forall i :: 0 <= i < |lum[1..]| ==> lum[1..][i] <= t by {
        if lum[0] <= t && forall i :: 0 <= i < |lum[1..]| ==> lum[1..][i] <= t {
          forall i | 0 < i < |lum| ensures lum[i] <= t {
            assert lum[i] == lum[1..][i - 1];
          }
        }
      }
      if lum[0] > t then [lum[0] as real] + rest else rest
  }

  /** How often `x` occurs in `s`. */
  function Occurrences(s: seq<real>, x: real): nat
  {
    if |s| == 0 then 0 else (if s[0] == x then 1 else 0) + Occurrences(s[1..], x)
  }

  /** `gray[gray > t]` keeps every bright pixel and nothing else: each
      pixel value above `t` occurs in the selection as often as in the
      frame, and any other value not at all.  With the contract of `Above`
      this fixes the selection up to order, and so its mean. */
  lemma {:induction false} AboveCounts(lum: seq<nat>, t: int, v: nat)
    ensures Occurrences(Above(lum, t), v as real) == if v > t then NumpyInt.Count(lum, v) else 0
  {
    if |lum| > 0 {
      AboveCounts(lum[1..], t, v);
      var rest := Above(lum[1..], t);
      if lum[0] > t {
        assert Above(lum, t) == [lum[0] as real] + rest;
        assert ([lum[0] as real] + rest)[1..] == rest;
      } else {
        assert Above(lum, t) == rest;
      }
    }
  }

  /** The mean of a selection, absent when nothing was selected. */
  function MeanOf(px: seq<real>): (m: Option<real>)
    ensures m.None? <==> |px| == 0
    ensures m.Some? ==> Numeric.Min(px) <= m.value <= Numeric.Max(px)
  {
    if |px| == 0 then None
    else
      Numeric.MeanBounds(px);
      Some(Numeric.Mean(px))
  }

  /** The value one frame contributes under a threshold setting. */
  function FrameValue(threshold: Option<int>, lum: seq<nat>): Option<real>
  {
    match threshold
    case None => MeanOf(Numeric.ToReals(lum))
    case Some(t) => MeanOf(Above(lum, t))
  }

  /** With a threshold, a frame's value is absent exactly when no pixel is
      above it, and otherwise lies strictly above the threshold and at most
      the brightest pixel. */
  lemma FrameValueAboveThreshold(t: int, lum: seq<nat>)
    ensures FrameValue(Some(t), lum).None? <==> forall i :: 0 <= i < |lum| ==> lum[i] <= t
    ensures FrameValue(Some(t), lum).Some? ==>
              t as real < FrameValue(Some(t), lum).value <= Numeric.Max(Numeric.ToReals(lum))
  {
    var px := Above(lum, t);
    if |px| > 0 {
      var lo :| lo in px && lo == Numeric.Min(px);
      var hi :| hi in px && hi == Numeric.Max(px);
      var k :| 0 <= k < |px| && px[k] == hi;
      var i :| 0 <= i < |lum| && px[k] == lum[i] as real;
      assert Numeric.ToReals(lum)[i] == lum[i] as real;
    }
  }

  /** Without a threshold, a frame's value is the mean of all its pixels,
      absent only for an empty frame. */
  lemma FrameValueWithoutThreshold(lum: seq<nat>)
    requires |lum| > 0
    ensures FrameValue(None, lum) == Some(Numeric.Mean(Numeric.ToReals(lum)))
  {
  }

  /** `process_first_frame`: a threshold above the brightest pixel is
      replaced by `int(median)` of the frame; then the frame's value is
      appended.  Without a threshold there is no substitution.  The maximum
      of an empty frame raises `ValueError`. */
  function ProcessFirstFrame(st: State, lum: seq<nat>): (r: Result<State>)
    ensures r.Err? <==> st.threshold.Some? && |lum| == 0
    ensures r.Err? ==> r.error == ValueError
    ensures r.Ok? && st.threshold.None? ==> r.value.threshold == None
    ensures r.Ok? && st.threshold.Some? ==>
              r.value.threshold == Some(SuperpixelCalculator.ChooseThreshold(st.threshold, lum))
    ensures r.Ok? ==> r.value.mean == st.mean + [FrameValue(r.value.threshold, lum)]
  {
    match st.threshold
    case None => Ok(st.(mean := st.mean + [FrameValue(None, lum)]))
    case Some(t) =>
      if |lum| == 0 then Err(ValueError)
      else
        var px := Numeric.ToReals(lum);
        var t' := if Numeric.Max(px) < t as real then Numeric.Trunc(Numeric.Median(px)) else t;
        Ok(State(Some(t'), st.mean + [FrameValue(Some(t'), lum)]))
  }

  /** The first frame replaces a given threshold only when it lies above
      every pixel, and never raises it. */
  lemma FirstFrameThreshold(t: int, mean: seq<Option<real>>, lum: seq<nat>)
    requires |lum| > 0
    ensures ProcessFirstFrame(State(Some(t), mean), lum).Ok?
    ensures ProcessFirstFrame(State(Some(t), mean), lum).value.threshold.value <= t
    ensures ProcessFirstFrame(State(Some(t), mean), lum).value.threshold.value != t ==>
              forall i :: 0 <= i < |lum| ==> (lum[i] as real) < t as real
  {
    SuperpixelCalculator.ThresholdSubstitution(t, lum);
    var px := Numeric.ToReals(lum);
    forall i | 0 <= i < |lum| ensures px[i] == lum[i] as real { }
  }

  /** `process`: append the frame's value under the current threshold,
      which stays as it is. */
  function Process(st: State, lum: seq<nat>): (r: State)
    ensures r.threshold == st.threshold
    ensures |r.mean| == |st.mean| + 1
    ensures r.mean[..|st.mean|] == st.mean
    ensures r.mean[|st.mean|] == FrameValue(st.threshold, lum)
  {
    st.(mean := st.mean + [FrameValue(st.threshold, lum)])
  }

  /** `process` over a run of frames, in order. */
  function ProcessAll(st: State, frames: seq<seq<nat>>): State
    decreases |frames|
  {
    if |frames| == 0 then st
    else ProcessAll(Process(st, frames[0]), frames[1..])
  }

  /** After any run of frames the threshold is unchanged, one value was
      appended per frame, and value `k` belongs to frame `k`. */
  lemma {:induction false} ProcessAllAppendsOnePerFrame(st: State, frames: seq<seq<nat>>)
    ensures ProcessAll(st, frames).threshold == st.threshold
    ensures |ProcessAll(st, frames).mean| == |st.mean| + |frames|
    ensures ProcessAll(st, frames).mean[..|st.mean|] == st.mean
    ensures forall k :: 0 <= k < |frames| ==>
              ProcessAll(st, frames).mean[|st.mean| + k] == FrameValue(st.threshold, frames[k])
    decreases |frames|
  {
    if |frames| > 0 {
      var next := Process(st, frames[0]);
      ProcessAllAppendsOnePerFrame(next, frames[1..]);
      var r := ProcessAll(st, frames);
      assert r == ProcessAll(next, frames[1..]);
      var head := r.mean[..|next.mean|];
      assert head == next.mean;
      assert r.mean[..|st.mean|] == head[..|st.mean|];
      forall k | 0 <= k < |frames|
        ensures r.mean[|st.mean| + k] == FrameValue(st.threshold, frames[k])
      {
        if k == 0 {
          assert r.mean[|st.mean|] == head[|st.mean|];
        } else {
          assert frames[k] == frames[1..][k - 1];
          assert |st.mean| + k == |next.mean| + (k - 1);
        }
      }
    }
  }

  /** A whole video: the first frame, then the rest.  The number of values
      equals the number of frames processed. */
  function ProcessVideo(threshold: Option<int>, first: seq<nat>, rest: seq<seq<nat>>): (r: Result<State>)
    ensures r.Err? <==> threshold.Some? && |first| == 0
    ensures r.Ok? ==> |r.value.mean| == 1 + |rest|
    ensures r.Ok? ==> forall k :: 0 <= k < |rest| ==>
              r.value.mean[1 + k] == FrameValue(r.value.threshold, rest[k])
  {
    match ProcessFirstFrame(Create(threshold), first)
    case Err(e) => Err(e)
    case Ok(st) =>
      assert |st.mean| == 1;
      ProcessAllAppendsOnePerFrame(st, rest);
      var r := ProcessAll(st, rest);
      assert r.threshold == st.threshold && |r.mean| == 1 + |rest|;
      assert forall k :: 0 <= k < |rest| ==> r.mean[1 + k] == FrameValue(r.threshold, rest[k]) by {
        forall k | 0 <= k < |rest| ensures r.mean[1 + k] == FrameValue(r.threshold, rest[k]) {
          assert r.mean[|st.mean| + k] == FrameValue(st.threshold, rest[k]);
        }
      }
      Ok(r)
  }
}
