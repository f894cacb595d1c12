/** `correlate` of both analyzers: slide the extracted track over the
    reference frequency series, pick the offset of best correlation, and
    place the re-biased track at that offset.

    NaN is recorded as `None`: in the track (a weighted estimate of a column
    without in-band energy) and in the correlation, which is an oracle over
    two equally long series; pandas yields NaN for it for instance on a
    constant window.  numpy's `argmax` reports the first NaN when there is
    one and `max` is then NaN as well.
 */
module Alignment {
  import opened Wrappers
  import Numeric

  /** What `correlate` hands back: the rounded best score, its offset, and
      the reference frame's new column (`None` where the frame has no value). */
  datatype Aligned = Aligned(score: Option<real>, index: nat, column: seq<Option<real>>)

  /** The mains frequency the reference series is measured at. */
  const MainsHz: real := 50.0

  /** One score per offset: offset `i` compares the track with
      `reference[i .. i + |track|]`. */
  function Scores(track: seq<Option<real>>, reference: seq<real>, corr: (seq<Option<real>>, seq<real>) -> Option<real>)
    : (s: seq<Option<real>>)
    requires |track| <= |reference|
    ensures |s| == |reference| - |track| + 1
    ensures forall i :: 0 <= i < |s| ==> s[i] == corr(track, Window(reference, i, |track|))
  {
    seq(|reference| - |track| + 1, i requires 0 <= i < |reference| - |track| + 1 =>
      corr(track, Window(reference, i, |track|)))
  }

  /** `reference.iloc[i : i + len]`. */
  function Window(reference: seq<real>, i: nat, len: nat): (w: seq<real>)
    requires i + len <= |reference|
    ensures |w| == len
    ensures forall k :: 0 <= k < len ==> w[k] == reference[i + k]
  {
    reference[i..i + len]
  }

  /** numpy's `argmax` over values that may be NaN: the first NaN, or else
      the first largest value. */
  function ArgMax(s: seq<Option<real>>): (i: nat)
    requires |s| > 0
    ensures i < |s|
    ensures forall j :: 0 <= j < i ==> s[j].Some?
    ensures (exists j :: 0 <= j < |s| && s[j].None?) <==> s[i].None?
    ensures s[i].Some? ==> forall j :: 0 <= j < |s| ==> s[j].Some? && s[j].value <= s[i].value
    ensures s[i].Some? ==> forall j :: 0 <= j < i ==> s[j].value < s[i].value
  {
    if |s| == 1 then 0
    else
      var rest := ArgMax(s[1..]);
      assert forall j :: 1 <= j < |s| ==> s[j] == s[1..][j - 1];
      if s[0].None? then 0
      else if s[1 + rest].None? then 1 + rest
      else if s[0].value >= s[1 + rest].value then 0
      else 1 + rest
  }

  /** numpy's `max` over values that may be NaN. */
  function MaxScore(s: seq<Option<real>>): (m: Option<real>)
    requires |s| > 0
    ensures m == s[ArgMax(s)]
  {
    s[ArgMax(s)]
  }

  /** `x + (50 - expected)`; NaN stays NaN. */
  function Rebias(x: Option<real>, expected: real): Option<real>
  {
    if x.None? then None else Some(x.value + (MainsHz - expected))
  }

  /** The reference frame's new column: the track re-biased on rows
      `[index, index + |track|)`, nothing elsewhere. */
  function Place(track: seq<Option<real>>, n: nat, index: nat, expected: real): (column: seq<Option<real>>)
    requires index + |track| <= n
    ensures |column| == n
    ensures forall r :: 0 <= r < n && !(index <= r < index + |track|) ==> column[r].None?
    ensures forall k :: 0 <= k < |track| ==> column[index + k] == Rebias(track[k], expected)
  {
    seq(n, r requires 0 <= r < n =>
      if index <= r < index + |track| then Rebias(track[r - index], expected) else None)
  }

  /** `correlate`.  A track longer than the reference leaves no offset
      (`np.zeros` of a negative size, or `argmax` of an empty array) and
      raises `ValueError`. */
  function Correlate(track: seq<Option<real>>, reference: seq<real>, expected: real,
                     corr: (seq<Option<real>>, seq<real>) -> Option<real>): (r: Result<Aligned>)
    ensures r.Err? <==> |track| > |reference|
    ensures r.Err? ==> r.error == ValueError
    ensures r.Ok? ==> r.value.index <= |reference| - |track|
    ensures r.Ok? ==> |r.value.column| == |reference|
  {
    if |track| > |reference| then Err(ValueError)
    else
      var s := Scores(track, reference, corr);
      var i := ArgMax(s);
      var best := MaxScore(s);
      var score := if best.None? then None else Some(Numeric.Round4(best.value));
      Ok(Aligned(score, i, Place(track, |reference|, i, expected)))
  }

  /** The winning offset is the first one whose window correlates best
      (absent NaN), and the score is that correlation rounded to four
      decimals. */
  lemma FirstBestOffset(track: seq<Option<real>>, reference: seq<real>, expected: real,
                        corr: (seq<Option<real>>, seq<real>) -> Option<real>)
    requires |track| <= |reference|
    requires forall i :: 0 <= i <= |reference| - |track| ==> corr(track, Window(reference, i, |track|)).Some?
    ensures var a := Correlate(track, reference, expected, corr).value;
            var s := Scores(track, reference, corr);
            (forall i :: 0 <= i < |s| ==> s[i].Some?) &&
            a.score == Some(Numeric.Round4(s[a.index].value)) &&
            (forall i :: 0 <= i < |s| ==> s[i].value <= s[a.index].value) &&
            (forall i :: 0 <= i < a.index ==> s[i].value < s[a.index].value)
  {
    var s := Scores(track, reference, corr);
    assert forall i :: 0 <= i < |s| ==> s[i].Some?;
  }

  /** A window whose correlation is NaN makes the first such offset win and
      the score NaN. */
  lemma NanWins(track: seq<Option<real>>, reference: seq<real>, expected: real,
                corr: (seq<Option<real>>, seq<real>) -> Option<real>, j: nat)
    requires |track| <= |reference| && j <= |reference| - |track|
    requires corr(track, Window(reference, j, |track|)).None?
    ensures var a := Correlate(track, reference, expected, corr).value;
            var s := Scores(track, reference, corr);
            a.score.None? && a.index <= j && s[a.index].None? &&
            forall i :: 0 <= i < a.index ==> s[i].Some?
  {
    var s := Scores(track, reference, corr);
    assert s[j].None?;
  }

  /** Taking the bias off the placed rows gives the track back, and every
      other row stays empty: the placement loses nothing. */
  lemma PlacementRecoversTrack(track: seq<Option<real>>, reference: seq<real>, expected: real,
                               corr: (seq<Option<real>>, seq<real>) -> Option<real>)
    requires |track| <= |reference|
    ensures var a := Correlate(track, reference, expected, corr).value;
            Unplace(a.column, a.index, |track|, expected) == track &&
            forall r :: 0 <= r < |reference| && !(a.index <= r < a.index + |track|) ==> a.column[r].None?
  {
    var a := Correlate(track, reference, expected, corr).value;
    assert a.column == Place(track, |reference|, a.index, expected);
    UnplacePlace(track, |reference|, a.index, expected);
  }

  lemma UnplacePlace(track: seq<Option<real>>, n: nat, index: nat, expected: real)
    requires index + |track| <= n
    ensures Unplace(Place(track, n, index, expected), index, |track|, expected) == track
  {
    var column := Place(track, n, index, expected);
    var back := Unplace(column, index, |track|, expected);
    forall k | 0 <= k < |track| ensures back[k] == track[k] {
      assert column[index + k] == Rebias(track[k], expected);
    }
  }

  /** The inverse of the placement: read `len` rows from `index` and take
      the bias off. */
  function Unplace(column: seq<Option<real>>, index: nat, len: nat, expected: real): (t: seq<Option<real>>)
    requires index + len <= |column|
    ensures |t| == len
  {
    seq(len, k requires 0 <= k < len =>
      if column[index + k].None? then None else Some(column[index + k].value - (MainsHz - expected)))
  }
}
