/** What the two extraction scripts share: the column-slicing loader, the
    default name of the reference file, the dropping of the first seconds
    of a track, and the comment each stored result carries.
 */
module Extraction {
  import opened Wrappers
  import PySlice
  import VideoTimestamp
  import Alignment

  /** One stored correlation: its comment and the alignment `correlate`
      found. */
  datatype Record = Record(comment: string, aligned: Alignment.Aligned)

  // ---------------------------------------------------------------------
  // Loading

  /** The width after `data[:, :end]`, which runs only when `end` is given
      and below the width. */
  function EndCut(width: nat, end: Option<int>): (w: nat)
    ensures w <= width
  {
    if end.Some? && end.value < width then PySlice.Bound(end.value, width) else width
  }

  /** The columns `data[:, start:]` drops, which runs only when `start` is
      given and below the width left by the first cut. */
  function StartCut(width: nat, start: Option<int>): (s: nat)
    ensures s <= width
  {
    if start.Some? && start.value < width then PySlice.Bound(start.value, width) else 0
  }

  /** `load_mean_per_spx` (and `load_mean_per_frame` on a matrix): cut the
      columns at `end`, then drop the first `start` of those left; each cut
      runs only when its bound lies below the width it applies to. */
  function LoadColumns(rows: seq<seq<real>>, width: nat, start: Option<int>, end: Option<int>)
    : (r: seq<seq<real>>)
    requires forall i :: 0 <= i < |rows| ==> |rows[i]| == width
    ensures |r| == |rows|
    ensures forall i :: 0 <= i < |rows| ==>
              r[i] == PySlice.Slice(PySlice.Slice(rows[i], 0, EndCut(width, end)),
                                    StartCut(EndCut(width, end), start), EndCut(width, end))
  {
    var e := EndCut(width, end);
    var s := StartCut(e, start);
    seq(|rows|, i requires 0 <= i < |rows| => PySlice.Slice(PySlice.Slice(rows[i], 0, e), s, e))
  }

  /** Without bounds the data comes back unchanged. */
  lemma LoadWithoutBounds(rows: seq<seq<real>>, width: nat)
    requires forall i :: 0 <= i < |rows| ==> |rows[i]| == width
    ensures LoadColumns(rows, width, None, None) == rows
  {
    var r := LoadColumns(rows, width, None, None);
    forall i | 0 <= i < |rows| ensures r[i] == rows[i] {
      assert PySlice.Slice(rows[i], 0, width) == rows[i];
    }
  }

  /** Bounds `0 <= start < end < width` keep the columns `[start, end)`. */
  lemma LoadWindow(rows: seq<seq<real>>, width: nat, start: nat, end: nat)
    requires forall i :: 0 <= i < |rows| ==> |rows[i]| == width
    requires start < end < width
    ensures forall i :: 0 <= i < |rows| ==> LoadColumns(rows, width, Some(start), Some(end))[i] == rows[i][start..end]
  {
    forall i | 0 <= i < |rows|
      ensures LoadColumns(rows, width, Some(start), Some(end))[i] == rows[i][start..end]
    {
      PySlice.SliceOfPrefix(rows[i], start, end);
    }
  }

  /** A `start` at or past a non-negative `end` below the width is ignored:
      only the cut at `end` happens. */
  lemma LoadIgnoresLateStart(rows: seq<seq<real>>, width: nat, start: int, end: nat)
    requires forall i :: 0 <= i < |rows| ==> |rows[i]| == width
    requires end < width && start >= end
    ensures forall i :: 0 <= i < |rows| ==> LoadColumns(rows, width, Some(start), Some(end))[i] == rows[i][..end]
  {
  }

  /** A bound at or past the width is ignored. */
  lemma LoadIgnoresWideEnd(rows: seq<seq<real>>, width: nat, start: Option<int>, end: int)
    requires forall i :: 0 <= i < |rows| ==> |rows[i]| == width
    requires end >= width
    ensures LoadColumns(rows, width, start, Some(end)) == LoadColumns(rows, width, start, None)
  {
  }

  // ---------------------------------------------------------------------
  // Names and comments

  /** `f"{filename[1:11]}.csv"`: the ten characters after the first. */
  function DefaultCsvName(filename: string): (name: string)
    ensures |filename| >= 11 ==> name == filename[1..11] + ".csv"
    ensures |filename| <= 1 ==> name == ".csv"
  {
    PySlice.Slice(filename, 1, 11) + ".csv"
  }

  /** For a file name that is a one-character prefix followed by a stamp,
      the default reference file is named after the stamp's date. */
  lemma DefaultCsvNameIsDate(prefix: char, t: VideoTimestamp.DateTime, suffix: string)
    requires VideoTimestamp.Valid(t)
    ensures DefaultCsvName([prefix] + VideoTimestamp.Format(t) + suffix) ==
              VideoTimestamp.Pad(t.year, 4) + "-" + VideoTimestamp.Pad(t.month, 2) + "-" +
              VideoTimestamp.Pad(t.day, 2) + ".csv"
  {
    var stamp := VideoTimestamp.Format(t);
    var name := [prefix] + stamp + suffix;
    assert name[1..11] == stamp[..10];
    assert stamp[..10] == VideoTimestamp.Pad(t.year, 4) + "-" + VideoTimestamp.Pad(t.month, 2) + "-" +
                          VideoTimestamp.Pad(t.day, 2);
  }

  /** A natural number as Python's `str` writes it: decimal digits, no
      leading zero. */
  function Decimal(n: nat): (s: string)
    ensures |s| > 0
    ensures forall k :: 0 <= k < |s| ==> VideoTimestamp.IsDigit(s[k])
    ensures |s| > 1 ==> s[0] != '0'
    decreases n
  {
    var digit := [('0' as int + n % 10) as char];
    if n < 10 then digit else Decimal(n / 10) + digit
  }

  /** Reading the written number back gives the number. */
  lemma {:induction false} DecimalNumber(n: nat)
    ensures VideoTimestamp.Number(Decimal(n)) == n
    decreases n
  {
    var s := Decimal(n);
    if n >= 10 {
      DecimalNumber(n / 10);
      assert s[..|s| - 1] == Decimal(n / 10);
    } else {
      assert s[..0] == [];
    }
  }

  /** The comment of a stored result: the caller's comment and a space when
      there is one, the estimate's name, and `, <skip>` when seconds were
      skipped. */
  function Comment(comment: string, estimate: string, skip: int): (c: string)
    ensures |c| >= |estimate| + (if |comment| > 0 then |comment| + 1 else 0)
    ensures |comment| > 0 ==> c[..|comment| + 1] == comment + " "
    ensures skip <= 0 ==> c[|c| - |estimate|..] == estimate
  {
    var head := if |comment| > 0 then comment + " " else "";
    var body := head + estimate;
    if skip > 0 then body + ", " + Decimal(skip) else body
  }

  /** With seconds skipped the comment ends in `, ` and their number, which
      reads back as the number skipped; the estimate's name precedes it. */
  lemma CommentRecordsSkip(comment: string, estimate: string, skip: int)
    requires skip > 0
    ensures var c := Comment(comment, estimate, skip);
            var n := |Decimal(skip)|;
            |c| >= |estimate| + 2 + n &&
            c[|c| - n - 2 - |estimate|..|c| - n - 2] == estimate &&
            c[|c| - n - 2..|c| - n] == ", " &&
            VideoTimestamp.Number(c[|c| - n..]) == skip
  {
    var head := if |comment| > 0 then comment + " " else "";
    var c := Comment(comment, estimate, skip);
    assert c == head + estimate + ", " + Decimal(skip);
    assert c[|c| - |Decimal(skip)|..] == Decimal(skip);
    DecimalNumber(skip);
  }

  // ---------------------------------------------------------------------
  // Tracks

  /** `track[skip:]`. */
  function Drop<T>(track: seq<T>, skip: int): (r: seq<T>)
    ensures 0 <= skip <= |track| ==> r == track[skip..]
    ensures skip > |track| ==> r == []
  {
    PySlice.Slice(track, skip, |track|)
  }

  /** A track of values that are all present. */
  function Present(track: seq<real>): (r: seq<Option<real>>)
    ensures |r| == |track|
    ensures forall i :: 0 <= i < |track| ==> r[i] == Some(track[i])
  {
    seq(|track|, i requires 0 <= i < |track| => Some(track[i]))
  }

  /** `ea.correlate(track[skip:], enf_truth, ...)`, stored with its comment. */
  function CorrelateDropped(track: seq<Option<real>>, skip: int, reference: seq<real>, expected: real,
                            corr: (seq<Option<real>>, seq<real>) -> Option<real>,
                            comment: string, estimate: string): (r: Result<Record>)
    ensures r.Err? <==> TooLong(track, skip, reference)
    ensures r.Err? ==> r.error == ValueError
    ensures r.Ok? ==> r.value.comment == Comment(comment, estimate, skip)
    ensures r.Ok? ==> Ok(r.value.aligned) == Alignment.Correlate(Drop(track, skip), reference, expected, corr)
  {
    match Alignment.Correlate(Drop(track, skip), reference, expected, corr)
    case Err(e) => Err(e)
    case Ok(a) => Ok(Record(Comment(comment, estimate, skip), a))
  }

  /** A stored record gives back the track it correlated: take the bias
      off the rows it was placed on. */
  lemma RecordRecoversTrack(track: seq<Option<real>>, skip: int, reference: seq<real>, expected: real,
                            corr: (seq<Option<real>>, seq<real>) -> Option<real>,
                            comment: string, estimate: string)
    requires CorrelateDropped(track, skip, reference, expected, corr, comment, estimate).Ok?
    ensures var a := CorrelateDropped(track, skip, reference, expected, corr, comment, estimate).value.aligned;
            a.index + |Drop(track, skip)| <= |a.column| &&
            Alignment.Unplace(a.column, a.index, |Drop(track, skip)|, expected) == Drop(track, skip)
  {
    Alignment.PlacementRecoversTrack(Drop(track, skip), reference, expected, corr);
  }

  /** A dropped track that no offset of the reference can hold. */
  predicate TooLong(track: seq<Option<real>>, skip: int, reference: seq<real>)
  {
    |Drop(track, skip)| > |reference|
  }

  /** The tracks a script correlates, in order, each with its estimate's
      name; the first correlation that raises ends the script. */
  function CorrelateAll(tracks: seq<(seq<Option<real>>, string)>, skip: int, reference: seq<real>, expected: real,
                        corr: (seq<Option<real>>, seq<real>) -> Option<real>, comment: string)
    : (r: Result<seq<Record>>)
    ensures r.Err? <==> exists i :: 0 <= i < |tracks| && TooLong(tracks[i].0, skip, reference)
    ensures r.Err? ==> r.error == ValueError
    ensures r.Ok? ==> |r.value| == |tracks|
    ensures r.Ok? ==> forall i :: 0 <= i < |tracks| ==>
              Ok(r.value[i]) == CorrelateDropped(tracks[i].0, skip, reference, expected, corr, comment, tracks[i].1)
  {
    FirstError(Each(tracks, skip, reference, expected, corr, comment))
  }

  /** What `get_timestamp_diff(video.get_video_timestamp(skip), ...)`
      makes of the video's instant: the failure it raises, if any.  A name
      without a stamp gives `None`, whose `.timestamp()` does not exist. */
  function StampFailure(stamp: Result<Option<int>>): (e: Option<PyError>)
    ensures e.None? <==> stamp.Ok? && stamp.value.Some?
    ensures stamp.Err? ==> e == Some(stamp.error)
    ensures stamp == Ok(None) ==> e == Some(AttributeError)
  {
    match stamp
    case Err(e) => Some(e)
    case Ok(None) => Some(AttributeError)
    case Ok(Some(_)) => None
  }

  /** The scripts' loop: each track is correlated and then the video's
      instant, moved by the skipped seconds, is taken for the time
      difference.  The instant is the same for every track, so it can only
      fail after the first correlation, and then ends the run. */
  function CorrelateStamped(tracks: seq<(seq<Option<real>>, string)>, skip: int, reference: seq<real>,
                            expected: real, corr: (seq<Option<real>>, seq<real>) -> Option<real>,
                            comment: string, video: string): (r: Result<seq<Record>>)
    ensures |tracks| == 0 ==> r == Ok([])
    ensures |tracks| > 0 && TooLong(tracks[0].0, skip, reference) ==> r == Err(ValueError)
    ensures |tracks| > 0 && !TooLong(tracks[0].0, skip, reference) &&
            StampFailure(VideoTimestamp.VideoInstant(video, skip)).Some? ==>
              r == Err(StampFailure(VideoTimestamp.VideoInstant(video, skip)).value)
    ensures r.Ok? <==> CorrelateAll(tracks, skip, reference, expected, corr, comment).Ok? &&
                       (|tracks| == 0 || StampFailure(VideoTimestamp.VideoInstant(video, skip)).None?)
    ensures r.Ok? ==> r == CorrelateAll(tracks, skip, reference, expected, corr, comment)
  {
    if |tracks| == 0 then Ok([])
    else if TooLong(tracks[0].0, skip, reference) then Err(ValueError)
    else
      match StampFailure(VideoTimestamp.VideoInstant(video, skip))
      case Some(e) => Err(e)
      case None => CorrelateAll(tracks, skip, reference, expected, corr, comment)
  }

  /** A video whose name carries a valid stamp never fails the time
      difference: the run fails exactly as the correlations do. */
  lemma StampedWithValidName(tracks: seq<(seq<Option<real>>, string)>, skip: int, reference: seq<real>,
                             expected: real, corr: (seq<Option<real>>, seq<real>) -> Option<real>,
                             comment: string, video: string)
    requires VideoTimestamp.VideoInstant(video, skip).Ok?
    requires VideoTimestamp.VideoInstant(video, skip).value.Some?
    ensures CorrelateStamped(tracks, skip, reference, expected, corr, comment, video)
            == CorrelateAll(tracks, skip, reference, expected, corr, comment)
  {
  }

  /** A video name without a stamp ends every run that gets past its first
      correlation with `AttributeError`. */
  lemma StampMissingRaises(tracks: seq<(seq<Option<real>>, string)>, skip: int, reference: seq<real>,
                           expected: real, corr: (seq<Option<real>>, seq<real>) -> Option<real>,
                           comment: string, video: string)
    requires VideoTimestamp.Search(video, 0).None?
    requires |tracks| > 0 && !TooLong(tracks[0].0, skip, reference)
    ensures CorrelateStamped(tracks, skip, reference, expected, corr, comment, video) == Err(AttributeError)
  {
  }

  /** Every track's correlation, failed or not. */
  function Each(tracks: seq<(seq<Option<real>>, string)>, skip: int, reference: seq<real>, expected: real,
                corr: (seq<Option<real>>, seq<real>) -> Option<real>, comment: string)
    : (rs: seq<Result<Record>>)
    ensures |rs| == |tracks|
    ensures forall i :: 0 <= i < |rs| ==> (rs[i].Err? <==> TooLong(tracks[i].0, skip, reference))
    ensures forall i :: 0 <= i < |rs| && rs[i].Err? ==> rs[i].error == ValueError
    ensures forall i :: 0 <= i < |rs| ==>
              rs[i] == CorrelateDropped(tracks[i].0, skip, reference, expected, corr, comment, tracks[i].1)
  {
    seq(|tracks|, i requires 0 <= i < |tracks| =>
      CorrelateDropped(tracks[i].0, skip, reference, expected, corr, comment, tracks[i].1))
  }

  /** Results taken in order until the first failure: that failure, or
      every value. */
  function FirstError<T>(rs: seq<Result<T>>): (r: Result<seq<T>>)
    ensures r.Err? <==> exists i :: 0 <= i < |rs| && rs[i].Err?
    ensures r.Err? ==> exists i :: 0 <= i < |rs| && rs[i] == Err(r.error) && forall j :: 0 <= j < i ==> rs[j].Ok?
    ensures r.Ok? ==> |r.value| == |rs| && forall i :: 0 <= i < |rs| ==> rs[i] == Ok(r.value[i])
  {
    if |rs| == 0 then Ok([])
    else if rs[0].Err? then Err(rs[0].error)
    else
      var tail := rs[1..];
      assert forall i :: 1 <= i < |rs| ==> rs[i] == tail[i - 1];
      match FirstError(tail)
      case Err(e) =>
        assert exists i :: 0 <= i < |rs| && rs[i] == Err(e) && forall j :: 0 <= j < i ==> rs[j].Ok? by {
          var k :| 0 <= k < |tail| && tail[k] == Err(e) && forall j :: 0 <= j < k ==> tail[j].Ok?;
          assert rs[k + 1] == Err(e);
        }
        Err(e)
      case Ok(rest) =>
        var r := [rs[0].value] + rest;
        assert forall i :: 1 <= i < |r| ==> r[i] == rest[i - 1];
        Ok(r)
  }
}
