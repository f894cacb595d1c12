/** `ENFSuperpixelAnalyzer`: from the per-region mean matrix to flicker
    frequency estimates.

    `detect_enf` keeps the regions whose centred series carries energy,
    estimates one frequency track per kept region and rates how well those
    tracks agree; `extract_enf` reduces the matrix to one representative
    series, in one of two modes, and estimates its frequency track.  The
    band-pass filter and the short-time Fourier transform are oracles; the
    estimates from the transform are those of `Spectral`.
 */
module SuperpixelAnalyzer {
  import opened Wrappers
  import Numeric
  import NumpyInt
  import Spectral
  import EnfMetric

  /** The analyzer's configuration: frame rate for the hop, the band and
      the segment lengths of the per-region and the representative
      transforms. */
  datatype Settings = Settings(fps: int, band: Spectral.Band, samplesStft: int, samplesStftMe: int)

  /** What `detect_enf` reports: the agreement metric and the mean track. */
  datatype Detection = Detection(metric: EnfMetric.Metric, representative: seq<real>)

  /** The fewest kept regions `detect_enf` works with. */
  const MinRegions: nat := 4

  /** The mean square a centred region series must exceed to be kept. */
  const MinEnergy: real := 0.01

  // ---------------------------------------------------------------------
  // Filtering regions

  /** A region carries flicker when its centred series has a mean square
      above `MinEnergy`; a series without frames has a NaN mean square,
      which fails the comparison. */
  predicate Keeps(row: seq<real>)
  {
    |row| > 0 && Numeric.MeanSquare(Numeric.Center(row)) > MinEnergy
  }

  /** `np.where(var > .01)`: the kept rows, ascending. */
  function KeptRows(m: seq<seq<real>>): (ps: seq<nat>)
    ensures forall p :: p in ps <==> 0 <= p < |m| && Keeps(m[p])
    ensures forall k, l :: 0 <= k < l < |ps| ==> ps[k] < ps[l]
    ensures forall k :: 0 <= k < |ps| ==> ps[k] < |m|
  {
    var mask := seq(|m|, i requires 0 <= i < |m| => Keeps(m[i]));
    var ps := NumpyInt.TruePositions(mask);
    assert forall k :: 0 <= k < |ps| ==> ps[k] in ps;
    ps
  }

  /** `__filter_superpixel`: every row minus its own mean, keeping only the
      rows that carry flicker, in their original order.  Every kept row is
      centred and keeps its width. */
  function FilterRows(m: seq<seq<real>>): (r: seq<seq<real>>)
    ensures |r| == |KeptRows(m)| <= |m|
    ensures forall k :: 0 <= k < |r| ==> Keeps(m[KeptRows(m)[k]]) && r[k] == Numeric.Center(m[KeptRows(m)[k]])
    ensures forall k :: 0 <= k < |r| ==> |r[k]| == |m[KeptRows(m)[k]]| > 0
    ensures forall k :: 0 <= k < |r| ==> Numeric.Sum(r[k]) == 0.0 && Numeric.MeanSquare(r[k]) > MinEnergy
  {
    var ps := KeptRows(m);
    KeptRowsAtMost(m, ps);
    var r := seq(|ps|, k requires 0 <= k < |ps| => Numeric.Center(m[ps[k]]));
    forall k | 0 <= k < |r| ensures Numeric.Sum(r[k]) == 0.0 {
      assert ps[k] in ps;
      Numeric.CenterSumsToZero(m[ps[k]]);
    }
    r
  }

  /** Ascending positions below `|m|` number at most `|m|`. */
  lemma KeptRowsAtMost(m: seq<seq<real>>, ps: seq<nat>)
    requires forall k, l :: 0 <= k < l < |ps| ==> ps[k] < ps[l]
    requires forall k :: 0 <= k < |ps| ==> ps[k] < |m|
    ensures |ps| <= |m|
  {
    if |ps| > 0 {
      AscendingFromIndex(ps, |ps| - 1);
    }
  }

  /** An ascending sequence of naturals holds at position `k` at least `k`. */
  lemma {:induction false} AscendingFromIndex(ps: seq<nat>, k: nat)
    requires forall i, j :: 0 <= i < j < |ps| ==> ps[i] < ps[j]
    requires k < |ps|
    ensures ps[k] >= k
  {
    if k > 0 {
      AscendingFromIndex(ps, k - 1);
    }
  }

  /** Filtering keeps the width of a numpy matrix. */
  lemma FilterRowsRectangular(m: seq<seq<real>>)
    requires EnfMetric.Rectangular(m)
    ensures EnfMetric.Rectangular(FilterRows(m))
  {
    var r := FilterRows(m);
    var ps := KeptRows(m);
    if |r| > 0 {
      forall k | 0 <= k < |r| ensures |r[k]| == |r[0]| {
        assert |r[k]| == |m[ps[k]]| == |m[0]|;
      }
    }
  }

  // ---------------------------------------------------------------------
  // First differences

  /** `np.diff(row)`: one value fewer, each the step to the next frame. */
  function Diff(row: seq<real>): (d: seq<real>)
    ensures |d| == if |row| == 0 then 0 else |row| - 1
    ensures forall k :: 0 <= k < |d| ==> d[k] == row[k + 1] - row[k]
  {
    if |row| == 0 then [] else seq(|row| - 1, k requires 0 <= k < |row| - 1 => row[k + 1] - row[k])
  }

  /** Summing the steps from the start rebuilds the series: the first
      difference loses only the starting value. */
  lemma {:induction false} DiffTelescopes(row: seq<real>, k: nat)
    requires k < |row|
    ensures row[0] + Numeric.Sum(Diff(row)[..k]) == row[k]
  {
    if k > 0 {
      DiffTelescopes(row, k - 1);
      var d := Diff(row);
      assert d[..k] == d[..k - 1] + [d[k - 1]];
      Numeric.SumSnoc(d[..k - 1], d[k - 1]);
    }
  }

  /** `np.diff(m, axis=1)`. */
  function DiffRows(m: seq<seq<real>>): (r: seq<seq<real>>)
    requires EnfMetric.Rectangular(m)
    ensures |r| == |m|
    ensures forall i :: 0 <= i < |m| ==> r[i] == Diff(m[i])
    ensures EnfMetric.Rectangular(r)
  {
    seq(|m|, i requires 0 <= i < |m| => Diff(m[i]))
  }

  // ---------------------------------------------------------------------
  // Estimates per region

  /** How numpy stores a track into a result row of `times` columns: a
      track of the same length is copied, a single value is broadcast, any
      other length raises `ValueError`. */
  function Store(track: seq<real>, times: nat): (row: Option<seq<real>>)
    ensures row.Some? <==> |track| == times || |track| == 1
    ensures row.Some? ==> |row.value| == times
    ensures row.Some? ==> forall j :: 0 <= j < times ==> row.value[j] == track[if |track| == 1 then 0 else j]
  {
    if |track| == times then Some(track)
    else if |track| == 1 then Some(seq(times, _ => track[0]))
    else None
  }

  /** The row one worker writes: the max-energy estimates of the region's
      transform, stored into the row.  A worker that raises (the transform
      fails, its frequency axis is empty, or its track does not fit the
      row) leaves the row at its zeros, because the exception stays inside
      the discarded future. */
  function RegionTrack(spec: Result<Spectral.Spectrogram>, fpsReal: real, times: nat): (row: seq<real>)
    ensures |row| == times
    ensures Fits(spec, fpsReal, times) ==>
              row == Store(Spectral.MaxEnergy(spec.value, fpsReal).value, times).value
    ensures !Fits(spec, fpsReal, times) ==> forall j :: 0 <= j < times ==> row[j] == 0.0
  {
    if Fits(spec, fpsReal, times) then Store(Spectral.MaxEnergy(spec.value, fpsReal).value, times).value
    else seq(times, _ => 0.0)
  }

  /** The worker finishes without raising. */
  predicate Fits(spec: Result<Spectral.Spectrogram>, fpsReal: real, times: nat)
  {
    spec.Ok? && Spectral.MaxEnergy(spec.value, fpsReal).Ok? &&
    Store(Spectral.MaxEnergy(spec.value, fpsReal).value, times).Some?
  }

  /** `__enf_with_stft_superpixel`: the band-pass design and the transform
      of the first region run on the caller's thread, so their errors
      propagate; the first region's transform fixes the number of columns;
      every region then gets its own track. */
  function RegionTracks(rows: seq<seq<real>>, s: Settings, filter: seq<real> -> seq<real>,
                        stft: (seq<real>, (int, int)) -> Result<Spectral.Spectrogram>)
    : (r: Result<seq<seq<real>>>)
    ensures Spectral.BandpassEdges(s.band).Err? ==> r == Err(Spectral.BandpassEdges(s.band).error)
    ensures Spectral.BandpassEdges(s.band).Ok? && |rows| == 0 ==> r == Err(IndexError)
    ensures Spectral.BandpassEdges(s.band).Ok? && |rows| > 0 && s.fps <= 0 ==> r == Err(ValueError)
    ensures r.Ok? ==> |rows| > 0 && Spectral.Spectrum(rows[0], s.fps, s.samplesStft, filter, stft).Ok?
    ensures r.Ok? ==> |r.value| == |rows|
    ensures r.Ok? ==> var times := Spectral.Spectrum(rows[0], s.fps, s.samplesStft, filter, stft).value.times;
              forall sp :: 0 <= sp < |rows| ==>
                r.value[sp] == RegionTrack(Spectral.Spectrum(rows[sp], s.fps, s.samplesStft, filter, stft),
                                           s.band.fpsReal, times)
  {
    match Spectral.BandpassEdges(s.band)
    case Err(e) => Err(e)
    case Ok(_) =>
      if |rows| == 0 then Err(IndexError)
      else
        match Spectral.StftWindow(s.samplesStft, s.fps)
        case Err(e) => Err(e)
        case Ok(_) =>
          match Spectral.Spectrum(rows[0], s.fps, s.samplesStft, filter, stft)
          case Err(e) => Err(e)
          case Ok(first) =>
            Ok(seq(|rows|, sp requires 0 <= sp < |rows| =>
              RegionTrack(Spectral.Spectrum(rows[sp], s.fps, s.samplesStft, filter, stft),
                          s.band.fpsReal, first.times)))
  }

  /** The region tracks form a matrix: every track is as long as the first
      region's transform has columns. */
  lemma RegionTracksRectangular(rows: seq<seq<real>>, s: Settings, filter: seq<real> -> seq<real>,
                                stft: (seq<real>, (int, int)) -> Result<Spectral.Spectrogram>)
    requires RegionTracks(rows, s, filter, stft).Ok?
    ensures EnfMetric.Rectangular(RegionTracks(rows, s, filter, stft).value)
    ensures |RegionTracks(rows, s, filter, stft).value[0]| ==
              Spectral.Spectrum(rows[0], s.fps, s.samplesStft, filter, stft).value.times
  {
  }

  /** With a transform whose frequency axis is the `k / nfft` grid, every
      value of every region track is a grid frequency; a region left at its
      zeros is at bin 0. */
  lemma RegionTracksOnGrid(rows: seq<seq<real>>, s: Settings, nfft: nat, filter: seq<real> -> seq<real>,
                           stft: (seq<real>, (int, int)) -> Result<Spectral.Spectrogram>, sp: nat, t: nat)
    requires nfft > 0
    requires forall x, w :: stft(x, w).Ok? ==> Spectral.OnGrid(stft(x, w).value, nfft)
    requires RegionTracks(rows, s, filter, stft).Ok?
    requires sp < |rows| && t < |RegionTracks(rows, s, filter, stft).value[sp]|
    ensures exists k: nat :: RegionTracks(rows, s, filter, stft).value[sp][t] ==
                             Spectral.GridFrequency(k, nfft, s.band.fpsReal)
  {
    var times := Spectral.Spectrum(rows[0], s.fps, s.samplesStft, filter, stft).value.times;
    var spec := Spectral.Spectrum(rows[sp], s.fps, s.samplesStft, filter, stft);
    assert RegionTracks(rows, s, filter, stft).value[sp] == RegionTrack(spec, s.band.fpsReal, times);
    TrackOnGrid(spec, s.band.fpsReal, times, nfft, t);
  }

  /** One region's track on the grid: a maximum-energy bin, or bin 0 when
      the worker raised. */
  lemma TrackOnGrid(spec: Result<Spectral.Spectrogram>, fpsReal: real, times: nat, nfft: nat, t: nat)
    requires nfft > 0 && t < times
    requires spec.Ok? ==> Spectral.OnGrid(spec.value, nfft)
    ensures exists k: nat :: RegionTrack(spec, fpsReal, times)[t] == Spectral.GridFrequency(k, nfft, fpsReal)
  {
    var track := RegionTrack(spec, fpsReal, times);
    if Fits(spec, fpsReal, times) {
      var est := Spectral.MaxEnergy(spec.value, fpsReal).value;
      var u := if |est| == 1 then 0 else t;
      assert track[t] == est[u];
      Spectral.MaxEnergyOnGrid(spec.value, fpsReal, nfft, u);
      var k := Spectral.ArgMax(Spectral.Column(spec.value, u));
      assert est[u] == Spectral.GridFrequency(k, nfft, fpsReal);
    } else {
      assert track[t] == Spectral.GridFrequency(0, nfft, fpsReal);
    }
  }

  // ---------------------------------------------------------------------
  // detect_enf and extract_enf

  /** `detect_enf`.  No regions, or fewer than four that carry flicker,
      give no detection; otherwise the kept regions' tracks are rated by
      `calc_metric` and averaged into the representative track. */
  function DetectEnf(m: seq<seq<real>>, s: Settings, filter: seq<real> -> seq<real>,
                     stft: (seq<real>, (int, int)) -> Result<Spectral.Spectrogram>,
                     corr: (seq<real>, seq<real>) -> real): (r: Result<Option<Detection>>)
    requires EnfMetric.Rectangular(m)
    ensures r == Ok(None) <==> |m| == 0 || |KeptRows(m)| < MinRegions
    ensures r.Ok? && r.value.Some? ==>
              |KeptRows(m)| >= MinRegions &&
              var tracks := RegionTracks(FilterRows(m), s, filter, stft);
              tracks.Ok? && EnfMetric.Rectangular(tracks.value) &&
              EnfMetric.CalcMetric(tracks.value, corr) == Ok(r.value.value.metric) &&
              r.value.value.representative == EnfMetric.ColumnMeans(tracks.value)
    ensures |m| > 0 && |KeptRows(m)| >= MinRegions ==>
              var tracks := RegionTracks(FilterRows(m), s, filter, stft);
              (tracks.Err? ==> r == Err(tracks.error)) &&
              (tracks.Ok? ==>
                 && EnfMetric.Rectangular(tracks.value)
                 && (match EnfMetric.CalcMetric(tracks.value, corr)
                     case Err(e) => r == Err(e)
                     case Ok(metric) => r == Ok(Some(Detection(metric, EnfMetric.ColumnMeans(tracks.value))))))
  {
    if |m| == 0 then Ok(None)
    else
      var filtered := FilterRows(m);
      if |filtered| < MinRegions then Ok(None)
      else
        match RegionTracks(filtered, s, filter, stft)
        case Err(e) => Err(e)
        case Ok(tracks) =>
          RegionTracksRectangular(filtered, s, filter, stft);
          match EnfMetric.CalcMetric(tracks, corr)
          case Err(e) => Err(e)
          case Ok(metric) => Ok(Some(Detection(metric, EnfMetric.ColumnMeans(tracks))))
  }

  /** A detection has at least four tracks behind it, each an average of
      kept region values, so the representative lies, column by column,
      between the smallest and the largest track value. */
  lemma DetectionRepresentativeBounded(m: seq<seq<real>>, s: Settings, filter: seq<real> -> seq<real>,
                                       stft: (seq<real>, (int, int)) -> Result<Spectral.Spectrogram>,
                                       corr: (seq<real>, seq<real>) -> real, t: nat)
    requires EnfMetric.Rectangular(m)
    requires DetectEnf(m, s, filter, stft, corr).Ok? && DetectEnf(m, s, filter, stft, corr).value.Some?
    requires t < |DetectEnf(m, s, filter, stft, corr).value.value.representative|
    ensures var tracks := RegionTracks(FilterRows(m), s, filter, stft).value;
            |tracks| >= MinRegions &&
            Numeric.Min(EnfMetric.Column(tracks, t)) <= DetectEnf(m, s, filter, stft, corr).value.value.representative[t]
              <= Numeric.Max(EnfMetric.Column(tracks, t))
  {
    var tracks := RegionTracks(FilterRows(m), s, filter, stft).value;
    Numeric.MeanBounds(EnfMetric.Column(tracks, t));
  }

  /** `extract_enf`: the representative is the column mean of the first
      differences in mode `'diff'` and of the filtered regions in every
      other mode; it is then estimated as one series.  Without rows the
      column mean is NaN throughout, recorded as `None`. */
  function ExtractEnf(m: seq<seq<real>>, mode: string, s: Settings, filter: seq<real> -> seq<real>,
                      stft: (seq<real>, (int, int)) -> Result<Spectral.Spectrogram>)
    : (r: Result<Option<(seq<real>, seq<Option<real>>)>>)
    requires EnfMetric.Rectangular(m)
    ensures r == Ok(None) <==> Representative(m, mode).None?
    ensures Representative(m, mode).Some? ==>
              r == OkSome(Spectral.Estimate(Representative(m, mode).value, s.band, s.fps, s.samplesStftMe, filter, stft))
  {
    match Representative(m, mode)
    case None => Ok(None)
    case Some(rep) => OkSome(Spectral.Estimate(rep, s.band, s.fps, s.samplesStftMe, filter, stft))
  }

  /** A successful result, wrapped as present. */
  function OkSome<T>(r: Result<T>): Result<Option<T>>
  {
    match r
    case Err(e) => Err(e)
    case Ok(v) => Ok(Some(v))
  }

  /** The series `extract_enf` estimates. */
  function Representative(m: seq<seq<real>>, mode: string): (rep: Option<seq<real>>)
    requires EnfMetric.Rectangular(m)
    ensures rep.None? <==> (if mode == "diff" then |m| == 0 else |KeptRows(m)| == 0)
    ensures mode == "diff" && |m| > 0 ==> |rep.value| == |Diff(m[0])|
  {
    var rows := if mode == "diff" then DiffRows(m) else (FilterRowsRectangular(m); FilterRows(m));
    if |rows| == 0 then None else Some(EnfMetric.ColumnMeans(rows))
  }

  /** In the default mode the representative is itself centred: it is the
      mean of centred rows, so it sums to zero. */
  lemma FilteredRepresentativeCentred(m: seq<seq<real>>)
    requires EnfMetric.Rectangular(m)
    requires Representative(m, "mean").Some?
    ensures Numeric.Sum(Representative(m, "mean").value) == 0.0
  {
    FilterRowsRectangular(m);
    var rows := FilterRows(m);
    var rep := Representative(m, "mean").value;
    assert rep == EnfMetric.ColumnMeans(rows);
    ColumnMeansSum(rows);
    forall i | 0 <= i < |rows| ensures Numeric.Sum(rows[i]) == 0.0 { }
    SumsOfZeroRows(rows);
  }

  /** The column means sum to the mean of the row sums. */
  lemma ColumnMeansSum(rows: seq<seq<real>>)
    requires EnfMetric.Rectangular(rows) && |rows| > 0
    ensures Numeric.Sum(EnfMetric.ColumnMeans(rows)) == Numeric.Sum(RowSums(rows)) / |rows| as real
  {
    var w := |rows[0]|;
    ColumnSumsSwap(rows, w);
    Numeric.SumScaled(ColumnSums(rows, w), EnfMetric.ColumnMeans(rows), |rows| as real);
  }

  /** The sum of every column of a matrix `w` wide. */
  function ColumnSums(rows: seq<seq<real>>, w: nat): (r: seq<real>)
    requires forall i :: 0 <= i < |rows| ==> |rows[i]| == w
    ensures |r| == w
    ensures forall j :: 0 <= j < w ==> r[j] == Numeric.Sum(EnfMetric.Column(rows, j))
  {
    seq(w, j requires 0 <= j < w => Numeric.Sum(EnfMetric.Column(rows, j)))
  }

  /** Summing a matrix by columns or by rows gives the same total. */
  lemma {:induction false} ColumnSumsSwap(rows: seq<seq<real>>, w: nat)
    requires forall i :: 0 <= i < |rows| ==> |rows[i]| == w
    ensures Numeric.Sum(ColumnSums(rows, w)) == Numeric.Sum(RowSums(rows))
  {
    if |rows| == 0 {
      assert ColumnSums(rows, w) == seq(w, _ => 0.0);
      ZeroSum(w);
    } else {
      var rest := rows[1..];
      ColumnSumsSwap(rest, w);
      forall j | 0 <= j < w
        ensures ColumnSums(rows, w)[j] == rows[0][j] + ColumnSums(rest, w)[j]
      {
        assert EnfMetric.Column(rows, j)[1..] == EnfMetric.Column(rest, j);
      }
      Numeric.SumPointwise(rows[0], ColumnSums(rest, w), ColumnSums(rows, w));
      assert RowSums(rows)[1..] == RowSums(rest);
    }
  }

  /** A run of zeros sums to zero. */
  lemma {:induction false} ZeroSum(w: nat)
    ensures Numeric.Sum(seq(w, _ => 0.0)) == 0.0
  {
    if w > 0 {
      assert seq(w, _ => 0.0)[1..] == seq(w - 1, _ => 0.0);
      ZeroSum(w - 1);
    }
  }

  /** The sum of every row. */
  function RowSums(rows: seq<seq<real>>): (r: seq<real>)
    ensures |r| == |rows|
    ensures forall i :: 0 <= i < |rows| ==> r[i] == Numeric.Sum(rows[i])
  {
    seq(|rows|, i requires 0 <= i < |rows| => Numeric.Sum(rows[i]))
  }

  /** Rows that each sum to zero have row sums that sum to zero. */
  lemma {:induction false} SumsOfZeroRows(rows: seq<seq<real>>)
    requires forall i :: 0 <= i < |rows| ==> Numeric.Sum(rows[i]) == 0.0
    ensures Numeric.Sum(RowSums(rows)) == 0.0
  {
    if |rows| > 0 {
      SumsOfZeroRows(rows[1..]);
      assert RowSums(rows)[1..] == RowSums(rows[1..]);
    }
  }
}
