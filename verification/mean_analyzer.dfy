/** `ENFMeanAnalyzer`: the frequency estimates of the single mean-brightness
    series, and the quadratic peak interpolation `__qi`.

    The band-pass filter, both short-time Fourier transforms (Hann window
    for the estimates, boxcar window for the interpolation) and the level
    `20 * log10(|x|)` are oracles.  `correlate` is the one of `Alignment`.
 */
module MeanAnalyzer {
  import opened Wrappers
  import Numeric
  import Spectral

  /** The analyzer's configuration: frame rate for the hop, the band, the
      segment length and the transform length. */
  datatype Settings = Settings(fps: int, band: Spectral.Band, samplesStft: int, nfft: nat)

  // ---------------------------------------------------------------------
  // extract_enf_mean_per_frame

  /** `mean_per_frame - np.mean(mean_per_frame)`: the series less its mean.
      An empty series stays empty (its NaN mean is never used). */
  function Centered(x: seq<real>): (c: seq<real>)
    ensures |c| == |x|
    ensures |x| > 0 ==> forall i :: 0 <= i < |x| ==> c[i] == x[i] - Numeric.Mean(x)
    ensures Numeric.Sum(c) == 0.0
  {
    if |x| == 0 then [] else (Numeric.CenterSumsToZero(x); Numeric.Center(x))
  }

  /** Centering a centred series changes nothing. */
  lemma CenteredIdempotent(x: seq<real>)
    ensures Centered(Centered(x)) == Centered(x)
  {
    if |x| > 0 {
      var c := Centered(x);
      assert Numeric.Mean(c) == 0.0;
    }
  }

  /** A constant offset in brightness disappears with the mean. */
  lemma CenteredIgnoresOffset(x: seq<real>, d: real, y: seq<real>)
    requires |y| == |x|
    requires forall i :: 0 <= i < |x| ==> y[i] == x[i] + d
    ensures Centered(y) == Centered(x)
  {
    if |x| > 0 {
      Numeric.SumShift(x, -d, y);
      var n := |x| as real;
      assert Numeric.Mean(y) == (Numeric.Sum(x) + n * d) / n;
      assert (Numeric.Sum(x) + n * d) / n == Numeric.Sum(x) / n + d;
    }
  }

  /** `extract_enf_mean_per_frame`: centre the series, then filter and
      estimate it as one series with segments of `samples_stft`. */
  function ExtractEnf(x: seq<real>, s: Settings, filter: seq<real> -> seq<real>,
                      stft: (seq<real>, (int, int)) -> Result<Spectral.Spectrogram>)
    : (r: Result<(seq<real>, seq<Option<real>>)>)
    ensures Spectral.BandpassEdges(s.band).Err? ==> r == Err(Spectral.BandpassEdges(s.band).error)
    ensures Spectral.BandpassEdges(s.band).Ok? && s.fps <= 0 ==> r == Err(ValueError)
    ensures Spectral.BandpassEdges(s.band).Ok? && s.fps > 0 ==>
              var spec := Spectral.Spectrum(Centered(x), s.fps, s.samplesStft, filter, stft);
              (spec.Err? ==> r == Err(spec.error)) &&
              (spec.Ok? ==> r == Spectral.EnfWithStft(spec.value, s.band))
  {
    Spectral.Estimate(Centered(x), s.band, s.fps, s.samplesStft, filter, stft)
  }

  /** The estimates do not depend on the brightness level: a series and
      the same series shifted by a constant give the same result. */
  lemma ExtractEnfIgnoresOffset(x: seq<real>, d: real, y: seq<real>, s: Settings,
                                filter: seq<real> -> seq<real>,
                                stft: (seq<real>, (int, int)) -> Result<Spectral.Spectrogram>)
    requires |y| == |x|
    requires forall i :: 0 <= i < |x| ==> y[i] == x[i] + d
    ensures ExtractEnf(y, s, filter, stft) == ExtractEnf(x, s, filter, stft)
  {
    CenteredIgnoresOffset(x, d, y);
  }

  // ---------------------------------------------------------------------
  // Quadratic interpolation

  /** The offset `p = 0.5 * (a - c) / (a - 2b + c)` of the vertex of the
      parabola through the levels `a`, `b`, `c` of three neighbouring bins,
      in bins from the middle one.  A zero denominator makes numpy's
      division infinite or NaN, recorded as `None`. */
  function QiOffset(a: real, b: real, c: real): (p: Option<real>)
    ensures p.None? <==> a - 2.0 * b + c == 0.0
    ensures p.Some? ==> p.value * (a - 2.0 * b + c) == 0.5 * (a - c)
  {
    var denominator := a - 2.0 * b + c;
    if denominator == 0.0 then None else Some(0.5 * (a - c) / denominator)
  }

  /** A first peak (strictly above the bin before it, no lower than the bin
      after it) has a negative denominator and an offset in `(-1/2, 1/2]`;
      a peak strictly above both neighbours has `|p| < 1/2`. */
  lemma PeakOffsetBounded(a: real, b: real, c: real)
    requires b > a && b >= c
    ensures a - 2.0 * b + c < 0.0
    ensures QiOffset(a, b, c).Some?
    ensures -0.5 < QiOffset(a, b, c).value <= 0.5
    ensures b > c ==> QiOffset(a, b, c).value < 0.5
  {
    var d := 2.0 * b - a - c;
    var p := QiOffset(a, b, c).value;
    assert p * d == 0.5 * (c - a);
    OffsetFromProduct(p, d, c - a);
  }

  /** `p * d == (c - a) / 2` with `d = (b - a) + (b - c) > 0` bounds `p`. */
  lemma OffsetFromProduct(p: real, d: real, ca: real)
    requires d > 0.0 && -d < ca <= d
    requires p * d == 0.5 * ca
    ensures -0.5 < p <= 0.5
    ensures ca < d ==> p < 0.5
  {
    if p <= -0.5 {
      Numeric.MulMonotone(p, -0.5, d);
    }
    if p > 0.5 {
      Numeric.MulStrictMonotone(0.5, p, d);
    }
    if ca < d && p >= 0.5 {
      Numeric.MulMonotone(0.5, p, d);
    }
  }

  /** `20 * log10(|energy|)` of every in-band bin in column `t`. */
  function Levels(spec: Spectral.Spectrogram, ks: seq<nat>, t: nat, level: real -> real): (l: seq<real>)
    requires forall j :: 0 <= j < |ks| ==> ks[j] < |spec.freqs|
    ensures |l| == |ks|
    ensures forall j :: 0 <= j < |ks| ==> l[j] == level(spec.mag(ks[j], t))
  {
    seq(|ks|, j requires 0 <= j < |ks| => level(spec.mag(ks[j], t)))
  }

  /** `idx[t]`: the first in-band position of the highest level in
      column `t`. */
  function Peak(spec: Spectral.Spectrogram, b: Spectral.Band, t: nat, level: real -> real): (k: nat)
    requires |Spectral.InBand(spec, b)| > 0
    ensures k < |Spectral.InBand(spec, b)|
    ensures var l := Levels(spec, Spectral.InBand(spec, b), t, level);
            (forall j :: 0 <= j < |l| ==> l[j] <= l[k]) && (forall j :: 0 <= j < k ==> l[j] < l[k])
  {
    Spectral.ArgMax(Levels(spec, Spectral.InBand(spec, b), t, level))
  }

  /** The level of in-band position `j` in column `t`. */
  function Level(spec: Spectral.Spectrogram, b: Spectral.Band, j: nat, t: nat, level: real -> real): real
    requires j < |Spectral.InBand(spec, b)|
  {
    Levels(spec, Spectral.InBand(spec, b), t, level)[j]
  }

  /** `freq[idx] + (k_max + p) / nfft`; an infinite or NaN term is `None`. */
  function Refine(f: real, peakLevel: real, p: Option<real>, nfft: nat): (r: Option<real>)
    ensures r.Some? <==> p.Some? && nfft > 0
    ensures r.Some? ==> (r.value - f) * nfft as real == peakLevel + p.value
  {
    if p.None? || nfft == 0 then None else Some(f + (peakLevel + p.value) / nfft as real)
  }

  /** The in-band frequency at position `k`, in hertz. */
  function BandFrequency(spec: Spectral.Spectrogram, b: Spectral.Band, k: nat): real
    requires k < |Spectral.InBand(spec, b)|
  {
    spec.freqs[Spectral.InBand(spec, b)[k]] * b.fpsReal
  }

  /** `__qi` as written.  The transform runs with a boxcar window and the
      same segments as the estimates.  `energy_k[idx][0]` and its
      neighbours `energy_k[idx - 1][0]`, `energy_k[idx + 1][0]` select whole
      rows by the peak positions of every column and then keep the first
      selected row: every column is interpolated with the levels of the
      rows around column 0's peak.  No in-band bin leaves nothing for
      `argmax` (`ValueError`), no column leaves no first row (`IndexError`);
      position `-1` wraps to the last row and a peak in the last row, in any
      column, indexes past the end (`IndexError`). */
  function QiAsWritten(x: seq<real>, s: Settings,
                       boxcar: (seq<real>, (int, int)) -> Result<Spectral.Spectrogram>,
                       level: real -> real): (r: Result<seq<Option<real>>>)
    ensures Spectral.StftWindow(s.samplesStft, s.fps).Err? ==> r == Err(ValueError)
    ensures Spectral.StftWindow(s.samplesStft, s.fps).Ok? ==>
              var spec := boxcar(x, Spectral.StftWindow(s.samplesStft, s.fps).value);
              (spec.Err? ==> r == Err(spec.error)) && (spec.Ok? ==> r == QiOfSpectrum(spec.value, s, level))
  {
    match Spectral.StftWindow(s.samplesStft, s.fps)
    case Err(e) => Err(e)
    case Ok(w) =>
      match boxcar(x, w)
      case Err(e) => Err(e)
      case Ok(spec) => QiOfSpectrum(spec, s, level)
  }

  /** Some column peaks in the last in-band position. */
  predicate PeakAtTop(spec: Spectral.Spectrogram, b: Spectral.Band, level: real -> real)
    requires |Spectral.InBand(spec, b)| > 0
  {
    exists t :: 0 <= t < spec.times && Peak(spec, b, t, level) == |Spectral.InBand(spec, b)| - 1
  }

  /** The interpolation of one transform, as written. */
  function QiOfSpectrum(spec: Spectral.Spectrogram, s: Settings, level: real -> real): (r: Result<seq<Option<real>>>)
    ensures |Spectral.InBand(spec, s.band)| == 0 ==> r == Err(ValueError)
    ensures |Spectral.InBand(spec, s.band)| > 0 ==>
              (r == Err(IndexError) <==> spec.times == 0 || PeakAtTop(spec, s.band, level))
    ensures |Spectral.InBand(spec, s.band)| > 0 && spec.times > 0 && !PeakAtTop(spec, s.band, level) ==> r.Ok?
    ensures r.Ok? ==> |r.value| == spec.times && 0 < |Spectral.InBand(spec, s.band)|
    ensures r.Ok? ==> Peak(spec, s.band, 0, level) + 1 < |Spectral.InBand(spec, s.band)|
    ensures r.Ok? ==> forall t :: 0 <= t < spec.times ==>
              r.value[t] == WrittenColumn(spec, s, Peak(spec, s.band, 0, level), t, level)
  {
    var m := |Spectral.InBand(spec, s.band)|;
    if m == 0 then Err(ValueError)
    else if spec.times == 0 then Err(IndexError)
    else if PeakAtTop(spec, s.band, level) then Err(IndexError)
    else
      var k0 := Peak(spec, s.band, 0, level);
      Ok(seq(spec.times, t requires 0 <= t < spec.times => WrittenColumn(spec, s, k0, t, level)))
  }

  /** Column `t` as written: the frequency of the column's own peak, but the
      levels of the rows at and around `k0`, column 0's peak. */
  function WrittenColumn(spec: Spectral.Spectrogram, s: Settings, k0: nat, t: nat, level: real -> real): Option<real>
    requires |Spectral.InBand(spec, s.band)| > 0 && k0 + 1 < |Spectral.InBand(spec, s.band)|
  {
    var below := if k0 == 0 then |Spectral.InBand(spec, s.band)| - 1 else k0 - 1;
    Refine(BandFrequency(spec, s.band, Peak(spec, s.band, t, level)),
           Level(spec, s.band, k0, t, level),
           QiOffset(Level(spec, s.band, below, t, level), Level(spec, s.band, k0, t, level),
                    Level(spec, s.band, k0 + 1, t, level)),
           s.nfft)
  }

  /** The interpolation as evidently intended: every column is refined
      around its own peak, with the levels of its own neighbours, and a
      peak in the first or the last in-band position, which lacks a
      neighbour, is not refined (`None`). */
  function QiInterpolated(x: seq<real>, s: Settings,
                          boxcar: (seq<real>, (int, int)) -> Result<Spectral.Spectrogram>,
                          level: real -> real): (r: Result<seq<Option<real>>>)
    ensures Spectral.StftWindow(s.samplesStft, s.fps).Err? ==> r == Err(ValueError)
    ensures Spectral.StftWindow(s.samplesStft, s.fps).Ok? ==>
              var spec := boxcar(x, Spectral.StftWindow(s.samplesStft, s.fps).value);
              (spec.Err? ==> r == Err(spec.error)) &&
              (spec.Ok? ==> r == InterpolateSpectrum(spec.value, s, level))
  {
    match Spectral.StftWindow(s.samplesStft, s.fps)
    case Err(e) => Err(e)
    case Ok(w) =>
      match boxcar(x, w)
      case Err(e) => Err(e)
      case Ok(spec) => InterpolateSpectrum(spec, s, level)
  }

  /** The corrected interpolation of one transform; only an empty band is
      an error. */
  function InterpolateSpectrum(spec: Spectral.Spectrogram, s: Settings, level: real -> real)
    : (r: Result<seq<Option<real>>>)
    ensures r.Err? <==> |Spectral.InBand(spec, s.band)| == 0
    ensures r.Err? ==> r.error == ValueError
    ensures r.Ok? ==> |r.value| == spec.times
  {
    if |Spectral.InBand(spec, s.band)| == 0 then Err(ValueError)
    else Ok(seq(spec.times, t requires 0 <= t < spec.times => InterpolateColumn(spec, s, t, level)))
  }

  /** The refinement of column `t` around its own peak. */
  function InterpolateColumn(spec: Spectral.Spectrogram, s: Settings, t: nat, level: real -> real): (r: Option<real>)
    requires |Spectral.InBand(spec, s.band)| > 0
  {
    var m := |Spectral.InBand(spec, s.band)|;
    var k := Peak(spec, s.band, t, level);
    if k == 0 || k == m - 1 then None
    else Refine(BandFrequency(spec, s.band, k), Level(spec, s.band, k, t, level),
                QiOffset(Level(spec, s.band, k - 1, t, level), Level(spec, s.band, k, t, level),
                         Level(spec, s.band, k + 1, t, level)),
                s.nfft)
  }

  /** Every refined column moves its peak's frequency by its peak level
      plus an offset of at most half a bin, over `nfft`: the refinement is
      taken exactly where a peak has two neighbours, and the parabola's
      vertex then lies within half a bin of the peak. */
  lemma InterpolationOffsetBounded(spec: Spectral.Spectrogram, s: Settings, t: nat, level: real -> real)
    requires |Spectral.InBand(spec, s.band)| > 0
    requires s.nfft > 0
    ensures var m := |Spectral.InBand(spec, s.band)|;
            var k := Peak(spec, s.band, t, level);
            InterpolateColumn(spec, s, t, level).Some? <==> 0 < k < m - 1
    ensures var k := Peak(spec, s.band, t, level);
            WithinHalfBin(InterpolateColumn(spec, s, t, level), BandFrequency(spec, s.band, k),
                          Level(spec, s.band, k, t, level), s.nfft)
  {
    var m := |Spectral.InBand(spec, s.band)|;
    var k := Peak(spec, s.band, t, level);
    if 0 < k < m - 1 {
      var l := Levels(spec, Spectral.InBand(spec, s.band), t, level);
      var a, b, c := Level(spec, s.band, k - 1, t, level), Level(spec, s.band, k, t, level),
                     Level(spec, s.band, k + 1, t, level);
      assert a == l[k - 1] && b == l[k] && c == l[k + 1];
      assert a < b && c <= b;
      var f := BandFrequency(spec, s.band, k);
      assert InterpolateColumn(spec, s, t, level) == Refine(f, b, QiOffset(a, b, c), s.nfft);
      RefineWithinHalfBin(f, b, a, b, c, s.nfft);
    } else {
      assert InterpolateColumn(spec, s, t, level) == None;
    }
  }

  /** Refining around a first peak with a positive `nfft` always yields a
      value, shifted from the peak's frequency by the peak level plus at
      most half a bin. */
  lemma RefineWithinHalfBin(f: real, lk: real, a: real, b: real, c: real, nfft: nat)
    requires b > a && b >= c && nfft > 0
    ensures Refine(f, lk, QiOffset(a, b, c), nfft).Some?
    ensures WithinHalfBin(Refine(f, lk, QiOffset(a, b, c), nfft), f, lk, nfft)
  {
    PeakOffsetBounded(a, b, c);
  }

  /** A refined value, when there is one, lies `lk` bins plus at most half
      a bin above `f`, in units of `1 / nfft`. */
  predicate WithinHalfBin(r: Option<real>, f: real, lk: real, nfft: nat)
  {
    r.Some? ==> lk - 0.5 < (r.value - f) * nfft as real <= lk + 0.5
  }

  /** Where column 0's peak has two neighbours, the code as written and the
      corrected refinement agree on column 0: the discrepancy lies only in
      the other columns. */
  lemma FirstColumnAgrees(spec: Spectral.Spectrogram, s: Settings, level: real -> real)
    requires QiOfSpectrum(spec, s, level).Ok?
    requires Peak(spec, s.band, 0, level) > 0
    ensures InterpolateSpectrum(spec, s, level).Ok?
    ensures QiOfSpectrum(spec, s, level).value[0] == InterpolateSpectrum(spec, s, level).value[0]
  {
    var m := |Spectral.InBand(spec, s.band)|;
    assert spec.times > 0 && m > 0;
    assert Peak(spec, s.band, 0, level) != m - 1;
  }

  /** A two-column transform over four in-band bins where column 0 peaks
      in bin 1 and column 1 in bin 2.  As written, column 1 is refined with
      the levels of bins 0, 1, 2 (around column 0's peak): the offset is
      `-5/6`, outside `(-1/2, 1/2]`, and the shift lands nowhere near
      column 1's peak level 5.  The corrected refinement uses bins 1, 2, 3
      and moves by `5 - 1/18`. */
  lemma QiReadsFirstColumnPeak()
    ensures var b := Spectral.Band(10.0, 0.3, 1.0);
            var s := Settings(1, b, 4, 8);
            var spec := Spectral.Spectrogram([9.8, 9.9, 10.0, 10.1], 2, ExampleMagnitude);
            var level := Identity;
            var w := QiOfSpectrum(spec, s, level);
            var c := InterpolateSpectrum(spec, s, level);
            w.Ok? && c.Ok? &&
            Peak(spec, b, 0, level) == 1 && Peak(spec, b, 1, level) == 2 &&
            Level(spec, b, 2, 1, level) == 5.0 &&
            QiOffset(0.0, 1.0, 5.0) == Some(-5.0 / 6.0) &&
            w.value[1] == Some(10.0 + (1.0 - 5.0 / 6.0) / 8.0) &&
            c.value[1] == Some(10.0 + (5.0 - 1.0 / 18.0) / 8.0)
  {
    var b := Spectral.Band(10.0, 0.3, 1.0);
    var s := Settings(1, b, 4, 8);
    var spec := Spectral.Spectrogram([9.8, 9.9, 10.0, 10.1], 2, ExampleMagnitude);
    var level := Identity;
    ExampleBand();
    ExamplePeaks();
    assert !PeakAtTop(spec, b, level);
    var w := QiOfSpectrum(spec, s, level);
    assert w.value[1] == WrittenColumn(spec, s, 1, 1, level);
    assert Level(spec, b, 0, 1, level) == 0.0;
    assert Level(spec, b, 1, 1, level) == 1.0;
    assert Level(spec, b, 3, 1, level) == 0.0;
    assert BandFrequency(spec, b, 2) == 10.0;
    assert QiOffset(1.0, 5.0, 0.0) == Some(-1.0 / 18.0);
  }

  /** Every bin of the example lies in the band. */
  lemma ExampleBand()
    ensures Spectral.InBand(Spectral.Spectrogram([9.8, 9.9, 10.0, 10.1], 2, ExampleMagnitude),
                            Spectral.Band(10.0, 0.3, 1.0)) == [0, 1, 2, 3]
  {
    var b := Spectral.Band(10.0, 0.3, 1.0);
    var spec := Spectral.Spectrogram([9.8, 9.9, 10.0, 10.1], 2, ExampleMagnitude);
    assert Spectral.InBandFrom(spec, b, 4) == [];
    assert Spectral.InBandFrom(spec, b, 3) == [3];
    assert Spectral.InBandFrom(spec, b, 2) == [2, 3];
    assert Spectral.InBandFrom(spec, b, 1) == [1, 2, 3];
  }

  /** The example's columns peak in bins 1 and 2. */
  lemma ExamplePeaks()
    requires Spectral.InBand(Spectral.Spectrogram([9.8, 9.9, 10.0, 10.1], 2, ExampleMagnitude),
                             Spectral.Band(10.0, 0.3, 1.0)) == [0, 1, 2, 3]
    ensures var spec := Spectral.Spectrogram([9.8, 9.9, 10.0, 10.1], 2, ExampleMagnitude);
            var b := Spectral.Band(10.0, 0.3, 1.0);
            Peak(spec, b, 0, Identity) == 1 && Peak(spec, b, 1, Identity) == 2 &&
            Level(spec, b, 2, 1, Identity) == 5.0
  {
    ExamplePeak(0, 1, [0.0, 2.0, 1.0, 0.0]);
    ExamplePeak(1, 2, [0.0, 1.0, 5.0, 0.0]);
  }

  /** Column `t` of the example has the levels `l`, highest first at `k`. */
  lemma ExamplePeak(t: nat, k: nat, l: seq<real>)
    requires Spectral.InBand(Spectral.Spectrogram([9.8, 9.9, 10.0, 10.1], 2, ExampleMagnitude),
                             Spectral.Band(10.0, 0.3, 1.0)) == [0, 1, 2, 3]
    requires t < 2 && |l| == 4 && k < 4
    requires forall j :: 0 <= j < 4 ==> l[j] == ExampleMagnitude(j, t)
    requires forall j :: 0 <= j < 4 ==> l[j] <= l[k]
    requires forall j :: 0 <= j < k ==> l[j] < l[k]
    ensures var spec := Spectral.Spectrogram([9.8, 9.9, 10.0, 10.1], 2, ExampleMagnitude);
            var b := Spectral.Band(10.0, 0.3, 1.0);
            Peak(spec, b, t, Identity) == k && Level(spec, b, k, t, Identity) == l[k]
  {
    var spec := Spectral.Spectrogram([9.8, 9.9, 10.0, 10.1], 2, ExampleMagnitude);
    var b := Spectral.Band(10.0, 0.3, 1.0);
    var lt := Levels(spec, [0, 1, 2, 3], t, Identity);
    assert lt == l;
    var p := Peak(spec, b, t, Identity);
    assert l[p] >= l[k];
  }

  /** The level of the example: the magnitude itself. */
  function Identity(x: real): real
  {
    x
  }

  /** The magnitudes of the example: column 0 is `[0, 2, 1, 0]`, column 1
      is `[0, 1, 5, 0]`. */
  function ExampleMagnitude(k: nat, t: nat): real
  {
    if t == 0 then (if k == 1 then 2.0 else if k == 2 then 1.0 else 0.0)
    else (if k == 1 then 1.0 else if k == 2 then 5.0 else 0.0)
  }
}
