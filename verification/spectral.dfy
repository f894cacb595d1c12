/** The estimate selection both analyzers run on a short-time Fourier
    transform, with the transform itself as an oracle.

    `stft(x, fs=1, nperseg, noverlap, nfft)` returns its frequency axis in
    cycles per sample and a complex matrix `Zxx[bin, time]`; the model keeps
    the frequency axis and the magnitudes `|Zxx|`.  Frequencies in hertz are
    the axis times the real frame rate.
 */
module Spectral {
  import opened Wrappers
  import Numeric

  /** What the transform returns: one frequency per bin, the number of
      time columns, and the magnitude of every cell. */
  datatype Spectrogram = Spectrogram(freqs: seq<real>, times: nat, mag: (nat, nat) -> real)

  /** The band and rates the estimates are taken in. */
  datatype Band = Band(expected: real, width: real, fpsReal: real)

  /** scipy's frequency axis for `fs=1`: bin `k` lies at `k / nfft`. */
  ghost predicate OnGrid(spec: Spectrogram, nfft: nat)
  {
    nfft > 0 && forall k :: 0 <= k < |spec.freqs| ==> spec.freqs[k] == k as real / nfft as real
  }

  /** Magnitudes are absolute values. */
  ghost predicate NonNegative(spec: Spectrogram)
  {
    forall k, t :: 0 <= k < |spec.freqs| && 0 <= t < spec.times ==> spec.mag(k, t) >= 0.0
  }

  // ---------------------------------------------------------------------
  // Window arithmetic

  /** The segment length and overlap the analyzers pass: `noverlap` is
      `stft_samples - fps`, which scipy refuses unless it is below
      `nperseg`. */
  function StftWindow(stftSamples: int, fps: int): (r: Result<(int, int)>)
    ensures r.Err? <==> fps <= 0
    ensures r.Err? ==> r.error == ValueError
    ensures r.Ok? ==> r.value.0 == stftSamples
    ensures r.Ok? ==> r.value.0 - r.value.1 == fps
    ensures r.Ok? && stftSamples > fps ==> 0 < r.value.1 < r.value.0
  {
    var overlap := stftSamples - fps;
    if overlap >= stftSamples then Err(ValueError) else Ok((stftSamples, overlap))
  }

  /** The hop between segments is the integer frame rate: one estimate per
      second of video. */
  lemma HopIsFrameRate(stftSamples: int, fps: int)
    requires fps > 0
    ensures StftWindow(stftSamples, fps).Ok?
    ensures StftWindow(stftSamples, fps).value.0 - StftWindow(stftSamples, fps).value.1 == fps
  {
  }

  /** The band-pass edges as fractions of the Nyquist rate; the filter
      design refuses edges outside `(0, 1)` or out of order, and a zero
      frame rate divides by zero. */
  function BandpassEdges(b: Band): (r: Result<(real, real)>)
    ensures r.Err? <==> b.fpsReal == 0.0 || !(0.0 < (b.expected - b.width) / (0.5 * b.fpsReal)
                                              < (b.expected + b.width) / (0.5 * b.fpsReal) < 1.0)
    ensures b.fpsReal == 0.0 ==> r == Err(ZeroDivisionError)
    ensures r.Ok? ==> r.value.0 * (0.5 * b.fpsReal) == b.expected - b.width
    ensures r.Ok? ==> r.value.1 * (0.5 * b.fpsReal) == b.expected + b.width
  {
    if b.fpsReal == 0.0 then Err(ZeroDivisionError)
    else
      var nyquist := 0.5 * b.fpsReal;
      var lo, hi := (b.expected - b.width) / nyquist, (b.expected + b.width) / nyquist;
      if 0.0 < lo < hi < 1.0 then Ok((lo, hi)) else Err(ValueError)
  }

  /** The defaults (10 Hz expected, 0.3 Hz wide, 30 fps) give a valid
      band. */
  lemma DefaultBandIsValid()
    ensures BandpassEdges(Band(10.0, 0.3, 30.0)).Ok?
  {
    assert (10.0 - 0.3) / (0.5 * 30.0) == 9.7 / 15.0;
    assert (10.0 + 0.3) / (0.5 * 30.0) == 10.3 / 15.0;
  }

  // ---------------------------------------------------------------------
  // Max-energy estimate

  /** `np.argmax`: the first position of the largest value. */
  function ArgMax(s: seq<real>): (i: nat)
    requires |s| > 0
    ensures i < |s|
    ensures forall j :: 0 <= j < |s| ==> s[j] <= s[i]
    ensures forall j :: 0 <= j < i ==> s[j] < s[i]
  {
    if |s| == 1 then 0
    else
      var rest := ArgMax(s[1..]);
      if s[0] >= s[1 + rest] then 0 else 1 + rest
  }

  /** Column `t` of the magnitudes, one value per bin. */
  function Column(spec: Spectrogram, t: nat): (c: seq<real>)
    ensures |c| == |spec.freqs|
    ensures forall k :: 0 <= k < |c| ==> c[k] == spec.mag(k, t)
  {
    seq(|spec.freqs|, k requires 0 <= k < |spec.freqs| => spec.mag(k, t))
  }

  /** `f1_real[np.argmax(np.abs(Zxx), axis=0)]`: for every time column the
      frequency of its strongest bin; numpy refuses the argmax over an
      empty frequency axis whatever the number of columns. */
  function MaxEnergy(spec: Spectrogram, fpsReal: real): (r: Result<seq<real>>)
    ensures r.Err? <==> |spec.freqs| == 0
    ensures r.Err? ==> r.error == ValueError
    ensures r.Ok? ==> |r.value| == spec.times
    ensures r.Ok? ==> forall t :: 0 <= t < spec.times ==>
              var k := ArgMax(Column(spec, t));
              r.value[t] == spec.freqs[k] * fpsReal
  {
    if |spec.freqs| == 0 then Err(ValueError)
    else Ok(seq(spec.times, t requires 0 <= t < spec.times =>
                  spec.freqs[ArgMax(Column(spec, t))] * fpsReal))
  }

  /** Every max-energy estimate is a grid frequency `(k / nfft) * fps_real`
      of a bin `k` no weaker than any other in its column. */
  lemma MaxEnergyOnGrid(spec: Spectrogram, fpsReal: real, nfft: nat, t: nat)
    requires OnGrid(spec, nfft)
    requires MaxEnergy(spec, fpsReal).Ok? && t < spec.times
    ensures |spec.freqs| > 0
    ensures var k := ArgMax(Column(spec, t));
            MaxEnergy(spec, fpsReal).value[t] == GridFrequency(k, nfft, fpsReal) &&
            forall j :: 0 <= j < |spec.freqs| ==> spec.mag(j, t) <= spec.mag(k, t)
  {
    var col := Column(spec, t);
    var k := ArgMax(col);
    var m := MaxEnergy(spec, fpsReal).value;
    var g := spec.freqs[k];
    assert m[t] == g * fpsReal;
    assert g == k as real / nfft as real;
    forall j | 0 <= j < |spec.freqs| ensures spec.mag(j, t) <= spec.mag(k, t) {
      assert col[j] <= col[k];
    }
  }

  // ---------------------------------------------------------------------
  // Weighted estimate

  /** The bins strictly inside `(expected - width, expected + width)`, in
      ascending order. */
  function InBand(spec: Spectrogram, b: Band): (ks: seq<nat>)
    ensures forall j :: 0 <= j < |ks| ==> ks[j] < |spec.freqs|
    ensures forall k :: k in ks <==> 0 <= k < |spec.freqs| && InsideBand(spec.freqs[k] * b.fpsReal, b)
    ensures forall i, j :: 0 <= i < j < |ks| ==> ks[i] < ks[j]
  {
    var ks := InBandFrom(spec, b, 0);
    assert forall k :: 0 <= k < |spec.freqs| ==> (BinInBand(spec, b, k) <==> InsideBand(spec.freqs[k] * b.fpsReal, b));
    ks
  }

  predicate InsideBand(f: real, b: Band)
  {
    b.expected - b.width < f < b.expected + b.width
  }

  /** Whether bin `k`'s real frequency lies strictly inside the band. */
  predicate BinInBand(spec: Spectrogram, b: Band, k: nat)
    requires k < |spec.freqs|
  {
    InsideBand(spec.freqs[k] * b.fpsReal, b)
  }

  function InBandFrom(spec: Spectrogram, b: Band, from: nat): (ks: seq<nat>)
    ensures forall j :: 0 <= j < |ks| ==> from <= ks[j] < |spec.freqs|
    ensures forall k :: k in ks <==> from <= k < |spec.freqs| && BinInBand(spec, b, k)
    ensures forall i, j :: 0 <= i < j < |ks| ==> ks[i] < ks[j]
    decreases |spec.freqs| - from
  {
    if from >= |spec.freqs| then []
    else
      var rest := InBandFrom(spec, b, from + 1);
      if BinInBand(spec, b, from) then
        assert forall k :: k in [from] + rest <==> k == from || k in rest;
        [from] + rest
      else rest
  }

  /** `sum(e * f)`. */
  function WeightedSum(e: seq<real>, f: seq<real>): real
    requires |e| == |f|
  {
    if |e| == 0 then 0.0 else e[0] * f[0] + WeightedSum(e[1..], f[1..])
  }

  /** `sum(e * f) / sum(e)`; a zero total makes numpy's division NaN, which
      the model records as `None`. */
  function WeightedFrequency(e: seq<real>, f: seq<real>): (w: Option<real>)
    requires |e| == |f|
    ensures w.None? <==> Numeric.Sum(e) == 0.0
  {
    var total := Numeric.Sum(e);
    if total == 0.0 then None else Some(WeightedSum(e, f) / total)
  }

  /** With non-negative weights of positive total, the weighted frequency
      lies within any bounds of the frequencies it weighs. */
  lemma WeightedFrequencyBetween(e: seq<real>, f: seq<real>, lo: real, hi: real)
    requires |e| == |f|
    requires forall j :: 0 <= j < |e| ==> e[j] >= 0.0
    requires forall j :: 0 <= j < |f| ==> lo <= f[j] <= hi
    requires Numeric.Sum(e) > 0.0
    ensures lo <= WeightedFrequency(e, f).value <= hi
  {
    var total, weighted := Numeric.Sum(e), WeightedSum(e, f);
    WeightedSumBounds(e, f, lo, hi);
    Numeric.QuotientBetween(weighted, total, lo, hi);
  }

  lemma WeightedSumBounds(e: seq<real>, f: seq<real>, lo: real, hi: real)
    requires |e| == |f|
    requires forall j :: 0 <= j < |e| ==> e[j] >= 0.0
    requires forall j :: 0 <= j < |f| ==> lo <= f[j] <= hi
    ensures Numeric.Sum(e) * lo <= WeightedSum(e, f) <= Numeric.Sum(e) * hi
  {
    WeightedSumAbove(e, f, lo);
    WeightedSumBelow(e, f, hi);
  }

  lemma {:induction false} WeightedSumAbove(e: seq<real>, f: seq<real>, lo: real)
    requires |e| == |f|
    requires forall j :: 0 <= j < |e| ==> e[j] >= 0.0
    requires forall j :: 0 <= j < |f| ==> lo <= f[j]
    ensures Numeric.Sum(e) * lo <= WeightedSum(e, f)
  {
    if |e| > 0 {
      var rest, wrest := Numeric.Sum(e[1..]), WeightedSum(e[1..], f[1..]);
      WeightedSumAbove(e[1..], f[1..], lo);
      Numeric.MulMonotone(lo, f[0], e[0]);
      AddTermAbove(e[0], f[0], lo, rest, wrest, Numeric.Sum(e), WeightedSum(e, f));
    }
  }

  lemma {:induction false} WeightedSumBelow(e: seq<real>, f: seq<real>, hi: real)
    requires |e| == |f|
    requires forall j :: 0 <= j < |e| ==> e[j] >= 0.0
    requires forall j :: 0 <= j < |f| ==> f[j] <= hi
    ensures WeightedSum(e, f) <= Numeric.Sum(e) * hi
  {
    if |e| > 0 {
      var rest, wrest := Numeric.Sum(e[1..]), WeightedSum(e[1..], f[1..]);
      WeightedSumBelow(e[1..], f[1..], hi);
      Numeric.MulMonotone(f[0], hi, e[0]);
      AddTermBelow(e[0], f[0], hi, rest, wrest, Numeric.Sum(e), WeightedSum(e, f));
    }
  }

  /** One more term keeps a weighted sum above its lower bound. */
  lemma AddTermAbove(e0: real, f0: real, lo: real, rest: real, wrest: real, total: real, weighted: real)
    requires lo * e0 <= f0 * e0
    requires rest * lo <= wrest
    requires total == e0 + rest && weighted == e0 * f0 + wrest
    ensures total * lo <= weighted
  {
    assert total * lo == lo * e0 + rest * lo;
  }

  /** One more term keeps a weighted sum below its upper bound. */
  lemma AddTermBelow(e0: real, f0: real, hi: real, rest: real, wrest: real, total: real, weighted: real)
    requires f0 * e0 <= hi * e0
    requires wrest <= rest * hi
    requires total == e0 + rest && weighted == e0 * f0 + wrest
    ensures weighted <= total * hi
  {
    assert total * hi == hi * e0 + rest * hi;
  }

  /** The energies and frequencies of the in-band bins in column `t`. */
  function BandEnergies(spec: Spectrogram, ks: seq<nat>, t: nat): (e: seq<real>)
    requires forall j :: 0 <= j < |ks| ==> ks[j] < |spec.freqs|
    ensures |e| == |ks|
    ensures forall j :: 0 <= j < |ks| ==> e[j] == spec.mag(ks[j], t)
  {
    seq(|ks|, j requires 0 <= j < |ks| => spec.mag(ks[j], t))
  }

  function BandFrequencies(spec: Spectrogram, ks: seq<nat>, fpsReal: real): (f: seq<real>)
    requires forall j :: 0 <= j < |ks| ==> ks[j] < |spec.freqs|
    ensures |f| == |ks|
    ensures forall j :: 0 <= j < |ks| ==> f[j] == spec.freqs[ks[j]] * fpsReal
  {
    seq(|ks|, j requires 0 <= j < |ks| => spec.freqs[ks[j]] * fpsReal)
  }

  /** The weighted-energy estimate of every time column. */
  function Weighted(spec: Spectrogram, b: Band): (r: seq<Option<real>>)
    ensures |r| == spec.times
    ensures forall t :: 0 <= t < spec.times ==>
              var ks := InBand(spec, b);
              r[t] == WeightedFrequency(BandEnergies(spec, ks, t), BandFrequencies(spec, ks, b.fpsReal))
  {
    var ks := InBand(spec, b);
    var f := BandFrequencies(spec, ks, b.fpsReal);
    seq(spec.times, t requires 0 <= t < spec.times => WeightedFrequency(BandEnergies(spec, ks, t), f))
  }

  /** A weighted estimate with non-negative magnitudes lies strictly inside
      the band. */
  lemma WeightedInsideBand(spec: Spectrogram, b: Band, t: nat)
    requires NonNegative(spec)
    requires t < spec.times
    requires Weighted(spec, b)[t].Some?
    ensures InsideBand(Weighted(spec, b)[t].value, b)
  {
    var ks := InBand(spec, b);
    var e := BandEnergies(spec, ks, t);
    var f := BandFrequencies(spec, ks, b.fpsReal);
    assert Weighted(spec, b)[t] == WeightedFrequency(e, f);
    forall j | 0 <= j < |f| ensures InsideBand(f[j], b) {
      assert ks[j] in ks;
    }
    forall j | 0 <= j < |e| ensures e[j] >= 0.0 {
      assert ks[j] < |spec.freqs|;
    }
    WeightedValueInsideBand(e, f, b);
  }

  /** The weighted frequency of in-band frequencies with non-negative,
      not all zero, weights is itself in the band. */
  lemma WeightedValueInsideBand(e: seq<real>, f: seq<real>, b: Band)
    requires |e| == |f|
    requires forall j :: 0 <= j < |e| ==> e[j] >= 0.0
    requires forall j :: 0 <= j < |f| ==> InsideBand(f[j], b)
    requires WeightedFrequency(e, f).Some?
    ensures InsideBand(WeightedFrequency(e, f).value, b)
  {
    NonNegativeSum(e);
    if |f| > 0 {
      var lo, hi := Numeric.Min(f), Numeric.Max(f);
      WeightedFrequencyBetween(e, f, lo, hi);
      var i :| 0 <= i < |f| && f[i] == lo;
      var j :| 0 <= j < |f| && f[j] == hi;
      assert InsideBand(f[i], b) && InsideBand(f[j], b);
    }
  }

  lemma {:induction false} NonNegativeSum(e: seq<real>)
    requires forall j :: 0 <= j < |e| ==> e[j] >= 0.0
    ensures Numeric.Sum(e) >= 0.0
  {
    if |e| > 0 {
      NonNegativeSum(e[1..]);
    }
  }

  /** `__enf_with_stft`: the max-energy and the weighted-energy estimates
      of one transform. */
  function EnfWithStft(spec: Spectrogram, b: Band): (r: Result<(seq<real>, seq<Option<real>>)>)
    ensures r.Err? <==> MaxEnergy(spec, b.fpsReal).Err?
    ensures r.Ok? ==> |r.value.0| == spec.times && |r.value.1| == spec.times
  {
    match MaxEnergy(spec, b.fpsReal)
    case Err(e) => Err(e)
    case Ok(m) => Ok((m, Weighted(spec, b)))
  }

  // ---------------------------------------------------------------------
  // The estimate pipeline of one series

  /** The transform of the filtered series with a window of `samples`
      segments hopping `fps` samples. */
  function Spectrum(x: seq<real>, fps: int, samples: int, filter: seq<real> -> seq<real>,
                    stft: (seq<real>, (int, int)) -> Result<Spectrogram>): Result<Spectrogram>
  {
    stft(filter(x), (samples, samples - fps))
  }

  /** Filter the series with the band-pass, transform it, and take both
      estimates.  The band edges are checked first, then the window, then
      whatever the transform itself refuses. */
  function Estimate(x: seq<real>, b: Band, fps: int, samples: int,
                    filter: seq<real> -> seq<real>,
                    stft: (seq<real>, (int, int)) -> Result<Spectrogram>)
    : (r: Result<(seq<real>, seq<Option<real>>)>)
    ensures BandpassEdges(b).Err? ==> r == Err(BandpassEdges(b).error)
    ensures BandpassEdges(b).Ok? && fps <= 0 ==> r == Err(ValueError)
    ensures BandpassEdges(b).Ok? && fps > 0 ==>
              var spec := Spectrum(x, fps, samples, filter, stft);
              (spec.Err? ==> r == Err(spec.error)) && (spec.Ok? ==> r == EnfWithStft(spec.value, b))
  {
    match BandpassEdges(b)
    case Err(e) => Err(e)
    case Ok(_) =>
      match StftWindow(samples, fps)
      case Err(e) => Err(e)
      case Ok(window) =>
        match stft(filter(x), window)
        case Err(e) => Err(e)
        case Ok(spec) => EnfWithStft(spec, b)
  }

  /** `k * fps_real / nfft`, the frequency of bin `k`. */
  function GridFrequency(k: nat, nfft: nat, fpsReal: real): real
    requires nfft > 0
  {
    (k as real / nfft as real) * fpsReal
  }

  /** A transform with a `k / nfft` frequency axis makes every max-energy
      value a grid frequency. */
  lemma EstimateOnGrid(x: seq<real>, b: Band, fps: int, samples: int, nfft: nat,
                       filter: seq<real> -> seq<real>,
                       stft: (seq<real>, (int, int)) -> Result<Spectrogram>, t: nat)
    requires nfft > 0
    requires var r := Spectrum(x, fps, samples, filter, stft); r.Ok? ==> OnGrid(r.value, nfft)
    requires Estimate(x, b, fps, samples, filter, stft).Ok?
    requires t < |Estimate(x, b, fps, samples, filter, stft).value.0|
    ensures exists k: nat :: Estimate(x, b, fps, samples, filter, stft).value.0[t] == GridFrequency(k, nfft, b.fpsReal)
  {
    var e := Estimate(x, b, fps, samples, filter, stft).value;
    var spec := Spectrum(x, fps, samples, filter, stft).value;
    assert EnfWithStft(spec, b) == Ok(e);
    MaxEnergyOnGrid(spec, b.fpsReal, nfft, t);
    var k := ArgMax(Column(spec, t));
    assert e.0[t] == GridFrequency(k, nfft, b.fpsReal);
  }

  /** A transform whose magnitudes are absolute values keeps every weighted
      value strictly inside the band. */
  lemma EstimateInsideBand(x: seq<real>, b: Band, fps: int, samples: int,
                           filter: seq<real> -> seq<real>,
                           stft: (seq<real>, (int, int)) -> Result<Spectrogram>, t: nat)
    requires var r := Spectrum(x, fps, samples, filter, stft); r.Ok? ==> NonNegative(r.value)
    requires Estimate(x, b, fps, samples, filter, stft).Ok?
    requires t < |Estimate(x, b, fps, samples, filter, stft).value.1|
    requires Estimate(x, b, fps, samples, filter, stft).value.1[t].Some?
    ensures InsideBand(Estimate(x, b, fps, samples, filter, stft).value.1[t].value, b)
  {
    var e := Estimate(x, b, fps, samples, filter, stft).value;
    var spec := Spectrum(x, fps, samples, filter, stft).value;
    assert EnfWithStft(spec, b) == Ok(e);
    WeightedInsideBand(spec, b, t);
  }
}
