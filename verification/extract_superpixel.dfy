/** `statistics_03_extract_enf_superpixel.process`: rate the regions of one
    video, and when they agree well enough correlate the representative,
    the weighted and the max-energy tracks with the reference series.

    The database, the reference file and the loaded matrix are inputs: the
    reference is `None` when its file does not exist.
 */
module ExtractSuperpixel {
  import opened Wrappers
  import EnfMetric
  import Spectral
  import SuperpixelAnalyzer
  import Extraction
  import Alignment

  /** The median correlation below which no track is correlated. */
  const MinMedian: real := 0.6

  /** How `process` ends. */
  datatype Outcome =
    | NoReference                                         // no reference file: logged and skipped
    | NoData                                              // an empty matrix: `return None`
    | MetricsOnly(metric: EnfMetric.Metric, comment: int) // the metrics, with the segment length as comment
    | Correlated(metric: EnfMetric.Metric, records: seq<Extraction.Record>)

  /** The tracks correlated, in the order `process` stores them. */
  function Tracks(representative: seq<real>, estimates: (seq<real>, seq<Option<real>>))
    : (ts: seq<(seq<Option<real>>, string)>)
    ensures |ts| == 3
    ensures ts[0] == (Extraction.Present(representative), "representative")
    ensures ts[1] == (estimates.1, "weighted")
    ensures ts[2] == (Extraction.Present(estimates.0), "max_amplitude")
  {
    [(Extraction.Present(representative), "representative"), (estimates.1, "weighted"),
     (Extraction.Present(estimates.0), "max_amplitude")]
  }

  /** `process`.  Detection runs with segments of `samples`, extraction
      (mode `'mean'`) with the analyzer's `samples_stft_me`; a detection of
      `None` cannot be unpacked (`TypeError`). */
  function Process(m: seq<seq<real>>, s: SuperpixelAnalyzer.Settings, reference: Option<seq<real>>,
                   skip: int, comment: string, video: string, filter: seq<real> -> seq<real>,
                   stft: (seq<real>, (int, int)) -> Result<Spectral.Spectrogram>,
                   rowCorr: (seq<real>, seq<real>) -> real,
                   corr: (seq<Option<real>>, seq<real>) -> Option<real>): (r: Result<Outcome>)
    requires EnfMetric.Rectangular(m)
    ensures reference.None? ==> r == Ok(NoReference)
    ensures reference.Some? && |m| == 0 ==> r == Ok(NoData)
    ensures reference.Some? && |m| > 0 && |SuperpixelAnalyzer.KeptRows(m)| < SuperpixelAnalyzer.MinRegions ==>
              r == Err(TypeError)
    ensures r.Ok? && (r.value.MetricsOnly? || r.value.Correlated?) ==>
              var d := SuperpixelAnalyzer.DetectEnf(m, s, filter, stft, rowCorr);
              reference.Some? && d.Ok? && d.value.Some? && d.value.value.metric == r.value.metric &&
              r == Rated(m, s, d.value.value, reference.value, skip, comment, video, filter, stft, corr)
  {
    if reference.None? then Ok(NoReference)
    else if |m| == 0 then Ok(NoData)
    else
      match SuperpixelAnalyzer.DetectEnf(m, s, filter, stft, rowCorr)
      case Err(e) => Err(e)
      case Ok(None) => Err(TypeError)
      case Ok(Some(d)) => Rated(m, s, d, reference.value, skip, comment, video, filter, stft, corr)
  }

  /** What follows a detection: the median gate, then the extraction and
      the three correlations, each followed by the time difference, which
      fails when the video's name has no valid stamp. */
  function Rated(m: seq<seq<real>>, s: SuperpixelAnalyzer.Settings, d: SuperpixelAnalyzer.Detection,
                 reference: seq<real>, skip: int, comment: string, video: string,
                 filter: seq<real> -> seq<real>,
                 stft: (seq<real>, (int, int)) -> Result<Spectral.Spectrogram>,
                 corr: (seq<Option<real>>, seq<real>) -> Option<real>): (r: Result<Outcome>)
    requires EnfMetric.Rectangular(m)
    requires |SuperpixelAnalyzer.KeptRows(m)| >= SuperpixelAnalyzer.MinRegions
    ensures r.Ok? ==> r.value.MetricsOnly? || r.value.Correlated?
    ensures r.Ok? ==> r.value.metric == d.metric
    ensures d.metric.median < MinMedian <==> r.Ok? && r.value.MetricsOnly?
    ensures r.Ok? && r.value.MetricsOnly? ==> r.value.comment == s.samplesStft
    ensures r.Ok? && r.value.Correlated? ==>
              var e := SuperpixelAnalyzer.ExtractEnf(m, "mean", s, filter, stft);
              d.metric.median >= MinMedian && e.Ok? && e.value.Some? &&
              Ok(r.value.records) == Extraction.CorrelateAll(Tracks(d.representative, e.value.value), skip,
                                                            reference, s.band.expected, corr, comment)
    ensures d.metric.median >= MinMedian ==>
              var e := SuperpixelAnalyzer.ExtractEnf(m, "mean", s, filter, stft);
              e.Ok? && e.value.Some? ==>
                (r.Err? <==> Extraction.CorrelateStamped(Tracks(d.representative, e.value.value), skip, reference,
                                                         s.band.expected, corr, comment, video).Err?)
  {
    if d.metric.median < MinMedian then Ok(MetricsOnly(d.metric, s.samplesStft))
    else
      var rep := SuperpixelAnalyzer.Representative(m, "mean").value;
      match Spectral.Estimate(rep, s.band, s.fps, s.samplesStftMe, filter, stft)
      case Err(e) => Err(e)
      case Ok(est) =>
        match Extraction.CorrelateStamped(Tracks(d.representative, est), skip, reference, s.band.expected, corr,
                                          comment, video)
        case Err(e) => Err(e)
        case Ok(records) => Ok(Correlated(d.metric, records))
  }

  /** The median gate: once the regions are rated, the tracks are
      correlated exactly when the median correlation reaches 0.6. */
  lemma MedianGate(m: seq<seq<real>>, s: SuperpixelAnalyzer.Settings, reference: seq<real>,
                   skip: int, comment: string, video: string, filter: seq<real> -> seq<real>,
                   stft: (seq<real>, (int, int)) -> Result<Spectral.Spectrogram>,
                   rowCorr: (seq<real>, seq<real>) -> real,
                   corr: (seq<Option<real>>, seq<real>) -> Option<real>)
    requires EnfMetric.Rectangular(m)
    requires SuperpixelAnalyzer.DetectEnf(m, s, filter, stft, rowCorr).Ok?
    requires SuperpixelAnalyzer.DetectEnf(m, s, filter, stft, rowCorr).value.Some?
    ensures var r := Process(m, s, Some(reference), skip, comment, video, filter, stft, rowCorr, corr);
            var median := SuperpixelAnalyzer.DetectEnf(m, s, filter, stft, rowCorr).value.value.metric.median;
            (median < MinMedian <==> r.Ok? && r.value.MetricsOnly?) &&
            (median >= MinMedian ==> r.Err? || r.value.Correlated?)
  {
    assert |m| > 0;
  }

  /** Every correlated record gives back its track with the first `skip`
      entries dropped: the representative, then the weighted estimate, then
      the max-energy estimate. */
  lemma CorrelatedRecordsRecoverTracks(m: seq<seq<real>>, s: SuperpixelAnalyzer.Settings, reference: seq<real>,
                                       skip: int, comment: string, video: string,
                                       filter: seq<real> -> seq<real>,
                                       stft: (seq<real>, (int, int)) -> Result<Spectral.Spectrogram>,
                                       rowCorr: (seq<real>, seq<real>) -> real,
                                       corr: (seq<Option<real>>, seq<real>) -> Option<real>, i: nat)
    requires EnfMetric.Rectangular(m)
    requires Process(m, s, Some(reference), skip, comment, video, filter, stft, rowCorr, corr).Ok?
    requires Process(m, s, Some(reference), skip, comment, video, filter, stft, rowCorr, corr).value.Correlated?
    requires i < 3
    ensures var r := Process(m, s, Some(reference), skip, comment, video, filter, stft, rowCorr, corr).value;
            var d := SuperpixelAnalyzer.DetectEnf(m, s, filter, stft, rowCorr).value.value;
            var e := SuperpixelAnalyzer.ExtractEnf(m, "mean", s, filter, stft).value.value;
            var t := Tracks(d.representative, e)[i];
            |r.records| == 3 && r.records[i].comment == Extraction.Comment(comment, t.1, skip) &&
            r.records[i].aligned.index + |Extraction.Drop(t.0, skip)| <= |r.records[i].aligned.column| &&
            Alignment.Unplace(r.records[i].aligned.column, r.records[i].aligned.index,
                              |Extraction.Drop(t.0, skip)|, s.band.expected) == Extraction.Drop(t.0, skip)
  {
    var d := SuperpixelAnalyzer.DetectEnf(m, s, filter, stft, rowCorr).value.value;
    var e := SuperpixelAnalyzer.ExtractEnf(m, "mean", s, filter, stft).value.value;
    var t := Tracks(d.representative, e)[i];
    Extraction.RecordRecoversTrack(t.0, skip, reference, s.band.expected, corr, comment, t.1);
  }
}
