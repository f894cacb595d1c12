/** `statistics_03_extract_enf_mean.process`: estimate the frequency track
    of a video's mean-brightness series and correlate the max-frequency and
    the weighted tracks with the reference series.

    The database, the reference file and the loaded series are inputs: the
    reference is `None` when its file does not exist.
 */
module ExtractMean {
  import opened Wrappers
  import Spectral
  import MeanAnalyzer
  import Extraction
  import Alignment

  /** `load_mean_per_frame` on the one-dimensional series the mean
      pipeline stores: `data.shape[1]` does not exist, so asking for either
      bound raises `IndexError`, and without bounds the series comes back
      unchanged. */
  function LoadMeanPerFrame(x: seq<real>, start: Option<int>, end: Option<int>): (r: Result<seq<real>>)
    ensures r.Err? <==> start.Some? || end.Some?
    ensures r.Err? ==> r.error == IndexError
    ensures r.Ok? ==> r.value == x
  {
    if end.Some? || start.Some? then Err(IndexError) else Ok(x)
  }

  /** The tracks correlated, in the order `process` stores them. */
  function Tracks(estimates: (seq<real>, seq<Option<real>>)): (ts: seq<(seq<Option<real>>, string)>)
    ensures |ts| == 2
    ensures ts[0] == (Extraction.Present(estimates.0), "max_freq")
    ensures ts[1] == (estimates.1, "weighted")
  {
    [(Extraction.Present(estimates.0), "max_freq"), (estimates.1, "weighted")]
  }

  /** `process` on the video named `video`: `None` when the reference file
      is missing, otherwise the two stored records, the max-frequency one
      first.  The time difference after the first correlation fails when the
      video's name has no valid stamp. */
  function Process(x: seq<real>, s: MeanAnalyzer.Settings, reference: Option<seq<real>>, skip: int,
                   comment: string, video: string, filter: seq<real> -> seq<real>,
                   stft: (seq<real>, (int, int)) -> Result<Spectral.Spectrogram>,
                   corr: (seq<Option<real>>, seq<real>) -> Option<real>): (r: Result<Option<seq<Extraction.Record>>>)
    ensures reference.None? ==> r == Ok(None)
    ensures reference.Some? && MeanAnalyzer.ExtractEnf(x, s, filter, stft).Err? ==>
              r == Err(MeanAnalyzer.ExtractEnf(x, s, filter, stft).error)
    ensures r.Ok? && r.value.Some? ==>
              var e := MeanAnalyzer.ExtractEnf(x, s, filter, stft);
              reference.Some? && e.Ok? && |r.value.value| == 2 &&
              Ok(r.value.value) == Extraction.CorrelateAll(Tracks(e.value), skip, reference.value,
                                                          s.band.expected, corr, comment)
    ensures reference.Some? && MeanAnalyzer.ExtractEnf(x, s, filter, stft).Ok? ==>
              var e := MeanAnalyzer.ExtractEnf(x, s, filter, stft);
              (r.Err? <==> Extraction.CorrelateStamped(Tracks(e.value), skip, reference.value,
                                                       s.band.expected, corr, comment, video).Err?)
  {
    if reference.None? then Ok(None)
    else
      match MeanAnalyzer.ExtractEnf(x, s, filter, stft)
      case Err(e) => Err(e)
      case Ok(est) =>
        match Extraction.CorrelateStamped(Tracks(est), skip, reference.value, s.band.expected, corr, comment, video)
        case Err(e) => Err(e)
        case Ok(records) => Ok(Some(records))
  }

  /** Both records carry the comment of their estimate, and give back the
      estimate with the first `skip` entries dropped. */
  lemma RecordsRecoverTracks(x: seq<real>, s: MeanAnalyzer.Settings, reference: seq<real>, skip: int,
                             comment: string, video: string, filter: seq<real> -> seq<real>,
                             stft: (seq<real>, (int, int)) -> Result<Spectral.Spectrogram>,
                             corr: (seq<Option<real>>, seq<real>) -> Option<real>, i: nat)
    requires Process(x, s, Some(reference), skip, comment, video, filter, stft, corr).Ok?
    requires i < 2
    ensures var records := Process(x, s, Some(reference), skip, comment, video, filter, stft, corr).value.value;
            var t := Tracks(MeanAnalyzer.ExtractEnf(x, s, filter, stft).value)[i];
            records[i].comment == Extraction.Comment(comment, t.1, skip) &&
            records[i].aligned.index + |Extraction.Drop(t.0, skip)| <= |records[i].aligned.column| &&
            Alignment.Unplace(records[i].aligned.column, records[i].aligned.index,
                              |Extraction.Drop(t.0, skip)|, s.band.expected) == Extraction.Drop(t.0, skip)
  {
    var t := Tracks(MeanAnalyzer.ExtractEnf(x, s, filter, stft).value)[i];
    Extraction.RecordRecoversTrack(t.0, skip, reference, s.band.expected, corr, comment, t.1);
  }

  /** A constant brightness offset changes nothing the script stores. */
  lemma ProcessIgnoresOffset(x: seq<real>, d: real, y: seq<real>, s: MeanAnalyzer.Settings,
                             reference: Option<seq<real>>, skip: int, comment: string, video: string,
                             filter: seq<real> -> seq<real>,
                             stft: (seq<real>, (int, int)) -> Result<Spectral.Spectrogram>,
                             corr: (seq<Option<real>>, seq<real>) -> Option<real>)
    requires |y| == |x|
    requires forall i :: 0 <= i < |x| ==> y[i] == x[i] + d
    ensures Process(y, s, reference, skip, comment, video, filter, stft, corr) ==
            Process(x, s, reference, skip, comment, video, filter, stft, corr)
  {
    MeanAnalyzer.ExtractEnfIgnoresOffset(x, d, y, s, filter, stft);
  }
}
