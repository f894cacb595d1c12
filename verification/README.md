# ENF analysis: a Dafny model

The `enf-analysis` repository estimates the electrical network frequency
(ENF) from a video. Lamps flicker at twice the mains frequency, and the
camera aliases that flicker to a low frequency, 10 Hz for 50 Hz mains
filmed at 30 fps. The processing has two stages.

- **Video stage.** The first frame is segmented into superpixel regions.
  Each region is kept only if it is bright enough and never shows motion.
  Its mean luminance is recorded for every frame.
- **Analysis stage.** Each kept region's luminance series is centred and
  band-pass filtered. The series is turned into a frequency track by a
  short-time Fourier transform (STFT). Each track is rated by how well the
  regions agree. Good tracks are aligned against a reference mains
  frequency series by sliding correlation.

A simpler variant averages the whole frame instead of single regions.

This project models the bookkeeping skeleton of both stages. The numeric
libraries become uninterpreted function parameters ("oracles") over `real`:
image segmentation, background subtraction, filter design, `sosfilt`, STFT,
`corrcoef` and pandas' `corr`. Python exceptions become
`Result.Err(PyError)` values. A NaN becomes `None`.

Each source file is modelled by one module:

| module | source |
|---|---|
| `BaseFunctions` | `base_functions.py` |
| `MotionDetector` | `MotionDetectorGSOC.py` |
| `SuperpixelCalculator` | `MeanMedianSuperpixelCalculator.py` |
| `MeanCalculator` | `MeanCalculator.py` |
| `Grabber` | `VideoGrabber.py` |
| `VideoProcessor` | `ENFSuperpixelVideoProcessor.py` |
| `VideoTimestamp` | `persistence/Video.py` |
| `EnfMetric` | `ENFMetric.py` |
| `Pearson` | `Pearson.py` |
| `Spectral` | the estimate selection shared by both analyzers |
| `Alignment` | `correlate`, shared by both analyzers |
| `SuperpixelAnalyzer` | `ENFSuperpixelAnalyzer.py` |
| `MeanAnalyzer` | `ENFMeanAnalyzer.py` |
| `Extraction` | the helpers shared by the two `statistics_03` scripts |
| `ExtractSuperpixel` | `statistics_03_extract_enf_superpixel.py` |
| `ExtractMean` | `statistics_03_extract_enf_mean.py` |

`Wrappers`, `Numeric`, `NumpyInt` and `PySlice` are helpers:

- `Wrappers`: `Option`, `Result` and the error kinds.
- `Numeric`: sum, mean, median, max/min, truncation and rounding over `real`.
- `NumpyInt`: `bincount`, `unique` and `np.where` over integers and masks.
- `PySlice`: Python slicing with negative and out-of-range bounds.

Three behaviours of the code worth knowing. The model follows the code in
each case.

- **Region values.** The aggregator's region values are the mean and median
  over all pixels of a region. They are not restricted to the pixels above
  the threshold.
- **`__qi` boundary.** `__qi` has no boundary guard. A peak at the first
  in-band bin reads the last bin, and a peak at the last bin raises
  `IndexError`.
- **Metric keys.** The quality metric stores its scores as dictionary keys,
  so rows with equal correlation collapse into one entry.

`__qi` is never called inside the repository. It is modelled as written,
together with a corrected version; see Findings.

## Model

| member | source | states |
|---|---|---|
| BaseFunctions.CalcAlias | base_functions.py:31-38 | if half the sample rate reaches the light frequency (twice the mains frequency), that frequency comes back unchanged with k = 0; otherwise k is the least k ≥ 1 whose multiple of the sample rate lies within half a sample rate of the light frequency, and the result is the folded frequency |
| BaseFunctions.AliasMultiple | base_functions.py:35-37 | when the search runs, it stops at some k ≥ 1 whose multiple of the sample rate is closer than half a sample rate to the light frequency |
| BaseFunctions.AliasUnrounded | base_functions.py:35-38 | the folded frequency, before rounding, lies in [0, sample/2) |
| BaseFunctions.NearMultipleUnique | base_functions.py:36 | at most one multiple of the sample rate lies within half a sample rate of a frequency, so the loop's exit k is unique |
| BaseFunctions.AliasOfFiftyAtThirty | base_functions.py:31-38 | 50 Hz mains filmed at 30 fps fold to 10 Hz, the analyzers' default expected frequency |
| BaseFunctions.AliasFiftyAtFortyDiverges | base_functions.py:35-37 | at 40 fps the distance to every multiple is at least 20, so the loop never ends; the termination precondition rules this case out |
| BaseFunctions.GetLoc | base_functions.py:71 | a timestamp missing from the index raises KeyError; a position comes back exactly when the timestamp occurs once, and it holds that timestamp |
| BaseFunctions.SliceCsvDataFits | base_functions.py:70-74 | when the window fits, the slice is the samples from `offset` before the timestamp to `offset` after the recording's end, `enf_length + 2·offset` long |
| BaseFunctions.SliceCsvDataWrapsAround | base_functions.py:70-74 | when the timestamp is fewer than `offset` samples from the start, the negative start counts from the end of the series |
| BaseFunctions.TimestampDiff | base_functions.py:56-57 | the result is within half a second of matched − video |
| BaseFunctions.TimestampDiffAntisymmetric | base_functions.py:56-57 | swapping the two timestamps negates the difference |
| BaseFunctions.DestinationPath | base_functions.py:45-49 | the path is the base, then "/extracted/", then the directory followed by "/" when one is given, then the file name, with nothing else in between |
| BaseFunctions.DestinationPathInjective | base_functions.py:45-49 | under one base, equal destinations with the same directory have the same file name, and with the same file name have the same directory |
| MotionDetector.RegionSize | MotionDetectorGSOC.py:53 | the region size is the floor of the shorter side divided by 18 |
| MotionDetector.ShiftedIds | MotionDetectorGSOC.py:69 | the id list is strictly ascending and holds exactly the labels used, each plus one |
| MotionDetector.FirstFrame | MotionDetectorGSOC.py:50-72 | the segmentation is the label grid shifted to 1-based ids, so id 0 never occurs; the ids are exactly the values the shifted grid uses, sorted and distinct; the steadiness flags start all true with one per id; the pixel count of every id is its number of cells, and id 0 counts none |
| MotionDetector.TotalsCoverAllPixels | MotionDetectorGSOC.py:71-72 | the pixel counts of ids 1 and up sum to the number of pixels |
| MotionDetector.FirstFrameWellFormed | MotionDetectorGSOC.py:68-72 | when the segmenter uses every label below its count, the detector's flags, ids and counts agree in size and position p stands for id p+1 |
| MotionDetector.AffectedCountBelow | MotionDetectorGSOC.py:84-86 | a region never has more moving pixels than pixels |
| MotionDetector.NextFrame | MotionDetectorGSOC.py:76-89 | a mask without a 255 value changes nothing; otherwise flag p stays true exactly when it was true and id p+1's moving share does not exceed the factor; nothing but the flags changes; a mask with a 255 value fails exactly in three cases. A mask whose size differs from the grid's raises ValueError. Per-id moving counts that numpy cannot broadcast against the pixel totals (after dropping id 0, lengths differ and neither is 1) also raise ValueError, from the division. Otherwise a flagged position past the flags raises IndexError |
| MotionDetector.FlagMoving | MotionDetectorGSOC.py:84-89 | once the mask has the grid's size, counts that do not broadcast against the totals raise ValueError; a count vector of length 1 after id 0 stands for every position. Otherwise a flagged position past the flags raises IndexError. On success, flag p stays true exactly when it was true and position p's share does not exceed the factor; a zero total with moving pixels is infinite and flagged, and a zero total without them is NaN and not flagged; nothing else changes |
| MotionDetector.NextFrameBroadcastExample | MotionDetectorGSOC.py:85-89 | with labels [0, 1] reported as one superpixel, one moving pixel in region 1 gives counts [0, 1] against totals [0, 1, 1]; the single share broadcasts over both regions and clears both flags, with no error |
| MotionDetector.NextFrameMonotone | MotionDetectorGSOC.py:89 | a frame only turns flags from true to false |
| MotionDetector.NextFrameSucceeds | MotionDetectorGSOC.py:84-89 | on a well-formed detector and a mask of the frame's size the update cannot raise |
| MotionDetector.NextFrameFactorAtLeastOne | MotionDetectorGSOC.py:87-89 | a factor of 1 or more never flags a region, because a moving share cannot exceed 1 |
| MotionDetector.ApplyDisabled | MotionDetectorGSOC.py:40-42 | an empty list changes nothing; otherwise flag p is cleared exactly when the list targets it through id − 1 (with negative indices counting from the end), every other flag is kept, and an id out of range raises |
| MotionDetector.ApplyDisabledPositions | MotionDetectorGSOC.py:40-42 | for ids in 1..n, flag p ends true exactly when it was true and id p+1 is not in the list |
| MotionDetector.ApplyDisabledMonotone | MotionDetectorGSOC.py:42 | disabling only turns flags from true to false |
| SuperpixelCalculator.Locations | MeanMedianSuperpixelCalculator.py:36-37 | the location list of a label holds, in ascending order, exactly the flat positions carrying that label |
| SuperpixelCalculator.LocationsPartition | MeanMedianSuperpixelCalculator.py:34-37 | every pixel position appears in the location list of its own label and in no other |
| SuperpixelCalculator.Initialize | MeanMedianSuperpixelCalculator.py:32-41 | a negative frame count raises ValueError; otherwise the ids are exactly the labels present, nothing is selected, the frame counter is 0, and both buffers are zero in every cell |
| SuperpixelCalculator.ChooseThreshold | MeanMedianSuperpixelCalculator.py:53-58 | a given threshold is kept unless it exceeds the brightest pixel; a missing or substituted one becomes the truncated median luminance; the result never exceeds the brightest pixel |
| SuperpixelCalculator.ThresholdSubstitution | MeanMedianSuperpixelCalculator.py:55-58 | a given threshold is replaced only when it is above the brightest pixel, and the replacement is never larger |
| SuperpixelCalculator.Select | MeanMedianSuperpixelCalculator.py:64-74 | a region is selected exactly when its score is strictly above the threshold, and ascending ids stay ascending |
| SuperpixelCalculator.WriteColumn | MeanMedianSuperpixelCalculator.py:90-92 | exactly the listed rows receive their value in the given column and every other cell is kept; a row or column outside the buffer raises IndexError |
| SuperpixelCalculator.WriteColumnShaped | MeanMedianSuperpixelCalculator.py:90-92 | on a buffer of known shape, the write fails exactly when a row or the column is out of that shape, and it keeps the shape |
| SuperpixelCalculator.Record | MeanMedianSuperpixelCalculator.py:90-92 | in the current column, each listed region's row receives its mean in the mean buffer and its median in the median buffer, both over all its pixels; every other cell of both buffers is kept, and the counter advances by one; a frame past the buffer's width raises IndexError |
| SuperpixelCalculator.FirstFrame | MeanMedianSuperpixelCalculator.py:46-75 | an empty frame raises; otherwise the threshold is chosen by the substitution rule, the selection grows by exactly the regions whose score passes it, and the counter advances by one |
| SuperpixelCalculator.Chosen | MeanMedianSuperpixelCalculator.py:64-74 | the regions chosen on the first frame are exactly the ids that pass the threshold test, in ascending order |
| SuperpixelCalculator.FirstFrameSucceeds | MeanMedianSuperpixelCalculator.py:64-75 | on a frame of the segmentation's size with room in the buffer, and ids that fit the buffer, the first frame cannot raise |
| SuperpixelCalculator.NextFrame | MeanMedianSuperpixelCalculator.py:77-88 | every selected region's row receives this frame's mean and median of the region in the current column of the two buffers; every other cell is kept, the selection is kept, and the counter advances by one; a frame past the buffer's width with a region selected raises IndexError |
| SuperpixelCalculator.NextFrameSucceeds | MeanMedianSuperpixelCalculator.py:84-88 | on a frame of the segmentation's size with room in the buffer, a later frame cannot raise |
| SuperpixelCalculator.InitializeUnselectedZero | MeanMedianSuperpixelCalculator.py:38-41 | after initialisation every row outside the selection is zero in both buffers |
| SuperpixelCalculator.FirstFrameUnselectedZero | MeanMedianSuperpixelCalculator.py:64-75 | the first frame keeps the rows outside the selection zero in both the mean and the median buffer |
| SuperpixelCalculator.RecordedUnselectedZero | MeanMedianSuperpixelCalculator.py:90-92 | recording a column for some ids and adding them to the selection keeps every unselected row zero in both buffers |
| SuperpixelCalculator.NextFrameUnselectedZero | MeanMedianSuperpixelCalculator.py:84-92 | later frames keep the rows outside the selection zero in both the mean and the median buffer |
| SuperpixelCalculator.Disabled | MeanMedianSuperpixelCalculator.py:25-30 | the disabled ids are exactly the ids not selected, in ascending order |
| SuperpixelCalculator.DisabledSplitsIds | MeanMedianSuperpixelCalculator.py:25-30 | every id is either disabled or selected, never both |
| SuperpixelCalculator.RowsAfter | MeanMedianSuperpixelCalculator.py:103 | the result holds buffer row p+1 for each true mask position p, in ascending order; a position whose row p+1 is outside the buffer raises IndexError |
| SuperpixelCalculator.MeanPerSuperpixel | MeanMedianSuperpixelCalculator.py:105-106 | the lookup succeeds exactly when no true mask position points past the last id, returns one row per true position, and every returned row spans all frames |
| SuperpixelCalculator.MedianPerSuperpixel | MeanMedianSuperpixelCalculator.py:102-103 | the lookup of the median buffer succeeds exactly when no true mask position points past the last id, returns one row per true position, and every returned row spans all frames |
| SuperpixelCalculator.MeanRowsOfMarkedIds | MeanMedianSuperpixelCalculator.py:105-106 | every true mask position p contributes mean row p+1 to the result |
| SuperpixelCalculator.MedianRowsOfMarkedIds | MeanMedianSuperpixelCalculator.py:102-103 | every true mask position p contributes median row p+1 to the result |
| SuperpixelCalculator.NextFrameMedianRow | MeanMedianSuperpixelCalculator.py:84-103 | after a later frame, the median row returned for a marked, selected region holds that region's median in this frame's column |
| SuperpixelCalculator.WrittenRecorded | MeanMedianSuperpixelCalculator.py:90-92 | writing each listed region's mean and median into the current column of the two buffers leaves exactly the recorded state: those values there, every other cell unchanged |
| MeanCalculator.Above | MeanCalculator.py:29 | every selected value is a frame pixel strictly above the threshold, there are no more values than pixels, and nothing is selected exactly when no pixel is above it |
| MeanCalculator.AboveCounts | MeanCalculator.py:29-37 | completeness of `gray[gray > t]`: each pixel value above the threshold occurs in the selection exactly as often as in the frame, and any other value never; with Above's contract this fixes the selection up to order |
| MeanCalculator.MeanOf | MeanCalculator.py:29 | the mean of no pixels has no value; otherwise the mean lies between the smallest and largest pixel |
| MeanCalculator.FrameValueAboveThreshold | MeanCalculator.py:29-37 | with a threshold, a frame has no value exactly when no pixel is above it; otherwise the value lies above the threshold and at most at the brightest pixel |
| MeanCalculator.FrameValueWithoutThreshold | MeanCalculator.py:31-32 | without a threshold, the value is the mean of all pixels |
| MeanCalculator.ProcessFirstFrame | MeanCalculator.py:18-32 | an empty frame with a threshold raises ValueError; a missing threshold stays missing and a given one follows the substitution rule; exactly one value is appended, computed with the threshold now in force |
| MeanCalculator.FirstFrameThreshold | MeanCalculator.py:20-25 | a threshold is never raised, and it is replaced only when every pixel is below it |
| MeanCalculator.Process | MeanCalculator.py:34-39 | a later frame keeps the threshold and the earlier values and appends exactly that frame's value |
| MeanCalculator.ProcessAllAppendsOnePerFrame | MeanCalculator.py:34-39 | after n frames there are n more values, the k-th being frame k's value under the unchanged threshold |
| MeanCalculator.ProcessVideo | MeanCalculator.py:18-39 | the first frame fixes the threshold for every later frame, and one value is recorded per frame |
| Grabber.FramesDuration | VideoGrabber.py:56-66 | no positive frame count gives no duration; a zero frame rate raises; otherwise the duration times the frame rate is the frame count, and it is positive for a positive rate |
| Grabber.Duration | VideoGrabber.py:56-60 | the duration covers exactly the frames to process, and is missing exactly when there are none |
| Grabber.TotalDuration | VideoGrabber.py:62-66 | the total duration covers exactly the capture's frames, and is missing exactly when there are none |
| Grabber.Open | VideoGrabber.py:15-39 | the frame rate is rounded to two decimals; the frames to process run to the end frame when it is non-zero, else to the capture's end, counted from the start frame; a video record gets the two-decimal rate, that rate rounded half-to-even to an integer, and the rounded duration. With a record and no frames to process, rounding the missing duration raises TypeError. Otherwise a two-decimal rate of 0 raises ZeroDivisionError exactly when there are frames to process or frames in the capture. Nothing else raises |
| Grabber.FirstFrame | VideoGrabber.py:71-73 | the first delivery is numbered 1 and carries whatever the read returned |
| Grabber.GrabFrom | VideoGrabber.py:75-81 | deliveries carry strictly increasing numbers inside the range, each with the frame its read returned, and there are never more than the range holds |
| Grabber.GrabFromComplete | VideoGrabber.py:76-81 | every number in the range whose read succeeds is delivered |
| Grabber.Grab | VideoGrabber.py:75-81 | deliveries are numbered strictly increasing within 2..frames to process; exactly the successful reads are delivered |
| Grabber.GrabCount | VideoGrabber.py:76-81 | the first frame and the later deliveries together never exceed the frames to process, and reach it when no read fails |
| Grabber.GrabFromAll | VideoGrabber.py:76-81 | without failed reads every number in the range is delivered |
| VideoProcessor.MeanDataFilenameParts | ENFSuperpixelVideoProcessor.py:37-41 | the file name is the data directory, a slash, the given or else the stored video name, and the fixed suffix, and the name can be read back from it |
| VideoProcessor.ProcessFirstFrame | ENFSuperpixelVideoProcessor.py:63-70 | a failed first read raises; otherwise the detector holds the shifted labels with one flag per id, and the aggregator is sized to the frames to process with one frame recorded |
| VideoProcessor.DisableUnselected | ENFSuperpixelVideoProcessor.py:70 | forcing the disabled regions unsteady changes only the flags, and their number is kept |
| VideoProcessor.FirstFramePairs | ENFSuperpixelVideoProcessor.py:63-70 | after the first frame every steady position belongs to a threshold-selected region |
| VideoProcessor.DisablingPairs | ENFSuperpixelVideoProcessor.py:70 | after disabling, a flag that is still true belongs to a selected id |
| VideoProcessor.MoveDetector | ENFSuperpixelVideoProcessor.py:75-77 | without motion detection the detector is untouched; with it, flags only go from true to false |
| VideoProcessor.ProcessFrame | ENFSuperpixelVideoProcessor.py:74-78 | a frame keeps the selection and the pairing of steady flags with selected regions; flags only go from true to false; the aggregator advances by one frame whether or not motion detection runs |
| VideoProcessor.ProcessFrameSucceeds | ENFSuperpixelVideoProcessor.py:74-78 | a frame of the segmentation's size, with room left in the buffer, cannot raise |
| VideoProcessor.FirstFrameSucceeds | ENFSuperpixelVideoProcessor.py:63-70 | a non-empty first frame of the segmentation's size cannot raise |
| VideoProcessor.SetUpAggregatorSucceeds | ENFSuperpixelVideoProcessor.py:65-67 | with contiguous region ids the aggregator is set up without error and its ids are 1..n |
| VideoProcessor.DisableUnselectedSucceeds | ENFSuperpixelVideoProcessor.py:70 | with ids 1..n the disabled ids all index the flags, so the call cannot raise |
| VideoProcessor.ProcessFrames | ENFSuperpixelVideoProcessor.py:47 | the grabbed frames, taken in order until one raises, keep the pairing and the shared label grid, only lower the steady flags, leave everything unchanged without motion detection, and advance the aggregator by one column per frame; aligned detector and aggregator with room for every frame and frames of the grid's size never raise |
| VideoProcessor.ProcessVideo | ENFSuperpixelVideoProcessor.py:43-48 | a run with contiguous labels, at least one frame to process, a successful first read and frames of the label grid's size raises nothing; the final flags are those of the first frame or fewer; the selection is the first frame's; one column is written per delivered frame, never past the buffer; every steady position is a selected region, and the output is the mean rows of the steady positions |
| VideoTimestamp.Search | persistence/Video.py:13-38 | the search finds the leftmost position where the date pattern matches, or reports that none matches |
| VideoTimestamp.ParseStamp | persistence/Video.py:42 | a successful parse is a valid calendar date and time; a failure is ValueError |
| VideoTimestamp.VideoInstant | persistence/Video.py:37-43 | no match gives no timestamp; a parsed timestamp lies within the representable range |
| VideoTimestamp.ParseFormat | persistence/Video.py:42 | parsing a formatted date and time gives it back |
| VideoTimestamp.SearchFormatted | persistence/Video.py:13-38 | a formatted stamp after a one-character non-digit prefix is found at position 1 |
| VideoTimestamp.VideoInstantOfFormatted | persistence/Video.py:37-42 | a file name carrying a formatted stamp yields that instant plus the skipped seconds |
| VideoTimestamp.VideoInstantNoSkip | persistence/Video.py:37-42 | with no skipped seconds the result is the parsed instant itself |
| VideoTimestamp.VideoInstantMonotone | persistence/Video.py:41-42 | more skipped seconds give a later instant, later by exactly the difference |
| VideoTimestamp.MonthThirteenRaises | persistence/Video.py:42 | digits that match the pattern but name month 13 raise instead of giving no timestamp |
| EnfMetric.Lookup | ENFMetric.py:48 | a score is found exactly when it is one of the keys |
| EnfMetric.LookupAt | ENFMetric.py:48 | with distinct keys, every key finds the row stored with it |
| EnfMetric.Put | ENFMetric.py:48 | storing under an existing score keeps the key order; a new score is appended; keys stay distinct |
| EnfMetric.PutLookup | ENFMetric.py:48 | after storing, the stored score finds the new row and every other score finds what it found before |
| EnfMetric.ColumnMeans | ENFMetric.py:44 | the representative is the column-wise mean over all rows, including rows that are never scored |
| EnfMetric.ScoresOf | ENFMetric.py:43-49 | the scores are distinct keys, never more than the rows |
| EnfMetric.LastRowWins | ENFMetric.py:46-48 | a score finds the last non-constant row with that correlation, or nothing when no row has it |
| EnfMetric.KeysAreScores | ENFMetric.py:46-48 | a value is a key exactly when some non-constant row correlates with the representative to that value |
| EnfMetric.Ranked | ENFMetric.py:23-25 | the ranking is a descending permutation of the scores |
| EnfMetric.TopTwoAreLargest | ENFMetric.py:23-27 | of distinct scores, the first ranked is the maximum and the second is below it and at least every other score |
| EnfMetric.CalcMetric | ENFMetric.py:21-36 | the metric fails exactly when fewer than two distinct scores exist: ValueError with none, IndexError with one |
| EnfMetric.Summarize | ENFMetric.py:27-35 | the same failure rule, stated over a score dictionary |
| EnfMetric.MetricOrder | ENFMetric.py:31-33 | the rounded maximum is at least the rounded median and the rounded mean |
| EnfMetric.TopTwoRows | ENFMetric.py:27-35 | the top-two value is the rounded correlation of two non-constant rows: one with the maximal score, and one with the largest score below it |
| EnfMetric.ConstantRowsFail | ENFMetric.py:33-47 | when every row is constant nothing is scored and the metric raises ValueError |
| EnfMetric.IdenticalRowsFail | ENFMetric.py:27-35 | identical non-constant rows collapse to one score and the metric raises IndexError |
| Pearson.PearsonPerSuperpixel | Pearson.py:21-50 | the duplicate in `Pearson` computes exactly the ENF quality metric, errors included |
| Spectral.StftWindow | ENFSuperpixelAnalyzer.py:162 | the segment is the requested sample count and the overlap leaves a hop of exactly fps samples; a frame rate of 0 or less raises ValueError; with more samples than fps the overlap is a proper, positive part of the segment |
| Spectral.HopIsFrameRate | ENFSuperpixelAnalyzer.py:183 | for any positive frame rate the STFT advances by exactly that many samples |
| Spectral.BandpassEdges | ENFSuperpixelAnalyzer.py:117-120 | the band edges are the expected frequency ± the width, normalised by half the real frame rate; a zero rate raises ZeroDivisionError, and edges outside (0, 1) or out of order raise |
| Spectral.DefaultBandIsValid | ENFSuperpixelAnalyzer.py:19-21 | the default 10 Hz ± 0.3 at 30 fps is a valid band |
| Spectral.ArgMax | ENFSuperpixelAnalyzer.py:188 | the index holds the largest value, and no earlier index holds one as large |
| Spectral.MaxEnergy | ENFSuperpixelAnalyzer.py:187-188 | each frame's estimate is the real frequency of that frame's first bin of largest magnitude; a spectrum without bins raises ValueError, whatever its number of frames, as numpy's argmax over an empty axis does |
| Spectral.MaxEnergyOnGrid | ENFSuperpixelAnalyzer.py:179-188 | the max-energy estimate is always a grid frequency k·fps_real/nfft of a bin whose magnitude no other bin exceeds |
| Spectral.InBand | ENFSuperpixelAnalyzer.py:189-191 | the selected bins are exactly those strictly inside the band, in ascending order |
| Spectral.WeightedFrequency | ENFSuperpixelAnalyzer.py:194 | the weighted frequency is missing exactly when the energies sum to zero |
| Spectral.WeightedFrequencyBetween | ENFSuperpixelAnalyzer.py:189-194 | with non-negative energies of positive sum, the weighted frequency lies between the smallest and largest selected frequency |
| Spectral.Weighted | ENFSuperpixelAnalyzer.py:189-194 | each frame's weighted estimate is the energy-weighted mean of the in-band bin frequencies of that frame |
| Spectral.WeightedInsideBand | ENFSuperpixelAnalyzer.py:189-194 | a weighted estimate of non-negative magnitudes lies strictly inside the band |
| Spectral.EnfWithStft | ENFSuperpixelAnalyzer.py:182-195 | both estimates have one value per STFT frame, and the step fails exactly when the max-energy pick fails |
| Spectral.Estimate | ENFSuperpixelAnalyzer.py:116-122 | an invalid band fails first, then a non-positive frame rate, then the filtered STFT; otherwise the result is the pair of estimates of that spectrum |
| Spectral.EstimateOnGrid | ENFSuperpixelAnalyzer.py:187-188 | every max-energy estimate is a grid frequency |
| Spectral.EstimateInsideBand | ENFSuperpixelAnalyzer.py:189-194 | every present weighted estimate lies strictly inside the band |
| SuperpixelAnalyzer.KeptRows | ENFSuperpixelAnalyzer.py:104-106 | a row is kept exactly when its centred mean square exceeds 0.01, and kept rows keep their order |
| SuperpixelAnalyzer.FilterRows | ENFSuperpixelAnalyzer.py:100-106 | the result is the kept rows, each centred, in order; each sums to zero, keeps its width, and has mean square above 0.01 |
| SuperpixelAnalyzer.FilterRowsRectangular | ENFSuperpixelAnalyzer.py:106 | filtering a matrix leaves a matrix |
| SuperpixelAnalyzer.Diff | ENFSuperpixelAnalyzer.py:110 | the difference row is one shorter and holds successive differences |
| SuperpixelAnalyzer.DiffTelescopes | ENFSuperpixelAnalyzer.py:110 | the first value plus the first k differences gives back value k, so the difference row loses only the offset |
| SuperpixelAnalyzer.DiffRows | ENFSuperpixelAnalyzer.py:109-110 | every row is differenced and the result is still a matrix |
| SuperpixelAnalyzer.Store | ENFSuperpixelAnalyzer.py:180 | a track fits a result row exactly when it has the row's length or length 1, and a one-value track fills the row |
| SuperpixelAnalyzer.RegionTrack | ENFSuperpixelAnalyzer.py:175-180 | a region whose STFT succeeds and fits stores its max-energy track; any other region leaves its row zero |
| SuperpixelAnalyzer.RegionTracks | ENFSuperpixelAnalyzer.py:155-173 | errors come, in order, from the band edges, from a matrix without rows, from the frame rate, and from row 0's STFT; otherwise there is one row per region, each as wide as row 0's frame count and holding that region's track |
| SuperpixelAnalyzer.RegionTracksRectangular | ENFSuperpixelAnalyzer.py:166 | the per-region tracks form a matrix as wide as row 0's frame count |
| SuperpixelAnalyzer.RegionTracksOnGrid | ENFSuperpixelAnalyzer.py:179-180 | every track value is a grid frequency, including the zeros of failed regions |
| SuperpixelAnalyzer.DetectEnf | ENFSuperpixelAnalyzer.py:83-98 | the detection is absent exactly when the matrix is empty or fewer than 4 rows survive filtering; otherwise an error from the tracks of the filtered rows, or from their metric, is the result's error; when neither fails, the detection is exactly that metric together with the tracks' column means as the representative |
| SuperpixelAnalyzer.DetectionRepresentativeBounded | ENFSuperpixelAnalyzer.py:94 | each representative value lies between the smallest and largest track value of its frame, over at least 4 tracks |
| SuperpixelAnalyzer.ExtractEnf | ENFSuperpixelAnalyzer.py:108-114 | without a representative there is no estimate; otherwise the estimates are those of the representative with the long STFT |
| SuperpixelAnalyzer.Representative | ENFSuperpixelAnalyzer.py:108-113 | "diff" averages the differenced rows, one frame shorter; any other mode averages the filtered rows; it is missing exactly when there is nothing to average |
| SuperpixelAnalyzer.FilteredRepresentativeCentred | ENFSuperpixelAnalyzer.py:113 | the mean of centred rows sums to zero |
| MeanAnalyzer.Centered | ENFMeanAnalyzer.py:76-77 | the series keeps its length, loses its mean, and sums to zero |
| MeanAnalyzer.CenteredIdempotent | ENFMeanAnalyzer.py:76-77 | centring a centred series changes nothing |
| MeanAnalyzer.CenteredIgnoresOffset | ENFMeanAnalyzer.py:76-77 | a constant offset of the series is removed |
| MeanAnalyzer.ExtractEnf | ENFMeanAnalyzer.py:75-90 | the estimates are those of the centred series; errors come from the band, the frame rate and the STFT, in that order |
| MeanAnalyzer.ExtractEnfIgnoresOffset | ENFMeanAnalyzer.py:75-83 | a constant brightness offset does not change the estimates |
| MeanAnalyzer.QiOffset | ENFMeanAnalyzer.py:134 | the offset is missing exactly when the denominator is zero, and otherwise solves p·(a − 2b + c) = (a − c)/2 |
| MeanAnalyzer.PeakOffsetBounded | ENFMeanAnalyzer.py:134 | at a peak, the denominator is negative and the offset lies in (−1/2, 1/2], strictly below 1/2 when the peak exceeds its upper neighbour |
| MeanAnalyzer.Peak | ENFMeanAnalyzer.py:130 | the peak is the first in-band bin of highest level |
| MeanAnalyzer.Refine | ENFMeanAnalyzer.py:135 | the refined frequency exceeds the bin frequency by (level + offset)/nfft |
| MeanAnalyzer.QiAsWritten | ENFMeanAnalyzer.py:118-135 | the boxcar STFT's errors pass through; otherwise the result is `__qi` over that spectrum |
| MeanAnalyzer.QiOfSpectrum | ENFMeanAnalyzer.py:126-135 | no in-band bin raises ValueError; IndexError exactly when there are no frames or any frame's peak is the last in-band bin; otherwise every frame takes its own levels at the bins around frame 0's peak (the bin below bin 0 wraps to the last) and adds the result to the frequency of its own peak |
| MeanAnalyzer.QiInterpolated | ENFMeanAnalyzer.py:130-135 | the corrected `__qi`: the boxcar STFT's errors pass through; otherwise each frame is interpolated around its own peak |
| MeanAnalyzer.InterpolateSpectrum | ENFMeanAnalyzer.py:126-135 | the corrected interpolation fails exactly when there is no in-band bin, and gives one value per frame |
| MeanAnalyzer.InterpolationOffsetBounded | ENFMeanAnalyzer.py:130-135 | a frame has a value exactly when its peak has neighbours on both sides; its shift from the peak bin, in units of 1/nfft, is the peak level plus an offset in (−1/2, 1/2] |
| MeanAnalyzer.FirstColumnAgrees | ENFMeanAnalyzer.py:130-135 | on frame 0, away from the first bin, the code as written and the corrected version agree |
| MeanAnalyzer.QiReadsFirstColumnPeak | ENFMeanAnalyzer.py:130-135 | a two-frame spectrum whose peak moves from bin 1 to bin 2 gives frame 1 a value interpolated around bin 1, while the corrected version interpolates around bin 2 |
| Alignment.Scores | ENFSuperpixelAnalyzer.py:200-206 | there are exactly N − L + 1 scores, and offset i compares the track with the reference samples [i, i + L) |
| Alignment.Window | ENFSuperpixelAnalyzer.py:205 | the window holds the L reference samples starting at the offset |
| Alignment.ArgMax | ENFSuperpixelAnalyzer.py:208 | the first NaN wins when one exists; otherwise the first largest score wins |
| Alignment.Correlate | ENFSuperpixelAnalyzer.py:197-217 | a track longer than the reference raises ValueError; otherwise the winning offset leaves room for the whole track and the new column spans the reference |
| Alignment.FirstBestOffset | ENFSuperpixelAnalyzer.py:208-216 | without NaN scores, the winning offset scores highest, every earlier offset scores strictly lower, and the reported score is that score rounded to four decimals |
| Alignment.NanWins | ENFSuperpixelAnalyzer.py:206-216 | a NaN score makes the first NaN offset win and the reported score NaN |
| Alignment.PlacementRecoversTrack | ENFSuperpixelAnalyzer.py:209-213 | taking 50 − expected off the placed rows gives the track back, and every other row is empty |
| Extraction.LoadColumns | statistics_03_extract_enf_superpixel.py:14-20 | every row is cut to `end` columns only when `end` is below the width, then loses its first `start` columns only when `start` is below the remaining width |
| Extraction.LoadWithoutBounds | statistics_03_extract_enf_superpixel.py:14-20 | without bounds the matrix is unchanged |
| Extraction.LoadWindow | statistics_03_extract_enf_superpixel.py:14-20 | with start < end < width, each row becomes its columns [start, end) |
| Extraction.LoadIgnoresLateStart | statistics_03_extract_enf_superpixel.py:18-19 | a start at or past the end is ignored |
| Extraction.LoadIgnoresWideEnd | statistics_03_extract_enf_superpixel.py:16-17 | an end at or past the width is ignored |
| Extraction.DefaultCsvName | statistics_03_extract_enf_superpixel.py:31-32 | the default reference file is characters 1 to 10 of the video name plus ".csv" |
| Extraction.DefaultCsvNameIsDate | statistics_03_extract_enf_superpixel.py:31-32 | for a name with a one-character prefix and a stamp, the default reference file is the stamp's date, YYYY-MM-DD.csv |
| Extraction.DecimalNumber | statistics_03_extract_enf_superpixel.py:90 | the decimal text of the skipped seconds reads back as the same number |
| Extraction.Comment | statistics_03_extract_enf_superpixel.py:87-90 | a non-empty comment comes first, followed by a space; without skipped seconds the comment ends with the estimate's name |
| Extraction.CommentRecordsSkip | statistics_03_extract_enf_superpixel.py:89-90 | with skipped seconds the comment ends with the estimate's name, a comma and space, and digits that read back as the skipped seconds |
| Extraction.Drop | statistics_03_extract_enf_superpixel.py:76 | the track loses its first `skip` entries, all of them when it is shorter |
| Extraction.CorrelateDropped | statistics_03_extract_enf_superpixel.py:76-90 | a record is the alignment of the track without its first `skip` entries, with the comment naming the estimate; a dropped track longer than the reference fails |
| Extraction.RecordRecoversTrack | statistics_03_extract_enf_superpixel.py:76 | a record's column gives the dropped track back |
| Extraction.CorrelateAll | statistics_03_extract_enf_superpixel.py:76-125 | the correlations fail with ValueError exactly when some dropped track is longer than the reference; otherwise there is one record per track, in order |
| Extraction.StampFailure | base_functions.py:56-57 | the time difference fails with the stamp's own error (ValueError for an invalid date) and with AttributeError when the name has no stamp, and succeeds exactly when there is a stamp |
| Extraction.CorrelateStamped | statistics_03_extract_enf_superpixel.py:76-84 | no tracks give no records; a first track longer than the reference raises ValueError before the stamp is read; otherwise a name without a valid stamp fails the run with the stamp's error; the run succeeds exactly when the correlations do and the stamp is valid, and then gives their records |
| Extraction.StampedWithValidName | persistence/Video.py:37-43 | a name with a valid stamp leaves the correlations' outcome unchanged |
| Extraction.StampMissingRaises | persistence/Video.py:37-43 | a name without a stamp ends with AttributeError every run whose first correlation succeeds |
| ExtractSuperpixel.Tracks | statistics_03_extract_enf_superpixel.py:76-115 | the representative, the weighted and the max-amplitude estimates are correlated in that order, under those names |
| ExtractSuperpixel.Process | statistics_03_extract_enf_superpixel.py:31-62 | a missing reference file ends the run, an empty matrix ends it with no data, and fewer than 4 surviving rows raise TypeError; otherwise the outcome carries the detection's metric and follows the median gate |
| ExtractSuperpixel.Rated | statistics_03_extract_enf_superpixel.py:57-62 | a median below 0.6 stores only the metric, with the STFT size as comment; otherwise the three tracks are correlated after the long-STFT extraction of the filtered rows, and, once the extraction succeeds, the run fails exactly when the correlations or the video name's stamp do |
| ExtractSuperpixel.MedianGate | statistics_03_extract_enf_superpixel.py:57-60 | no correlation runs exactly when the median is below 0.6 |
| ExtractSuperpixel.CorrelatedRecordsRecoverTracks | statistics_03_extract_enf_superpixel.py:76-125 | each of the three records carries its estimate's comment, and its column gives back its track without the skipped entries |
| ExtractMean.LoadMeanPerFrame | statistics_03_extract_enf_mean.py:13-19 | a 1-D series loads unchanged without bounds, and any bound raises IndexError |
| ExtractMean.Tracks | statistics_03_extract_enf_mean.py:55-77 | the max-frequency and then the weighted estimate are correlated, under those names |
| ExtractMean.Process | statistics_03_extract_enf_mean.py:31-87 | a missing reference file ends the run; an extraction error passes through; otherwise there are two records, the correlations of the two tracks, and the run fails exactly when the correlations or the video name's stamp do |
| ExtractMean.RecordsRecoverTracks | statistics_03_extract_enf_mean.py:55-87 | each record carries its estimate's comment, and its column gives back its track without the skipped entries |
| ExtractMean.ProcessIgnoresOffset | statistics_03_extract_enf_mean.py:49 | a constant brightness offset does not change the records |

## Left out

- OpenCV is not modelled. This covers colour conversion, blurring, the LSC superpixel segmenter, the GSOC background subtractor, windows and images. The label grid, the gray frame and the motion mask are inputs.
- The preview thread and its queue (`MotionDetectorGSOC.py:91-103`) are not modelled, nor are `stop` and the key handling in `__process_frame`.
- scipy, numpy and pandas numerics are oracles: `butter`, `sosfilt`, `stft`, `corrcoef` and `Series.corr`.
  - The Hann and boxcar windows are separate STFT oracles.
  - The dB level `20·log10|X|` is an oracle.
  - `__fft` and `__specgram` only plot, so they are left out.
- Floating point is not modelled. Values are exact reals.
  - Python's `round(x, n)` is half-to-even on the exact value, not on the binary one.
  - The float16 region buffers hold exact values.
  - A float32 standard deviation of zero is read as a constant row.
  - NaN is `None` where the code produces it: an empty mean, a zero energy sum, a correlation pandas cannot compute.
- EnfMetric.CalcMetric: the per-region correlation `np.corrcoef(ek_n, representative)` (`ENFMetric.py:48`) is an oracle that always returns a number. The code gets NaN when the representative is constant. Such a score becomes its own dictionary key, because NaN never equals another key. `np.nanmean`, `np.nanmedian` and `np.nanmax` (`ENFMetric.py:31-33`) then skip it, but it still takes part in the sorting that picks the top two. The model does not promise anything for NaN scores. `Pearson.PearsonPerSuperpixel` inherits this.
- The per-region `ThreadPoolExecutor` is modelled sequentially, one region after another. An exception inside a worker is swallowed, so that region's row stays zero.
- Database access is left out: every `persistence` class except `Video.get_video_timestamp`, and the record copying of the scripts. So are `np.load`, `np.save`, `read_csv`, `makedirs`, plotting and logging.
- The scripts' `matching_diff` value needs `ENFExtractionResult.get_timestamp`, and `ENFExtractionResult.py` is not part of this model; only the way the video's own stamp makes that step fail is modelled (`Extraction.CorrelateStamped`). The difference itself is `BaseFunctions.TimestampDiff`.
- VideoTimestamp.Search: digits are the ASCII digits 0-9 only; Python's `\d` in `re.search`, and `strptime`, also accept other Unicode decimal digits, so a name whose stamp uses such digits is not modelled.
- `correlate_only_recording_time` is not modelled in the scripts. The window it selects is `BaseFunctions.SliceCsvData`, and the scripts take the reference series as an input.
- `save_numpy_data`, `read_numpy_data`, `__get_filename` and `set_filename_prefix` only name output files, so they are left out.
- `ENFMetricResult` and `PearsonResult` defaults of −1 are never observable: a failing metric raises before a result is returned.
- SuperpixelAnalyzer.ExtractEnf: with no row surviving the filter, the code averages an empty matrix into an all-NaN series and runs the filter and STFT on it. The model reports no estimate instead.
- SuperpixelAnalyzer.RegionTracks: a region whose STFT fails or gives a track of the wrong length keeps a zero row. This holds because the worker's exception is swallowed.
- SuperpixelCalculator.ChooseThreshold: `int(np.median(...))` truncates the exact median. numpy's float rounding of the median is not modelled.
- Grabber.Open: the capture's reported frame count is truncated like `int(...)`. A capture that reports nothing is not modelled.
- The `(a, c)` neighbour levels of `__qi` come from the dB oracle. `MeanAnalyzer.PeakOffsetBounded` states the bound for any three levels, not only for dB values.

## Findings

| source | as written | input that shows it | evidently intended | confidence | as-written member | corrected member |
|---|---|---|---|---|---|---|
| ENFMeanAnalyzer.py:130-135 | `energy_k[idx][0]`, `energy_k[idx - 1][0]` and `energy_k[idx + 1][0]` select the level rows of the bins at, below and above frame 0's peak, so every frame is interpolated with its levels around frame 0's peak rather than its own; `idx - 1` wraps to the last bin, and a peak at the last in-band bin raises `IndexError` | four in-band bins at 9.8, 9.9, 10.0 and 10.1 Hz, nfft 8, two frames with levels (0, 2, 1, 0) and (0, 1, 5, 0): frame 1's peak is bin 2, but it is interpolated with its levels (0, 1, 5) at bins 0..2 around frame 0's peak bin 1, giving 10 + (1 − 5/6)/8 instead of 10 + (5 − 1/18)/8 | each frame is interpolated around its own peak from that frame's neighbouring levels, with no value at the band's edge bins | medium, not executed | MeanAnalyzer.QiAsWritten, MeanAnalyzer.QiReadsFirstColumnPeak | MeanAnalyzer.QiInterpolated, MeanAnalyzer.InterpolationOffsetBounded |
