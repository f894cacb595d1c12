/** The helpers of `base_functions.py` that carry logic: the aliased flicker
    frequency, the reference-window slice, the rounded timestamp difference
    and the destination path.  The current working directory is a parameter.
 */
module BaseFunctions {
  import opened Wrappers
  import Numeric
  import PySlice

  const DestinationMean := "mean"
  const DestinationSuperpixel := "superpixel"

  function Abs(x: real): real
  {
    if x < 0.0 then -x else x
  }

  // ---------------------------------------------------------------------
  // calc_alias

  function Light(power: real): real
  {
    2.0 * power
  }

  /** How far the `k`-th multiple of `sample` lies from `light`. */
  function Distance(light: real, k: int, sample: real): real
  {
    Abs(light - k as real * sample)
  }

  /** `x - floor(x / s) * s`, the remainder of `x` modulo a positive `s`. */
  function Remainder(x: real, s: real): real
    requires s > 0.0
  {
    x - (x / s).Floor as real * s
  }

  lemma RemainderBounds(x: real, s: real)
    requires s > 0.0
    ensures 0.0 <= Remainder(x, s) < s
  {
    var q := x / s;
    assert q * s == x;
    FloorTimesBounds(x, s, q);
  }

  lemma FloorTimesBounds(x: real, s: real, q: real)
    requires s > 0.0 && q * s == x
    ensures q.Floor as real * s <= x
    ensures x < q.Floor as real * s + s
  {
    FloorTimesBelow(x, s, q);
    FloorTimesAbove(x, s, q);
  }

  lemma FloorTimesBelow(x: real, s: real, q: real)
    requires s > 0.0 && q * s == x
    ensures q.Floor as real * s <= x
  {
    Numeric.MulMonotone(q.Floor as real, q, s);
  }

  lemma FloorTimesAbove(x: real, s: real, q: real)
    requires s > 0.0 && q * s == x
    ensures x < q.Floor as real * s + s
  {
    var k := q.Floor as real;
    assert q < k + 1.0;
    Numeric.MulStrictMonotone(q, k + 1.0, s);
    assert (k + 1.0) * s == k * s + s;
  }

  /** The search in `calc_alias` stops exactly when the flicker frequency is
      directly representable, or when it is not an odd multiple of half the
      sampling rate (for instance power 50 with sample 40 never stops). */
  predicate AliasSearchTerminates(power: real, sample: real)
  {
    sample / 2.0 >= 2.0 * power
    || (sample > 0.0 && Remainder(2.0 * power, sample) != sample / 2.0)
  }

  /** Two multiples of `s` both closer than `s / 2` to `x` are the same. */
  lemma NearMultipleUnique(x: real, s: real, j: int, k: int)
    requires s > 0.0
    requires Abs(x - j as real * s) < s / 2.0
    requires Abs(x - k as real * s) < s / 2.0
    ensures j == k
  {
    NearFactorsClose(x, s, j as real, k as real);
  }

  lemma NearFactorsClose(x: real, s: real, a: real, b: real)
    requires s > 0.0
    requires Abs(x - a * s) < s / 2.0
    requires Abs(x - b * s) < s / 2.0
    ensures -1.0 < b - a < 1.0
  {
    var m := (b - a) * s;
    assert m == (x - a * s) - (x - b * s);
    Numeric.FactorBelowOne(b - a, s, m);
  }

  /** The multiple the search of `calc_alias` stops at. */
  function AliasMultiple(power: real, sample: real): (k: int)
    requires AliasSearchTerminates(power, sample)
    requires sample / 2.0 < 2.0 * power
    ensures k >= 1
    ensures Abs(2.0 * power - k as real * sample) < sample / 2.0
  {
    var light := 2.0 * power;
    var k0 := (light / sample).Floor;
    RemainderBounds(light, sample);
    assert light / sample * sample == light;
    FloorTimesBounds(light, sample, light / sample);
    assert light - k0 as real * sample == Remainder(light, sample);
    if light - k0 as real * sample < sample / 2.0 then
      assert k0 >= 1 by {
        if k0 <= 0 {
          Numeric.MulMonotone(k0 as real, 0.0, sample);
        }
      }
      k0
    else
      assert k0 >= 0 by {
        if k0 < 0 {
          Numeric.MulMonotone(k0 as real, -1.0, sample);
        }
      }
      k0 + 1
  }

  /** The aliased frequency before rounding: the distance from the flicker
      frequency to the nearest multiple of the sampling rate. */
  function AliasUnrounded(power: real, sample: real): (r: real)
    requires AliasSearchTerminates(power, sample)
    requires sample / 2.0 < 2.0 * power
    ensures 0.0 <= r < sample / 2.0
  {
    Abs(2.0 * power - AliasMultiple(power, sample) as real * sample)
  }

  /** The frequency at which light flickering at twice `power` appears in a
      video sampled at `sample` frames per second. */
  function AliasOf(power: real, sample: real): real
    requires AliasSearchTerminates(power, sample)
  {
    if sample / 2.0 >= 2.0 * power then 2.0 * power
    else Numeric.RoundDecimals(AliasUnrounded(power, sample), 2)
  }

  /** `calc_alias`: the linear search for the first multiple `k >= 1` of the
      sampling rate within half a sampling rate of the flicker frequency. */
  method CalcAlias(power: real, sample: real) returns (f: real, k: int)
    requires AliasSearchTerminates(power, sample)
    ensures f == AliasOf(power, sample)
    ensures sample / 2.0 >= 2.0 * power ==> f == 2.0 * power && k == 0
    ensures sample / 2.0 < 2.0 * power ==>
              && k >= 1
              && Distance(Light(power), k, sample) < sample / 2.0
              && (forall j :: 1 <= j < k ==> Distance(Light(power), j, sample) >= sample / 2.0)
              && k == AliasMultiple(power, sample)
  {
    var light := Light(power);
    if sample / 2.0 >= light {
      return light, 0;
    }
    ghost var target := AliasMultiple(power, sample);
    k := 1;
    while Distance(light, k, sample) >= sample / 2.0
      invariant 1 <= k <= target
      invariant forall j :: 1 <= j < k ==> Distance(light, j, sample) >= sample / 2.0
      decreases target - k
    {
      k := k + 1;
    }
    assert Distance(light, k, sample) < sample / 2.0;
    assert Distance(light, target, sample) < sample / 2.0;
    NearMultipleUnique(light, sample, k, target);
    assert k == target;
    assert AliasUnrounded(power, sample) == Abs(2.0 * power - k as real * sample);
    f := Numeric.RoundDecimals(AliasUnrounded(power, sample), 2);
  }

  /** With mains at 50 Hz and 30 frames per second the flicker appears at
      10 Hz, the analyzers' default expected frequency. */
  lemma AliasOfFiftyAtThirty()
    ensures AliasSearchTerminates(50.0, 30.0)
    ensures AliasOf(50.0, 30.0) == 10.0
  {
    assert (100.0 / 30.0).Floor == 3;
    assert Remainder(100.0, 30.0) == 10.0;
    assert AliasMultiple(50.0, 30.0) == 3;
    Numeric.RoundDecimalsExact(10.0, 2, 1000);
  }

  /** Mains at 50 Hz sampled at 40 frames per second: 100 Hz sits exactly
      halfway between 80 and 120, so the search never stops. */
  lemma AliasFiftyAtFortyDiverges()
    ensures !AliasSearchTerminates(50.0, 40.0)
    ensures forall k: int :: Distance(100.0, k, 40.0) >= 20.0
  {
    assert (100.0 / 40.0).Floor == 2;
    forall k: int
      ensures Distance(100.0, k, 40.0) >= 20.0
    {
      if k <= 2 {
        Numeric.MulMonotone(k as real, 2.0, 40.0);
      } else {
        Numeric.MulMonotone(3.0, k as real, 40.0);
      }
    }
  }

  // ---------------------------------------------------------------------
  // slice_csv_data

  /** One row of the reference series: a timestamp in seconds and a value. */
  datatype Sample = Sample(time: int, value: real)

  function Occurrences(series: seq<Sample>, t: int): nat
  {
    if |series| == 0 then 0
    else (if series[0].time == t then 1 else 0) + Occurrences(series[1..], t)
  }

  function FirstPosition(series: seq<Sample>, t: int): (p: nat)
    requires Occurrences(series, t) > 0
    ensures p < |series| && series[p].time == t
    ensures forall i :: 0 <= i < p ==> series[i].time != t
  {
    if series[0].time == t then 0 else 1 + FirstPosition(series[1..], t)
  }

  /** pandas' `index.get_loc`: a missing timestamp raises `KeyError`; a
      repeated one yields a slice, and the caller's arithmetic on it raises
      `TypeError`. */
  function GetLoc(series: seq<Sample>, t: int): (r: Result<nat>)
    ensures r.Ok? <==> Occurrences(series, t) == 1
    ensures r == Err(KeyError) <==> Occurrences(series, t) == 0
    ensures r.Ok? ==> r.value < |series| && series[r.value].time == t
  {
    var n := Occurrences(series, t);
    if n == 0 then Err(KeyError)
    else if n > 1 then Err(TypeError)
    else Ok(FirstPosition(series, t))
  }

  /** `slice_csv_data`: the reference window `offset` samples either side of
      a recording of `enfLength` samples starting at `t`. */
  function SliceCsvData(series: seq<Sample>, t: int, enfLength: int, offset: int): Result<seq<Sample>>
  {
    match GetLoc(series, t)
    case Err(e) => Err(e)
    case Ok(loc) => Ok(PySlice.Slice(series, loc - offset, loc + enfLength + offset))
  }

  /** When the window fits, it is exactly the samples from `offset` before
      `t` to `offset` after the end of the recording. */
  lemma SliceCsvDataFits(series: seq<Sample>, t: int, enfLength: int, offset: int)
    requires Occurrences(series, t) == 1
    requires GetLoc(series, t).Ok?
    requires 0 <= offset <= GetLoc(series, t).value
    requires 0 <= enfLength
    requires GetLoc(series, t).value + enfLength + offset <= |series|
    ensures var loc := GetLoc(series, t).value;
            SliceCsvData(series, t, enfLength, offset)
            == Ok(series[loc - offset .. loc + enfLength + offset])
    ensures |SliceCsvData(series, t, enfLength, offset).value| == enfLength + 2 * offset
  {
    var loc := GetLoc(series, t).value;
    PySlice.SliceInRange(series, loc - offset, loc + enfLength + offset);
  }

  /** When `t` is closer to the start than `offset`, the start bound goes
      negative and Python counts it from the end of the series. */
  lemma SliceCsvDataWrapsAround(series: seq<Sample>, t: int, enfLength: int, offset: int)
    requires GetLoc(series, t).Ok?
    requires GetLoc(series, t).value < offset <= GetLoc(series, t).value + |series|
    requires 0 <= GetLoc(series, t).value + enfLength + offset <= |series|
    ensures var loc := GetLoc(series, t).value;
            SliceCsvData(series, t, enfLength, offset)
            == Ok(PySlice.Slice(series, |series| + loc - offset, loc + enfLength + offset))
  {
    var loc := GetLoc(series, t).value;
    PySlice.SliceNegativeStart(series, loc - offset, loc + enfLength + offset);
  }

  // ---------------------------------------------------------------------
  // get_timestamp_diff and get_destination_path

  /** `get_timestamp_diff`: whole seconds from the video's timestamp to the
      matched one, rounded half to even.  Instants are POSIX seconds. */
  function TimestampDiff(videoTs: real, matchedTs: real): (d: int)
    ensures matchedTs - videoTs - 0.5 <= d as real <= matchedTs - videoTs + 0.5
  {
    Numeric.RoundHalfEven(matchedTs - videoTs)
  }

  /** Swapping the two instants negates the difference. */
  lemma TimestampDiffAntisymmetric(a: real, b: real)
    ensures TimestampDiff(a, b) == -TimestampDiff(b, a)
  {
    assert a - b == -(b - a);
    Numeric.RoundHalfEvenOdd(b - a);
  }

  /** `get_destination_path`: `base/extracted/[directory/]filename`. */
  function DestinationPath(base: string, filename: string, directory: Option<string>): (p: string)
    ensures |p| >= |base| + |"/extracted/"| + |filename|
    ensures p[..|base|] == base
    ensures p[|p| - |filename|..] == filename
    ensures directory.None? ==> |p| == |base| + |"/extracted/"| + |filename|
    ensures directory.Some? ==> |p| == |base| + |"/extracted/"| + |directory.value| + 1 + |filename|
    ensures p[|base|..|base| + 11] == "/extracted/"
    ensures directory.Some? ==> p[|base| + 11..|base| + 12 + |directory.value|] == directory.value + "/"
  {
    var folder := match directory case Some(d) => d + "/" case None => "";
    var tail := "/extracted/" + (folder + filename);
    var p := base + tail;
    assert p[..|base|] == base && p[|base|..] == tail;
    assert p[|base|..|base| + 11] == tail[..11] == "/extracted/";
    assert p[|base| + 11..] == folder + filename;
    assert p[|base| + 11..|base| + 11 + |folder|] == (folder + filename)[..|folder|] == folder;
    assert p[|p| - |filename|..] == (folder + filename)[|folder|..] == filename;
    p
  }

  /** Within one base and directory, distinct file names give distinct
      destinations, and distinct directories give distinct destinations for
      one file name. */
  lemma DestinationPathInjective(base: string, f1: string, f2: string, d1: Option<string>, d2: Option<string>)
    requires DestinationPath(base, f1, d1) == DestinationPath(base, f2, d2)
    ensures d1 == d2 ==> f1 == f2
    ensures f1 == f2 ==> d1 == d2
  {
    var p := DestinationPath(base, f1, d1);
    if d1 == d2 {
      assert |f1| == |f2|;
    }
    if f1 == f2 && d1.Some? && d2.Some? {
      var n := |d1.value|;
      assert d1.value == (d1.value + "/")[..n];
      assert d2.value == (d2.value + "/")[..n];
    }
  }
}
