/** `ENFMetric.calc_metric`: how well the rows of a matrix agree with their
    column-wise mean.

    Every row that is not constant is scored by its correlation with the
    representative, and the score becomes a dictionary KEY with the row as
    its value, so rows of equal score collapse into one entry (the later row
    wins).  The summary is taken over the distinct scores: their maximum,
    mean and median, and the correlation of the rows behind the two largest
    scores, each rounded to four decimals.

    The correlation is an oracle over two rows and is assumed to be a number.
 */
module EnfMetric {
  import opened Wrappers
  import Numeric

  /** One dictionary item: a score and the row stored under it. */
  datatype Entry = Entry(key: real, row: seq<real>)

  /** `ENFMetricResult`. */
  datatype Metric = Metric(max: real, mean: real, median: real, topTwo: real)

  /** A numpy matrix: every row as wide as the first. */
  ghost predicate Rectangular(m: seq<seq<real>>)
  {
    forall i :: 0 <= i < |m| ==> |m[i]| == |m[0]|
  }

  // ---------------------------------------------------------------------
  // The dictionary

  /** The keys in insertion order, as `list(d)`. */
  function Keys(d: seq<Entry>): (ks: seq<real>)
    ensures |ks| == |d|
    ensures forall i :: 0 <= i < |d| ==> ks[i] == d[i].key
  {
    seq(|d|, i requires 0 <= i < |d| => d[i].key)
  }

  predicate Distinct(ks: seq<real>)
  {
    forall i, j :: 0 <= i < j < |ks| ==> ks[i] != ks[j]
  }

  /** `d[k]`, absent for a missing key. */
  function Lookup(d: seq<Entry>, k: real): (v: Option<seq<real>>)
    ensures v.None? <==> k !in Keys(d)
  {
    if |d| == 0 then None
    else if d[0].key == k then Some(d[0].row)
    else
      assert Keys(d) == [d[0].key] + Keys(d[1..]);
      Lookup(d[1..], k)
  }

  /** With distinct keys, looking up an entry's key finds that entry. */
  lemma {:induction false} LookupAt(d: seq<Entry>, i: nat)
    requires Distinct(Keys(d)) && i < |d|
    ensures Lookup(d, d[i].key) == Some(d[i].row)
  {
    if i > 0 {
      assert Keys(d)[0] != Keys(d)[i];
      assert Keys(d[1..]) == Keys(d)[1..];
      LookupAt(d[1..], i - 1);
    }
  }

  /** `d[k] = v`: an existing key keeps its place and takes the new value,
      a new key goes last. */
  function Put(d: seq<Entry>, k: real, v: seq<real>): (r: seq<Entry>)
    requires Distinct(Keys(d))
    ensures Distinct(Keys(r))
    ensures k in Keys(d) ==> Keys(r) == Keys(d)
    ensures k !in Keys(d) ==> Keys(r) == Keys(d) + [k]
  {
    if k in Keys(d) then
      var r := seq(|d|, i requires 0 <= i < |d| => if d[i].key == k then Entry(k, v) else d[i]);
      assert Keys(r) == Keys(d);
      r
    else
      var r := d + [Entry(k, v)];
      assert Keys(r) == Keys(d) + [k];
      r
  }

  /** After `d[k] = v` the key `k` maps to `v` and every other key to what
      it mapped to before. */
  lemma PutLookup(d: seq<Entry>, k: real, v: seq<real>, x: real)
    requires Distinct(Keys(d))
    ensures Lookup(Put(d, k, v), x) == if x == k then Some(v) else Lookup(d, x)
  {
    var r := Put(d, k, v);
    if x in Keys(d) {
      var i :| 0 <= i < |d| && d[i].key == x;
      LookupAt(d, i);
      LookupAt(r, i);
    } else if x == k {
      LookupAt(r, |d|);
    } else {
      assert x !in Keys(r);
    }
  }

  // ---------------------------------------------------------------------
  // Scoring

  /** `np.std(row) == 0`: every value equals the first.  An empty row has a
      NaN deviation, which is not zero, so it is not constant. */
  predicate Constant(row: seq<real>)
  {
    |row| > 0 && forall i :: 0 <= i < |row| ==> row[i] == row[0]
  }

  /** Column `j` of a matrix. */
  function Column(m: seq<seq<real>>, j: nat): (c: seq<real>)
    requires forall i :: 0 <= i < |m| ==> j < |m[i]|
    ensures |c| == |m|
    ensures forall i :: 0 <= i < |m| ==> c[i] == m[i][j]
  {
    seq(|m|, i requires 0 <= i < |m| => m[i][j])
  }

  /** `np.nanmean(m, axis=0)`; a matrix without rows has no representative
      that any row could be compared with, so it is left empty. */
  function ColumnMeans(m: seq<seq<real>>): (rep: seq<real>)
    requires Rectangular(m)
    ensures |m| > 0 ==> |rep| == |m[0]|
    ensures |m| == 0 ==> rep == []
    ensures forall j :: 0 <= j < |rep| ==> rep[j] == Numeric.Mean(Column(m, j))
  {
    if |m| == 0 then []
    else seq(|m[0]|, j requires 0 <= j < |m[0]| => Numeric.Mean(Column(m, j)))
  }

  /** `__calc_pearson_per_superpixel` over the rows seen so far: the rows
      are visited in order and each non-constant one is put under its score. */
  function ScoresOf(rows: seq<seq<real>>, rep: seq<real>, corr: (seq<real>, seq<real>) -> real)
    : (d: seq<Entry>)
    ensures Distinct(Keys(d))
    ensures |d| <= |rows|
    decreases |rows|
  {
    if |rows| == 0 then []
    else
      var n := |rows| - 1;
      var d := ScoresOf(rows[..n], rep, corr);
      if Constant(rows[n]) then d else Put(d, corr(rows[n], rep), rows[n])
  }

  /** Row `i` takes part and scores `x`. */
  predicate Scored(rows: seq<seq<real>>, rep: seq<real>, corr: (seq<real>, seq<real>) -> real, i: nat, x: real)
    requires i < |rows|
  {
    !Constant(rows[i]) && corr(rows[i], rep) == x
  }

  /** The last row that scores `x`, if any. */
  function LastScored(rows: seq<seq<real>>, rep: seq<real>, corr: (seq<real>, seq<real>) -> real, x: real)
    : (j: Option<nat>)
    ensures j.Some? ==> j.value < |rows| && Scored(rows, rep, corr, j.value, x)
    ensures j.Some? ==> forall i :: j.value < i < |rows| ==> !Scored(rows, rep, corr, i, x)
    ensures j.None? ==> forall i :: 0 <= i < |rows| ==> !Scored(rows, rep, corr, i, x)
    decreases |rows|
  {
    if |rows| == 0 then None
    else
      var n := |rows| - 1;
      if Scored(rows, rep, corr, n, x) then Some(n)
      else
        var prefix := rows[..n];
        var j := LastScored(prefix, rep, corr, x);
        assert forall i :: 0 <= i < n ==> (Scored(prefix, rep, corr, i, x) <==> Scored(rows, rep, corr, i, x));
        j
  }

  /** Equal scores collapse: the row stored under a score is the LAST row
      that produced it. */
  lemma {:induction false} LastRowWins(rows: seq<seq<real>>, rep: seq<real>, corr: (seq<real>, seq<real>) -> real, x: real)
    ensures Lookup(ScoresOf(rows, rep, corr), x) == RowOf(rows, LastScored(rows, rep, corr, x))
    decreases |rows|
  {
    if |rows| > 0 {
      var n := |rows| - 1;
      var prefix := rows[..n];
      var d' := ScoresOf(prefix, rep, corr);
      var d := ScoresOf(rows, rep, corr);
      LastRowWins(prefix, rep, corr, x);
      if Scored(rows, rep, corr, n, x) {
        assert d == Put(d', x, rows[n]);
        PutLookup(d', x, rows[n], x);
        assert LastScored(rows, rep, corr, x) == Some(n);
      } else {
        var j := LastScored(prefix, rep, corr, x);
        PrefixLastScored(rows, rep, corr, x);
        if Constant(rows[n]) {
          assert d == d';
        } else {
          assert d == Put(d', corr(rows[n], rep), rows[n]);
          PutLookup(d', corr(rows[n], rep), rows[n], x);
        }
        if j.Some? {
          assert rows[j.value] == prefix[j.value];
        }
      }
    }
  }

  /** When the last row does not score `x`, the search falls back to the
      rows before it. */
  lemma PrefixLastScored(rows: seq<seq<real>>, rep: seq<real>, corr: (seq<real>, seq<real>) -> real, x: real)
    requires |rows| > 0 && !Scored(rows, rep, corr, |rows| - 1, x)
    ensures LastScored(rows, rep, corr, x) == LastScored(rows[..|rows| - 1], rep, corr, x)
  {
  }

  /** The row a position names, if any. */
  function RowOf(rows: seq<seq<real>>, j: Option<nat>): Option<seq<real>>
  {
    if j.Some? && j.value < |rows| then Some(rows[j.value]) else None
  }

  /** A score is a key exactly when some non-constant row produced it. */
  lemma KeysAreScores(rows: seq<seq<real>>, rep: seq<real>, corr: (seq<real>, seq<real>) -> real, x: real)
    ensures x in Keys(ScoresOf(rows, rep, corr)) <==> exists i :: 0 <= i < |rows| && Scored(rows, rep, corr, i, x)
  {
    LastRowWins(rows, rep, corr, x);
  }

  // ---------------------------------------------------------------------
  // Ranking

  /** `sorted(keys, reverse=True)`. */
  function Ranked(ks: seq<real>): (r: seq<real>)
    ensures |r| == |ks|
    ensures multiset(r) == multiset(ks)
    ensures forall i, j :: 0 <= i < j < |r| ==> r[i] >= r[j]
  {
    var up := Numeric.SortAsc(ks);
    var r := seq(|up|, i requires 0 <= i < |up| => up[|up| - 1 - i]);
    assert multiset(r) == multiset(up) by {
      ReverseMultiset(up, r);
    }
    r
  }

  lemma {:induction false} ReverseMultiset(s: seq<real>, r: seq<real>)
    requires |r| == |s|
    requires forall i :: 0 <= i < |s| ==> r[i] == s[|s| - 1 - i]
    ensures multiset(r) == multiset(s)
  {
    if |s| > 0 {
      var n := |s| - 1;
      ReverseMultiset(s[..n], r[1..]);
      assert s == s[..n] + [s[n]];
      assert r == [r[0]] + r[1..];
    }
  }

  /** The first two ranked keys are the largest score and the largest of
      the others; with distinct keys they differ. */
  lemma TopTwoAreLargest(ks: seq<real>)
    requires |ks| >= 2 && Distinct(ks)
    ensures Ranked(ks)[0] in ks && Ranked(ks)[1] in ks
    ensures Ranked(ks)[0] == Numeric.Max(ks)
    ensures Ranked(ks)[1] < Ranked(ks)[0]
    ensures forall i :: 0 <= i < |ks| && ks[i] != Ranked(ks)[0] ==> ks[i] <= Ranked(ks)[1]
  {
    var r := Ranked(ks);
    RankedHead(ks, r);
    RankedSecond(ks, r);
    RankedDistinctHead(ks, r);
  }

  lemma RankedHead(ks: seq<real>, r: seq<real>)
    requires |ks| >= 1 && |r| == |ks| && multiset(r) == multiset(ks)
    requires forall i, j :: 0 <= i < j < |r| ==> r[i] >= r[j]
    ensures r[0] in ks && r[0] == Numeric.Max(ks)
  {
    assert r[0] in multiset(ks);
    var m := Numeric.Max(ks);
    assert m in multiset(r);
  }

  lemma RankedSecond(ks: seq<real>, r: seq<real>)
    requires |ks| >= 2 && |r| == |ks| && multiset(r) == multiset(ks)
    requires forall i, j :: 0 <= i < j < |r| ==> r[i] >= r[j]
    ensures r[1] in ks
    ensures forall i :: 0 <= i < |ks| && ks[i] != r[0] ==> ks[i] <= r[1]
  {
    assert r[1] in multiset(ks);
    forall i | 0 <= i < |ks| && ks[i] != r[0] ensures ks[i] <= r[1] {
      assert ks[i] in multiset(r);
      var j :| 0 <= j < |r| && r[j] == ks[i];
      assert j != 0;
    }
  }

  lemma RankedDistinctHead(ks: seq<real>, r: seq<real>)
    requires |ks| >= 2 && |r| == |ks| && multiset(r) == multiset(ks) && Distinct(ks)
    ensures r[1] != r[0]
  {
    DistinctCountsOne(ks, r[0]);
    HeadCount(r);
  }

  /** The first value occurs twice in a sequence that repeats it at once. */
  lemma HeadCount(r: seq<real>)
    requires |r| >= 2
    ensures multiset(r)[r[0]] >= if r[1] == r[0] then 2 else 1
  {
    assert r == [r[0], r[1]] + r[2..];
  }

  lemma {:induction false} DistinctCountsOne(s: seq<real>, v: real)
    requires Distinct(s)
    ensures multiset(s)[v] <= 1
  {
    if |s| > 0 {
      assert s == [s[0]] + s[1..];
      DistinctCountsOne(s[1..], v);
      if s[0] == v {
        assert v !in s[1..];
      }
    }
  }

  // ---------------------------------------------------------------------
  // The summary

  /** `calc_metric`.  With no score `np.nanmax` raises `ValueError`; with a
      single score `top_two[1]` raises `IndexError`. */
  function CalcMetric(m: seq<seq<real>>, corr: (seq<real>, seq<real>) -> real): (r: Result<Metric>)
    requires Rectangular(m)
    ensures var n := |ScoresOf(m, ColumnMeans(m), corr)|;
            (r.Err? <==> n < 2) && (n == 0 ==> r == Err(ValueError)) && (n == 1 ==> r == Err(IndexError))
  {
    Summarize(ScoresOf(m, ColumnMeans(m), corr), corr)
  }

  /** The summary of a score dictionary: maximum, mean and median of the
      scores and the correlation of the rows under the two highest ranked
      scores, all rounded to four decimals. */
  function Summarize(d: seq<Entry>, corr: (seq<real>, seq<real>) -> real): (r: Result<Metric>)
    requires Distinct(Keys(d))
    ensures (r.Err? <==> |d| < 2) && (|d| == 0 ==> r == Err(ValueError)) && (|d| == 1 ==> r == Err(IndexError))
  {
    var ks := Keys(d);
    if |ks| == 0 then Err(ValueError)
    else if |ks| == 1 then Err(IndexError)
    else
      var top := Ranked(ks);
      assert top[0] in ks && top[1] in ks by {
        assert top[0] in multiset(ks) && top[1] in multiset(ks);
      }
      Ok(Metric(Numeric.Round4(Numeric.Max(ks)), Numeric.Round4(Numeric.Mean(ks)),
                Numeric.Round4(Numeric.Median(ks)),
                Numeric.Round4(corr(Lookup(d, top[0]).value, Lookup(d, top[1]).value))))
  }

  /** The maximum is never below the median or the mean, even after
      rounding, and every summary lies within the scores' range (up to
      rounding). */
  lemma MetricOrder(m: seq<seq<real>>, corr: (seq<real>, seq<real>) -> real)
    requires Rectangular(m)
    requires CalcMetric(m, corr).Ok?
    ensures CalcMetric(m, corr).value.median <= CalcMetric(m, corr).value.max
    ensures CalcMetric(m, corr).value.mean <= CalcMetric(m, corr).value.max
  {
    var ks := Keys(ScoresOf(m, ColumnMeans(m), corr));
    Numeric.MedianBounds(ks);
    Numeric.MeanBounds(ks);
    Numeric.RoundDecimalsMonotone(Numeric.Median(ks), Numeric.Max(ks), 4);
    Numeric.RoundDecimalsMonotone(Numeric.Mean(ks), Numeric.Max(ks), 4);
  }

  /** `top_two` correlates the rows behind the two largest distinct scores,
      each the last row to produce its score. */
  lemma TopTwoRows(m: seq<seq<real>>, corr: (seq<real>, seq<real>) -> real)
    requires Rectangular(m)
    requires CalcMetric(m, corr).Ok?
    ensures var rep := ColumnMeans(m);
            var ks := Keys(ScoresOf(m, rep, corr));
            exists a, b :: 0 <= a < |m| && 0 <= b < |m| &&
              corr(m[a], rep) == Numeric.Max(ks) && !Constant(m[a]) &&
              corr(m[b], rep) < corr(m[a], rep) && !Constant(m[b]) &&
              (forall i :: 0 <= i < |ks| && ks[i] != Numeric.Max(ks) ==> ks[i] <= corr(m[b], rep)) &&
              CalcMetric(m, corr).value.topTwo == Numeric.Round4(corr(m[a], m[b]))
  {
    var rep := ColumnMeans(m);
    var d := ScoresOf(m, rep, corr);
    var ks := Keys(d);
    var top := Ranked(ks);
    TopTwoAreLargest(ks);
    LastRowWins(m, rep, corr, top[0]);
    LastRowWins(m, rep, corr, top[1]);
    KeysAreScores(m, rep, corr, top[0]);
    KeysAreScores(m, rep, corr, top[1]);
    var a := LastScored(m, rep, corr, top[0]).value;
    var b := LastScored(m, rep, corr, top[1]).value;
    assert Lookup(d, top[0]).value == m[a];
    assert Lookup(d, top[1]).value == m[b];
  }

  /** Only constant rows: nothing is scored and the maximum of nothing
      raises `ValueError`. */
  lemma ConstantRowsFail(m: seq<seq<real>>, corr: (seq<real>, seq<real>) -> real)
    requires Rectangular(m)
    requires forall i :: 0 <= i < |m| ==> Constant(m[i])
    ensures CalcMetric(m, corr) == Err(ValueError)
  {
    var rep := ColumnMeans(m);
    var d := ScoresOf(m, rep, corr);
    if |d| > 0 {
      KeysAreScores(m, rep, corr, d[0].key);
    }
  }

  /** Identical rows all score the same, leave one key, and `top_two[1]`
      raises `IndexError`. */
  lemma IdenticalRowsFail(m: seq<seq<real>>, corr: (seq<real>, seq<real>) -> real)
    requires |m| > 0 && !Constant(m[0])
    requires forall i :: 0 <= i < |m| ==> m[i] == m[0]
    ensures Rectangular(m)
    ensures CalcMetric(m, corr) == Err(IndexError)
  {
    var rep := ColumnMeans(m);
    var d := ScoresOf(m, rep, corr);
    var x := corr(m[0], rep);
    KeysAreScores(m, rep, corr, x);
    assert Scored(m, rep, corr, 0, x);
    forall i | 0 <= i < |d| ensures d[i].key == x {
      KeysAreScores(m, rep, corr, d[i].key);
    }
  }
}
