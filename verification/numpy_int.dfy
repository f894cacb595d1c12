/** numpy's integer helpers as the region bookkeeping uses them: counting
    (`bincount`), the sorted distinct values (`unique`) and index
    normalisation.
 */
module NumpyInt {

  // ---------------------------------------------------------------------
  // Counting

  function Count(s: seq<int>, v: int): nat
  {
    if |s| == 0 then 0 else (if s[0] == v then 1 else 0) + Count(s[1..], v)
  }

  /** One more than the largest value, or 0 for an empty sequence. */
  function Span(s: seq<int>): (m: int)
    ensures m >= 0
    ensures forall i :: 0 <= i < |s| ==> s[i] < m
    ensures |s| > 0 ==> m - 1 in s || m == 0
  {
    if |s| == 0 then 0
    else
      var rest := Span(s[1..]);
      if s[0] + 1 > rest then s[0] + 1 else rest
  }

  /** numpy's `bincount(s, minlength)`: entry `v` counts the occurrences of
      `v`; the length is `minlength` or one more than the largest value,
      whichever is greater. */
  function Bincount(s: seq<int>, minlength: nat): (r: seq<nat>)
    requires forall i :: 0 <= i < |s| ==> s[i] >= 0
    ensures |r| == if Span(s) > minlength then Span(s) else minlength
    ensures forall v :: 0 <= v < |r| ==> r[v] == Count(s, v)
  {
    var n := if Span(s) > minlength then Span(s) else minlength;
    seq(n, v requires 0 <= v < n => Count(s, v))
  }

  /** Sum of `Count(s, v)` over `lo <= v < hi`. */
  function CountSum(s: seq<int>, lo: int, hi: int): nat
    decreases hi - lo
  {
    if hi <= lo then 0 else Count(s, lo) + CountSum(s, lo + 1, hi)
  }

  lemma {:induction false} CountSumSingle(x: int, lo: int, hi: int)
    ensures CountSum([x], lo, hi) == if lo <= x < hi then 1 else 0
    decreases hi - lo
  {
    if lo < hi {
      CountSumSingle(x, lo + 1, hi);
      assert [x][1..] == [];
      assert Count([x], lo) == if x == lo then 1 else 0;
    }
  }

  lemma {:induction false} CountSumSplit(s: seq<int>, lo: int, hi: int)
    requires |s| > 0
    ensures CountSum(s, lo, hi) == CountSum([s[0]], lo, hi) + CountSum(s[1..], lo, hi)
    decreases hi - lo
  {
    if lo < hi {
      CountSumSplit(s, lo + 1, hi);
      assert [s[0]][1..] == [];
      assert Count([s[0]], lo) == if s[0] == lo then 1 else 0;
    }
  }

  /** Counting every value in a range that holds them all counts every
      element once. */
  lemma {:induction false} CountSumAll(s: seq<int>, lo: int, hi: int)
    requires forall i :: 0 <= i < |s| ==> lo <= s[i] < hi
    ensures CountSum(s, lo, hi) == |s|
  {
    if |s| == 0 {
      CountSumEmpty(s, lo, hi);
    } else {
      CountSumSplit(s, lo, hi);
      CountSumSingle(s[0], lo, hi);
      CountSumAll(s[1..], lo, hi);
    }
  }

  lemma {:induction false} CountSumEmpty(s: seq<int>, lo: int, hi: int)
    requires |s| == 0
    ensures CountSum(s, lo, hi) == 0
    decreases hi - lo
  {
    if lo < hi {
      CountSumEmpty(s, lo + 1, hi);
    }
  }

  lemma {:induction false} CountAbsent(s: seq<int>, v: int)
    requires forall i :: 0 <= i < |s| ==> s[i] != v
    ensures Count(s, v) == 0
  {
    if |s| > 0 {
      CountAbsent(s[1..], v);
    }
  }

  lemma {:induction false} CountPresent(s: seq<int>, v: int)
    requires v in s
    ensures Count(s, v) > 0
  {
    if s[0] != v {
      CountPresent(s[1..], v);
    }
  }

  // ---------------------------------------------------------------------
  // Sorted distinct ids

  predicate StrictlyIncreasing(s: seq<int>)
  {
    forall i, j :: 0 <= i < j < |s| ==> s[i] < s[j]
  }

  function InsertDistinct(x: int, s: seq<int>): (r: seq<int>)
    requires StrictlyIncreasing(s)
    ensures StrictlyIncreasing(r)
    ensures forall y :: y in r <==> y == x || y in s
  {
    if |s| == 0 then [x]
    else if x < s[0] then [x] + s
    else if x == s[0] then s
    else
      var t := InsertDistinct(x, s[1..]);
      var r := [s[0]] + t;
      assert forall y :: y in s <==> y == s[0] || y in s[1..] by {
        assert s == [s[0]] + s[1..];
      }
      assert forall i :: 0 <= i < |t| ==> s[0] < t[i] by {
        forall i | 0 <= i < |t| ensures s[0] < t[i] {
          assert t[i] in t;
          if t[i] != x {
            var j :| 0 <= j < |s[1..]| && s[1..][j] == t[i];
            assert s[j + 1] == t[i];
          }
        }
      }
      assert forall i :: 0 < i < |r| ==> r[i] == t[i - 1];
      r
  }

  /** numpy's `unique(...).tolist()`: the distinct values in ascending
      order. */
  function Unique(s: seq<int>): (r: seq<int>)
    ensures StrictlyIncreasing(r)
    ensures forall y :: y in r <==> y in s
  {
    if |s| == 0 then [] else InsertDistinct(s[0], Unique(s[1..]))
  }

  /** A strictly increasing sequence holding exactly the ids `1..n` is the
      sequence `[1, 2, ..., n]`: position `p` holds id `p + 1`. */
  lemma IdsAreOneBased(r: seq<int>, n: nat)
    requires StrictlyIncreasing(r)
    requires forall y :: y in r <==> 1 <= y <= n
    ensures |r| == n
    ensures forall p :: 0 <= p < |r| ==> r[p] == p + 1
  {
    forall p | 0 <= p < |r|
      ensures r[p] == p + 1
    {
      PositionHoldsSuccessor(r, n, p);
    }
    if n > 0 {
      assert n in r;
      var j :| 0 <= j < |r| && r[j] == n;
      assert |r| >= n;
    }
    if |r| > 0 {
      assert r[|r| - 1] in r;
    }
  }

  lemma {:induction false} PositionHoldsSuccessor(r: seq<int>, n: nat, p: nat)
    requires StrictlyIncreasing(r)
    requires forall y :: y in r <==> 1 <= y <= n
    requires p < |r|
    ensures r[p] == p + 1
    decreases p
  {
    assert r[p] in r;
    if p == 0 {
      assert 1 in r by { assert 1 <= r[0] <= n; }
      var j :| 0 <= j < |r| && r[j] == 1;
      assert j == 0;
    } else {
      PositionHoldsSuccessor(r, n, p - 1);
      assert r[p] > p;
      assert p + 1 <= n;
      assert p + 1 in r;
      var j :| 0 <= j < |r| && r[j] == p + 1;
      if j < p {
        PositionHoldsSuccessor(r, n, j);
      }
    }
  }

  lemma {:induction false} CountAppend(a: seq<int>, b: seq<int>, v: int)
    ensures Count(a + b, v) == Count(a, v) + Count(b, v)
  {
    if |a| == 0 {
      assert a + b == b;
    } else {
      assert (a + b)[1..] == a[1..] + b;
      CountAppend(a[1..], b, v);
    }
  }

  /** numpy's index normalisation for an array of length `n`. */
  function WrapIndex(i: int, n: nat): int
  {
    if i < 0 then i + n else i
  }

  predicate InBounds(i: int, n: nat)
  {
    -(n as int) <= i < n
  }

  /** `np.where(mask)[0]`: the positions holding true, ascending. */
  function TruePositions(mask: seq<bool>): (ps: seq<nat>)
    ensures forall p :: p in ps <==> 0 <= p < |mask| && mask[p]
    ensures forall k, l :: 0 <= k < l < |ps| ==> ps[k] < ps[l]
  {
    TruePositionsFrom(mask, 0)
  }

  function TruePositionsFrom(mask: seq<bool>, from: nat): (ps: seq<nat>)
    ensures forall p :: p in ps <==> from <= p < |mask| && mask[p]
    ensures forall k :: 0 <= k < |ps| ==> from <= ps[k]
    ensures forall k, l :: 0 <= k < l < |ps| ==> ps[k] < ps[l]
    decreases |mask| - from
  {
    if from >= |mask| then []
    else (if mask[from] then [from] else []) + TruePositionsFrom(mask, from + 1)
  }
}
