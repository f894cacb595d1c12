/** Real-valued reductions the program takes from numpy (`sum`, `mean`,
    `median`, `max`) and Python's decimal rounding, defined once and shared.
    Values are exact reals: the binary floating-point representation and NaN
    are not modelled.
 */
module Numeric {

  function Sum(s: seq<real>): real
  {
    if |s| == 0 then 0.0 else s[0] + Sum(s[1..])
  }

  function Mean(s: seq<real>): real
    requires |s| > 0
  {
    Sum(s) / |s| as real
  }

  function Max(s: seq<real>): (m: real)
    requires |s| > 0
    ensures forall i :: 0 <= i < |s| ==> s[i] <= m
    ensures m in s
  {
    if |s| == 1 then s[0]
    else
      var rest := Max(s[1..]);
      if s[0] >= rest then s[0] else rest
  }

  function Min(s: seq<real>): (m: real)
    requires |s| > 0
    ensures forall i :: 0 <= i < |s| ==> m <= s[i]
    ensures m in s
  {
    if |s| == 1 then s[0]
    else
      var rest := Min(s[1..]);
      if s[0] <= rest then s[0] else rest
  }

  /** Integers as reals, as numpy promotes a uint8 frame in `mean`/`median`. */
  function ToReals(s: seq<int>): (r: seq<real>)
    ensures |r| == |s|
    ensures forall i :: 0 <= i < |s| ==> r[i] == s[i] as real
  {
    seq(|s|, i requires 0 <= i < |s| => s[i] as real)
  }

  /** `x - mean(x)`, element by element. */
  function Center(s: seq<real>): (r: seq<real>)
    requires |s| > 0
    ensures |r| == |s|
  {
    var m := Mean(s);
    seq(|s|, i requires 0 <= i < |s| => s[i] - m)
  }

  /** `mean(abs(x) ** 2)`. */
  function MeanSquare(s: seq<real>): real
    requires |s| > 0
  {
    Mean(seq(|s|, i requires 0 <= i < |s| => s[i] * s[i]))
  }

  lemma {:induction false} SumBounds(s: seq<real>, lo: real, hi: real)
    requires forall i :: 0 <= i < |s| ==> lo <= s[i] <= hi
    ensures |s| as real * lo <= Sum(s) <= |s| as real * hi
  {
    if |s| > 0 {
      SumBounds(s[1..], lo, hi);
    }
  }

  lemma DivBelow(a: real, b: real, n: real)
    requires n > 0.0 && a <= b * n
    ensures a / n <= b
  {
    var q := a / n;
    assert q * n == a;
    assert (q - b) * n <= 0.0;
  }

  lemma DivAbove(a: real, b: real, n: real)
    requires n > 0.0 && b * n <= a
    ensures b <= a / n
  {
    var q := a / n;
    assert q * n == a;
    assert (q - b) * n >= 0.0;
  }

  lemma QuotientBetween(total: real, n: real, lo: real, hi: real)
    requires n > 0.0 && n * lo <= total <= n * hi
    ensures lo <= total / n <= hi
  {
    DivBelow(total, hi, n);
    DivAbove(total, lo, n);
  }

  /** The arithmetic mean lies between the smallest and the largest value. */
  lemma MeanBounds(s: seq<real>)
    requires |s| > 0
    ensures Min(s) <= Mean(s) <= Max(s)
  {
    MeanBetween(s, Min(s), Max(s));
  }

  lemma MeanBetween(s: seq<real>, lo: real, hi: real)
    requires |s| > 0
    requires forall i :: 0 <= i < |s| ==> lo <= s[i] <= hi
    ensures lo <= Mean(s) <= hi
  {
    SumBounds(s, lo, hi);
    MeanOfBoundedSum(s, lo, hi);
  }

  lemma MeanOfBoundedSum(s: seq<real>, lo: real, hi: real)
    requires |s| > 0
    requires |s| as real * lo <= Sum(s) <= |s| as real * hi
    ensures lo <= Mean(s) <= hi
  {
    QuotientBetween(Sum(s), |s| as real, lo, hi);
  }

  lemma {:induction false} SumShift(s: seq<real>, c: real, t: seq<real>)
    requires |t| == |s|
    requires forall i :: 0 <= i < |s| ==> t[i] == s[i] - c
    ensures Sum(t) == Sum(s) - |s| as real * c
  {
    if |s| > 0 {
      SumShift(s[1..], c, t[1..]);
    }
  }

  /** Summing one more value at the end adds that value. */
  lemma {:induction false} SumSnoc(s: seq<real>, x: real)
    ensures Sum(s + [x]) == Sum(s) + x
  {
    if |s| > 0 {
      assert (s + [x])[1..] == s[1..] + [x];
      SumSnoc(s[1..], x);
    }
  }

  /** Sums add pointwise. */
  lemma {:induction false} SumPointwise(a: seq<real>, b: seq<real>, c: seq<real>)
    requires |a| == |b| == |c|
    requires forall i :: 0 <= i < |c| ==> c[i] == a[i] + b[i]
    ensures Sum(c) == Sum(a) + Sum(b)
  {
    if |c| > 0 {
      SumPointwise(a[1..], b[1..], c[1..]);
    }
  }

  /** Dividing every value by `n` divides the sum by `n`. */
  lemma {:induction false} SumScaled(a: seq<real>, c: seq<real>, n: real)
    requires n != 0.0 && |a| == |c|
    requires forall i :: 0 <= i < |c| ==> c[i] == a[i] / n
    ensures Sum(c) == Sum(a) / n
  {
    if |c| > 0 {
      SumScaled(a[1..], c[1..], n);
      assert a[0] / n + Sum(a[1..]) / n == (a[0] + Sum(a[1..])) / n;
    }
  }

  /** Centering removes the mean: the centred series sums to zero. */
  lemma CenterSumsToZero(s: seq<real>)
    requires |s| > 0
    ensures Sum(Center(s)) == 0.0
    ensures Mean(Center(s)) == 0.0
  {
    SumShift(s, Mean(s), Center(s));
    var n := |s| as real;
    assert n * (Sum(s) / n) == Sum(s);
  }

  // ---------------------------------------------------------------------
  // Sorting and the median

  ghost predicate SortedAsc(s: seq<real>)
  {
    forall i, j :: 0 <= i < j < |s| ==> s[i] <= s[j]
  }

  function Insert(x: real, s: seq<real>): (r: seq<real>)
    requires SortedAsc(s)
    ensures SortedAsc(r)
    ensures multiset(r) == multiset(s) + multiset{x}
    ensures |r| == |s| + 1
  {
    if |s| == 0 then [x]
    else if x <= s[0] then [x] + s
    else
      var rest := Insert(x, s[1..]);
      assert s == [s[0]] + s[1..];
      InsertLowerBound(s[0], x, s[1..], rest);
      [s[0]] + rest
  }

  lemma InsertLowerBound(lo: real, x: real, s: seq<real>, rest: seq<real>)
    requires lo <= x
    requires forall i :: 0 <= i < |s| ==> lo <= s[i]
    requires multiset(rest) == multiset(s) + multiset{x}
    ensures forall i :: 0 <= i < |rest| ==> lo <= rest[i]
  {
    forall i | 0 <= i < |rest|
      ensures lo <= rest[i]
    {
      assert rest[i] in multiset(rest);
      if rest[i] != x {
        assert rest[i] in multiset(s);
        assert rest[i] in s;
      }
    }
  }

  function SortAsc(s: seq<real>): (r: seq<real>)
    ensures SortedAsc(r)
    ensures multiset(r) == multiset(s)
    ensures |r| == |s|
  {
    if |s| == 0 then []
    else
      assert s == [s[0]] + s[1..];
      Insert(s[0], SortAsc(s[1..]))
  }

  /** numpy's median: the middle of the sorted values, or the average of the
      two middle values when their number is even. */
  function Median(s: seq<real>): real
    requires |s| > 0
  {
    var t := SortAsc(s);
    var n := |t|;
    if n % 2 == 1 then t[n / 2] else (t[n / 2 - 1] + t[n / 2]) / 2.0
  }

  lemma SortedElementsBounded(s: seq<real>, i: int)
    requires 0 <= i < |s|
    ensures Min(s) <= SortAsc(s)[i] <= Max(s)
  {
    var t := SortAsc(s);
    assert t[i] in multiset(t);
    assert t[i] in multiset(s);
    assert t[i] in s;
  }

  /** The median lies between the smallest and the largest value. */
  lemma MedianBounds(s: seq<real>)
    requires |s| > 0
    ensures Min(s) <= Median(s) <= Max(s)
  {
    var n := |s|;
    SortedElementsBounded(s, n / 2);
    if n % 2 == 0 {
      SortedElementsBounded(s, n / 2 - 1);
    }
  }

  // ---------------------------------------------------------------------
  // Python's int() and round()

  /** Python's `int(x)` on a float: truncation toward zero. */
  function Trunc(x: real): (r: int)
    ensures 0.0 <= x ==> r as real <= x < r as real + 1.0
    ensures x < 0.0 ==> r as real - 1.0 < x <= r as real
  {
    if x >= 0.0 then x.Floor else -((-x).Floor)
  }

  /** Python's `round(x)`: the nearest integer, ties to the even one. */
  function RoundHalfEven(x: real): (r: int)
    ensures x - 0.5 <= r as real <= x + 0.5
  {
    var f := x.Floor;
    var d := x - f as real;
    if d < 0.5 then f
    else if d > 0.5 then f + 1
    else if f % 2 == 0 then f else f + 1
  }

  lemma FloorOfIntegerPlus(k: int, d: real)
    requires 0.0 <= d < 1.0
    ensures (k as real + d).Floor == k
  {
  }

  /** Rounding preserves order. */
  lemma RoundHalfEvenMonotone(x: real, y: real)
    requires x <= y
    ensures RoundHalfEven(x) <= RoundHalfEven(y)
  {
    var fx, fy := x.Floor, y.Floor;
    var rx, ry := RoundHalfEven(x), RoundHalfEven(y);
    assert fx <= fy;
    if fx == fy {
      assert x - fx as real <= y - fy as real;
    } else {
      assert fx + 1 <= fy;
      assert rx <= fx + 1;
      assert fy <= ry;
    }
  }

  /** Rounding is symmetric about zero: ties to even do not favour a sign. */
  lemma RoundHalfEvenOdd(x: real)
    ensures RoundHalfEven(-x) == -RoundHalfEven(x)
  {
    var f := x.Floor;
    var d := x - f as real;
    if d == 0.0 {
      FloorOfIntegerPlus(-f, 0.0);
      assert -x == (-f) as real;
    } else {
      FloorOfIntegerPlus(-f - 1, 1.0 - d);
      assert -x == (-f - 1) as real + (1.0 - d);
      assert (-x).Floor == -f - 1;
      if d == 0.5 {
        assert (-f - 1) % 2 == 0 <==> f % 2 != 0;
      }
    }
  }

  function Pow10(n: nat): (p: nat)
    ensures p >= 1
  {
    if n == 0 then 1 else 10 * Pow10(n - 1)
  }

  /** Python's `round(x, n)`: the nearest multiple of 10^-n, ties to even. */
  function RoundDecimals(x: real, n: nat): (r: real)
    ensures x - 0.5 / Pow10(n) as real <= r <= x + 0.5 / Pow10(n) as real
  {
    Scaled(x, Pow10(n) as real)
  }

  /** `x` rounded to the nearest multiple of `1/p`, ties to even. */
  function Scaled(x: real, p: real): (r: real)
    requires p >= 1.0
    ensures x - 0.5 / p <= r <= x + 0.5 / p
  {
    var k := RoundHalfEven(x * p);
    RoundDecimalsClose(x, p, k as real);
    k as real / p
  }

  lemma RoundDecimalsClose(x: real, p: real, k: real)
    requires p >= 1.0
    requires x * p - 0.5 <= k <= x * p + 0.5
    ensures x - 0.5 / p <= k / p <= x + 0.5 / p
  {
    assert (x * p - 0.5) / p == x - 0.5 / p;
    assert (x * p + 0.5) / p == x + 0.5 / p;
    DivMonotone(x * p - 0.5, k, p);
    DivMonotone(k, x * p + 0.5, p);
  }

  lemma DivMonotone(a: real, b: real, p: real)
    requires p > 0.0 && a <= b
    ensures a / p <= b / p
  {
    DivBelow(a, b / p, p);
  }

  lemma MulMonotone(x: real, y: real, p: real)
    requires x <= y && p >= 0.0
    ensures x * p <= y * p
  {
  }

  lemma MulStrictMonotone(x: real, y: real, p: real)
    requires x < y && p > 0.0
    ensures x * p < y * p
  {
  }

  /** A factor whose product with a positive `s` lies strictly within `s` of
      zero is strictly within one of zero; `m` names the product. */
  lemma FactorBelowOne(a: real, s: real, m: real)
    requires s > 0.0 && m == a * s && -s < m < s
    ensures -1.0 < a < 1.0
  {
    if a >= 1.0 { MulMonotone(1.0, a, s); }
    if a <= -1.0 { MulMonotone(a, -1.0, s); }
  }

  lemma RoundDecimalsMonotone(x: real, y: real, n: nat)
    requires x <= y
    ensures RoundDecimals(x, n) <= RoundDecimals(y, n)
  {
    var p := Pow10(n) as real;
    ScaledRoundMonotone(x, y, p);
  }

  lemma ScaledRoundMonotone(x: real, y: real, p: real)
    requires x <= y && p >= 1.0
    ensures Scaled(x, p) <= Scaled(y, p)
  {
    MulMonotone(x, y, p);
    RoundHalfEvenMonotone(x * p, y * p);
    DivMonotone(RoundHalfEven(x * p) as real, RoundHalfEven(y * p) as real, p);
  }

  /** A value that already has at most `n` decimals is left unchanged. */
  lemma RoundDecimalsExact(x: real, n: nat, k: int)
    requires x * Pow10(n) as real == k as real
    ensures RoundDecimals(x, n) == x
  {
    ScaledExact(x, Pow10(n) as real, k);
  }

  lemma RoundHalfEvenOfInteger(k: int)
    ensures RoundHalfEven(k as real) == k
  {
    FloorOfIntegerPlus(k, 0.0);
    assert (k as real).Floor == k;
  }

  lemma ScaledExact(x: real, p: real, k: int)
    requires p >= 1.0 && x * p == k as real
    ensures Scaled(x, p) == x
  {
    RoundHalfEvenOfInteger(k);
    assert RoundHalfEven(x * p) == k;
  }

  /** The four-decimal rounding every summary value and score goes through. */
  function Round4(x: real): real
  {
    RoundDecimals(x, 4)
  }
}
