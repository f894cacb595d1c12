/** Python's slice `s[start:stop]` on a sequence: negative bounds count from
    the end, bounds outside the sequence are clamped, and a slice whose start
    is not before its stop is empty.  Used for the reference-window slicing,
    the column loaders and the default CSV name, all of which rely on it.
 */
module PySlice {

  /** A slice bound after Python's normalisation. */
  function Bound(i: int, n: nat): (b: nat)
    ensures b <= n
  {
    if i < 0 then (if i + n < 0 then 0 else i + n)
    else if i > n then n
    else i
  }

  function Slice<T>(s: seq<T>, start: int, stop: int): (r: seq<T>)
    ensures Bound(start, |s|) < Bound(stop, |s|) ==>
              |r| == Bound(stop, |s|) - Bound(start, |s|)
    ensures Bound(stop, |s|) <= Bound(start, |s|) ==> r == []
    ensures forall i :: 0 <= i < |r| ==> r[i] == s[Bound(start, |s|) + i]
  {
    var a, b := Bound(start, |s|), Bound(stop, |s|);
    if a < b then s[a..b] else []
  }

  /** Within the sequence, a Python slice is Dafny's subsequence. */
  lemma SliceInRange<T>(s: seq<T>, start: int, stop: int)
    requires 0 <= start <= stop <= |s|
    ensures Slice(s, start, stop) == s[start..stop]
  {
  }

  /** A negative start that stays within the sequence is counted from its end. */
  lemma SliceNegativeStart<T>(s: seq<T>, start: int, stop: int)
    requires -|s| <= start < 0 && 0 <= stop <= |s|
    ensures Slice(s, start, stop) == Slice(s, |s| + start, stop)
  {
  }

  /** Cutting at `stop` and then dropping `start` elements is one slice. */
  lemma SliceOfPrefix<T>(s: seq<T>, start: nat, stop: nat)
    requires start <= stop <= |s|
    ensures Slice(Slice(s, 0, stop), start, |Slice(s, 0, stop)|) == s[start..stop]
  {
    assert Slice(s, 0, stop) == s[..stop];
  }
}
