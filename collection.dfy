/**
 * The `Collection` accessors of Collection++.swift, on arrays: indices are the
 * offsets `0 ..< count`, `startIndex` is 0 and `endIndex` is `count`.
 */
module Collections {
  import opened Wrappers

  /** `lastIndex`: the index at distance `count - 1`, or nil for an empty collection. */
  function LastIndex<T>(s: seq<T>): (r: Option<nat>)
    ensures r.None? <==> s == []
    ensures r.Some? ==> r.value + 1 == |s|
  {
    if s == [] then None else Some(|s| - 1)
  }

  /** `second`: the element at offset 1, or nil when there are fewer than two. */
  function Second<T>(s: seq<T>): (r: Option<T>)
    ensures r.None? <==> |s| <= 1
    ensures r.Some? ==> r.value == s[1]
  {
    if |s| > 1 then Some(s[1]) else None
  }

  /** `last`: the element at `lastIndex`, or nil for an empty collection. */
  function Last<T>(s: seq<T>): (r: Option<T>)
    ensures r.None? <==> s == []
    ensures r.Some? ==> r.value == s[LastIndex(s).value]
  {
    match LastIndex(s)
    case None => None
    case Some(i) => Some(s[i])
  }

  /** `containsIndex`: `startIndex <= i < endIndex`. */
  predicate ContainsIndex<T>(s: seq<T>, i: int)
    ensures ContainsIndex(s, i) <==> LastIndex(s).Some? && 0 <= i <= LastIndex(s).value
  {
    0 <= i < |s|
  }

  /** `contains(after:)`: the index and its successor are both valid. */
  predicate ContainsAfter<T>(s: seq<T>, i: int)
    ensures ContainsAfter(s, i) <==> LastIndex(s).Some? && 0 <= i < LastIndex(s).value
  {
    ContainsIndex(s, i) && ContainsIndex(s, i + 1)
  }

  /**
   * How the accessors relate: a valid index is below `count`, an index has a
   * successor inside exactly when it is before `lastIndex`, and `second` exists
   * exactly when index 0 has a valid successor.
   */
  lemma AccessorsAgree<T>(s: seq<T>, i: int)
    ensures ContainsIndex(s, i) <==> 0 <= i && (LastIndex(s).Some? && i <= LastIndex(s).value)
    ensures ContainsAfter(s, i) <==> 0 <= i && (LastIndex(s).Some? && i < LastIndex(s).value)
    ensures Second(s).Some? <==> ContainsAfter(s, 0)
    ensures Last(s).Some? <==> ContainsIndex(s, |s| - 1)
  {
  }

  /** The offsets of the elements satisfying `p`, as a set. */
  function Matching<T>(s: seq<T>, p: T -> bool): set<nat> {
    set i | 0 <= i < |s| && p(s[i])
  }

  /** Ascending without repeats. */
  predicate StrictlyIncreasing(r: seq<int>) {
    forall a, b :: 0 <= a < b < |r| ==> r[a] < r[b]
  }

  /**
   * `indexes(where:)`: the offsets whose elements satisfy `p`, in ascending
   * order. A throwing predicate is outside the model.
   */
  method Indexes<T>(s: seq<T>, p: T -> bool) returns (indices: seq<nat>)
    ensures StrictlyIncreasing(indices)
    ensures forall k :: 0 <= k < |indices| ==> indices[k] < |s| && p(s[indices[k]])
    ensures forall i :: 0 <= i < |s| && p(s[i]) ==> i in indices
  {
    indices := [];
    var i := 0;
    while i < |s|
      invariant 0 <= i <= |s|
      invariant StrictlyIncreasing(indices)
      invariant forall k :: 0 <= k < |indices| ==> indices[k] < i && p(s[indices[k]])
      invariant forall j :: 0 <= j < i && p(s[j]) ==> j in indices
    {
      if p(s[i]) {
        indices := indices + [i];
      }
      i := i + 1;
    }
  }

  /** The first element of an ascending list is its least. */
  lemma FirstIsLeast(r: seq<nat>)
    requires StrictlyIncreasing(r) && r != []
    ensures forall x :: x in r ==> r[0] <= x
  {
  }

  /** A strictly increasing list is determined by its elements: at most one list lists a set of offsets. */
  lemma {:induction false} IncreasingUnique(a: seq<nat>, b: seq<nat>)
    requires StrictlyIncreasing(a) && StrictlyIncreasing(b)
    requires forall x :: x in a <==> x in b
    ensures a == b
    decreases |a| + |b|
  {
    assert a != [] ==> a[0] in b;
    assert b != [] ==> b[0] in a;
    if a != [] && b != [] {
      FirstIsLeast(a);
      FirstIsLeast(b);
      assert a[0] == b[0];
      forall x ensures x in a[1..] <==> x in b[1..] {
        if x in a[1..] {
          var k :| 1 <= k < |a| && a[k] == x;
          assert x in b && x != b[0];
        }
        if x in b[1..] {
          var k :| 1 <= k < |b| && b[k] == x;
          assert x in a && x != a[0];
        }
      }
      IncreasingUnique(a[1..], b[1..]);
      assert a == [a[0]] + a[1..] && b == [b[0]] + b[1..];
    }
  }
}
