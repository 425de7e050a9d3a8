/**
 * The mutating helpers of RangeReplacableCollection++.swift, on an array-like
 * collection whose indices are the offsets `0 ..< count`. The collection is
 * an object holding its elements; each helper rewrites them in place.
 */
module RangeReplaceable {
  import opened Wrappers
  import opened Collections

  // ---------------------------------------------------------------------
  // Specification functions
  // ---------------------------------------------------------------------

  /** What assigning `mutableLast` leaves: overwrite or append a value, or drop the last. */
  function WithLast<T>(s: seq<T>, v: Option<T>): seq<T> {
    match v
    case Some(x) => if s == [] then [x] else s[..|s| - 1] + [x]
    case None => if s == [] then [] else s[..|s| - 1]
  }

  /** One step of `append(contentsOf:join:)`: merge into the last element when `join` allows it. */
  function JoinStep<T>(acc: seq<T>, e: T, join: (T, T) -> Option<T>): seq<T> {
    if acc != [] && join(acc[|acc| - 1], e).Some? then
      acc[..|acc| - 1] + [join(acc[|acc| - 1], e).value]
    else
      acc + [e]
  }

  /** `s` after `append(contentsOf: es, join: join)`. */
  function Joined<T>(s: seq<T>, es: seq<T>, join: (T, T) -> Option<T>): seq<T> {
    if es == [] then s else JoinStep(Joined(s, es[..|es| - 1], join), es[|es| - 1], join)
  }

  /** Joining one more element is one more `JoinStep`. */
  lemma JoinedNext<T>(s: seq<T>, es: seq<T>, i: nat, join: (T, T) -> Option<T>)
    requires i < |es|
    ensures Joined(s, es[..i + 1], join) == JoinStep(Joined(s, es[..i], join), es[i], join)
  {
    assert es[..i + 1][..i] == es[..i];
  }

  /** The offset `firstIndex(where:)` finds. */
  function FirstIndexWhere<T>(s: seq<T>, p: T -> bool): (r: Option<nat>)
    ensures r.None? <==> forall i :: 0 <= i < |s| ==> !p(s[i])
    ensures r.Some? ==> r.value < |s| && p(s[r.value]) && forall j :: 0 <= j < r.value ==> !p(s[j])
  {
    if s == [] then None
    else if p(s[0]) then Some(0)
    else match FirstIndexWhere(s[1..], p)
      case None => None
      case Some(i) => Some(i + 1)
  }

  /** `s` after `removeAfter(predicate:)`: cut at the first element satisfying `p`. */
  function CutAt<T>(s: seq<T>, p: T -> bool): seq<T> {
    match FirstIndexWhere(s, p)
    case None => s
    case Some(i) => s[..i]
  }

  /** The elements of `s` whose offsets are not in `removed`, in their original order. */
  function Keep<T>(s: seq<T>, removed: set<int>): (r: seq<T>)
    ensures |r| <= |s|
  {
    if s == [] then [] else Keep(s[..|s| - 1], removed) + (if |s| - 1 in removed then [] else [s[|s| - 1]])
  }

  /** How many of the offsets `0 ..< n` are in `removed`. */
  function RemovedBelow(n: nat, removed: set<int>): (c: nat)
    ensures c <= n
  {
    if n == 0 then 0 else RemovedBelow(n - 1, removed) + (if n - 1 in removed then 1 else 0)
  }

  /** The offsets an index list names. */
  function Positions(indices: seq<int>): set<int> {
    set x | x in indices
  }

  predicate Sorted(s: seq<int>) {
    forall a, b :: 0 <= a < b < |s| ==> s[a] <= s[b]
  }

  predicate Distinct(s: seq<int>) {
    forall a, b :: 0 <= a < b < |s| ==> s[a] != s[b]
  }

  /** `sorted()`, as an insertion sort. */
  function Sort(s: seq<int>): (r: seq<int>)
    ensures Sorted(r) && multiset(r) == multiset(s)
  {
    if s == [] then []
    else
      assert s == [s[0]] + s[1..];
      InsertSorted(s[0], Sort(s[1..]));
      Insert(s[0], Sort(s[1..]))
  }

  /** `x` placed before the first element it does not exceed. */
  function Insert(x: int, s: seq<int>): (r: seq<int>)
    ensures multiset(r) == multiset(s) + multiset{x}
    ensures |r| == |s| + 1 && (r[0] == x || (s != [] && r[0] == s[0]))
  {
    if s == [] then [x]
    else if x <= s[0] then [x] + s
    else
      assert s == [s[0]] + s[1..];
      [s[0]] + Insert(x, s[1..])
  }

  /** Inserting into a sorted list keeps it sorted. */
  lemma {:induction false} InsertSorted(x: int, s: seq<int>)
    requires Sorted(s)
    ensures Sorted(Insert(x, s))
  {
    if s != [] && x <= s[0] {
      var r := [x] + s;
      assert Insert(x, s) == r;
      forall a, b | 0 <= a < b < |r| ensures r[a] <= r[b] {
        assert r[b] == s[b - 1] && s[0] <= s[b - 1];
        if a > 0 {
          assert r[a] == s[a - 1];
        }
      }
    } else if s != [] {
      var t := Insert(x, s[1..]);
      InsertSorted(x, s[1..]);
      var r := [s[0]] + t;
      assert Insert(x, s) == r;
      assert s[0] <= t[0] by {
        if t[0] != x {
          assert t[0] == s[1];
        }
      }
      forall a, b | 0 <= a < b < |r| ensures r[a] <= r[b] {
        assert r[b] == t[b - 1] && t[0] <= t[b - 1];
        if a > 0 {
          assert r[a] == t[a - 1];
        }
      }
    }
  }

  // ---------------------------------------------------------------------
  // Properties of the specification functions
  // ---------------------------------------------------------------------

  /** Reading `mutableLast` back gives what was assigned; assigning what was read changes nothing. */
  lemma WithLastRoundTrip<T>(s: seq<T>, x: T)
    ensures Last(WithLast(s, Some(x))) == Some(x)
    ensures |WithLast(s, Some(x))| == if s == [] then 1 else |s|
    ensures WithLast(s, Last(s)) == s
    ensures s != [] ==> WithLast(s, None) == s[..|s| - 1] && |WithLast(s, None)| == |s| - 1
  {
  }

  /** Appending in two batches is appending their concatenation. */
  lemma {:induction false} JoinedConcat<T>(s: seq<T>, a: seq<T>, b: seq<T>, join: (T, T) -> Option<T>)
    ensures Joined(Joined(s, a, join), b, join) == Joined(s, a + b, join)
    decreases |b|
  {
    if b == [] {
      assert a + b == a;
    } else {
      assert (a + b)[..|a + b| - 1] == a + b[..|b| - 1];
      JoinedConcat(s, a, b[..|b| - 1], join);
    }
  }

  /** A `join` that never merges makes the call a plain `append(contentsOf:)`. */
  lemma {:induction false} JoinedNeverJoining<T>(s: seq<T>, es: seq<T>, join: (T, T) -> Option<T>)
    requires forall x, y :: join(x, y).None?
    ensures Joined(s, es, join) == s + es
  {
    if es != [] {
      JoinedNeverJoining(s, es[..|es| - 1], join);
      assert s + es == s + es[..|es| - 1] + [es[|es| - 1]];
    }
  }

  /** Joining never shortens the collection and adds at most one element per new element. */
  lemma {:induction false} JoinedLength<T>(s: seq<T>, es: seq<T>, join: (T, T) -> Option<T>)
    ensures s != [] || es != [] ==> Joined(s, es, join) != []
    ensures |s| <= |Joined(s, es, join)| <= |s| + |es|
  {
    if es != [] {
      JoinedLength(s, es[..|es| - 1], join);
    }
  }

  /** The cut keeps a prefix in which nothing satisfies `p`, and cutting again changes nothing. */
  lemma CutAtMeaning<T>(s: seq<T>, p: T -> bool)
    ensures var r := CutAt(s, p); |r| <= |s| && r == s[..|r|]
    ensures var r := CutAt(s, p); forall i :: 0 <= i < |r| ==> !p(r[i])
    ensures var r := CutAt(s, p); |r| < |s| ==> p(s[|r|])
    ensures CutAt(CutAt(s, p), p) == CutAt(s, p)
  {
    var r := CutAt(s, p);
    assert forall i :: 0 <= i < |r| ==> r[i] == s[i];
  }

  /** Appending one element to the kept prefix of `s`. */
  lemma KeepSnoc<T>(s: seq<T>, k: nat, removed: set<int>)
    requires k < |s|
    ensures Keep(s[..k + 1], removed) == Keep(s[..k], removed) + (if k in removed then [] else [s[k]])
  {
    assert s[..k + 1][..k] == s[..k];
  }

  /** Offsets past the end do not affect what is kept. */
  lemma {:induction false} KeepBeyond<T>(s: seq<T>, removed: set<int>, x: int)
    requires x >= |s|
    ensures Keep(s, removed + {x}) == Keep(s, removed)
  {
    if s != [] {
      KeepBeyond(s[..|s| - 1], removed, x);
    }
  }

  /** Nothing named inside the range: everything is kept. */
  lemma {:induction false} KeepNothing<T>(s: seq<T>, removed: set<int>)
    requires forall i :: 0 <= i < |s| ==> i !in removed
    ensures Keep(s, removed) == s
  {
    if s != [] {
      KeepNothing(s[..|s| - 1], removed);
    }
  }

  /** One element is dropped for each offset of the range that is named. */
  lemma {:induction false} KeepLength<T>(s: seq<T>, removed: set<int>)
    ensures |Keep(s, removed)| == |s| - RemovedBelow(|s|, removed)
  {
    if s != [] {
      KeepLength(s[..|s| - 1], removed);
    }
  }

  /**
   * Every element that is not removed survives, shifted left by the number
   * of removed offsets before it: the order of the survivors is kept.
   */
  lemma {:induction false} KeepIndex<T>(s: seq<T>, removed: set<int>, i: nat)
    requires i < |s| && i !in removed
    ensures i - RemovedBelow(i, removed) < |Keep(s, removed)|
    ensures Keep(s, removed)[i - RemovedBelow(i, removed)] == s[i]
  {
    var p := s[..|s| - 1];
    if i == |s| - 1 {
      KeepLength(p, removed);
    } else {
      KeepIndex(p, removed, i);
    }
  }

  /** A sorted list with no two equal neighbours is strictly increasing. */
  lemma {:induction false} SortedNoRepeats(s: seq<int>)
    requires Sorted(s) && forall k :: 1 <= k < |s| ==> s[k] != s[k - 1]
    ensures StrictlyIncreasing(s)
  {
    if |s| > 1 {
      var init := s[..|s| - 1];
      SortedNoRepeats(init);
      assert forall a :: 0 <= a < |s| - 1 ==> s[a] == init[a];
      assert forall a :: 0 <= a < |s| - 1 ==> s[a] <= s[|s| - 2] < s[|s| - 1];
    }
  }

  /** Without repeats, every value occurs at most once. */
  lemma {:induction false} DistinctOnce(s: seq<int>, v: int)
    requires Distinct(s)
    ensures multiset(s)[v] <= 1
  {
    if s != [] {
      var init := s[..|s| - 1];
      assert s == init + [s[|s| - 1]];
      DistinctOnce(init, v);
      if s[|s| - 1] == v {
        assert v !in init;
      }
    }
  }

  /** Sorting keeps the offsets a list names. */
  lemma SortPositions(s: seq<int>)
    ensures Positions(Sort(s)) == Positions(s)
  {
    var r := Sort(s);
    assert forall x :: x in r <==> x in multiset(r);
    assert forall x :: x in s <==> x in multiset(s);
  }

  /** Two equal neighbours make a value occur twice. */
  lemma NeighboursTwice(r: seq<int>, k: nat)
    requires 1 <= k < |r| && r[k] == r[k - 1]
    ensures multiset(r)[r[k]] >= 2
  {
    assert r == r[..k - 1] + [r[k - 1], r[k]] + r[k + 1..];
  }

  /** Sorting a list without repeats yields a strictly increasing list of the same offsets. */
  lemma SortDistinct(s: seq<int>)
    requires Distinct(s)
    ensures StrictlyIncreasing(Sort(s)) && Positions(Sort(s)) == Positions(s)
  {
    var r := Sort(s);
    forall k | 1 <= k < |r|
      ensures r[k] != r[k - 1]
    {
      DistinctOnce(s, r[k]);
      if r[k] == r[k - 1] {
        NeighboursTwice(r, k);
      }
    }
    SortedNoRepeats(r);
    SortPositions(s);
  }

  /** `swapAt(i, j)` */
  function SwapAt<T>(e: seq<T>, i: nat, j: nat): (r: seq<T>)
    requires i < |e| && j < |e|
    ensures |r| == |e| && r[i] == e[j] && r[j] == e[i]
    ensures forall k :: 0 <= k < |e| && k != i && k != j ==> r[k] == e[k]
  {
    e[i := e[j]][j := e[i]]
  }

  /**
   * The state of the shifting loop: below `dest` sit the kept elements of
   * the offsets before `upTo`, in order, and from `upTo` on nothing has moved.
   */
  ghost predicate Moved<T>(s0: seq<T>, removed: set<int>, e: seq<T>, dest: nat, upTo: nat) {
    |e| == |s0| && dest <= upTo <= |s0| && e[..dest] == Keep(s0[..upTo], removed) && e[upTo..] == s0[upTo..]
  }

  /** Removing the first offset: everything before it is already in place. */
  lemma KeepFirstRemoved<T>(s: seq<T>, d: nat, removed: set<int>)
    requires d < |s| && removed == {d}
    ensures Moved(s, removed, s, d, d + 1)
  {
    KeepNothing(s[..d], {});
    KeepBeyond(s[..d], {}, d);
    assert {} + {d} == {d};
    KeepSnoc(s, d, {d});
  }

  /** One swap moves the next kept element down. */
  lemma MoveOne<T>(s0: seq<T>, removed: set<int>, e: seq<T>, dest: nat, src: nat)
    requires Moved(s0, removed, e, dest, src) && dest < src < |s0| && src !in removed
    ensures Moved(s0, removed, SwapAt(e, dest, src), dest + 1, src + 1)
  {
    KeepSnoc(s0, src, removed);
    var e' := SwapAt(e, dest, src);
    assert e[src] == s0[src];
    assert e'[..dest + 1] == e[..dest] + [s0[src]];
    assert e'[src + 1..] == e[src + 1..];
  }

  /** Stepping the source cursor over a removed offset. */
  lemma SkipOne<T>(s0: seq<T>, removed: set<int>, after: set<int>, e: seq<T>, dest: nat, r: nat)
    requires Moved(s0, removed, e, dest, r) && r < |s0| && after == removed + {r}
    ensures Moved(s0, after, e, dest, r + 1)
  {
    KeepBeyond(s0[..r], removed, r);
    KeepSnoc(s0, r, removed + {r});
    assert e[r + 1..] == e[r..][1..];
  }

  lemma PositionsCons(indices: seq<int>)
    requires indices != []
    ensures Positions(indices) == {indices[0]} + Positions(indices[1..])
  {
    assert indices == [indices[0]] + indices[1..];
  }

  lemma PositionsSnoc(indices: seq<int>, k: nat)
    requires k < |indices|
    ensures Positions(indices[..k + 1]) == Positions(indices[..k]) + {indices[k]}
  {
    assert indices[..k + 1] == indices[..k] + [indices[k]];
  }

  // ---------------------------------------------------------------------
  // `remove(elementsAtSortedIndices:)` as written
  // ---------------------------------------------------------------------

  /** The state of the shifting loop: the elements and the two cursors. */
  datatype Cursor<T> = Cursor(elements: seq<T>, dest: nat, src: nat)

  /**
   * `shiftLeft(untilIndex:)` on the state, without its duplicate check: the
   * source cursor ends one past `until` (or one past where it was, when it was
   * already there), one further ahead of the destination cursor than before.
   */
  function ShiftLeftAsWritten<T>(c: Cursor<T>, until: nat): (r: Cursor<T>)
    requires c.dest <= c.src && until <= |c.elements|
    ensures |r.elements| == |c.elements| && r.dest <= r.src
    ensures c.dest <= |c.elements| ==> r.dest <= |r.elements|
    ensures r.src == (if c.src < until then until else c.src) + 1
    ensures r.src - r.dest == c.src - c.dest + 1
    ensures c.dest < c.src && c.dest < |c.elements| ==> r.dest < |r.elements|
    decreases until - c.src
  {
    if c.src < until then
      ShiftLeftAsWritten(Cursor(SwapAt(c.elements, c.dest, c.src), c.dest + 1, c.src + 1), until)
    else
      Cursor(c.elements, c.dest, c.src + 1)
  }

  /**
   * The `for removeIndex in …` loop over the indices after the first: each
   * index puts the source cursor one further ahead of the destination cursor.
   */
  function ShiftAllAsWritten<T>(c: Cursor<T>, rs: seq<int>): (r: Cursor<T>)
    requires c.dest <= c.src && c.dest <= |c.elements|
    requires forall k :: 0 <= k < |rs| ==> 0 <= rs[k] < |c.elements|
    ensures |r.elements| == |c.elements| && r.dest <= r.src && r.dest <= |r.elements|
    ensures r.src >= c.src && r.src - r.dest == c.src - c.dest + |rs|
    ensures c.dest < c.src && c.dest < |c.elements| ==> r.dest < |r.elements|
    decreases |rs|
  {
    if rs == [] then c else ShiftAllAsWritten(ShiftLeftAsWritten(c, rs[0]), rs[1..])
  }

  /** A swap only reorders the elements. */
  lemma SwapAtPermutes<T>(e: seq<T>, i: nat, j: nat)
    requires i < |e| && j < |e|
    ensures multiset(SwapAt(e, i, j)) == multiset(e)
  {
  }

  /** One `shiftLeft` only reorders the elements: it is made of swaps. */
  lemma {:induction false} ShiftLeftPermutes<T>(c: Cursor<T>, until: nat)
    requires c.dest <= c.src && until <= |c.elements|
    ensures multiset(ShiftLeftAsWritten(c, until).elements) == multiset(c.elements)
    decreases until - c.src
  {
    if c.src < until {
      SwapAtPermutes(c.elements, c.dest, c.src);
      ShiftLeftPermutes(Cursor(SwapAt(c.elements, c.dest, c.src), c.dest + 1, c.src + 1), until);
    }
  }

  /** The whole loop of shifts only reorders the elements. */
  lemma {:induction false} ShiftAllPermutes<T>(c: Cursor<T>, rs: seq<int>)
    requires c.dest <= c.src && c.dest <= |c.elements|
    requires forall k :: 0 <= k < |rs| ==> 0 <= rs[k] < |c.elements|
    ensures multiset(ShiftAllAsWritten(c, rs).elements) == multiset(c.elements)
    decreases |rs|
  {
    if rs != [] {
      ShiftLeftPermutes(c, rs[0]);
      ShiftAllPermutes(ShiftLeftAsWritten(c, rs[0]), rs[1..]);
    }
  }

  /**
   * `remove(elementsAtSortedIndices:)` as the source has it: every index must
   * be in range, and only a repeat of the FIRST index is refused. At least one
   * element goes and at most one per index, whether or not indices repeat.
   */
  function RemoveSortedAsWritten<T>(s: seq<T>, indices: seq<int>): (r: seq<T>)
    requires indices != [] && forall k :: 0 <= k < |indices| ==> 0 <= indices[k] < |s|
    requires forall k :: 1 <= k < |indices| ==> indices[k] != indices[0]
    ensures |s| - |indices| <= |r| < |s|
  {
    var c := ShiftAllAsWritten(Cursor(s, indices[0], indices[0] + 1), indices[1..]);
    var last := ShiftLeftAsWritten(c, |s|);
    last.elements[..last.dest]
  }

  /** The as-written removal of offsets 0, 2, 2 from five elements. */
  lemma RemoveRepeatAsWritten()
    ensures RemoveSortedAsWritten([10, 11, 12, 13, 14], [0, 2, 2]) == [11, 14]
  {
    var s := [10, 11, 12, 13, 14];
    var e1 := [11, 10, 12, 13, 14];
    var e2 := [11, 14, 12, 13, 10];
    var c0 := Cursor(s, 0, 1);
    assert s[0 := s[1]][1 := s[0]] == e1;
    assert ShiftLeftAsWritten(Cursor(e1, 1, 2), 2) == Cursor(e1, 1, 3);
    var c1 := Cursor(e1, 1, 3);
    assert ShiftLeftAsWritten(c0, 2) == c1;
    assert [0, 2, 2][1..] == [2, 2];
    assert [2, 2][1..] == [2];
    assert [2][1..] == [];
    var c2 := Cursor(e1, 1, 4);
    assert ShiftLeftAsWritten(c1, 2) == c2;
    assert ShiftAllAsWritten(c1, [2]) == c2;
    assert ShiftAllAsWritten(c0, [2, 2]) == c2;
    assert e1[1 := e1[4]][4 := e1[1]] == e2;
    assert ShiftLeftAsWritten(Cursor(e2, 2, 5), 5) == Cursor(e2, 2, 6);
    assert ShiftLeftAsWritten(c2, 5) == Cursor(e2, 2, 6);
    assert e2[..2] == [11, 14];
  }

  /** What removing the offsets 0 and 2 of five elements should keep. */
  lemma KeepZeroAndTwo()
    ensures Keep([10, 11, 12, 13, 14], {0, 2}) == [11, 13, 14]
  {
    var s := [10, 11, 12, 13, 14];
    var r: set<int> := {0, 2};
    assert s[..0] == [];
    KeepSnoc(s, 0, r);
    KeepSnoc(s, 1, r);
    KeepSnoc(s, 2, r);
    KeepSnoc(s, 3, r);
    KeepSnoc(s, 4, r);
    assert s[..5] == s;
  }

  /**
   * A repeated later index passes the check and costs an element that was
   * not named: removing offsets 0, 2, 2 of five elements keeps two, not three.
   */
  lemma DuplicateIndexDropsKeptElement()
    ensures RemoveSortedAsWritten([10, 11, 12, 13, 14], [0, 2, 2]) == [11, 14]
    ensures Keep([10, 11, 12, 13, 14], Positions([0, 2, 2])) == [11, 13, 14]
  {
    RemoveRepeatAsWritten();
    KeepZeroAndTwo();
    assert Positions([0, 2, 2]) == {0, 2};
  }

  /** One as-written `shiftLeft` over offsets that are not removed moves them down in order. */
  lemma {:induction false} ShiftLeftKeeps<T>(s0: seq<T>, removed: set<int>, c: Cursor<T>, until: nat)
    requires Moved(s0, removed, c.elements, c.dest, c.src) && c.dest < c.src <= until <= |s0|
    requires forall x :: x in removed ==> x < c.src
    ensures var r := ShiftLeftAsWritten(c, until);
      r.src == until + 1 && r.dest < r.src && Moved(s0, removed, r.elements, r.dest, until)
    decreases until - c.src
  {
    if c.src < until {
      MoveOne(s0, removed, c.elements, c.dest, c.src);
      ShiftLeftKeeps(s0, removed, Cursor(SwapAt(c.elements, c.dest, c.src), c.dest + 1, c.src + 1), until);
    }
  }

  /** The as-written loop over the rest of a strictly increasing index list. */
  lemma {:induction false} ShiftAllKeeps<T>(s0: seq<T>, removed: set<int>, after: set<int>, c: Cursor<T>, rs: seq<int>)
    requires Moved(s0, removed, c.elements, c.dest, c.src) && c.dest < c.src <= |s0|
    requires forall x :: x in removed ==> x < c.src
    requires StrictlyIncreasing(rs) && (rs != [] ==> c.src <= rs[0])
    requires forall j :: 0 <= j < |rs| ==> 0 <= rs[j] < |s0|
    requires after == removed + Positions(rs)
    ensures var r := ShiftAllAsWritten(c, rs);
      && r.dest < r.src <= |s0| && Moved(s0, after, r.elements, r.dest, r.src)
      && forall x :: x in after ==> x < r.src
    decreases |rs|
  {
    if rs == [] {
      assert after == removed;
    } else {
      var r := rs[0];
      ShiftLeftKeeps(s0, removed, c, r);
      var c' := ShiftLeftAsWritten(c, r);
      PositionsCons(rs);
      SkipOne(s0, removed, removed + {r}, c'.elements, c'.dest, r);
      ShiftAllKeeps(s0, removed + {r}, after, c', rs[1..]);
    }
  }

  /** The state after the loop over the indices that follow the first. */
  lemma ShiftAllFromFirst<T>(s: seq<T>, indices: seq<int>)
    requires indices != [] && StrictlyIncreasing(indices)
    requires forall k :: 0 <= k < |indices| ==> 0 <= indices[k] < |s|
    ensures var c := ShiftAllAsWritten(Cursor(s, indices[0], indices[0] + 1), indices[1..]);
      && c.dest < c.src <= |s| && Moved(s, Positions(indices), c.elements, c.dest, c.src)
      && forall x :: x in Positions(indices) ==> x < c.src
  {
    var d := indices[0];
    KeepFirstRemoved(s, d, {d});
    PositionsCons(indices);
    ShiftAllKeeps(s, {d}, Positions(indices), Cursor(s, d, d + 1), indices[1..]);
  }

  /** The last `shiftLeft` up to the end leaves the kept elements below `dest`. */
  lemma FinalShift<T>(s: seq<T>, removed: set<int>, c: Cursor<T>)
    requires c.dest < c.src <= |s| && Moved(s, removed, c.elements, c.dest, c.src)
    requires forall x :: x in removed ==> x < c.src
    ensures var last := ShiftLeftAsWritten(c, |s|); last.dest <= |last.elements| && last.elements[..last.dest] == Keep(s, removed)
  {
    ShiftLeftKeeps(s, removed, c, |s|);
    assert s[..|s|] == s;
  }

  /** Both shifting loops together keep exactly the unnamed elements below `dest`. */
  lemma ShiftsKeep<T>(s: seq<T>, indices: seq<int>)
    requires indices != [] && StrictlyIncreasing(indices)
    requires forall k :: 0 <= k < |indices| ==> 0 <= indices[k] < |s|
    ensures var c := ShiftAllAsWritten(Cursor(s, indices[0], indices[0] + 1), indices[1..]);
      var last := ShiftLeftAsWritten(c, |s|);
      last.dest <= |last.elements| && last.elements[..last.dest] == Keep(s, Positions(indices))
  {
    ShiftAllFromFirst(s, indices);
    FinalShift(s, Positions(indices), ShiftAllAsWritten(Cursor(s, indices[0], indices[0] + 1), indices[1..]));
  }

  /** Where no index repeats, the source's removal keeps exactly the unnamed elements. */
  lemma RemoveSortedAgreesWithoutRepeats<T>(s: seq<T>, indices: seq<int>)
    requires indices != [] && StrictlyIncreasing(indices)
    requires forall k :: 0 <= k < |indices| ==> 0 <= indices[k] < |s|
    ensures RemoveSortedAsWritten(s, indices) == Keep(s, Positions(indices))
  {
    assert forall k :: 1 <= k < |indices| ==> indices[0] < indices[k];
    ShiftsKeep(s, indices);
  }

  // ---------------------------------------------------------------------
  // The collection
  // ---------------------------------------------------------------------

  class ReplaceableCollection<T> {
    var elements: seq<T>

    constructor (elements: seq<T>)
      ensures this.elements == elements
    {
      this.elements := elements;
    }

    /** The `mutableLast` setter. */
    method SetMutableLast(newValue: Option<T>)
      modifies this
      ensures elements == WithLast(old(elements), newValue)
    {
      match newValue {
        case Some(v) =>
          match LastIndex(elements) {
            case Some(i) => elements := elements[i := v];
            case None => elements := elements + [v];
          }
        case None =>
          if elements != [] {
            elements := elements[..|elements| - 1];
          }
      }
    }

    /** `append(contentsOf:join:)`: each new element merges into the last one or is appended. */
    method AppendJoining(newElements: seq<T>, join: (T, T) -> Option<T>)
      modifies this
      ensures elements == Joined(old(elements), newElements, join)
    {
      var i := 0;
      while i < |newElements|
        invariant 0 <= i <= |newElements|
        invariant elements == Joined(old(elements), newElements[..i], join)
      {
        var element := newElements[i];
        JoinedNext(old(elements), newElements, i, join);
        match Last(elements) {
          case Some(last) =>
            match join(last, element) {
              case Some(joined) => SetMutableLast(Some(joined));
              case None => elements := elements + [element];
            }
          case None => elements := elements + [element];
        }
        i := i + 1;
      }
      assert newElements[..i] == newElements;
    }

    /** `replace(at:with:)`: insert, then remove the element pushed one place right. */
    method Replace(index: int, replacement: T) returns (removed: T)
      modifies this
      requires 0 <= index < |elements|
      ensures removed == old(elements[index])
      ensures elements == old(elements)[index := replacement]
    {
      elements := elements[..index] + [replacement] + elements[index..];
      removed := elements[index + 1];
      elements := elements[..index + 1] + elements[index + 2..];
    }

    /** `removeAfter(predicate:)`: drop everything from the first element satisfying `p`. */
    method RemoveAfter(p: T -> bool)
      modifies this
      ensures elements == CutAt(old(elements), p)
    {
      match FirstIndexWhere(elements, p) {
        case Some(index) => elements := elements[..index];
        case None =>
      }
    }

    /** One `shiftLeft(untilIndex:)`: move the kept elements before `until` down to `dest`. */
    method ShiftLeft(ghost s0: seq<T>, ghost removed: set<int>, dest: nat, src: nat, until: nat)
      returns (dest': nat, src': nat)
      modifies this
      requires Moved(s0, removed, elements, dest, src) && dest < src <= until <= |s0|
      requires forall x :: x in removed ==> x < src
      ensures src' == until + 1 && dest' < src' && Moved(s0, removed, elements, dest', until)
    {
      dest', src' := dest, src;
      while src' < until
        invariant dest' < src' <= until
        invariant Moved(s0, removed, elements, dest', src')
      {
        MoveOne(s0, removed, elements, dest', src');
        elements := elements[dest' := elements[src']][src' := elements[dest']];
        dest', src' := dest' + 1, src' + 1;
      }
      src' := src' + 1;
    }

    /**
     * `remove(elementsAtSortedIndices:)` with the duplicate check made against
     * the previous index rather than the first: on sorted indices in range
     * with no two equal neighbours it removes exactly the named offsets.
     */
    method RemoveElementsAtSortedIndices(indicesToRemove: seq<int>)
      modifies this
      requires indicesToRemove != [] && Sorted(indicesToRemove)
      requires forall k :: 0 <= k < |indicesToRemove| ==> 0 <= indicesToRemove[k] < |elements|
      requires forall k :: 1 <= k < |indicesToRemove| ==> indicesToRemove[k] != indicesToRemove[k - 1]
      ensures elements == Keep(old(elements), Positions(indicesToRemove))
    {
      SortedNoRepeats(indicesToRemove);
      ghost var s0 := elements;
      var dest: nat := indicesToRemove[0];
      var src: nat := dest + 1;
      var previousRemovalIndex := dest;
      ghost var removed := {dest};
      KeepFirstRemoved(s0, dest, removed);
      var k := 1;
      while k < |indicesToRemove|
        invariant 1 <= k <= |indicesToRemove|
        invariant removed == Positions(indicesToRemove[..k])
        invariant previousRemovalIndex == indicesToRemove[k - 1] && src == previousRemovalIndex + 1
        invariant dest < src <= |s0|
        invariant forall x :: x in removed ==> x < src
        invariant Moved(s0, removed, elements, dest, src)
      {
        var removeIndex := indicesToRemove[k];
        assert removeIndex != previousRemovalIndex;
        dest, src := ShiftLeft(s0, removed, dest, src, removeIndex);
        PositionsSnoc(indicesToRemove, k);
        SkipOne(s0, removed, removed + {removeIndex}, elements, dest, removeIndex);
        removed := removed + {removeIndex};
        previousRemovalIndex := removeIndex;
        k := k + 1;
      }
      dest, src := ShiftLeft(s0, removed, dest, src, |elements|);
      assert s0[..|s0|] == s0 && indicesToRemove[..k] == indicesToRemove;
      elements := elements[..dest];
    }

    /** `remove(elementsAtIndices:)`: sort the indices unless they already are, then remove. */
    method RemoveElementsAtIndices(indicesToRemove: seq<int>)
      modifies this
      requires forall k :: 0 <= k < |indicesToRemove| ==> 0 <= indicesToRemove[k] < |elements|
      requires Distinct(indicesToRemove)
      ensures elements == Keep(old(elements), Positions(indicesToRemove))
    {
      if indicesToRemove == [] {
        KeepNothing(elements, Positions(indicesToRemove));
        return;
      }
      var isSorted := IsSorted(indicesToRemove);
      if isSorted {
        RemoveElementsAtSortedIndices(indicesToRemove);
      } else {
        var sorted := Sort(indicesToRemove);
        SortDistinct(indicesToRemove);
        assert forall k :: 0 <= k < |sorted| ==> sorted[k] in Positions(indicesToRemove);
        RemoveElementsAtSortedIndices(sorted);
      }
    }
  }

  /** The sortedness scan of `remove(elementsAtIndices:)`: stops at the first descent. */
  method IsSorted(indices: seq<int>) returns (isSorted: bool)
    requires indices != []
    ensures isSorted <==> Sorted(indices)
  {
    isSorted := true;
    var prevIndex := indices[0];
    var k := 1;
    while k < |indices|
      invariant 1 <= k <= |indices|
      invariant prevIndex == indices[k - 1]
      invariant isSorted && Sorted(indices[..k])
    {
      if indices[k] < prevIndex {
        isSorted := false;
        return;
      }
      prevIndex := indices[k];
      k := k + 1;
    }
    assert indices[..k] == indices;
  }
}
