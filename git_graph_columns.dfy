/**
 * Column assignment of the commit-graph layout. The branches that have a
 * vertical span are sorted, then placed one by one into the columns of
 * their order group. A branch goes into the first column (or the last, when
 * it leans right) whose placed spans do not overlap its own and which its
 * merge target does not hold. Finally the groups are laid side by side.
 */
module GitGraphColumns {
  import opened Wrappers
  import opened GitGraphs
  import opened GitGraphLayout

  /** A branch takes part when either end of its vertical span is known. */
  predicate Considered(b: BranchInfo) {
    b.spanStart.Some? || b.spanEnd.Some?
  }

  datatype SortEntry = SortEntry(idx: int, start: int, end: int, sourceGroup: int, targetGroup: int)

  /** The sort record of branch `idx`, with the defaults for a missing end or group. */
  function EntryOf(idx: int, b: BranchInfo, branchCount: int, orderCount: int): SortEntry {
    SortEntry(idx, b.spanStart.GetOr(0), b.spanEnd.GetOr(branchCount - 1),
              b.visual.sourceOrderGroup.GetOr(orderCount + 1), b.visual.targetOrderGroup.GetOr(orderCount + 1))
  }

  /** The rows a branch occupies, as the column search compares them. */
  function Span(bs: seq<BranchInfo>, i: int): (int, int)
    requires 0 <= i < |bs|
  {
    (bs[i].spanStart.GetOr(0), bs[i].spanEnd.GetOr(|bs| - 1))
  }

  /** The sort record of a branch names that branch and carries the rows the column search uses. */
  lemma EntrySpanAgrees(bs: seq<BranchInfo>, i: int, orderCount: int)
    requires 0 <= i < |bs|
    ensures EntryOf(i, bs[i], |bs|, orderCount).idx == i
    ensures (EntryOf(i, bs[i], |bs|, orderCount).start, EntryOf(i, bs[i], |bs|, orderCount).end) == Span(bs, i)
  {
  }

  /**
   * A branch lacking a source or target group gets the default `orderCount + 1`,
   * beyond every configured group, so it sorts after every branch whose groups are configured.
   */
  lemma UnassignedGroupSortsLast(a: BranchInfo, b: BranchInfo, ia: int, ib: int, branchCount: int, orderCount: int,
                                 shortestFirst: bool, forward: bool)
    requires a.visual.sourceOrderGroup.Some? && a.visual.sourceOrderGroup.value <= orderCount
    requires a.visual.targetOrderGroup.Some? && a.visual.targetOrderGroup.value <= orderCount
    requires b.visual.sourceOrderGroup.None? || b.visual.targetOrderGroup.None?
    ensures Before(EntryOf(ia, a, branchCount, orderCount), EntryOf(ib, b, branchCount, orderCount), shortestFirst, forward)
    ensures !Before(EntryOf(ib, b, branchCount, orderCount), EntryOf(ia, a, branchCount, orderCount), shortestFirst, forward)
  {
  }

  /** `enumerated().filter { … }.map { … }` over the first `k` branches. */
  function Entries(bs: seq<BranchInfo>, orderCount: int, k: nat): (r: seq<SortEntry>)
    requires k <= |bs|
    ensures forall e :: e in r ==> 0 <= e.idx < k && Considered(bs[e.idx]) && e == EntryOf(e.idx, bs[e.idx], |bs|, orderCount)
    ensures forall i :: 0 <= i < k && Considered(bs[i]) ==> EntryOf(i, bs[i], |bs|, orderCount) in r
  {
    if k == 0 then []
    else Entries(bs, orderCount, k - 1) + (if Considered(bs[k - 1]) then [EntryOf(k - 1, bs[k - 1], |bs|, orderCount)] else [])
  }

  /** `x * factor` for a factor of 1 or -1. */
  function Signed(x: int, positive: bool): int {
    if positive then x else -x
  }

  function Max(a: int, b: int): int {
    if a < b then b else a
  }

  /** The comparator: higher group last, then by signed length, then by signed start. */
  predicate Before(a: SortEntry, b: SortEntry, shortestFirst: bool, forward: bool) {
    var ga, gb := Max(a.sourceGroup, a.targetGroup), Max(b.sourceGroup, b.targetGroup);
    if ga != gb then ga < gb
    else
      var la, lb := Signed(a.end - a.start, shortestFirst), Signed(b.end - b.start, shortestFirst);
      if la != lb then la < lb
      else Signed(a.start, forward) < Signed(b.start, forward)
  }

  /** The comparator never puts an entry before itself. */
  lemma BeforeIrreflexive(a: SortEntry, shortestFirst: bool, forward: bool)
    ensures !Before(a, a, shortestFirst, forward)
  {
  }

  /** The comparator is a strict order: never both ways, and transitive. */
  lemma BeforeStrict(a: SortEntry, b: SortEntry, c: SortEntry, shortestFirst: bool, forward: bool)
    ensures Before(a, b, shortestFirst, forward) ==> !Before(b, a, shortestFirst, forward)
    ensures Before(a, b, shortestFirst, forward) && Before(b, c, shortestFirst, forward) ==> Before(a, c, shortestFirst, forward)
  {
  }

  /** Two entries the comparator cannot tell apart agree on the highest group, the length and the start. */
  lemma BeforeTies(a: SortEntry, b: SortEntry, shortestFirst: bool, forward: bool)
    requires !Before(a, b, shortestFirst, forward) && !Before(b, a, shortestFirst, forward)
    ensures Max(a.sourceGroup, a.targetGroup) == Max(b.sourceGroup, b.targetGroup)
    ensures a.end - a.start == b.end - b.start
    ensures a.start == b.start
  {
  }

  /** No entry comes before the one ahead of it. */
  predicate Ordered(s: seq<SortEntry>, shortestFirst: bool, forward: bool) {
    forall i :: 0 < i < |s| ==> !Before(s[i], s[i - 1], shortestFirst, forward)
  }

  function Insert(x: SortEntry, s: seq<SortEntry>, shortestFirst: bool, forward: bool): (r: seq<SortEntry>)
    ensures multiset(r) == multiset(s) + multiset{x}
    ensures |r| == |s| + 1 && (r[0] == x || (s != [] && r[0] == s[0]))
  {
    if s == [] then [x]
    else if Before(s[0], x, shortestFirst, forward) then
      assert s == [s[0]] + s[1..];
      [s[0]] + Insert(x, s[1..], shortestFirst, forward)
    else [x] + s
  }

  lemma {:induction false} InsertOrdered(x: SortEntry, s: seq<SortEntry>, shortestFirst: bool, forward: bool)
    requires Ordered(s, shortestFirst, forward)
    ensures Ordered(Insert(x, s, shortestFirst, forward), shortestFirst, forward)
  {
    if s != [] && Before(s[0], x, shortestFirst, forward) {
      InsertOrdered(x, s[1..], shortestFirst, forward);
    }
  }

  /** `branchesSort.sort { … }`: the entries in comparator order. */
  function SortEntries(s: seq<SortEntry>, shortestFirst: bool, forward: bool): (r: seq<SortEntry>)
    ensures multiset(r) == multiset(s) && Ordered(r, shortestFirst, forward)
  {
    if s == [] then []
    else
      assert s == [s[0]] + s[1..];
      InsertOrdered(s[0], SortEntries(s[1..], shortestFirst, forward), shortestFirst, forward);
      Insert(s[0], SortEntries(s[1..], shortestFirst, forward), shortestFirst, forward)
  }

  /** Ordering is transitive, so an ordered list is ordered between any two positions. */
  lemma {:induction false} OrderedEverywhere(s: seq<SortEntry>, shortestFirst: bool, forward: bool, i: nat, j: nat)
    requires Ordered(s, shortestFirst, forward) && i < j < |s|
    ensures !Before(s[j], s[i], shortestFirst, forward)
  {
    if j > i + 1 {
      OrderedEverywhere(s, shortestFirst, forward, i, j - 1);
    }
  }

  /** Two row ranges share a row. */
  predicate Overlap(a: (int, int), b: (int, int)) {
    a.0 <= b.1 && a.1 >= b.0
  }

  /** Column `c` of a group cannot take the span: a placed span overlaps it, or the merge target sits there. */
  predicate Blocked(groupOcc: seq<seq<(int, int)>>, c: int, span: (int, int), mergeColumn: Option<int>)
    requires 0 <= c < |groupOcc|
  {
    (exists k :: 0 <= k < |groupOcc[c]| && Overlap(span, groupOcc[c][k])) || mergeColumn == Some(c)
  }

  /** The column search: first free column from the left, or from the right when `alignRight`. */
  method FindColumn(groupOcc: seq<seq<(int, int)>>, span: (int, int), alignRight: bool, mergeColumn: Option<int>)
    returns (found: int)
    ensures 0 <= found <= |groupOcc|
    ensures found < |groupOcc| ==> !Blocked(groupOcc, found, span, mergeColumn)
    ensures !alignRight ==> forall c :: 0 <= c < found ==> Blocked(groupOcc, c, span, mergeColumn)
    ensures alignRight ==> forall c :: found < c < |groupOcc| ==> Blocked(groupOcc, c, span, mergeColumn)
    ensures alignRight && found == |groupOcc| ==> forall c :: 0 <= c < |groupOcc| ==> Blocked(groupOcc, c, span, mergeColumn)
  {
    var len := |groupOcc|;
    found := len;
    for i := 0 to len
      invariant found == len
      invariant !alignRight ==> forall c :: 0 <= c < i ==> Blocked(groupOcc, c, span, mergeColumn)
      invariant alignRight ==> forall c :: len - i <= c < len ==> Blocked(groupOcc, c, span, mergeColumn)
    {
      var index := if alignRight then len - i - 1 else i;
      var columnOcc := groupOcc[index];
      var occupied := false;
      for k := 0 to |columnOcc|
        invariant !occupied ==> forall m :: 0 <= m < k ==> !Overlap(span, columnOcc[m])
        invariant occupied ==> Blocked(groupOcc, index, span, mergeColumn)
      {
        if span.0 <= columnOcc[k].1 && span.1 >= columnOcc[k].0 {
          occupied := true;
          break;
        }
      }
      if !occupied && mergeColumn == Some(index) {
        occupied := true;
      }
      if !occupied {
        found := index;
        break;
      }
    }
  }

  /** The merge target's branch sits at a known position of the commit and branch arrays. */
  predicate MergeResolvable(commits: seq<CommitInfo>, indices: map<Oid, int>, branchCount: int, b: BranchInfo) {
    b.mergeTarget.Some? && b.mergeTarget.value in indices ==>
      var i := indices[b.mergeTarget.value];
      0 <= i < |commits| && (commits[i].branchTrace.Some? ==> 0 <= commits[i].branchTrace.value < branchCount)
  }

  /** The column the merge target's branch already holds, when it is in the same group. */
  function MergeColumn(commits: seq<CommitInfo>, indices: map<Oid, int>, branches: seq<BranchInfo>, b: BranchInfo): (r: Option<int>)
    requires MergeResolvable(commits, indices, |branches|, b)
    ensures b.mergeTarget.None? || b.mergeTarget.value !in indices ==> r.None?
    ensures r.Some? ==>
      && b.mergeTarget.Some? && b.mergeTarget.value in indices
      && var trace := commits[indices[b.mergeTarget.value]].branchTrace;
         && trace.Some?
         && branches[trace.value].visual.orderGroup == b.visual.orderGroup
         && branches[trace.value].visual.column == r
  {
    if b.mergeTarget.Some? && b.mergeTarget.value in indices then
      var trace := commits[indices[b.mergeTarget.value]].branchTrace;
      if trace.Some? then
        var mergeBranch := branches[trace.value];
        if mergeBranch.visual.orderGroup == b.visual.orderGroup then mergeBranch.visual.column else None
      else None
    else None
  }

  /** The source and target branch indices `alignRight` dereferences are in range. */
  predicate AlignDefined(branches: seq<BranchInfo>, b: BranchInfo) {
    && (b.sourceBranch.Some? ==> 0 <= b.sourceBranch.value < |branches|)
    && (b.targetBranch.Some? ==> 0 <= b.targetBranch.value < |branches|)
  }

  /** A branch leans right when its source or target branch is in a group further right. */
  function AlignRight(branches: seq<BranchInfo>, b: BranchInfo): (r: bool)
    requires AlignDefined(branches, b)
    ensures r <==> exists j :: 0 <= j < |branches| && (b.sourceBranch == Some(j) || b.targetBranch == Some(j))
                              && branches[j].visual.orderGroup > b.visual.orderGroup
  {
    (b.sourceBranch.Some? && branches[b.sourceBranch.value].visual.orderGroup > b.visual.orderGroup) ||
    (b.targetBranch.Some? && branches[b.targetBranch.value].visual.orderGroup > b.visual.orderGroup)
  }

  /** How many columns the groups before `g` hold. */
  function ColumnsBefore(occupied: seq<seq<seq<(int, int)>>>, g: nat): nat
    requires g <= |occupied|
  {
    if g == 0 then 0 else ColumnsBefore(occupied, g - 1) + |occupied[g - 1]|
  }

  lemma {:induction false} ColumnsBeforeGrows(occupied: seq<seq<seq<(int, int)>>>, g: nat, h: nat)
    requires g <= h <= |occupied|
    ensures ColumnsBefore(occupied, g) <= ColumnsBefore(occupied, h)
  {
    if g < h {
      ColumnsBeforeGrows(occupied, g, h - 1);
    }
  }

  /** `occupied.reduce(into:)`: the running total of columns, group by group. */
  method GroupOffsets(occupied: seq<seq<seq<(int, int)>>>) returns (groupOffset: seq<int>)
    ensures |groupOffset| == |occupied|
    ensures forall g :: 0 <= g < |occupied| ==> groupOffset[g] == ColumnsBefore(occupied, g + 1)
  {
    groupOffset := [];
    for g := 0 to |occupied|
      invariant |groupOffset| == g
      invariant forall h :: 0 <= h < g ==> groupOffset[h] == ColumnsBefore(occupied, h + 1)
    {
      var last := if groupOffset == [] then 0 else groupOffset[|groupOffset| - 1];
      groupOffset := groupOffset + [last + |occupied[g]|];
    }
  }

  /** The offset of group `g`: the first column of the groups before it. */
  function OffsetOf(groupOffset: seq<int>, g: int): int
    requires 0 <= g <= |groupOffset|
  {
    if g == 0 then 0 else groupOffset[g - 1]
  }

  /** Every branch holding a column has a group the offset table covers. */
  predicate OffsetsDefined(branches: seq<BranchInfo>, groups: nat) {
    forall i :: 0 <= i < |branches| && branches[i].visual.column.Some? ==> 0 <= branches[i].visual.orderGroup <= groups
  }

  /** `b` with `column` in place of its own. */
  function WithColumn(b: BranchInfo, column: Option<int>): BranchInfo {
    b.(visual := b.visual.(column := column))
  }

  /** `b` with its column, if any, moved right by the offset of its group. */
  function ShiftedBranch(b: BranchInfo, groupOffset: seq<int>): BranchInfo
    requires b.visual.column.Some? ==> 0 <= b.visual.orderGroup <= |groupOffset|
  {
    if b.visual.column.None? then b
    else WithColumn(b, Some(b.visual.column.value + OffsetOf(groupOffset, b.visual.orderGroup)))
  }

  /** Every branch shifted by the offset of its group. */
  function Shifted(bs: seq<BranchInfo>, groupOffset: seq<int>): (r: seq<BranchInfo>)
    requires OffsetsDefined(bs, |groupOffset|)
    ensures |r| == |bs|
  {
    seq(|bs|, i requires 0 <= i < |bs| => ShiftedBranch(bs[i], groupOffset))
  }

  /** The last loop: each column moves right by the offset of its branch's group. */
  method ApplyOffsets(branches: array<BranchInfo>, groupOffset: seq<int>)
    requires OffsetsDefined(branches[..], |groupOffset|)
    modifies branches
    ensures branches[..] == Shifted(old(branches[..]), groupOffset)
  {
    ghost var bs := branches[..];
    for i := 0 to branches.Length
      invariant forall k :: i <= k < branches.Length ==> branches[k] == bs[k]
      invariant forall k :: 0 <= k < i ==> branches[k] == ShiftedBranch(bs[k], groupOffset)
    {
      if branches[i].visual.column.Some? {
        var column := branches[i].visual.column.value;
        assert bs[i] == branches[i];
        var offset := if branches[i].visual.orderGroup == 0 then 0 else groupOffset[branches[i].visual.orderGroup - 1];
        branches[i] := branches[i].(visual := branches[i].visual.(column := Some(column + offset)));
      }
    }
    assert branches[..] == Shifted(bs, groupOffset);
  }

  /**
   * What `assignBranchColumns` needs of its input so that no array access
   * traps: a considered branch's group has a slot in `occupied`, its source
   * and target branches exist, and every column-holding branch has a group
   * the offset table covers.
   */
  predicate ColumnsCallable(branches: seq<BranchInfo>, orderCount: nat) {
    && (forall i :: 0 <= i < |branches| && Considered(branches[i]) ==>
          0 <= branches[i].visual.orderGroup <= orderCount && AlignDefined(branches, branches[i]))
    && OffsetsDefined(branches, orderCount + 1)
  }

  /** Every considered branch has its record among the sorted entries. */
  lemma SortedCoversConsidered(bs: seq<BranchInfo>, orderCount: nat, entries: seq<SortEntry>, shortestFirst: bool, forward: bool, i: int)
    requires entries == SortEntries(Entries(bs, orderCount, |bs|), shortestFirst, forward)
    requires 0 <= i < |bs| && Considered(bs[i])
    ensures exists m :: 0 <= m < |entries| && entries[m].idx == i
  {
    var e := EntryOf(i, bs[i], |bs|, orderCount);
    assert e in multiset(Entries(bs, orderCount, |bs|));
    assert e in multiset(entries);
    var m :| 0 <= m < |entries| && entries[m] == e;
  }

  /** The sorted entries are exactly one per considered branch, each with its own record. */
  predicate EntriesFor(bs: seq<BranchInfo>, orderCount: nat, entries: seq<SortEntry>) {
    && (forall m :: 0 <= m < |entries| ==>
          0 <= entries[m].idx < |bs| && Considered(bs[entries[m].idx])
          && entries[m] == EntryOf(entries[m].idx, bs[entries[m].idx], |bs|, orderCount))
    && (forall i :: 0 <= i < |bs| && Considered(bs[i]) ==> exists m :: 0 <= m < |entries| && entries[m].idx == i)
  }

  lemma SortedEntriesFor(bs: seq<BranchInfo>, orderCount: nat, entries: seq<SortEntry>, shortestFirst: bool, forward: bool)
    requires entries == SortEntries(Entries(bs, orderCount, |bs|), shortestFirst, forward)
    ensures EntriesFor(bs, orderCount, entries)
  {
    forall m | 0 <= m < |entries|
      ensures 0 <= entries[m].idx < |bs| && Considered(bs[entries[m].idx])
      ensures entries[m] == EntryOf(entries[m].idx, bs[entries[m].idx], |bs|, orderCount)
    {
      SortedEntryValid(bs, orderCount, entries, shortestFirst, forward, m);
    }
    forall i | 0 <= i < |bs| && Considered(bs[i])
      ensures exists m :: 0 <= m < |entries| && entries[m].idx == i
    {
      SortedCoversConsidered(bs, orderCount, entries, shortestFirst, forward, i);
    }
  }

  /** A sorted entry names a considered branch, with that branch's record. */
  lemma SortedEntryValid(bs: seq<BranchInfo>, orderCount: nat, entries: seq<SortEntry>, shortestFirst: bool, forward: bool, m: int)
    requires entries == SortEntries(Entries(bs, orderCount, |bs|), shortestFirst, forward)
    requires 0 <= m < |entries|
    ensures 0 <= entries[m].idx < |bs| && Considered(bs[entries[m].idx])
    ensures entries[m] == EntryOf(entries[m].idx, bs[entries[m].idx], |bs|, orderCount)
  {
    assert entries[m] in multiset(entries);
    assert entries[m] in multiset(Entries(bs, orderCount, |bs|));
  }

  /**
   * `assignBranchColumns` as written. `groupOcc` is a copy of an element of
   * the constant `occupied`, so every search sees an empty group: every
   * considered branch lands in column 0, every group offset is 0, and every
   * other branch keeps the column it had.
   */
  method AssignBranchColumnsAsWritten(commits: seq<CommitInfo>, indices: map<Oid, int>, branches: array<BranchInfo>,
                                      orderCount: nat, shortestFirst: bool, forward: bool)
    requires ColumnsCallable(branches[..], orderCount)
    modifies branches
    ensures branches[..] == InColumnZero(old(branches[..]))
  {
    ghost var bs := branches[..];
    var occupied: seq<seq<seq<(int, int)>>> := seq(orderCount + 1, _ => []);
    var branchesSort := SortEntries(Entries(branches[..], orderCount, branches.Length), shortestFirst, forward);
    SortedEntriesFor(bs, orderCount, branchesSort, shortestFirst, forward);
    PlaceBranchesAsWritten(branches, occupied, branchesSort, orderCount, shortestFirst, forward);
    var groupOffset := GroupOffsets(occupied);
    ZeroOffsets(occupied, groupOffset);
    ghost var before := branches[..];
    ApplyOffsets(branches, groupOffset);
    ZeroShiftKeeps(before, groupOffset);
  }

  /** Offsets computed from groups with no columns are all zero. */
  lemma ZeroOffsets(occupied: seq<seq<seq<(int, int)>>>, groupOffset: seq<int>)
    requires forall g :: 0 <= g < |occupied| ==> occupied[g] == []
    requires |groupOffset| == |occupied|
    requires forall g :: 0 <= g < |occupied| ==> groupOffset[g] == ColumnsBefore(occupied, g + 1)
    ensures forall g :: 0 <= g < |groupOffset| ==> groupOffset[g] == 0
  {
    forall g | 0 <= g < |groupOffset|
      ensures groupOffset[g] == 0
    {
      ColumnsBeforeEmpty(occupied, g + 1);
    }
  }

  /** Shifting by zero offsets changes nothing. */
  lemma ZeroShiftKeeps(bs: seq<BranchInfo>, groupOffset: seq<int>)
    requires OffsetsDefined(bs, |groupOffset|)
    requires forall g :: 0 <= g < |groupOffset| ==> groupOffset[g] == 0
    ensures Shifted(bs, groupOffset) == bs
  {
    forall i | 0 <= i < |bs|
      ensures Shifted(bs, groupOffset)[i] == bs[i]
    {
      if bs[i].visual.column.Some? {
        assert OffsetOf(groupOffset, bs[i].visual.orderGroup) == 0;
      }
    }
  }

  /** Every considered branch in column 0, every other branch as it was. */
  function InColumnZero(bs: seq<BranchInfo>): (r: seq<BranchInfo>)
    ensures |r| == |bs|
  {
    seq(|bs|, i requires 0 <= i < |bs| => WithColumn(bs[i], if Considered(bs[i]) then Some(0) else bs[i].visual.column))
  }

  /** The placement loop as written, over groups that are never filled. */
  method PlaceBranchesAsWritten(branches: array<BranchInfo>, occupied: seq<seq<seq<(int, int)>>>, branchesSort: seq<SortEntry>,
                                orderCount: nat, shortestFirst: bool, forward: bool)
    requires ColumnsCallable(branches[..], orderCount)
    requires |occupied| == orderCount + 1 && forall g :: 0 <= g < |occupied| ==> occupied[g] == []
    requires EntriesFor(branches[..], orderCount, branchesSort)
    modifies branches
    ensures branches[..] == InColumnZero(old(branches[..]))
  {
    ghost var bs := branches[..];
    ghost var placed: set<int> := {};
    for k := 0 to |branchesSort|
      invariant forall i :: 0 <= i < branches.Length ==>
        branches[i] == WithColumn(bs[i], if i in placed then Some(0) else bs[i].visual.column)
      invariant forall i :: i in placed ==> 0 <= i < |bs| && Considered(bs[i])
      invariant forall m :: 0 <= m < k ==> branchesSort[m].idx in placed
    {
      var branchData := branchesSort[k];
      var branch := branches[branchData.idx];
      var group := branch.visual.orderGroup;
      var groupOcc := occupied[group];
      assert AlignDefined(bs, bs[branchData.idx]);
      var alignRight := AlignRight(branches[..], branch);
      var found := FindColumn(groupOcc, (branchData.start, branchData.end), alignRight, None);
      branches[branchData.idx] := branch.(visual := branch.visual.(column := Some(found)));
      SortedPlaced(branchesSort, placed, k);
      placed := placed + {branchData.idx};
      if found == |groupOcc| {
        groupOcc := groupOcc + [[]];
      }
      groupOcc := groupOcc[found := groupOcc[found] + [(branchData.start, branchData.end)]];
    }
    assert branches[..] == InColumnZero(bs);
  }

  /** Empty groups hold no columns. */
  lemma {:induction false} ColumnsBeforeEmpty(occupied: seq<seq<seq<(int, int)>>>, g: nat)
    requires g <= |occupied| && forall h :: 0 <= h < |occupied| ==> occupied[h] == []
    ensures ColumnsBefore(occupied, g) == 0
  {
    if g > 0 {
      ColumnsBeforeEmpty(occupied, g - 1);
    }
  }

  /** Branch `b` sits in a column of `occupied` that holds `span`. */
  predicate HoldsSpan(occupied: seq<seq<seq<(int, int)>>>, b: BranchInfo, span: (int, int)) {
    && b.visual.column.Some?
    && 0 <= b.visual.orderGroup < |occupied|
    && 0 <= b.visual.column.value < |occupied[b.visual.orderGroup]|
    && span in occupied[b.visual.orderGroup][b.visual.column.value]
  }

  /** Only the column of a branch differs between `b` and `c`. */
  predicate SameButColumn(b: BranchInfo, c: BranchInfo) {
    c == WithColumn(b, c.visual.column)
  }

  /**
   * The state of the placement loop: only columns change, branches not yet
   * placed are as they were, every placed branch is recorded in its column,
   * and no two placed branches of one group that share a column share a row.
   */
  predicate PlacedSoFar(bs: seq<BranchInfo>, now: seq<BranchInfo>, occupied: seq<seq<seq<(int, int)>>>, placed: set<int>) {
    && |now| == |bs|
    && (forall i :: 0 <= i < |bs| ==> SameButColumn(bs[i], now[i]))
    && (forall i :: 0 <= i < |bs| && i !in placed ==> now[i] == bs[i])
    && (forall i :: i in placed ==> 0 <= i < |bs| && Considered(bs[i]) && HoldsSpan(occupied, now[i], Span(bs, i)))
    && (forall i, j :: i in placed && j in placed && i != j
          && now[i].visual.orderGroup == now[j].visual.orderGroup && now[i].visual.column == now[j].visual.column
          ==> !Overlap(Span(bs, i), Span(bs, j)))
  }

  /** The group after the span is recorded in column `found`, opening that column when it is new. */
  function Record(groupOcc: seq<seq<(int, int)>>, found: int, span: (int, int)): (r: seq<seq<(int, int)>>)
    requires 0 <= found <= |groupOcc|
    ensures |r| == if found == |groupOcc| then |groupOcc| + 1 else |groupOcc|
    ensures span in r[found]
    ensures forall c :: 0 <= c < |groupOcc| ==> forall x :: x in groupOcc[c] ==> x in r[c]
  {
    var grown := if found == |groupOcc| then groupOcc + [[]] else groupOcc;
    grown[found := grown[found] + [span]]
  }

  /** Placing one more branch in a column that does not block its span keeps the loop state. */
  lemma PlaceStep(bs: seq<BranchInfo>, now: seq<BranchInfo>, occupied: seq<seq<seq<(int, int)>>>, placed: set<int>,
                  x: int, found: int)
    requires PlacedSoFar(bs, now, occupied, placed)
    requires 0 <= x < |bs| && Considered(bs[x])
    requires 0 <= now[x].visual.orderGroup < |occupied|
    requires 0 <= found <= |occupied[now[x].visual.orderGroup]|
    requires found < |occupied[now[x].visual.orderGroup]| ==>
      !Blocked(occupied[now[x].visual.orderGroup], found, Span(bs, x), None)
    ensures PlacedSoFar(bs, now[x := WithColumn(now[x], Some(found))],
                        occupied[now[x].visual.orderGroup := Record(occupied[now[x].visual.orderGroup], found, Span(bs, x))],
                        placed + {x})
  {
    var g := now[x].visual.orderGroup;
    var now' := now[x := WithColumn(now[x], Some(found))];
    var occ' := occupied[g := Record(occupied[g], found, Span(bs, x))];
    forall i | i in placed + {x}
      ensures HoldsSpan(occ', now'[i], Span(bs, i))
    {
      if i != x {
        assert HoldsSpan(occupied, now[i], Span(bs, i));
        assert now'[i] == now[i];
      }
    }
    forall i, j | i in placed + {x} && j in placed + {x} && i != j
        && now'[i].visual.orderGroup == now'[j].visual.orderGroup && now'[i].visual.column == now'[j].visual.column
      ensures !Overlap(Span(bs, i), Span(bs, j))
    {
      if i == x {
        assert HoldsSpan(occupied, now[j], Span(bs, j));
      } else if j == x {
        assert HoldsSpan(occupied, now[i], Span(bs, i));
      }
    }
  }

  /**
   * The placement loop with the reference that was meant: each branch is
   * recorded in the group's own columns, so later searches see it.
   */
  method PlaceBranches(commits: seq<CommitInfo>, indices: map<Oid, int>, branches: array<BranchInfo>,
                       branchesSort: seq<SortEntry>, orderCount: nat)
    returns (occupied: seq<seq<seq<(int, int)>>>, ghost placed: set<int>)
    requires ColumnsCallable(branches[..], orderCount)
    requires forall i :: 0 <= i < branches.Length && Considered(branches[i]) ==>
      MergeResolvable(commits, indices, branches.Length, branches[i])
    requires EntriesFor(branches[..], orderCount, branchesSort)
    modifies branches
    ensures |occupied| == orderCount + 1
    ensures PlacedSoFar(old(branches[..]), branches[..], occupied, placed)
    ensures forall i :: 0 <= i < branches.Length && Considered(old(branches[i])) ==> i in placed
  {
    ghost var bs := branches[..];
    occupied := seq(orderCount + 1, _ => []);
    placed := {};
    for k := 0 to |branchesSort|
      invariant |occupied| == orderCount + 1
      invariant PlacedSoFar(bs, branches[..], occupied, placed)
      invariant forall m :: 0 <= m < k ==> branchesSort[m].idx in placed
    {
      var branchData := branchesSort[k];
      ghost var now := branches[..];
      assert SameButColumn(bs[branchData.idx], now[branchData.idx]);
      var branch := branches[branchData.idx];
      var group := branch.visual.orderGroup;
      var groupOcc := occupied[group];
      assert AlignDefined(bs, bs[branchData.idx]);
      var alignRight := AlignRight(branches[..], branch);
      var mergeColumn := if |groupOcc| > 0 then MergeColumn(commits, indices, branches[..], branch) else None;
      var found := FindColumn(groupOcc, (branchData.start, branchData.end), alignRight, mergeColumn);
      ghost var x := branchData.idx;
      assert (branchData.start, branchData.end) == Span(bs, x);
      ghost var now' := now[x := WithColumn(now[x], Some(found))];
      ghost var occupied' := occupied[group := Record(groupOcc, found, Span(bs, x))];
      assert PlacedSoFar(bs, now', occupied', placed + {x}) by {
        PlaceStep(bs, now, occupied, placed, x, found);
      }
      branches[branchData.idx] := branch.(visual := branch.visual.(column := Some(found)));
      ghost var placedBefore := placed;
      placed := placed + {branchData.idx};
      occupied := occupied[group := Record(groupOcc, found, (branchData.start, branchData.end))];
      assert branches[..] == now';
      SortedPlaced(branchesSort, placedBefore, k);
    }
  }

  /** Placing entry `k` extends "every entry before `k` is placed" to entry `k`. */
  lemma SortedPlaced(branchesSort: seq<SortEntry>, placed: set<int>, k: nat)
    requires k < |branchesSort|
    requires forall m :: 0 <= m < k ==> branchesSort[m].idx in placed
    ensures forall m :: 0 <= m < k + 1 ==> branchesSort[m].idx in placed + {branchesSort[k].idx}
  {
  }

  /**
   * What the column assignment promises: only columns change, every
   * considered branch gets one, two considered branches that share a final
   * column never share a row, and every other branch keeps having or not
   * having a column, moved right if anything.
   */
  predicate ColumnsAssigned(bs: seq<BranchInfo>, after: seq<BranchInfo>) {
    && |after| == |bs|
    && (forall i :: 0 <= i < |bs| ==> SameButColumn(bs[i], after[i]))
    && (forall i :: 0 <= i < |bs| && Considered(bs[i]) ==> after[i].visual.column.Some? && after[i].visual.column.value >= 0)
    && (forall i, j :: 0 <= i < |bs| && 0 <= j < |bs| && i != j && Considered(bs[i]) && Considered(bs[j])
          && after[i].visual.column == after[j].visual.column
          ==> !Overlap(Span(bs, i), Span(bs, j)))
    && (forall i :: 0 <= i < |bs| && !Considered(bs[i]) ==>
          after[i].visual.column.Some? == bs[i].visual.column.Some?
          && (bs[i].visual.column.Some? ==> after[i].visual.column.value >= bs[i].visual.column.value))
  }

  /**
   * How the final loop lays the groups side by side: the offsets grow from
   * group to group; a branch the placement did not consider and that holds a
   * column is moved right by exactly its group's offset (group 0 by nothing);
   * a considered branch ends in its group's band `[offset of g, groupOffset[g])`.
   */
  predicate ShiftedByGroups(bs: seq<BranchInfo>, after: seq<BranchInfo>, groupOffset: seq<int>) {
    && |after| == |bs|
    && (forall g, h :: 0 <= g <= h < |groupOffset| ==> 0 <= groupOffset[g] <= groupOffset[h])
    && (forall i :: 0 <= i < |bs| && !Considered(bs[i]) && bs[i].visual.column.Some? ==>
          && 0 <= bs[i].visual.orderGroup <= |groupOffset|
          && after[i].visual.column == Some(bs[i].visual.column.value + OffsetOf(groupOffset, bs[i].visual.orderGroup)))
    && (forall i :: 0 <= i < |bs| && Considered(bs[i]) ==>
          && 0 <= bs[i].visual.orderGroup < |groupOffset|
          && after[i].visual.column.Some?
          && OffsetOf(groupOffset, bs[i].visual.orderGroup) <= after[i].visual.column.value < groupOffset[bs[i].visual.orderGroup])
  }

  /** The shift applied after the placement is the one `ShiftedByGroups` describes. */
  lemma ShiftByGroups(bs: seq<BranchInfo>, now: seq<BranchInfo>, occupied: seq<seq<seq<(int, int)>>>,
                      placed: set<int>, groupOffset: seq<int>)
    requires PlacedSoFar(bs, now, occupied, placed)
    requires forall i :: 0 <= i < |bs| && Considered(bs[i]) ==> i in placed
    requires OffsetsDefined(now, |groupOffset|)
    requires |groupOffset| == |occupied|
    requires forall g :: 0 <= g < |occupied| ==> groupOffset[g] == ColumnsBefore(occupied, g + 1)
    ensures ShiftedByGroups(bs, Shifted(now, groupOffset), groupOffset)
  {
    var after := Shifted(now, groupOffset);
    forall g, h | 0 <= g <= h < |groupOffset|
      ensures 0 <= groupOffset[g] <= groupOffset[h]
    {
      ColumnsBeforeGrows(occupied, g + 1, h + 1);
    }
    forall i | 0 <= i < |bs| && !Considered(bs[i]) && bs[i].visual.column.Some?
      ensures 0 <= bs[i].visual.orderGroup <= |groupOffset|
      ensures after[i].visual.column == Some(bs[i].visual.column.value + OffsetOf(groupOffset, bs[i].visual.orderGroup))
    {
      assert i !in placed;
      assert now[i] == bs[i];
    }
    forall i | 0 <= i < |bs| && Considered(bs[i])
      ensures 0 <= bs[i].visual.orderGroup < |groupOffset|
      ensures after[i].visual.column.Some?
      ensures OffsetOf(groupOffset, bs[i].visual.orderGroup) <= after[i].visual.column.value < groupOffset[bs[i].visual.orderGroup]
    {
      assert HoldsSpan(occupied, now[i], Span(bs, i));
      assert SameButColumn(bs[i], now[i]);
      var g := now[i].visual.orderGroup;
      assert OffsetOf(groupOffset, g) == ColumnsBefore(occupied, g);
    }
  }

  /**
   * Laying the groups side by side keeps the placement's separation: a
   * branch of group `g` ends in a column of `[ColumnsBefore(g), ColumnsBefore(g + 1))`,
   * so branches of different groups never share a final column.
   */
  lemma {:induction false} ShiftSeparates(bs: seq<BranchInfo>, now: seq<BranchInfo>, occupied: seq<seq<seq<(int, int)>>>,
                                          placed: set<int>, groupOffset: seq<int>)
    requires PlacedSoFar(bs, now, occupied, placed)
    requires forall i :: 0 <= i < |bs| && Considered(bs[i]) ==> i in placed
    requires OffsetsDefined(now, |groupOffset|)
    requires |groupOffset| == |occupied|
    requires forall g :: 0 <= g < |occupied| ==> groupOffset[g] == ColumnsBefore(occupied, g + 1)
    ensures ColumnsAssigned(bs, Shifted(now, groupOffset))
  {
    var after := Shifted(now, groupOffset);
    forall i | 0 <= i < |bs| && Considered(bs[i])
      ensures after[i].visual.column.Some?
      ensures ColumnsBefore(occupied, now[i].visual.orderGroup) <= after[i].visual.column.value
                < ColumnsBefore(occupied, now[i].visual.orderGroup + 1)
    {
      assert HoldsSpan(occupied, now[i], Span(bs, i));
      var g := now[i].visual.orderGroup;
      assert OffsetOf(groupOffset, g) == ColumnsBefore(occupied, g);
    }
    forall i | 0 <= i < |bs|
      ensures SameButColumn(bs[i], after[i])
      ensures !Considered(bs[i]) ==>
          after[i].visual.column.Some? == bs[i].visual.column.Some?
          && (bs[i].visual.column.Some? ==> after[i].visual.column.value >= bs[i].visual.column.value)
    {
      assert SameButColumn(bs[i], now[i]);
      if now[i].visual.column.Some? {
        var g := now[i].visual.orderGroup;
        if g > 0 {
          assert OffsetOf(groupOffset, g) == ColumnsBefore(occupied, g);
        }
      }
    }
    forall i, j | 0 <= i < |bs| && 0 <= j < |bs| && i != j && Considered(bs[i]) && Considered(bs[j])
        && after[i].visual.column == after[j].visual.column
      ensures !Overlap(Span(bs, i), Span(bs, j))
    {
      var gi, gj := now[i].visual.orderGroup, now[j].visual.orderGroup;
      if gi < gj {
        ColumnsBeforeGrows(occupied, gi + 1, gj);
      } else if gj < gi {
        ColumnsBeforeGrows(occupied, gj + 1, gi);
      } else {
        assert OffsetOf(groupOffset, gi) == OffsetOf(groupOffset, gj);
      }
    }
  }

  /**
   * `assignBranchColumns` with `groupOcc` written back into `occupied`
   * after each placement, as the column search evidently intends.
   */
  method AssignBranchColumns(commits: seq<CommitInfo>, indices: map<Oid, int>, branches: array<BranchInfo>,
                             orderCount: nat, shortestFirst: bool, forward: bool)
    returns (ghost offsets: seq<int>)
    requires ColumnsCallable(branches[..], orderCount)
    requires forall i :: 0 <= i < branches.Length && Considered(branches[i]) ==>
      MergeResolvable(commits, indices, branches.Length, branches[i])
    modifies branches
    ensures ColumnsAssigned(old(branches[..]), branches[..])
    ensures |offsets| == orderCount + 1 && ShiftedByGroups(old(branches[..]), branches[..], offsets)
  {
    ghost var bs := branches[..];
    var branchesSort := SortEntries(Entries(branches[..], orderCount, branches.Length), shortestFirst, forward);
    SortedEntriesFor(bs, orderCount, branchesSort, shortestFirst, forward);
    var occupied, placed := PlaceBranches(commits, indices, branches, branchesSort, orderCount);
    var groupOffset := GroupOffsets(occupied);
    ghost var before := branches[..];
    assert OffsetsDefined(before, |groupOffset|) by {
      forall i | 0 <= i < |before| && before[i].visual.column.Some?
        ensures 0 <= before[i].visual.orderGroup <= |groupOffset|
      {
        assert SameButColumn(bs[i], before[i]);
      }
    }
    ApplyOffsets(branches, groupOffset);
    ShiftSeparates(bs, before, occupied, placed, groupOffset);
    ShiftByGroups(bs, before, occupied, placed, groupOffset);
    offsets := groupOffset;
  }

  /** As written, two considered branches of one group whose rows meet end up in the same column. */
  lemma AsWrittenStacksOverlaps(bs: seq<BranchInfo>, i: int, j: int)
    requires 0 <= i < |bs| && 0 <= j < |bs| && i != j && Considered(bs[i]) && Considered(bs[j])
    requires Overlap(Span(bs, i), Span(bs, j))
    ensures InColumnZero(bs)[i].visual.column == InColumnZero(bs)[j].visual.column == Some(0)
    ensures !ColumnsAssigned(bs, InColumnZero(bs))
  {
    var after := InColumnZero(bs);
    assert after[i].visual.column == after[j].visual.column;
  }
}
