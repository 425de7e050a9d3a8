/**
 * Commit-graph bookkeeping: the commits in walk order with their parents,
 * children and branch trace, and the branches found in the repository. This
 * module holds the passes that link children to parents, number the branches
 * and compact that numbering, and the pattern lookups for a branch's order
 * group and colour. Commits and branches are Swift value types, so a commit
 * or a branch is a datatype here, and an `inout` array of them is an `array`
 * whose elements are replaced.
 */
module GitGraphs {
  import opened Wrappers
  import RefStore
  import References

  type Oid = RefStore.Oid

  datatype CommitInfo = CommitInfo(
    oid: Oid,
    parents: seq<Oid>,
    children: seq<Oid>,
    branches: seq<int>,
    tags: seq<int>,
    branchTrace: Option<int>)

  datatype BranchVis = BranchVis(
    orderGroup: int,
    targetOrderGroup: Option<int>,
    sourceOrderGroup: Option<int>,
    column: Option<int>)

  datatype BranchInfo = BranchInfo(
    target: Oid,
    mergeTarget: Option<Oid>,
    sourceBranch: Option<int>,
    targetBranch: Option<int>,
    name: string,
    isMerged: bool,
    isTag: bool,
    visual: BranchVis,
    spanStart: Option<int>,
    spanEnd: Option<int>)

  // ---------------------------------------------------------------------
  // assignChildren

  /** `child` once for every entry of `parents` that `indices` maps to commit `p`. */
  function ParentHits(child: Oid, parents: seq<Oid>, indices: map<Oid, int>, p: int): seq<Oid> {
    if parents == [] then []
    else
      var q := parents[|parents| - 1];
      ParentHits(child, parents[..|parents| - 1], indices, p) + (if q in indices && indices[q] == p then [child] else [])
  }

  /** The children the first `k` commits add to commit `p`, in commit order. */
  function NewChildren(cs: seq<CommitInfo>, indices: map<Oid, int>, p: int, k: nat): seq<Oid>
    requires k <= |cs|
  {
    if k == 0 then []
    else NewChildren(cs, indices, p, k - 1) + ParentHits(cs[k - 1].oid, cs[k - 1].parents, indices, p)
  }

  /** Every parent OID that `indices` knows names a position of the commit array. */
  predicate ParentsIndexed(cs: seq<CommitInfo>, indices: map<Oid, int>) {
    forall i, j :: 0 <= i < |cs| && 0 <= j < |cs[i].parents| && cs[i].parents[j] in indices ==>
      0 <= indices[cs[i].parents[j]] < |cs|
  }

  lemma {:induction false} ParentHitsMembers(child: Oid, parents: seq<Oid>, indices: map<Oid, int>, p: int)
    ensures forall x :: x in ParentHits(child, parents, indices, p) <==>
      x == child && exists j :: 0 <= j < |parents| && parents[j] in indices && indices[parents[j]] == p
  {
    if parents != [] {
      var init := parents[..|parents| - 1];
      ParentHitsMembers(child, init, indices, p);
      assert forall j :: 0 <= j < |init| ==> init[j] == parents[j];
    }
  }

  /**
   * Commit `p` gains `x` as a child exactly when some commit with OID `x`
   * lists, among its parents, an OID that `indices` maps to `p`; parents that
   * `indices` does not know contribute nothing.
   */
  lemma {:induction false} NewChildrenMembers(cs: seq<CommitInfo>, indices: map<Oid, int>, p: int, k: nat)
    requires k <= |cs|
    ensures forall x :: x in NewChildren(cs, indices, p, k) <==>
      exists i, j :: 0 <= i < k && 0 <= j < |cs[i].parents| && cs[i].oid == x &&
        cs[i].parents[j] in indices && indices[cs[i].parents[j]] == p
  {
    if k > 0 {
      NewChildrenMembers(cs, indices, p, k - 1);
      ParentHitsMembers(cs[k - 1].oid, cs[k - 1].parents, indices, p);
    }
  }

  /**
   * The commits once the first `idx` commits, and the parents `ps` of the
   * commit with OID `oid`, have been processed.
   */
  function ChildrenSoFar(cs: seq<CommitInfo>, indices: map<Oid, int>, idx: nat, oid: Oid, ps: seq<Oid>): (r: seq<CommitInfo>)
    requires idx <= |cs|
    ensures |r| == |cs|
  {
    seq(|cs|, p requires 0 <= p < |cs| =>
      cs[p].(children := cs[p].children + NewChildren(cs, indices, p, idx) + ParentHits(oid, ps, indices, p)))
  }

  /** Processing one more parent appends `oid` to the children of the commit it names, if any. */
  lemma ChildrenSoFarStep(cs: seq<CommitInfo>, indices: map<Oid, int>, idx: nat, oid: Oid, ps: seq<Oid>, q: Oid)
    requires idx <= |cs|
    requires q in indices ==> 0 <= indices[q] < |cs|
    ensures var before := ChildrenSoFar(cs, indices, idx, oid, ps);
      ChildrenSoFar(cs, indices, idx, oid, ps + [q]) ==
        if q in indices then before[indices[q] := before[indices[q]].(children := before[indices[q]].children + [oid])]
        else before
  {
    var before := ChildrenSoFar(cs, indices, idx, oid, ps);
    var after := ChildrenSoFar(cs, indices, idx, oid, ps + [q]);
    var expected := if q in indices then before[indices[q] := before[indices[q]].(children := before[indices[q]].children + [oid])]
      else before;
    assert (ps + [q])[..|ps|] == ps;
    forall p | 0 <= p < |cs|
      ensures after[p] == expected[p]
    {
      assert ParentHits(oid, ps + [q], indices, p) ==
        ParentHits(oid, ps, indices, p) + (if q in indices && indices[q] == p then [oid] else []);
    }
  }

  /** Having processed every parent of commit `idx` is having processed `idx + 1` commits. */
  lemma ChildrenSoFarNext(cs: seq<CommitInfo>, indices: map<Oid, int>, idx: nat)
    requires idx < |cs|
    ensures ChildrenSoFar(cs, indices, idx, cs[idx].oid, cs[idx].parents) == ChildrenSoFar(cs, indices, idx + 1, RefStore.ZeroOid, [])
  {
    var before := ChildrenSoFar(cs, indices, idx, cs[idx].oid, cs[idx].parents);
    var after := ChildrenSoFar(cs, indices, idx + 1, RefStore.ZeroOid, []);
    forall p | 0 <= p < |cs|
      ensures before[p] == after[p]
    {
      assert NewChildren(cs, indices, p, idx + 1) ==
        NewChildren(cs, indices, p, idx) + ParentHits(cs[idx].oid, cs[idx].parents, indices, p);
    }
  }

  /** `assignChildren`: each commit's OID is appended to the children of each of its known parents. */
  method AssignChildren(commits: array<CommitInfo>, indices: map<Oid, int>)
    requires ParentsIndexed(commits[..], indices)
    modifies commits
    ensures forall p :: 0 <= p < commits.Length ==>
      commits[p] == old(commits[p]).(children := old(commits[p].children) + NewChildren(old(commits[..]), indices, p, commits.Length))
  {
    ghost var cs := commits[..];
    ChildrenSoFarStart(cs, indices);
    for idx := 0 to commits.Length
      invariant commits[..] == ChildrenSoFar(cs, indices, idx, RefStore.ZeroOid, [])
    {
      var oid := commits[idx].oid;
      var parents := commits[idx].parents;
      assert oid == cs[idx].oid && parents == cs[idx].parents;
      ChildrenSoFarEmpty(cs, indices, idx, RefStore.ZeroOid, oid);
      AppendToParents(commits, cs, indices, idx, oid, parents);
      ChildrenSoFarNext(cs, indices, idx);
    }
  }

  /** The inner loop of `assignChildren`: `oid` joins the children of each known parent. */
  method AppendToParents(commits: array<CommitInfo>, ghost cs: seq<CommitInfo>, indices: map<Oid, int>,
                         idx: nat, oid: Oid, parents: seq<Oid>)
    requires idx < |cs| && parents == cs[idx].parents && ParentsIndexed(cs, indices)
    requires commits[..] == ChildrenSoFar(cs, indices, idx, oid, [])
    modifies commits
    ensures commits[..] == ChildrenSoFar(cs, indices, idx, oid, parents)
  {
    for j := 0 to |parents|
      invariant commits[..] == ChildrenSoFar(cs, indices, idx, oid, parents[..j])
    {
      var parentOid := parents[j];
      ChildrenSoFarStep(cs, indices, idx, oid, parents[..j], parentOid);
      assert parents[..j + 1] == parents[..j] + [parentOid];
      if parentOid in indices {
        var parentIdx := indices[parentOid];
        commits[parentIdx] := commits[parentIdx].(children := commits[parentIdx].children + [oid]);
      }
    }
    assert parents[..|parents|] == parents;
  }

  /** Before the walk, no commit has gained a child. */
  lemma ChildrenSoFarStart(cs: seq<CommitInfo>, indices: map<Oid, int>)
    ensures ChildrenSoFar(cs, indices, 0, RefStore.ZeroOid, []) == cs
  {
    var r := ChildrenSoFar(cs, indices, 0, RefStore.ZeroOid, []);
    forall p | 0 <= p < |cs|
      ensures r[p] == cs[p]
    {
      assert cs[p].children + [] + [] == cs[p].children;
    }
  }

  /** With no parents processed, the OID being added plays no part. */
  lemma ChildrenSoFarEmpty(cs: seq<CommitInfo>, indices: map<Oid, int>, idx: nat, a: Oid, b: Oid)
    requires idx <= |cs|
    ensures ChildrenSoFar(cs, indices, idx, a, []) == ChildrenSoFar(cs, indices, idx, b, [])
  {
  }

  // ---------------------------------------------------------------------
  // The numbering and compaction passes of assignBranches

  /** How many of the first `i` entries of `indexMap` are mapped. */
  function MappedBefore(indexMap: seq<Option<int>>, i: nat): (n: nat)
    requires i <= |indexMap|
    ensures n <= i
  {
    if i == 0 then 0 else MappedBefore(indexMap, i - 1) + (if indexMap[i - 1].Some? then 1 else 0)
  }

  /** The mapped entries carry 0, 1, 2, … in order: the numbering the first pass hands out. */
  predicate Numbered(indexMap: seq<Option<int>>) {
    forall i :: 0 <= i < |indexMap| && indexMap[i].Some? ==> indexMap[i].value == MappedBefore(indexMap, i)
  }

  /**
   * The numbering of the first pass of `assignBranches`: `mapped[i]` says
   * whether branch `i` has a known target commit and either claimed commits
   * while being traced or is not merged. Tracing itself is not modelled.
   */
  method NumberBranches(mapped: seq<bool>) returns (indexMap: seq<Option<int>>)
    ensures |indexMap| == |mapped| && Numbered(indexMap)
    ensures forall i :: 0 <= i < |mapped| ==> (indexMap[i].Some? <==> mapped[i])
  {
    var branchIdx := 0;
    indexMap := seq(|mapped|, _ => None);
    for oldIdx := 0 to |mapped|
      invariant |indexMap| == |mapped|
      invariant forall i :: oldIdx <= i < |mapped| ==> indexMap[i].None?
      invariant forall i :: 0 <= i < oldIdx ==> (indexMap[i].Some? <==> mapped[i])
      invariant branchIdx == MappedBefore(indexMap, oldIdx)
      invariant forall i :: 0 <= i < oldIdx && indexMap[i].Some? ==> indexMap[i].value == MappedBefore(indexMap, i)
    {
      ghost var before := indexMap;
      if mapped[oldIdx] {
        branchIdx := branchIdx + 1;
        indexMap := indexMap[oldIdx := Some(branchIdx - 1)];
      }
      MappedBeforeUnchanged(before, indexMap, oldIdx);
    }
  }

  /** Counting over a prefix only looks at that prefix. */
  lemma {:induction false} MappedBeforeUnchanged(a: seq<Option<int>>, b: seq<Option<int>>, n: nat)
    requires n <= |a| && n <= |b|
    requires forall i :: 0 <= i < n ==> a[i] == b[i]
    ensures forall i :: 0 <= i <= n ==> MappedBefore(a, i) == MappedBefore(b, i)
  {
    if n > 0 {
      MappedBeforeUnchanged(a, b, n - 1);
    }
  }

  /** The number of commits whose branch trace is `b`. */
  function TraceCount(cs: seq<CommitInfo>, b: int): (n: nat)
    ensures n <= |cs|
    ensures n == 0 <==> forall i :: 0 <= i < |cs| ==> cs[i].branchTrace != Some(b)
  {
    if cs == [] then 0
    else TraceCount(cs[..|cs| - 1], b) + (if cs[|cs| - 1].branchTrace == Some(b) then 1 else 0)
  }

  /** Every commit's trace, when it has one, names a branch. */
  predicate TracesInRange(cs: seq<CommitInfo>, branchCount: int) {
    forall i :: 0 <= i < |cs| && cs[i].branchTrace.Some? ==> 0 <= cs[i].branchTrace.value < branchCount
  }

  /** The commit-counting loop of `assignBranches`. */
  method CountCommits(commits: array<CommitInfo>, branchCount: nat) returns (commitCount: seq<int>)
    requires TracesInRange(commits[..], branchCount)
    ensures |commitCount| == branchCount
    ensures forall b :: 0 <= b < branchCount ==> commitCount[b] == TraceCount(commits[..], b)
  {
    commitCount := seq(branchCount, _ => 0);
    for i := 0 to commits.Length
      invariant |commitCount| == branchCount
      invariant forall b :: 0 <= b < branchCount ==> commitCount[b] == TraceCount(commits[..i], b)
    {
      assert commits[..i + 1][..i] == commits[..i];
      var info := commits[i];
      if info.branchTrace.Some? {
        var trace := info.branchTrace.value;
        commitCount := commitCount[trace := commitCount[trace] + 1];
      }
    }
    assert commits[..commits.Length] == commits[..];
  }

  /** The second pass drops a mapped branch that is merged, not a tag, and has no commit traced to it. */
  predicate Skipped(count: int, branch: BranchInfo) {
    count == 0 && branch.isMerged && !branch.isTag
  }

  /**
   * With counts from `CountCommits`, the second pass drops exactly the mapped
   * branches that are merged, not tags and carry no commit, so a commit traced
   * to a mapped branch never loses its trace.
   */
  lemma SkippedOnlyEmpty(cs: seq<CommitInfo>, indexMap: seq<Option<int>>, commitCount: seq<int>, branches: seq<BranchInfo>, b: int)
    requires |indexMap| == |commitCount| == |branches|
    requires forall x :: 0 <= x < |commitCount| ==> commitCount[x] == TraceCount(cs, x)
    requires 0 <= b < |indexMap| && indexMap[b].Some?
    ensures Compacted(indexMap, commitCount, branches)[b].None? <==>
              (forall i :: 0 <= i < |cs| ==> cs[i].branchTrace != Some(b)) && branches[b].isMerged && !branches[b].isTag
    ensures forall i :: 0 <= i < |cs| && cs[i].branchTrace == Some(b) ==> Compacted(indexMap, commitCount, branches)[b].Some?
  {
  }

  /** How many mapped branches before `i` the second pass drops. */
  function SkippedBefore(indexMap: seq<Option<int>>, commitCount: seq<int>, branches: seq<BranchInfo>, i: nat): (n: nat)
    requires i <= |indexMap| == |commitCount| == |branches|
    ensures n <= MappedBefore(indexMap, i)
  {
    if i == 0 then 0
    else
      SkippedBefore(indexMap, commitCount, branches, i - 1) +
        (if indexMap[i - 1].Some? && Skipped(commitCount[i - 1], branches[i - 1]) then 1 else 0)
  }

  /**
   * The mapping after the second pass: a dropped branch loses its entry,
   * every other mapped branch moves down by the number of dropped branches
   * before it, and unmapped branches stay unmapped.
   */
  function Compacted(indexMap: seq<Option<int>>, commitCount: seq<int>, branches: seq<BranchInfo>): (r: seq<Option<int>>)
    requires |indexMap| == |commitCount| == |branches|
    ensures |r| == |indexMap|
  {
    seq(|indexMap|, i requires 0 <= i < |indexMap| =>
      if indexMap[i].None? || Skipped(commitCount[i], branches[i]) then None
      else Some(indexMap[i].value - SkippedBefore(indexMap, commitCount, branches, i)))
  }

  /** The second pass of `assignBranches`, with its `countSkipped` counter. */
  method CompactMapping(indexMap: seq<Option<int>>, commitCount: seq<int>, branches: seq<BranchInfo>)
    returns (adjusted: seq<Option<int>>)
    requires |indexMap| == |commitCount| == |branches|
    ensures adjusted == Compacted(indexMap, commitCount, branches)
  {
    adjusted := indexMap;
    var countSkipped := 0;
    for idx := 0 to |branches|
      invariant |adjusted| == |indexMap|
      invariant countSkipped == SkippedBefore(indexMap, commitCount, branches, idx)
      invariant forall i :: 0 <= i < idx ==> adjusted[i] == Compacted(indexMap, commitCount, branches)[i]
      invariant forall i :: idx <= i < |indexMap| ==> adjusted[i] == indexMap[i]
    {
      if adjusted[idx].Some? {
        var mapped := adjusted[idx].value;
        if commitCount[idx] == 0 && branches[idx].isMerged && !branches[idx].isTag {
          adjusted := adjusted[idx := None];
          countSkipped := countSkipped + 1;
        } else {
          adjusted := adjusted[idx := Some(mapped - countSkipped)];
        }
      }
    }
  }

  /** Compacting a numbering leaves a numbering: the surviving branches are renumbered 0, 1, 2, … */
  lemma {:induction false} CompactedNumbered(indexMap: seq<Option<int>>, commitCount: seq<int>, branches: seq<BranchInfo>)
    requires |indexMap| == |commitCount| == |branches|
    requires Numbered(indexMap)
    ensures Numbered(Compacted(indexMap, commitCount, branches))
  {
    var c := Compacted(indexMap, commitCount, branches);
    forall i | 0 <= i < |c| && c[i].Some?
      ensures c[i].value == MappedBefore(c, i)
    {
      CompactedCount(indexMap, commitCount, branches, i);
    }
  }

  /** Before any position, the surviving entries number the mapped ones less the dropped ones. */
  lemma {:induction false} CompactedCount(indexMap: seq<Option<int>>, commitCount: seq<int>, branches: seq<BranchInfo>, n: nat)
    requires n <= |indexMap| == |commitCount| == |branches|
    ensures MappedBefore(Compacted(indexMap, commitCount, branches), n)
              == MappedBefore(indexMap, n) - SkippedBefore(indexMap, commitCount, branches, n)
  {
    if n > 0 {
      CompactedCount(indexMap, commitCount, branches, n - 1);
      var c := Compacted(indexMap, commitCount, branches);
      assert c[n - 1].Some? <==> indexMap[n - 1].Some? && !Skipped(commitCount[n - 1], branches[n - 1]);
    }
  }

  /** `compactMap { indexMap[$0] }`: the new numbers of the listed branches that survive, in order. */
  function CompactMap(xs: seq<int>, indexMap: seq<Option<int>>): (r: seq<int>)
    requires forall k :: 0 <= k < |xs| ==> 0 <= xs[k] < |indexMap|
    ensures |r| <= |xs|
    ensures forall y :: y in r <==> exists k :: 0 <= k < |xs| && indexMap[xs[k]] == Some(y)
  {
    if xs == [] then []
    else
      var init := xs[..|xs| - 1];
      var m := indexMap[xs[|xs| - 1]];
      assert forall k :: 0 <= k < |init| ==> init[k] == xs[k];
      CompactMap(init, indexMap) + (if m.Some? then [m.value] else [])
  }

  /** A commit's branch and tag lists and its trace all point into `branches`. */
  predicate CommitRefsInRange(c: CommitInfo, n: int) {
    && (c.branchTrace.Some? ==> 0 <= c.branchTrace.value < n)
    && (forall k :: 0 <= k < |c.branches| ==> 0 <= c.branches[k] < n)
    && (forall k :: 0 <= k < |c.tags| ==> 0 <= c.tags[k] < n)
  }

  /** A traced commit after renumbering; an untraced commit is left as it was. */
  function Renumbered(c: CommitInfo, indexMap: seq<Option<int>>): (r: CommitInfo)
    requires CommitRefsInRange(c, |indexMap|)
    ensures c.branchTrace.None? ==> r == c
    ensures r.oid == c.oid && r.parents == c.parents && r.children == c.children
    ensures c.branchTrace.Some? ==>
      && r.branchTrace == indexMap[c.branchTrace.value]
      && (forall y :: y in r.branches <==> exists k :: 0 <= k < |c.branches| && indexMap[c.branches[k]] == Some(y))
      && (forall y :: y in r.tags <==> exists k :: 0 <= k < |c.tags| && indexMap[c.tags[k]] == Some(y))
  {
    if c.branchTrace.None? then c
    else c.(branchTrace := indexMap[c.branchTrace.value],
            branches := CompactMap(c.branches, indexMap),
            tags := CompactMap(c.tags, indexMap))
  }

  /** The "update commit branch references" loop of `assignBranches`. */
  method RenumberCommits(commits: array<CommitInfo>, indexMap: seq<Option<int>>)
    requires forall i :: 0 <= i < commits.Length ==> CommitRefsInRange(commits[i], |indexMap|)
    modifies commits
    ensures forall i :: 0 <= i < commits.Length ==> commits[i] == Renumbered(old(commits[i]), indexMap)
  {
    for idx := 0 to commits.Length
      invariant forall i :: 0 <= i < idx ==> commits[i] == Renumbered(old(commits[i]), indexMap)
      invariant forall i :: idx <= i < commits.Length ==> commits[i] == old(commits[i])
    {
      RenumberCommit(commits, idx, indexMap);
    }
  }

  /** One step of that loop: commit `idx` takes its new trace and branch and tag numbers. */
  method RenumberCommit(commits: array<CommitInfo>, idx: nat, indexMap: seq<Option<int>>)
    requires idx < commits.Length && CommitRefsInRange(commits[idx], |indexMap|)
    modifies commits
    ensures commits[idx] == Renumbered(old(commits[idx]), indexMap)
    ensures forall i :: 0 <= i < commits.Length && i != idx ==> commits[i] == old(commits[i])
  {
    var info := commits[idx];
    if info.branchTrace.Some? {
      var trace := info.branchTrace.value;
      var branches := CompactMap(info.branches, indexMap);
      var tags := CompactMap(info.tags, indexMap);
      commits[idx] := info.(branchTrace := indexMap[trace], branches := branches, tags := tags);
    }
  }

  /** The branches `assignBranches` returns: those with a mapping entry, in their original order. */
  function KeptBranches(branches: seq<BranchInfo>, indexMap: seq<Option<int>>): (r: seq<BranchInfo>)
    requires |branches| == |indexMap|
    ensures |r| == MappedBefore(indexMap, |indexMap|)
    ensures forall b :: b in r ==> exists i :: 0 <= i < |branches| && indexMap[i].Some? && branches[i] == b
  {
    if branches == [] then []
    else
      var n := |branches| - 1;
      var init := KeptBranches(branches[..n], indexMap[..n]);
      MappedBeforePrefix(indexMap, n);
      init + (if indexMap[n].Some? then [branches[n]] else [])
  }

  /** Counting within a prefix gives the same as counting within the whole. */
  lemma {:induction false} MappedBeforePrefix(indexMap: seq<Option<int>>, n: nat)
    requires n <= |indexMap|
    ensures forall i :: 0 <= i <= n ==> MappedBefore(indexMap[..n], i) == MappedBefore(indexMap, i)
  {
    MappedBeforeUnchanged(indexMap[..n], indexMap, n);
  }

  /** Under a numbering, a branch's number is its position among the returned branches. */
  lemma {:induction false} NumberIsPosition(branches: seq<BranchInfo>, indexMap: seq<Option<int>>)
    requires |branches| == |indexMap| && Numbered(indexMap)
    ensures forall i :: 0 <= i < |indexMap| && indexMap[i].Some? ==>
      indexMap[i].value < |KeptBranches(branches, indexMap)| &&
      KeptBranches(branches, indexMap)[indexMap[i].value] == branches[i]
  {
    if branches != [] {
      var n := |branches| - 1;
      MappedBeforePrefix(indexMap, n);
      assert Numbered(indexMap[..n]);
      NumberIsPosition(branches[..n], indexMap[..n]);
      forall i | 0 <= i < |indexMap| && indexMap[i].Some?
        ensures indexMap[i].value < |KeptBranches(branches, indexMap)|
        ensures KeptBranches(branches, indexMap)[indexMap[i].value] == branches[i]
      {
        MappedBeforeLess(indexMap, i, |indexMap|);
        if i < n {
          assert indexMap[..n][i] == indexMap[i];
          assert branches[..n][i] == branches[i];
        }
      }
    }
  }

  /** A mapped entry is counted before every later position. */
  lemma {:induction false} MappedBeforeLess(indexMap: seq<Option<int>>, i: nat, j: nat)
    requires i < j <= |indexMap| && indexMap[i].Some?
    ensures MappedBefore(indexMap, i) < MappedBefore(indexMap, j)
  {
    if j > i + 1 {
      MappedBeforeLess(indexMap, i, j - 1);
    }
  }

  /**
   * The whole compaction: after numbering and compacting, each surviving
   * branch's new number is its position in the returned list, so a commit
   * traced to branch `b` is traced, after renumbering, to that branch.
   */
  lemma CompactionKeepsTraces(branches: seq<BranchInfo>, indexMap: seq<Option<int>>, commitCount: seq<int>, b: int)
    requires |branches| == |indexMap| == |commitCount| && Numbered(indexMap)
    requires 0 <= b < |branches|
    ensures var final := Compacted(indexMap, commitCount, branches);
      final[b].Some? ==>
        final[b].value < |KeptBranches(branches, final)| && KeptBranches(branches, final)[final[b].value] == branches[b]
  {
    CompactedNumbered(indexMap, commitCount, branches);
    NumberIsPosition(branches, Compacted(indexMap, commitCount, branches));
  }

  // ---------------------------------------------------------------------
  // branchOrder and branchColor. Regular-expression matching is the
  // parameter `matches`: whether a pattern finds a match in a name.

  const Origin: string := "origin/"

  /** The name a pattern is matched against: without `origin/`, when it starts with that. */
  function MatchedName(name: string): (r: string)
    ensures References.HasPrefix(name, Origin) ==> name == Origin + r
    ensures !References.HasPrefix(name, Origin) ==> r == name
  {
    if References.HasPrefix(name, Origin) then name[|Origin|..] else name
  }

  /** `branchOrder`: the index of the first pattern that matches, or the number of patterns. */
  function BranchOrder<P>(name: string, patterns: seq<P>, matches: (P, string) -> bool): (r: nat)
    ensures r <= |patterns|
    ensures r < |patterns| ==> matches(patterns[r], MatchedName(name))
    ensures forall k :: 0 <= k < r ==> !matches(patterns[k], MatchedName(name))
  {
    if patterns == [] then 0
    else
      var init := BranchOrder(name, patterns[..|patterns| - 1], matches);
      if init < |patterns| - 1 then init
      else if matches(patterns[|patterns| - 1], MatchedName(name)) then |patterns| - 1
      else |patterns|
  }

  /** A remote branch `origin/x` lands in the same group as the local branch `x`. */
  lemma OriginIgnored<P>(name: string, patterns: seq<P>, matches: (P, string) -> bool)
    requires !References.HasPrefix(name, Origin)
    ensures BranchOrder(Origin + name, patterns, matches) == BranchOrder(name, patterns, matches)
  {
    assert References.HasPrefix(Origin + name, Origin);
    assert (Origin + name)[|Origin|..] == name;
    BranchOrderDeterminedByName(Origin + name, name, patterns, matches);
  }

  /** Two names matched as the same string get the same order. */
  lemma {:induction false} BranchOrderDeterminedByName<P>(a: string, b: string, patterns: seq<P>, matches: (P, string) -> bool)
    requires MatchedName(a) == MatchedName(b)
    ensures BranchOrder(a, patterns, matches) == BranchOrder(b, patterns, matches)
  {
    if patterns != [] {
      BranchOrderDeterminedByName(a, b, patterns[..|patterns| - 1], matches);
    }
  }

  /** Pattern `k` is the first one that matches `name`. */
  predicate FirstMatchAt<P>(name: string, patterns: seq<P>, matches: (P, string) -> bool, k: int) {
    && 0 <= k < |patterns|
    && matches(patterns[k], MatchedName(name))
    && forall j :: 0 <= j < k ==> !matches(patterns[j], MatchedName(name))
  }

  /** The patterns of a colour table. */
  function Patterns<P, T>(colors: seq<(P, seq<T>)>): (r: seq<P>)
    ensures |r| == |colors| && forall k :: 0 <= k < |colors| ==> r[k] == colors[k].0
  {
    seq(|colors|, k requires 0 <= k < |colors| => colors[k].0)
  }

  /**
   * What `branchColor` needs to avoid a division by zero: the first
   * matching entry has colours, or, when none matches, the fallback has.
   */
  predicate HasColorFor<P, T>(name: string, colors: seq<(P, seq<T>)>, unknownColors: seq<T>, matches: (P, string) -> bool) {
    var k := BranchOrder(name, Patterns(colors), matches);
    if k < |colors| then |colors[k].1| > 0 else |unknownColors| > 0
  }

  /**
   * `branchColor`: the colour at `counter` (cyclically) in the list of the
   * first entry whose pattern matches, or in `unknownColors` when none does.
   */
  function BranchColor<P, T>(name: string, colors: seq<(P, seq<T>)>, unknownColors: seq<T>, counter: nat,
                             matches: (P, string) -> bool): (r: T)
    requires HasColorFor(name, colors, unknownColors, matches)
    ensures (forall k :: 0 <= k < |colors| ==> !matches(colors[k].0, MatchedName(name))) ==>
      r == unknownColors[counter % |unknownColors|]
    ensures forall k :: FirstMatchAt(name, Patterns(colors), matches, k) ==> r == colors[k].1[counter % |colors[k].1|]
  {
    var k := BranchOrder(name, Patterns(colors), matches);
    if k < |colors| then colors[k].1[counter % |colors[k].1|] else unknownColors[counter % |unknownColors|]
  }
}
