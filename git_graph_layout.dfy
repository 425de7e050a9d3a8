/**
 * The source and target passes of the commit-graph layout. Each branch
 * learns the branch its merge target commit is traced to, and that branch's
 * order group. Each traced commit whose parents sit on other branches tells
 * its own branch where it came from.
 */
module GitGraphLayout {
  import opened Wrappers
  import opened GitGraphs

  /** `commits[safe: i]`: the commit at `i`, or nothing when `i` is outside the array. */
  function CommitAt(commits: seq<CommitInfo>, i: int): (r: Option<CommitInfo>)
    ensures r.Some? <==> 0 <= i < |commits|
    ensures r.Some? ==> r.value == commits[i]
  {
    if 0 <= i < |commits| then Some(commits[i]) else None
  }

  /** The trace of the commit an OID names, when `indices` knows it and the commit exists. */
  function TraceOfOid(commits: seq<CommitInfo>, indices: map<Oid, int>, oid: Oid): (r: Option<int>)
    ensures r.Some? <==> oid in indices && 0 <= indices[oid] < |commits| && commits[indices[oid]].branchTrace.Some?
    ensures r.Some? ==> r == commits[indices[oid]].branchTrace
  {
    if oid in indices then
      match CommitAt(commits, indices[oid])
      case Some(info) => info.branchTrace
      case None => None
    else None
  }

  /** The branch the merge target of `b` is traced to, if that chain resolves. */
  function TargetBranchOf(commits: seq<CommitInfo>, indices: map<Oid, int>, b: BranchInfo): (r: Option<int>)
    ensures b.mergeTarget.None? ==> r.None?
    ensures b.mergeTarget.Some? ==> r == TraceOfOid(commits, indices, b.mergeTarget.value)
  {
    match b.mergeTarget
    case None => None
    case Some(oid) => TraceOfOid(commits, indices, oid)
  }

  /** `branches[safe: trace].visual.orderGroup` */
  function GroupOf(branches: seq<BranchInfo>, trace: Option<int>): (r: Option<int>)
    ensures r.Some? <==> trace.Some? && 0 <= trace.value < |branches|
    ensures r.Some? ==> r.value == branches[trace.value].visual.orderGroup
  {
    if trace.Some? && 0 <= trace.value < |branches| then Some(branches[trace.value].visual.orderGroup) else None
  }

  /** Two branch lists agree on every branch's order group. */
  predicate SameGroups(a: seq<BranchInfo>, b: seq<BranchInfo>) {
    |a| == |b| && forall i :: 0 <= i < |a| ==> a[i].visual.orderGroup == b[i].visual.orderGroup
  }

  /** Branch `b` with its merge target's branch and that branch's group filled in. */
  function WithTarget(commits: seq<CommitInfo>, indices: map<Oid, int>, branches: seq<BranchInfo>, b: BranchInfo): (r: BranchInfo)
    ensures r.visual.orderGroup == b.visual.orderGroup
  {
    var t := TargetBranchOf(commits, indices, b);
    b.(targetBranch := t, visual := b.visual.(targetOrderGroup := GroupOf(branches, t)))
  }

  /** The first loop of `assignSourcesTargets`. */
  method AssignTargets(commits: seq<CommitInfo>, indices: map<Oid, int>, branches: array<BranchInfo>)
    modifies branches
    ensures forall i :: 0 <= i < branches.Length ==>
      branches[i] == WithTarget(commits, indices, old(branches[..]), old(branches[i]))
  {
    ghost var bs := branches[..];
    for idx := 0 to branches.Length
      invariant SameGroups(branches[..], bs)
      invariant forall i :: 0 <= i < idx ==> branches[i] == WithTarget(commits, indices, bs, bs[i])
      invariant forall i :: idx <= i < branches.Length ==> branches[i] == bs[i]
    {
      var targetBranchIdx := TargetBranchOf(commits, indices, branches[idx]);
      branches[idx] := branches[idx].(targetBranch := targetBranchIdx);
      var group := GroupOf(branches[..], targetBranchIdx);
      assert group == GroupOf(bs, targetBranchIdx);
      branches[idx] := branches[idx].(visual := branches[idx].visual.(targetOrderGroup := group));
    }
  }

  /** What the parent scan of one commit has gathered: the highest parent group and the source branch. */
  datatype ParentScan = ParentScan(maxParentOrder: Option<int>, sourceBranchId: Option<int>)

  /** The commit an OID names, when it is known, exists, and lies on a different trace than `trace`. */
  function ForeignParent(commits: seq<CommitInfo>, indices: map<Oid, int>, trace: Option<int>, oid: Oid): (r: Option<CommitInfo>)
    ensures r.Some? ==> r.value.branchTrace != trace
  {
    if oid in indices && 0 <= indices[oid] < |commits| && commits[indices[oid]].branchTrace != trace
    then Some(commits[indices[oid]]) else None
  }

  /** One step of the parent loop of `assignSourcesTargets`. */
  function ScanStep(branches: seq<BranchInfo>, acc: ParentScan, parent: Option<CommitInfo>): ParentScan {
    match parent
    case None => acc
    case Some(parentInfo) =>
      var sourceBranchId := if parentInfo.branchTrace.Some? then parentInfo.branchTrace else acc.sourceBranchId;
      var group := GroupOf(branches, parentInfo.branchTrace);
      var maxParentOrder :=
        if acc.maxParentOrder.Some? && group.Some? && group.value > acc.maxParentOrder.value then group
        else if acc.maxParentOrder.None? then group
        else acc.maxParentOrder;
      ParentScan(maxParentOrder, sourceBranchId)
  }

  /** The parent loop over `parents`, for a commit on `trace`. */
  function ScanParents(commits: seq<CommitInfo>, indices: map<Oid, int>, branches: seq<BranchInfo>,
                       trace: Option<int>, parents: seq<Oid>): ParentScan
  {
    if parents == [] then ParentScan(None, None)
    else
      var n := |parents| - 1;
      ScanStep(branches, ScanParents(commits, indices, branches, trace, parents[..n]),
               ForeignParent(commits, indices, trace, parents[n]))
  }

  /** The parents of a commit on `trace` that lie on another trace and whose branch has a group. */
  predicate GroupedForeignParent(commits: seq<CommitInfo>, indices: map<Oid, int>, branches: seq<BranchInfo>,
                                 trace: Option<int>, oid: Oid) {
    var p := ForeignParent(commits, indices, trace, oid);
    p.Some? && GroupOf(branches, p.value.branchTrace).Some?
  }

  /**
   * The highest parent group is the largest order group among the parents on
   * other traces whose branch exists, and there is none exactly when no such
   * parent exists.
   */
  lemma {:induction false} ScanMaxGroup(commits: seq<CommitInfo>, indices: map<Oid, int>, branches: seq<BranchInfo>,
                                        trace: Option<int>, parents: seq<Oid>)
    ensures var m := ScanParents(commits, indices, branches, trace, parents).maxParentOrder;
      && (m.None? <==> forall j :: 0 <= j < |parents| ==> !GroupedForeignParent(commits, indices, branches, trace, parents[j]))
      && (m.Some? ==> exists j :: (0 <= j < |parents| && GroupedForeignParent(commits, indices, branches, trace, parents[j]) &&
            GroupOf(branches, ForeignParent(commits, indices, trace, parents[j]).value.branchTrace) == m))
      && (m.Some? ==> forall j :: 0 <= j < |parents| && GroupedForeignParent(commits, indices, branches, trace, parents[j]) ==>
            GroupOf(branches, ForeignParent(commits, indices, trace, parents[j]).value.branchTrace).value <= m.value)
  {
    if parents != [] {
      var n := |parents| - 1;
      var init := parents[..n];
      ScanMaxGroup(commits, indices, branches, trace, init);
      assert forall j :: 0 <= j < n ==> init[j] == parents[j];
      var m0 := ScanParents(commits, indices, branches, trace, init).maxParentOrder;
      var m := ScanParents(commits, indices, branches, trace, parents).maxParentOrder;
      if m0.Some? {
        var j :| 0 <= j < n && GroupedForeignParent(commits, indices, branches, trace, init[j]) &&
          GroupOf(branches, ForeignParent(commits, indices, trace, init[j]).value.branchTrace) == m0;
        if m != m0 {
          assert GroupedForeignParent(commits, indices, branches, trace, parents[n]);
        } else {
          assert GroupedForeignParent(commits, indices, branches, trace, parents[j]);
        }
      } else if m.Some? {
        assert GroupedForeignParent(commits, indices, branches, trace, parents[n]);
      }
    }
  }

  /** The trace of a parent on another trace, if it is known, exists and has one. */
  function ForeignTrace(commits: seq<CommitInfo>, indices: map<Oid, int>, trace: Option<int>, oid: Oid): Option<int> {
    match ForeignParent(commits, indices, trace, oid)
    case Some(p) => p.branchTrace
    case None => None
  }

  /** No parent after position `j` lands on another trace that is set. */
  predicate LastForeignTrace(commits: seq<CommitInfo>, indices: map<Oid, int>, trace: Option<int>, parents: seq<Oid>, j: int) {
    && 0 <= j < |parents|
    && ForeignTrace(commits, indices, trace, parents[j]).Some?
    && forall k :: j < k < |parents| ==> ForeignTrace(commits, indices, trace, parents[k]).None?
  }

  /**
   * The source branch is the trace of the last parent on another, existing
   * trace; it is never the commit's own trace.
   */
  lemma {:induction false} ScanSource(commits: seq<CommitInfo>, indices: map<Oid, int>, branches: seq<BranchInfo>,
                                      trace: Option<int>, parents: seq<Oid>)
    ensures var s := ScanParents(commits, indices, branches, trace, parents).sourceBranchId;
      && (s.Some? ==> s != trace)
      && (s.None? <==> forall j :: 0 <= j < |parents| ==> ForeignTrace(commits, indices, trace, parents[j]).None?)
      && (s.Some? ==> exists j :: (LastForeignTrace(commits, indices, trace, parents, j) &&
            ForeignTrace(commits, indices, trace, parents[j]) == s))
  {
    if parents != [] {
      var n := |parents| - 1;
      var init := parents[..n];
      ScanSource(commits, indices, branches, trace, init);
      assert forall j :: 0 <= j < n ==> init[j] == parents[j];
      var s0 := ScanParents(commits, indices, branches, trace, init).sourceBranchId;
      if ForeignTrace(commits, indices, trace, parents[n]).None? {
        if s0.Some? {
          var j :| LastForeignTrace(commits, indices, trace, init, j) && ForeignTrace(commits, indices, trace, init[j]) == s0;
          assert LastForeignTrace(commits, indices, trace, parents, j);
        }
      } else {
        assert LastForeignTrace(commits, indices, trace, parents, n);
      }
    }
  }

  /** The branch list after commit `info` has reported the scan of its parents to its branch. */
  function ApplyScan(branches: seq<BranchInfo>, trace: Option<int>, scan: ParentScan): (r: seq<BranchInfo>)
    ensures SameGroups(r, branches)
  {
    if trace.Some? && 0 <= trace.value < |branches| then
      var t := trace.value;
      var b := branches[t];
      var b1 := if scan.maxParentOrder.Some? then b.(visual := b.visual.(sourceOrderGroup := scan.maxParentOrder)) else b;
      var b2 := if scan.sourceBranchId.Some? then b1.(sourceBranch := scan.sourceBranchId) else b1;
      branches[t := b2]
    else branches
  }

  /** The branch list after the first `k` commits have reported to their branches. */
  function SourcesAssigned(commits: seq<CommitInfo>, indices: map<Oid, int>, branches: seq<BranchInfo>, k: nat): (r: seq<BranchInfo>)
    requires k <= |commits|
    ensures SameGroups(r, branches)
  {
    if k == 0 then branches
    else
      var before := SourcesAssigned(commits, indices, branches, k - 1);
      var info := commits[k - 1];
      ApplyScan(before, info.branchTrace, ScanParents(commits, indices, before, info.branchTrace, info.parents))
  }

  /** The parent loop of one commit. */
  method ScanCommitParents(commits: seq<CommitInfo>, indices: map<Oid, int>, branches: array<BranchInfo>, info: CommitInfo)
    returns (scan: ParentScan)
    ensures scan == ScanParents(commits, indices, branches[..], info.branchTrace, info.parents)
  {
    var maxParentOrder: Option<int> := None;
    var sourceBranchId: Option<int> := None;
    for j := 0 to |info.parents|
      invariant ParentScan(maxParentOrder, sourceBranchId) == ScanParents(commits, indices, branches[..], info.branchTrace, info.parents[..j])
    {
      assert info.parents[..j + 1][..j] == info.parents[..j];
      var parentOid := info.parents[j];
      if parentOid in indices && 0 <= indices[parentOid] < |commits| && commits[indices[parentOid]].branchTrace != info.branchTrace {
        var parentInfo := commits[indices[parentOid]];
        if parentInfo.branchTrace.Some? {
          sourceBranchId := parentInfo.branchTrace;
        }
        var group := GroupOf(branches[..], parentInfo.branchTrace);
        if maxParentOrder.Some? && group.Some? && group.value > maxParentOrder.value {
          maxParentOrder := group;
        } else if maxParentOrder.None? {
          maxParentOrder := group;
        }
      }
    }
    assert info.parents[..|info.parents|] == info.parents;
    scan := ParentScan(maxParentOrder, sourceBranchId);
  }

  /** The second loop of `assignSourcesTargets`. */
  method AssignSources(commits: seq<CommitInfo>, indices: map<Oid, int>, branches: array<BranchInfo>)
    modifies branches
    ensures branches[..] == SourcesAssigned(commits, indices, old(branches[..]), |commits|)
  {
    ghost var bs := branches[..];
    for k := 0 to |commits|
      invariant branches[..] == SourcesAssigned(commits, indices, bs, k)
    {
      var info := commits[k];
      var scan := ScanCommitParents(commits, indices, branches, info);
      if info.branchTrace.Some? && 0 <= info.branchTrace.value < branches.Length {
        var branchIndex := info.branchTrace.value;
        if scan.maxParentOrder.Some? {
          branches[branchIndex] := branches[branchIndex].(visual := branches[branchIndex].visual.(sourceOrderGroup := scan.maxParentOrder));
        }
        if scan.sourceBranchId.Some? {
          branches[branchIndex] := branches[branchIndex].(sourceBranch := scan.sourceBranchId);
        }
      }
    }
  }

  /** `assignSourcesTargets`: targets first, then sources. */
  method AssignSourcesTargets(commits: seq<CommitInfo>, indices: map<Oid, int>, branches: array<BranchInfo>)
    modifies branches
    ensures branches[..] == SourcesAssigned(commits, indices, TargetsAssigned(commits, indices, old(branches[..])), |commits|)
  {
    ghost var bs := branches[..];
    AssignTargets(commits, indices, branches);
    assert branches[..] == TargetsAssigned(commits, indices, bs);
    AssignSources(commits, indices, branches);
  }

  /** The branch list after the first loop. */
  function TargetsAssigned(commits: seq<CommitInfo>, indices: map<Oid, int>, branches: seq<BranchInfo>): (r: seq<BranchInfo>)
    ensures SameGroups(r, branches)
  {
    seq(|branches|, i requires 0 <= i < |branches| => WithTarget(commits, indices, branches, branches[i]))
  }

  /** The source pass changes nothing but the source branch and the source group, and no branch becomes its own source. */
  lemma {:induction false} SourcesOnlyTouchSources(commits: seq<CommitInfo>, indices: map<Oid, int>, branches: seq<BranchInfo>, k: nat)
    requires k <= |commits|
    ensures var r := SourcesAssigned(commits, indices, branches, k);
      forall i :: 0 <= i < |branches| ==>
        && r[i] == branches[i].(sourceBranch := r[i].sourceBranch, visual := branches[i].visual.(sourceOrderGroup := r[i].visual.sourceOrderGroup))
        && (r[i].sourceBranch == branches[i].sourceBranch || r[i].sourceBranch != Some(i))
  {
    if k > 0 {
      SourcesOnlyTouchSources(commits, indices, branches, k - 1);
      var before := SourcesAssigned(commits, indices, branches, k - 1);
      var info := commits[k - 1];
      var r := SourcesAssigned(commits, indices, branches, k);
      ScanSource(commits, indices, before, info.branchTrace, info.parents);
      ApplyScanTouchesSource(before, info.branchTrace, ScanParents(commits, indices, before, info.branchTrace, info.parents));
      forall i | 0 <= i < |branches|
        ensures SourceOnlyChange(branches[i], r[i], i)
      {
        assert SourceOnlyChange(branches[i], before[i], i);
        SourceOnlyChangeTrans(branches[i], before[i], r[i], i);
      }
    }
  }

  /** `r` is `b` with at most its source branch and source group changed, and `i` did not become its own source. */
  predicate SourceOnlyChange(b: BranchInfo, r: BranchInfo, i: int) {
    && r == b.(sourceBranch := r.sourceBranch, visual := b.visual.(sourceOrderGroup := r.visual.sourceOrderGroup))
    && (r.sourceBranch == b.sourceBranch || r.sourceBranch != Some(i))
  }

  lemma SourceOnlyChangeTrans(a: BranchInfo, b: BranchInfo, c: BranchInfo, i: int)
    requires SourceOnlyChange(a, b, i) && SourceOnlyChange(b, c, i)
    ensures SourceOnlyChange(a, c, i)
  {
  }

  /** Reporting a scan whose source is not the branch itself changes only that branch's source fields. */
  lemma ApplyScanTouchesSource(branches: seq<BranchInfo>, trace: Option<int>, scan: ParentScan)
    requires scan.sourceBranchId.Some? ==> scan.sourceBranchId != trace
    ensures var r := ApplyScan(branches, trace, scan);
      forall i :: 0 <= i < |branches| ==> SourceOnlyChange(branches[i], r[i], i)
  {
  }
}
