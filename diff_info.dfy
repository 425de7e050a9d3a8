/**
 * `DiffInfo`: the hunks of one file's diff and the file-level tri-state
 * checkbox. Only lines of change parts take part: reading the state counts
 * their selection flags, writing it selects or deselects all of them.
 */
module DiffInfos {
  import opened DiffLines
  import opened DiffHunkParts
  import opened DiffHunks

  datatype CheckboxState = Checked | Unchecked | PartiallyChecked

  /**
   * The decision of the `checkState` getter on the flags of the change lines:
   * none selected (or none at all), all selected, or some of each.
   */
  function CheckStateOf(flags: seq<bool>): (c: CheckboxState)
    ensures c == Unchecked <==> forall i :: 0 <= i < |flags| ==> !flags[i]
    ensures c == Checked <==> flags != [] && forall i :: 0 <= i < |flags| ==> flags[i]
    ensures c == PartiallyChecked <==>
      (exists i :: 0 <= i < |flags| && flags[i]) && (exists j :: 0 <= j < |flags| && !flags[j])
  {
    var n := CountTrue(flags);
    if n == 0 then Unchecked
    else if n == |flags| then Checked
    else PartiallyChecked
  }

  /** Uniform flags read back as the state that set them, once there is at least one. */
  lemma CheckStateOfUniform(flags: seq<bool>, b: bool)
    requires flags != [] && forall i :: 0 <= i < |flags| ==> flags[i] == b
    ensures CheckStateOf(flags) == if b then Checked else Unchecked
  {
    assert flags[0] == b;
  }

  /** `allHunks.flatMap(\.parts)` */
  function HunkParts(hs: seq<DiffHunk>): seq<DiffHunkPart>
    reads hs
  {
    if hs == [] then [] else HunkParts(hs[..|hs| - 1]) + hs[|hs| - 1].parts
  }

  /** `.filter { $0.type != .context }`: the change parts, in order. */
  function ChangeParts(ps: seq<DiffHunkPart>): (r: seq<DiffHunkPart>)
    ensures forall i :: 0 <= i < |r| ==> r[i] in ps && r[i].partType != PartType.Context
    ensures forall i :: 0 <= i < |ps| && ps[i].partType != PartType.Context ==> ps[i] in r
  {
    if ps == [] then []
    else
      var p := ps[|ps| - 1];
      ChangeParts(ps[..|ps| - 1]) + (if p.partType != PartType.Context then [p] else [])
  }

  /** The parts a set of hunks holds. */
  function PartsOf(hs: seq<DiffHunk>): set<DiffHunkPart>
    reads hs
  {
    set h, p | h in hs && p in h.parts :: p
  }

  /** The flattened sequence holds exactly the parts of the hunks. */
  lemma {:induction false} HunkPartsIn(hs: seq<DiffHunk>)
    ensures forall p :: p in HunkParts(hs) <==> p in PartsOf(hs)
  {
    if hs != [] {
      var init := hs[..|hs| - 1];
      HunkPartsIn(init);
      assert forall h :: h in init ==> h in hs;
      forall p | p in PartsOf(hs) ensures p in HunkParts(hs) {
        var h :| h in hs && p in h.parts;
        var i :| 0 <= i < |hs| && hs[i] == h;
        if i < |hs| - 1 {
          assert init[i] == h;
        }
      }
    }
  }

  /** `flatMap(\.lines)` holds exactly the lines of the parts. */
  lemma {:induction false} PartLinesMembers(ps: seq<DiffHunkPart>, l: DiffLine)
    ensures l in PartLines(ps) <==> exists p :: p in ps && l in p.lines
  {
    if ps != [] {
      var init := ps[..|ps| - 1];
      var last := ps[|ps| - 1];
      PartLinesMembers(init, l);
      assert PartLines(ps) == PartLines(init) + last.lines;
      if l in PartLines(init) {
        var p :| p in init && l in p.lines;
        assert p in ps;
      } else if l in last.lines {
        assert last in ps;
      }
      if exists p :: p in ps && l in p.lines {
        var p :| p in ps && l in p.lines;
        var i :| 0 <= i < |ps| && ps[i] == p;
        if i < |ps| - 1 {
          assert init[i] == p;
        }
      }
    }
  }

  /** The lines of the change parts of all hunks: what the checkbox covers. */
  function ChangeLines(hs: seq<DiffHunk>): seq<DiffLine>
    reads hs, PartsOf(hs)
  {
    HunkPartsIn(hs);
    PartLines(ChangeParts(HunkParts(hs)))
  }

  /**
   * The lines the checkbox covers are exactly the lines of the hunks' parts
   * that are not context.
   */
  lemma ChangeLinesMembers(hs: seq<DiffHunk>, l: DiffLine)
    ensures l in ChangeLines(hs) <==>
      exists h, p :: h in hs && p in h.parts && p.partType != PartType.Context && l in p.lines
  {
    var all := HunkParts(hs);
    var cps := ChangeParts(all);
    HunkPartsIn(hs);
    PartLinesMembers(cps, l);
    if l in ChangeLines(hs) {
      var p :| p in cps && l in p.lines;
      var i :| 0 <= i < |cps| && cps[i] == p;
      assert p in all && p in PartsOf(hs);
    }
    if exists h, p :: h in hs && p in h.parts && p.partType != PartType.Context && l in p.lines {
      var h, p :| h in hs && p in h.parts && p.partType != PartType.Context && l in p.lines;
      assert p in PartsOf(hs);
      var i :| 0 <= i < |all| && all[i] == p;
      assert p in cps;
    }
  }

  /** The flag a line has after the setter wrote `v` over `was`. */
  function Written(v: CheckboxState, was: bool): bool {
    match v
    case Checked => true
    case Unchecked => false
    case PartiallyChecked => was
  }

  class DiffInfo {
    var allHunks: seq<DiffHunk>
    const addedLinesCount: int
    const deletedLinesCount: int
    const statusFileName: string

    constructor (hunks: seq<DiffHunk>, addedLinesCount: int, deletedLinesCount: int, statusFileName: string)
      ensures allHunks == hunks && this.addedLinesCount == addedLinesCount
      ensures this.deletedLinesCount == deletedLinesCount && this.statusFileName == statusFileName
    {
      allHunks := hunks;
      this.addedLinesCount := addedLinesCount;
      this.deletedLinesCount := deletedLinesCount;
      this.statusFileName := statusFileName;
    }

    /** The `checkState` getter. */
    function CheckState(): (c: CheckboxState)
      reads this, allHunks, PartsOf(allHunks), set l | l in ChangeLines(allHunks)
      ensures var ls := ChangeLines(allHunks);
        && (c == Unchecked <==> forall i :: 0 <= i < |ls| ==> !ls[i].isSelected)
        && (c == Checked <==> ls != [] && forall i :: 0 <= i < |ls| ==> ls[i].isSelected)
    {
      CheckStateOf(Selections(ChangeLines(allHunks)))
    }

    /**
     * The `checkState` setter: `.checked` selects every change line,
     * `.unchecked` deselects every one, `.partiallyChecked` leaves them be.
     * Parts' summaries are not refreshed, and no other line is touched.
     */
    method SetCheckState(v: CheckboxState)
      modifies ChangeLines(allHunks)
      ensures ChangeLines(allHunks) == old(ChangeLines(allHunks))
      ensures var ls, was := ChangeLines(allHunks), old(Selections(ChangeLines(allHunks)));
        forall i :: 0 <= i < |ls| ==> ls[i].isSelected == Written(v, was[i])
      ensures forall l :: l in ChangeLines(allHunks) ==> l.indexInPart == old(l.indexInPart)
      ensures v != PartiallyChecked && ChangeLines(allHunks) != [] ==> CheckState() == v
    {
      var lines := ChangeLines(allHunks);
      ghost var cps := ChangeParts(HunkParts(allHunks));
      WriteAll(lines, v);
      assert HunkParts(allHunks) == old(HunkParts(allHunks));
      assert PartLines(cps) == old(PartLines(cps));
      if v != PartiallyChecked && lines != [] {
        CheckStateOfUniform(Selections(lines), v == Checked);
      }
    }
  }

  /** The loop of the `checkState` setter, over the change lines. */
  method WriteAll(lines: seq<DiffLine>, v: CheckboxState)
    modifies lines
    ensures forall k :: 0 <= k < |lines| ==> lines[k].isSelected == Written(v, old(lines[k].isSelected))
    ensures forall l :: l in lines ==> l.indexInPart == old(l.indexInPart)
  {
    ghost var was := Selections(lines);
    var i := 0;
    while i < |lines|
      invariant 0 <= i <= |lines|
      invariant forall k :: 0 <= k < i ==> lines[k].isSelected == Written(v, was[k])
      invariant forall k :: i <= k < |lines| ==> lines[k].isSelected == was[k] || lines[k] in lines[..i]
      invariant forall l :: l in lines ==> l.indexInPart == old(l.indexInPart)
    {
      var line := lines[i];
      match v {
        case Checked => line.isSelected := true;
        case Unchecked => line.isSelected := false;
        case PartiallyChecked =>
      }
      i := i + 1;
    }
  }
}
