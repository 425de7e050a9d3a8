/**
 * `SelectedLinesDiffMaker`: rebuilding a file's lines so that only the
 * selected added and deleted lines of its diff take effect. Three cases: a
 * file new since HEAD keeps its selected additions; a file deleted since HEAD
 * keeps the HEAD lines whose deletion is not selected; a modified file is
 * merged from its HEAD and working lines, one line at a time.
 */
module SelectedLinesDiffMaker {
  import opened Wrappers
  import opened DiffLines

  /** `Result`: every case carries the resulting lines; the `resultingFileLines` accessor is the shared field. */
  datatype Result =
    | Modified(resultingFileLines: seq<string>, headFileLines: seq<string>)
    | Added(resultingFileLines: seq<string>)
    | Deleted(resultingFileLines: seq<string>, headFileLines: seq<string>)

  /** Whichever case is present, `resultingFileLines` is the line array it was built with. */
  lemma ResultingFileLinesOfEach(lines: seq<string>, head: seq<string>)
    ensures Modified(lines, head).resultingFileLines == lines
    ensures Added(lines).resultingFileLines == lines
    ensures Deleted(lines, head).resultingFileLines == lines
  {
  }

  // ---------------------------------------------------------------- added file

  /**
   * `makeFileWithSelectedLinesForAddedFile`: the texts of the selected lines in
   * order. An empty selection or a selected line that is not an addition is fatal.
   */
  method AddedFile(selectedLines: seq<DiffLine>) returns (result: seq<string>)
    requires selectedLines != []
    requires forall i :: 0 <= i < |selectedLines| ==> selectedLines[i].kind == Addition
    ensures result == Texts(selectedLines)
  {
    result := [];
    var i := 0;
    while i < |selectedLines|
      invariant 0 <= i <= |selectedLines|
      invariant result == Texts(selectedLines[..i])
    {
      assert selectedLines[..i + 1][..i] == selectedLines[..i];
      result := result + [selectedLines[i].text];
      i := i + 1;
    }
    assert selectedLines[..i] == selectedLines;
  }

  // ---------------------------------------------------------------- deleted file

  /**
   * The inner loop of the deleted-file case for HEAD line number `n`: scanning
   * the selection from the front, `Some(true)` at a deletion of line `n`,
   * `Some(false)` at the end, `None` (fatal) at a line that is not a deletion.
   */
  function DeletionMatch(sel: seq<DiffLine>, n: int): (r: Option<bool>)
    ensures r == Some(true) ==> n in DeletedPositions(sel)
    ensures r == Some(false) ==> n !in DeletedPositions(sel)
    ensures (forall i :: 0 <= i < |sel| ==> sel[i].kind == Deletion) ==> r.Some?
  {
    if sel == [] then Some(false)
    else if sel[0].kind != Deletion then None
    else if sel[0].oldLine == n then Some(true)
    else
      DeletedPositionsTail(sel);
      DeletionMatch(sel[1..], n)
  }

  /** The old line numbers of the deletions among `sel`. */
  function DeletedPositions(sel: seq<DiffLine>): set<int> {
    set i | 0 <= i < |sel| && sel[i].kind == Deletion :: sel[i].oldLine
  }

  /** Dropping a deletion at the front leaves the positions of the rest, plus its own. */
  lemma DeletedPositionsTail(sel: seq<DiffLine>)
    requires sel != [] && sel[0].kind == Deletion
    ensures DeletedPositions(sel) == {sel[0].oldLine} + DeletedPositions(sel[1..])
  {
    var tail := sel[1..];
    forall x | x in DeletedPositions(sel) ensures x in {sel[0].oldLine} + DeletedPositions(tail) {
      var i :| 0 <= i < |sel| && sel[i].kind == Deletion && sel[i].oldLine == x;
      if i > 0 { assert tail[i - 1] == sel[i]; }
    }
    forall x | x in DeletedPositions(tail) ensures x in DeletedPositions(sel) {
      var i :| 0 <= i < |tail| && tail[i].kind == Deletion && tail[i].oldLine == x;
      assert sel[i + 1] == tail[i];
    }
  }

  /** The HEAD lines whose 1-based number is not in `marked`, in order. */
  function KeepUnmarked(head: seq<string>, marked: set<int>): seq<string> {
    if head == [] then []
    else KeepUnmarked(head[..|head| - 1], marked) + (if |head| in marked then [] else [head[|head| - 1]])
  }

  /**
   * `makeFileWithSelectedLinesForDeletedFile`: every HEAD line whose number is
   * the old line of no selected deletion. An empty selection is fatal, and so
   * is a selected line that is not a deletion wherever the scan for a HEAD line
   * reaches it.
   */
  method DeletedFile(headFileLines: seq<string>, selectedLines: seq<DiffLine>) returns (result: seq<string>)
    requires selectedLines != []
    requires forall n :: 1 <= n <= |headFileLines| ==> DeletionMatch(selectedLines, n).Some?
    ensures result == KeepUnmarked(headFileLines, DeletedPositions(selectedLines))
  {
    result := [];
    var h := 0;
    while h < |headFileLines|
      invariant 0 <= h <= |headFileLines|
      invariant result == KeepUnmarked(headFileLines[..h], DeletedPositions(selectedLines))
    {
      var selected := IsSelectedDeletion(selectedLines, h + 1);
      assert headFileLines[..h + 1][..h] == headFileLines[..h];
      if !selected {
        result := result + [headFileLines[h]];
      }
      h := h + 1;
    }
    assert headFileLines[..h] == headFileLines;
  }

  /** The inner loop of the deleted-file case, for HEAD line number `n`. */
  method IsSelectedDeletion(sel: seq<DiffLine>, n: int) returns (selected: bool)
    requires DeletionMatch(sel, n).Some?
    ensures selected <==> n in DeletedPositions(sel)
  {
    var i := 0;
    while i < |sel|
      invariant 0 <= i <= |sel|
      invariant DeletionMatch(sel[i..], n) == DeletionMatch(sel, n)
    {
      assert sel[i..][1..] == sel[i + 1..];
      if sel[i].kind == Deletion {
        if sel[i].oldLine == n {
          return true;
        }
      } else {
        assert false;
      }
      i := i + 1;
    }
    return false;
  }

  /** The lines of `1..k` that are marked. */
  function MarkedUpTo(marked: set<int>, k: nat): set<int> {
    set n | n in marked && 1 <= n <= k
  }

  /** The deleted file is shorter than HEAD by the number of distinct HEAD line numbers marked. */
  lemma {:induction false} KeepUnmarkedLength(head: seq<string>, marked: set<int>)
    ensures |KeepUnmarked(head, marked)| == |head| - |MarkedUpTo(marked, |head|)|
  {
    var k := |head|;
    if k == 0 {
      assert MarkedUpTo(marked, 0) == {};
    } else {
      KeepUnmarkedLength(head[..k - 1], marked);
      var before := MarkedUpTo(marked, k - 1);
      if k in marked {
        assert MarkedUpTo(marked, k) == before + {k};
        assert k !in before;
      } else {
        assert MarkedUpTo(marked, k) == before;
      }
    }
  }

  /** Every kept line is a HEAD line, and with nothing marked in range the HEAD lines are kept whole. */
  lemma {:induction false} KeepUnmarkedSubset(head: seq<string>, marked: set<int>)
    ensures forall x :: x in KeepUnmarked(head, marked) ==> x in head
    ensures MarkedUpTo(marked, |head|) == {} ==> KeepUnmarked(head, marked) == head
  {
    if head != [] {
      var init := head[..|head| - 1];
      KeepUnmarkedSubset(init, marked);
      assert forall x :: x in init ==> x in head;
      if MarkedUpTo(marked, |head|) == {} {
        assert forall n :: n in MarkedUpTo(marked, |init|) ==> n in MarkedUpTo(marked, |head|);
        assert |head| !in MarkedUpTo(marked, |head|);
        assert init + [head[|head| - 1]] == head;
      }
    }
  }

  // ---------------------------------------------------------------- modified file

  /** Some line of `lines` adds working line `n`. */
  predicate AdditionAt(lines: seq<DiffLine>, n: int) {
    exists i :: 0 <= i < |lines| && lines[i].kind == Addition && lines[i].newLine == n
  }

  /** Some line of `lines` deletes HEAD line `n`. */
  predicate DeletionAt(lines: seq<DiffLine>, n: int) {
    exists i :: 0 <= i < |lines| && lines[i].kind == Deletion && lines[i].oldLine == n
  }

  /** The search loops of the merge for an addition of working line `n`. */
  method FindAddition(lines: seq<DiffLine>, n: int) returns (found: bool)
    ensures found <==> AdditionAt(lines, n)
  {
    var i := 0;
    while i < |lines|
      invariant 0 <= i <= |lines|
      invariant forall k :: 0 <= k < i ==> !(lines[k].kind == Addition && lines[k].newLine == n)
    {
      if lines[i].kind == Addition && lines[i].newLine == n {
        return true;
      }
      i := i + 1;
    }
    return false;
  }

  /** The search loops of the merge for a deletion of HEAD line `n`. */
  method FindDeletion(lines: seq<DiffLine>, n: int) returns (found: bool)
    ensures found <==> DeletionAt(lines, n)
  {
    var i := 0;
    while i < |lines|
      invariant 0 <= i <= |lines|
      invariant forall k :: 0 <= k < i ==> !(lines[k].kind == Deletion && lines[k].oldLine == n)
    {
      if lines[i].kind == Deletion && lines[i].oldLine == n {
        return true;
      }
      i := i + 1;
    }
    return false;
  }

  /** What one round of the merge does with the HEAD line and the working line it is at. */
  datatype Move =
    | KeepBoth      // equal lines, no hunk addition: keep the line, both advance
    | DropHead      // a selected deletion: skip the HEAD line
    | KeepHead      // an unselected hunk deletion: keep the HEAD line
    | KeepCurrent   // a selected addition: keep the working line
    | DropCurrent   // an unselected hunk addition: skip the working line
    | Stop          // no rule applies

  /**
   * The rules of one round at HEAD line `h` and working line `c` (both
   * 0-based), tried in the order the merge tries them.
   */
  function Rule(head: seq<string>, current: seq<string>, sel: seq<DiffLine>, hunk: seq<DiffLine>, h: nat, c: nat): Move
    requires h < |head| && c < |current|
  {
    if head[h] == current[c] && !AdditionAt(hunk, c + 1) then KeepBoth
    else if DeletionAt(sel, h + 1) then DropHead
    else if DeletionAt(hunk, h + 1) then KeepHead
    else if AdditionAt(sel, c + 1) then KeepCurrent
    else if AdditionAt(hunk, c + 1) then DropCurrent
    else Stop
  }

  /**
   * The merge from HEAD line `h` and working line `c` on, by `Rule`, until
   * either side is used up or no rule applies.
   */
  function Merge(head: seq<string>, current: seq<string>, sel: seq<DiffLine>, hunk: seq<DiffLine>, h: nat, c: nat)
    : seq<string>
    requires h <= |head| && c <= |current|
    decreases |head| - h + |current| - c
  {
    if c == |current| || h == |head| then []
    else
      match Rule(head, current, sel, hunk, h, c)
      case KeepBoth => [current[c]] + Merge(head, current, sel, hunk, h + 1, c + 1)
      case DropHead => Merge(head, current, sel, hunk, h + 1, c)
      case KeepHead => [head[h]] + Merge(head, current, sel, hunk, h + 1, c)
      case KeepCurrent => [current[c]] + Merge(head, current, sel, hunk, h, c + 1)
      case DropCurrent => Merge(head, current, sel, hunk, h, c + 1)
      case Stop => []
  }

  /** What the modified-file case yields: HEAD unchanged for an empty selection, else the merge. */
  function ModifiedSpec(head: seq<string>, current: seq<string>, sel: seq<DiffLine>, hunk: seq<DiffLine>): seq<string> {
    if sel == [] then head else Merge(head, current, sel, hunk, 0, 0)
  }

  /** The body of the merge loop up to its decision: the comparison and the four searches, in order. */
  method ChooseMove(headFileLines: seq<string>, currentFileLines: seq<string>, selectedLines: seq<DiffLine>,
                    hunkLines: seq<DiffLine>, h: nat, c: nat)
    returns (m: Move)
    requires h < |headFileLines| && c < |currentFileLines|
    ensures m == Rule(headFileLines, currentFileLines, selectedLines, hunkLines, h, c)
  {
    var currentFileLine := currentFileLines[c];
    var headFileLine := headFileLines[h];
    var isAddition := FindAddition(hunkLines, c + 1);
    if headFileLine == currentFileLine && !isAddition {
      return KeepBoth;
    }
    var selectedDeletion := FindDeletion(selectedLines, h + 1);
    if selectedDeletion {
      return DropHead;
    }
    var hunkDeletion := FindDeletion(hunkLines, h + 1);
    if hunkDeletion {
      return KeepHead;
    }
    var selectedAddition := FindAddition(selectedLines, c + 1);
    if selectedAddition {
      return KeepCurrent;
    }
    var hunkAddition := FindAddition(hunkLines, c + 1);
    if hunkAddition {
      return DropCurrent;
    }
    return Stop;
  }

  /**
   * `makeFileWithSelectedLinesForModifiedFile`, with `allLinesInHunk` (the
   * change lines of all hunks) as `hunkLines`.
   */
  method ModifiedFile(headFileLines: seq<string>, currentFileLines: seq<string>,
                      selectedLines: seq<DiffLine>, hunkLines: seq<DiffLine>)
    returns (result: seq<string>)
    ensures result == ModifiedSpec(headFileLines, currentFileLines, selectedLines, hunkLines)
  {
    if selectedLines == [] {
      return headFileLines;
    }
    ghost var all := Merge(headFileLines, currentFileLines, selectedLines, hunkLines, 0, 0);
    result := [];
    var h, c := 0, 0;
    while c < |currentFileLines| && h < |headFileLines|
      invariant 0 <= h <= |headFileLines| && 0 <= c <= |currentFileLines|
      invariant result + Merge(headFileLines, currentFileLines, selectedLines, hunkLines, h, c) == all
      decreases |headFileLines| - h + |currentFileLines| - c
    {
      ghost var rest := Merge(headFileLines, currentFileLines, selectedLines, hunkLines, h, c);
      var currentFileLine := currentFileLines[c];
      var headFileLine := headFileLines[h];
      var m := ChooseMove(headFileLines, currentFileLines, selectedLines, hunkLines, h, c);
      var emit: seq<string> := [];
      var h', c' := h, c;
      match m {
        case KeepBoth => emit, h', c' := [currentFileLine], h + 1, c + 1;
        case DropHead => h' := h + 1;
        case KeepHead => emit, h' := [headFileLine], h + 1;
        case KeepCurrent => emit, c' := [currentFileLine], c + 1;
        case DropCurrent => c' := c + 1;
        case Stop => break;
      }
      assert rest == emit + Merge(headFileLines, currentFileLines, selectedLines, hunkLines, h', c');
      result := result + emit;
      h, c := h', c';
    }
  }

  /**
   * The merge from `(h, c)` has at most as many lines as remain on both sides,
   * and each comes from one of them.
   */
  lemma MergeBounded(head: seq<string>, current: seq<string>, sel: seq<DiffLine>, hunk: seq<DiffLine>, h: nat, c: nat)
    requires h <= |head| && c <= |current|
    ensures var r := Merge(head, current, sel, hunk, h, c);
      && |r| <= |head| - h + |current| - c
      && forall x :: x in r ==> x in head || x in current
  {
    MergeShorter(head, current, sel, hunk, h, c);
    MergeDrawn(head, current, sel, hunk, h, c);
  }

  /** The merge result is no longer than what is left of both files. */
  lemma {:induction false} MergeShorter(head: seq<string>, current: seq<string>, sel: seq<DiffLine>, hunk: seq<DiffLine>, h: nat, c: nat)
    requires h <= |head| && c <= |current|
    ensures |Merge(head, current, sel, hunk, h, c)| <= |head| - h + |current| - c
    decreases |head| - h + |current| - c
  {
    if c < |current| && h < |head| {
      match Rule(head, current, sel, hunk, h, c)
      case KeepBoth => MergeShorter(head, current, sel, hunk, h + 1, c + 1);
      case DropHead => MergeShorter(head, current, sel, hunk, h + 1, c);
      case KeepHead => MergeShorter(head, current, sel, hunk, h + 1, c);
      case KeepCurrent => MergeShorter(head, current, sel, hunk, h, c + 1);
      case DropCurrent => MergeShorter(head, current, sel, hunk, h, c + 1);
      case Stop =>
    }
  }

  /** Every line of the merge result comes from HEAD or from the working file. */
  lemma {:induction false} MergeDrawn(head: seq<string>, current: seq<string>, sel: seq<DiffLine>, hunk: seq<DiffLine>, h: nat, c: nat)
    requires h <= |head| && c <= |current|
    ensures forall x :: x in Merge(head, current, sel, hunk, h, c) ==> x in head || x in current
    decreases |head| - h + |current| - c
  {
    if c < |current| && h < |head| {
      match Rule(head, current, sel, hunk, h, c)
      case KeepBoth => MergeDrawn(head, current, sel, hunk, h + 1, c + 1);
      case DropHead => MergeDrawn(head, current, sel, hunk, h + 1, c);
      case KeepHead => MergeDrawn(head, current, sel, hunk, h + 1, c);
      case KeepCurrent => MergeDrawn(head, current, sel, hunk, h, c + 1);
      case DropCurrent => MergeDrawn(head, current, sel, hunk, h, c + 1);
      case Stop =>
    }
  }

  /** The modified-file result is no longer than HEAD and working lines together, and drawn from them. */
  lemma ModifiedBounded(head: seq<string>, current: seq<string>, sel: seq<DiffLine>, hunk: seq<DiffLine>)
    ensures var r := ModifiedSpec(head, current, sel, hunk);
      && |r| <= |head| + |current|
      && forall x :: x in r ==> x in head || x in current
  {
    MergeBounded(head, current, sel, hunk, 0, 0);
  }

  /** A file unchanged since HEAD, with no hunk additions, merges to itself whatever is selected. */
  lemma {:induction false} MergeUnchanged(head: seq<string>, sel: seq<DiffLine>, hunk: seq<DiffLine>, h: nat)
    requires h <= |head|
    requires forall i :: 0 <= i < |hunk| ==> hunk[i].kind != Addition
    ensures Merge(head, head, sel, hunk, h, h) == head[h..]
    decreases |head| - h
  {
    if h < |head| {
      MergeUnchanged(head, sel, hunk, h + 1);
      assert head[h..] == [head[h]] + head[h + 1..];
    }
  }

  /**
   * The merge ends as soon as either file is used up and adds no tail. With
   * HEAD `x a b`, working file `y a`, `-x +y` selected and `-b` an unselected
   * deletion of the hunk, the result `y a` loses the HEAD line `b` that the
   * unselected deletion should have kept.
   */
  lemma MergeDropsHeadTail(dx: DiffLine, ay: DiffLine, db: DiffLine)
    requires dx.kind == Deletion && dx.oldLine == 1
    requires ay.kind == Addition && ay.newLine == 1
    requires db.kind == Deletion && db.oldLine == 3
    ensures DeletionAt([dx, ay, db], 3) && !DeletionAt([dx, ay], 3)
    ensures ModifiedSpec(["x", "a", "b"], ["y", "a"], [dx, ay], [dx, ay, db]) == ["y", "a"]
  {
    var head, current, sel, hunk := ["x", "a", "b"], ["y", "a"], [dx, ay], [dx, ay, db];
    assert DeletionAt(sel, 1) by { assert sel[0] == dx; }
    assert AdditionAt(sel, 1) by { assert sel[1] == ay; }
    assert !AdditionAt(hunk, 2);
    assert !DeletionAt(sel, 2) && !DeletionAt(hunk, 2);
    assert DeletionAt(hunk, 3) by { assert hunk[2] == db; }
    assert Rule(head, current, sel, hunk, 0, 0) == DropHead;
    assert Rule(head, current, sel, hunk, 1, 0) == KeepCurrent;
    assert Rule(head, current, sel, hunk, 1, 1) == KeepBoth;
  }
}
