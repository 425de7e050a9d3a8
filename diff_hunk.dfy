/**
 * `DiffHunk`: the lines of one hunk grouped into alternating context and
 * change parts, the hunk's selected-line total, and `applied(to:reversed:)`,
 * which replaces the hunk's range of a file's lines by the other side of the
 * hunk. The file text is taken as its array of lines; splitting on newlines
 * and rejoining with the text's line ending are outside the model.
 */
module DiffHunks {
  import opened Wrappers
  import opened DiffLines
  import opened DiffHunkParts

  // ---------------------------------------------------------------- grouping

  /** All lines of a sequence of groups, in order. */
  function Concat(g: seq<seq<DiffLine>>): seq<DiffLine> {
    if g == [] then [] else Concat(g[..|g| - 1]) + g[|g| - 1]
  }

  /** Whether the part at position `i` holds changes: the parts alternate, starting with context. */
  predicate ChangeAt(i: nat) {
    i % 2 == 1
  }

  function PartTypeAt(i: nat): PartType {
    if ChangeAt(i) then AdditionOrDeletion else PartType.Context
  }

  /** Consecutive positions alternate. */
  lemma ChangeAtFlip(n: nat)
    requires n >= 1
    ensures ChangeAt(n) == !ChangeAt(n - 1)
  {
  }

  /** Every line of the group is a change line, or none is, as `change` says. */
  predicate OfKind(group: seq<DiffLine>, change: bool) {
    forall l :: l in group ==> IsChange(l) == change
  }

  /** Groups that alternate by kind from a context group, none empty after the first. */
  predicate WellGrouped(g: seq<seq<DiffLine>>) {
    && |g| >= 1
    && (forall i :: 0 <= i < |g| ==> OfKind(g[i], ChangeAt(i)))
    && (forall i :: 1 <= i < |g| ==> g[i] != [])
  }

  /**
   * The grouping `init` performs: a new part starts whenever a line's kind
   * (change or not) differs from the current part's type. The first part is
   * context and may be empty.
   */
  function Groups(ls: seq<DiffLine>): (g: seq<seq<DiffLine>>)
    ensures |g| >= 1
  {
    if ls == [] then [[]]
    else
      var g0 := Groups(ls[..|ls| - 1]);
      var l := ls[|ls| - 1];
      var k := |g0| - 1;
      if IsChange(l) == ChangeAt(k) then g0[..k] + [g0[k] + [l]] else g0 + [[l]]
  }

  /**
   * The groups alternate by kind from a context group, none is empty after
   * the first, and together they hold exactly the lines, in order.
   */
  lemma {:induction false} GroupsSpec(ls: seq<DiffLine>)
    ensures WellGrouped(Groups(ls))
    ensures Concat(Groups(ls)) == ls
    decreases |ls|
  {
    if ls != [] {
      GroupsSpec(ls[..|ls| - 1]);
      GroupsStep(ls);
    }
  }

  /** One more line keeps the grouping well formed and in order. */
  lemma GroupsStep(ls: seq<DiffLine>)
    requires ls != []
    requires WellGrouped(Groups(ls[..|ls| - 1]))
    requires Concat(Groups(ls[..|ls| - 1])) == ls[..|ls| - 1]
    ensures WellGrouped(Groups(ls))
    ensures Concat(Groups(ls)) == ls
  {
    var init := ls[..|ls| - 1];
    var g0 := Groups(init);
    var l := ls[|ls| - 1];
    SplitLast(ls);
    if IsChange(l) == ChangeAt(|g0| - 1) {
      ExtendLastGroup(g0, l);
      ConcatExtendLast(g0, l);
    } else {
      StartGroup(g0, l);
      ConcatPush(g0, [l]);
    }
  }

  /** A line of the last group's kind joins that group. */
  lemma ExtendLastGroup(g0: seq<seq<DiffLine>>, l: DiffLine)
    requires WellGrouped(g0) && IsChange(l) == ChangeAt(|g0| - 1)
    ensures WellGrouped(g0[..|g0| - 1] + [g0[|g0| - 1] + [l]])
  {
    var k := |g0| - 1;
    OfKindPush(g0[k], l, ChangeAt(k));
    ReplaceLastGroup(g0, g0[k] + [l]);
  }

  /** Appending a line to the last group appends it to the concatenation. */
  lemma ConcatExtendLast(g0: seq<seq<DiffLine>>, l: DiffLine)
    requires |g0| >= 1
    ensures Concat(g0[..|g0| - 1] + [g0[|g0| - 1] + [l]]) == Concat(g0) + [l]
  {
    var k := |g0| - 1;
    assert Concat(g0) == Concat(g0[..k]) + g0[k];
    ConcatPush(g0[..k], g0[k] + [l]);
  }

  /** Adding a line of the group's kind keeps the group of that kind. */
  lemma OfKindPush(group: seq<DiffLine>, l: DiffLine, change: bool)
    requires OfKind(group, change) && IsChange(l) == change
    ensures OfKind(group + [l], change)
  {
  }

  /** The last group may be replaced by a group of the same kind, non-empty unless it is the first. */
  lemma ReplaceLastGroup(g0: seq<seq<DiffLine>>, x: seq<DiffLine>)
    requires WellGrouped(g0) && OfKind(x, ChangeAt(|g0| - 1)) && (x != [] || |g0| == 1)
    ensures WellGrouped(g0[..|g0| - 1] + [x])
  {
    var k := |g0| - 1;
    var g := g0[..k] + [x];
    forall i | 0 <= i < k ensures OfKind(g[i], ChangeAt(i)) && g[i] == g0[i] {
      assert g[i] == g0[i];
    }
    assert g[k] == x;
  }

  /** A line of the other kind starts a new group. */
  lemma StartGroup(g0: seq<seq<DiffLine>>, l: DiffLine)
    requires WellGrouped(g0) && IsChange(l) != ChangeAt(|g0| - 1)
    ensures WellGrouped(g0 + [[l]])
  {
    var g := g0 + [[l]];
    var n := |g0|;
    ChangeAtFlip(n);
    assert g[n] == [l] && OfKind([l], ChangeAt(n));
    forall i | 0 <= i < n ensures OfKind(g[i], ChangeAt(i)) {
      assert g[i] == g0[i];
    }
  }

  /** Concatenating one more group appends its lines. */
  lemma ConcatPush(g: seq<seq<DiffLine>>, x: seq<DiffLine>)
    ensures Concat(g + [x]) == Concat(g) + x
  {
    assert (g + [x])[..|g|] == g;
  }

  /**
   * The groups are the only ones with these properties: any grouping that
   * concatenates to the lines, alternates by kind from context, and has no
   * empty part after the first, is `Groups`.
   */
  lemma {:induction false} GroupsUnique(ls: seq<DiffLine>, g: seq<seq<DiffLine>>)
    requires WellGrouped(g) && Concat(g) == ls
    ensures g == Groups(ls)
    decreases |ls|
  {
    if ls == [] {
      EmptyGrouping(g);
    } else {
      var g' := PeelLast(ls, g);
      GroupsUnique(ls[..|ls| - 1], g');
    }
  }

  /** The only grouping of no lines is one empty context part. */
  lemma EmptyGrouping(g: seq<seq<DiffLine>>)
    requires WellGrouped(g) && Concat(g) == []
    ensures g == [[]]
  {
    var k := |g| - 1;
    assert Concat(g) == Concat(g[..k]) + g[k];
    assert g[k] == [];
    assert k == 0;
    assert g == [g[0]];
  }

  /**
   * Taking the last line off a grouping of `ls` leaves a grouping `g'` of the
   * other lines, from which `g` arises exactly as `Groups` adds a line.
   */
  lemma PeelLast(ls: seq<DiffLine>, g: seq<seq<DiffLine>>) returns (g': seq<seq<DiffLine>>)
    requires WellGrouped(g) && Concat(g) == ls && ls != []
    ensures WellGrouped(g') && Concat(g') == ls[..|ls| - 1]
    ensures var l, k := ls[|ls| - 1], |g'| - 1;
      g == if IsChange(l) == ChangeAt(k) then g'[..k] + [g'[k] + [l]] else g' + [[l]]
  {
    var k := |g| - 1;
    assert Concat(g) == Concat(g[..k]) + g[k];
    assert g[k] != [] by {
      if k == 0 { assert g[..k] == []; }
    }
    if |g[k]| == 1 && k > 0 {
      g' := PeelGroup(ls, g);
    } else {
      g' := PeelLine(ls, g);
    }
  }

  /** When the last group is the last line alone, dropping that group. */
  lemma PeelGroup(ls: seq<DiffLine>, g: seq<seq<DiffLine>>) returns (g': seq<seq<DiffLine>>)
    requires WellGrouped(g) && Concat(g) == ls && ls != []
    requires |g| >= 2 && |g[|g| - 1]| == 1 && Concat(g) == Concat(g[..|g| - 1]) + g[|g| - 1]
    ensures WellGrouped(g') && Concat(g') == ls[..|ls| - 1]
    ensures IsChange(ls[|ls| - 1]) != ChangeAt(|g'| - 1) && g == g' + [[ls[|ls| - 1]]]
  {
    var k := |g| - 1;
    var l := ls[|ls| - 1];
    g' := g[..k];
    assert g[k] == [l];
    assert IsChange(l) == ChangeAt(k) by {
      assert l in g[k] && OfKind(g[k], ChangeAt(k));
    }
    assert WellGrouped(g') by {
      WellGroupedPrefix(g, k);
    }
    ChangeAtFlip(k);
    assert g == g' + [[l]] by {
      SplitLast(g);
    }
  }

  /** Otherwise, dropping the last line from the last group. */
  lemma PeelLine(ls: seq<DiffLine>, g: seq<seq<DiffLine>>) returns (g': seq<seq<DiffLine>>)
    requires WellGrouped(g) && Concat(g) == ls && ls != []
    requires g[|g| - 1] != [] && (|g[|g| - 1]| > 1 || |g| == 1) && Concat(g) == Concat(g[..|g| - 1]) + g[|g| - 1]
    ensures WellGrouped(g') && Concat(g') == ls[..|ls| - 1] && |g'| == |g|
    ensures IsChange(ls[|ls| - 1]) == ChangeAt(|g| - 1) && g == g'[..|g| - 1] + [g'[|g| - 1] + [ls[|ls| - 1]]]
  {
    var k := |g| - 1;
    var last := g[k];
    var l := ls[|ls| - 1];
    var shorter := last[..|last| - 1];
    g' := g[..k] + [shorter];
    assert last == shorter + [l] by {
      assert l == last[|last| - 1];
    }
    assert IsChange(l) == ChangeAt(k) by {
      assert l in last && OfKind(last, ChangeAt(k));
    }
    assert WellGrouped(g') by {
      OfKindPrefix(last, |last| - 1, ChangeAt(k));
      ReplaceLastGroup(g, shorter);
    }
    assert Concat(g') == ls[..|ls| - 1] by {
      ConcatPush(g[..k], shorter);
      assert ls == Concat(g[..k]) + shorter + [l];
    }
    assert g == g'[..k] + [g'[k] + [l]] by {
      assert g'[..k] == g[..k] && g'[k] == shorter;
      SplitLast(g);
    }
  }

  /** A non-empty sequence is its front followed by its last element. */
  lemma SplitLast<T>(s: seq<T>)
    requires |s| >= 1
    ensures s == s[..|s| - 1] + [s[|s| - 1]]
  {
  }

  /** A prefix of a group keeps its kind. */
  lemma OfKindPrefix(group: seq<DiffLine>, n: nat, change: bool)
    requires OfKind(group, change) && n <= |group|
    ensures OfKind(group[..n], change)
  {
    assert forall x :: x in group[..n] ==> x in group;
  }

  /** A non-empty prefix of a grouping is a grouping. */
  lemma WellGroupedPrefix(g: seq<seq<DiffLine>>, n: nat)
    requires WellGrouped(g) && 1 <= n <= |g|
    ensures WellGrouped(g[..n])
  {
    assert forall i :: 0 <= i < n ==> g[..n][i] == g[i];
  }

  // ---------------------------------------------------------------- sides

  /** The old side of a hunk: its context and deleted lines' texts. */
  function OldSide(ls: seq<DiffLine>): seq<string> {
    if ls == [] then []
    else
      var l := ls[|ls| - 1];
      OldSide(ls[..|ls| - 1]) + (if l.kind == LineType.Context || l.kind == Deletion then [l.text] else [])
  }

  /** The new side of a hunk: its context and added lines' texts. */
  function NewSide(ls: seq<DiffLine>): seq<string> {
    if ls == [] then []
    else
      var l := ls[|ls| - 1];
      NewSide(ls[..|ls| - 1]) + (if l.kind == LineType.Context || l.kind == Addition then [l.text] else [])
  }

  /** Each side grows by a line exactly when the line belongs to it. */
  lemma SidesPush(ls: seq<DiffLine>, x: DiffLine)
    ensures OldSide(ls + [x]) == OldSide(ls) + (if x.kind == LineType.Context || x.kind == Deletion then [x.text] else [])
    ensures NewSide(ls + [x]) == NewSide(ls) + (if x.kind == LineType.Context || x.kind == Addition then [x.text] else [])
  {
    assert (ls + [x])[..|ls|] == ls;
  }

  // ---------------------------------------------------------------- application

  /** `old_start`, `old_lines`, `new_start`, `new_lines` of `git_diff_hunk`. */
  datatype Range = Range(oldStart: int, oldLines: nat, newStart: int, newLines: nat)

  /** The 0-based first line and the line count of the side being replaced. */
  function TargetStart(h: Range, reversed: bool): int {
    (if reversed then h.newStart else h.oldStart) - 1
  }

  function TargetCount(h: Range, reversed: bool): nat {
    if reversed then h.newLines else h.oldLines
  }

  /** The side of the hunk the file must hold: the new side when reversing, else the old. */
  function TargetSide(hunkLines: seq<DiffLine>, reversed: bool): seq<string> {
    if reversed then NewSide(hunkLines) else OldSide(hunkLines)
  }

  /** The side that replaces it. */
  function ReplacementSide(hunkLines: seq<DiffLine>, reversed: bool): seq<string> {
    if reversed then OldSide(hunkLines) else NewSide(hunkLines)
  }

  /** The range of the side being replaced lies inside the file. */
  predicate TargetInFile(h: Range, reversed: bool, n: nat) {
    0 <= TargetStart(h, reversed) && TargetStart(h, reversed) + TargetCount(h, reversed) <= n
  }

  /** The guard of `applied`: the old side's range ends inside the file, whichever side is replaced. */
  predicate GuardAsWritten(h: Range, n: nat) {
    h.oldStart - 1 + h.oldLines <= n
  }

  /** `lines[start..<start+count]` replaced by `repl`. */
  function Splice(lines: seq<string>, start: nat, count: nat, repl: seq<string>): (r: seq<string>)
    requires start + count <= |lines|
    ensures |r| == |lines| - count + |repl|
  {
    lines[..start] + repl + lines[start + count..]
  }

  /** A splice keeps what lies before and after the range and holds the replacement in between. */
  lemma SpliceParts(lines: seq<string>, start: nat, count: nat, repl: seq<string>)
    requires start + count <= |lines|
    ensures var r := Splice(lines, start, count, repl);
      && r[..start] == lines[..start]
      && r[start..start + |repl|] == repl
      && r[start + |repl|..] == lines[start + count..]
  {
    var r := Splice(lines, start, count, repl);
    assert r == lines[..start] + repl + lines[start + count..];
    assert r[..start] == lines[..start];
    assert r[start..start + |repl|] == repl;
    assert r[start + |repl|..] == lines[start + count..];
  }

  /**
   * `applied` as written. The target side (old side, or new side when
   * `reversed`) must equal the lines of the file at the target range, which
   * are then replaced by the other side. The range is checked against the
   * old side only; slicing a target range that is not inside the file traps.
   */
  function ApplyAsWritten(lines: seq<string>, h: Range, hunkLines: seq<DiffLine>, reversed: bool)
    : (r: Option<seq<string>>)
    requires GuardAsWritten(h, |lines|) ==> TargetInFile(h, reversed, |lines|)
    ensures r.Some? ==> GuardAsWritten(h, |lines|)
  {
    if !GuardAsWritten(h, |lines|) then None
    else
      var target := TargetSide(hunkLines, reversed);
      var replacement := ReplacementSide(hunkLines, reversed);
      var start := TargetStart(h, reversed);
      var count := TargetCount(h, reversed);
      if target != lines[start..start + count] then None
      else Some(Splice(lines, start, count, replacement))
  }

  /**
   * `applied` with its guard on the side that is replaced, which also rules
   * out the trap: it succeeds exactly when the target range lies in the file
   * and holds the target side, and the result trades that range's lines for
   * the other side's.
   */
  function ApplyCorrected(lines: seq<string>, h: Range, hunkLines: seq<DiffLine>, reversed: bool)
    : (r: Option<seq<string>>)
    ensures var start, count := TargetStart(h, reversed), TargetCount(h, reversed);
      r.Some? <==> (0 <= start && start + count <= |lines|
                    && lines[start..start + count] == (if reversed then NewSide(hunkLines) else OldSide(hunkLines)))
    ensures r.Some? ==>
      |r.value| == |lines| - TargetCount(h, reversed) + |if reversed then OldSide(hunkLines) else NewSide(hunkLines)|
  {
    if !TargetInFile(h, reversed, |lines|) then None
    else
      var target := TargetSide(hunkLines, reversed);
      var replacement := ReplacementSide(hunkLines, reversed);
      var start := TargetStart(h, reversed);
      var count := TargetCount(h, reversed);
      if target != lines[start..start + count] then None
      else Some(Splice(lines, start, count, replacement))
  }

  /**
   * What an application succeeds on and yields: exactly when the target range
   * holds the target side, and then the file with that range replaced.
   */
  lemma ApplyCorrectedMeaning(lines: seq<string>, h: Range, hunkLines: seq<DiffLine>, reversed: bool)
    ensures var target := if reversed then NewSide(hunkLines) else OldSide(hunkLines);
      var start := TargetStart(h, reversed);
      var count := TargetCount(h, reversed);
      ApplyCorrected(lines, h, hunkLines, reversed).Some? <==>
        (start >= 0 && start + count <= |lines| && lines[start..start + count] == target)
    ensures var replacement := if reversed then OldSide(hunkLines) else NewSide(hunkLines);
      var start := TargetStart(h, reversed);
      var count := TargetCount(h, reversed);
      ApplyCorrected(lines, h, hunkLines, reversed).Some? ==>
        var r := ApplyCorrected(lines, h, hunkLines, reversed).value;
        && |r| == |lines| - count + |replacement|
        && r[..start] == lines[..start]
        && r[start..start + |replacement|] == replacement
        && r[start + |replacement|..] == lines[start + count..]
  {
    if ApplyCorrected(lines, h, hunkLines, reversed).Some? {
      SpliceParts(lines, TargetStart(h, reversed), TargetCount(h, reversed), ReplacementSide(hunkLines, reversed));
    }
  }

  /** The range agrees with its lines: each side's count is the number of lines on that side. */
  predicate Consistent(h: Range, hunkLines: seq<DiffLine>) {
    |OldSide(hunkLines)| == h.oldLines && |NewSide(hunkLines)| == h.newLines
  }

  /**
   * Reverse application undoes forward application: a hunk applied alone
   * (its new side starts where its old side did) and then reverse-applied to
   * the result gives the original lines back.
   */
  lemma ApplyCorrectedRoundTrip(lines: seq<string>, h: Range, hunkLines: seq<DiffLine>)
    requires Consistent(h, hunkLines) && h.newStart == h.oldStart
    requires ApplyCorrected(lines, h, hunkLines, false).Some?
    ensures ApplyCorrected(ApplyCorrected(lines, h, hunkLines, false).value, h, hunkLines, true) == Some(lines)
  {
    var start, N, O := h.oldStart - 1, NewSide(hunkLines), OldSide(hunkLines);
    var out := Splice(lines, start, h.oldLines, N);
    assert ApplyCorrected(lines, h, hunkLines, false) == Some(out);
    assert lines[start..start + h.oldLines] == O;
    SpliceParts(lines, start, h.oldLines, N);
    var back := Splice(out, start, h.newLines, O);
    assert ApplyCorrected(out, h, hunkLines, true) == Some(back);
    assert back == lines[..start] + O + lines[start + h.oldLines..];
    assert lines == lines[..start] + lines[start..start + h.oldLines] + lines[start + h.oldLines..];
  }

  /** Where the written guard does not interfere, the two definitions agree. */
  lemma ApplyAgreesWhenGuardsAgree(lines: seq<string>, h: Range, hunkLines: seq<DiffLine>, reversed: bool)
    requires TargetInFile(h, reversed, |lines|) && GuardAsWritten(h, |lines|)
    ensures ApplyAsWritten(lines, h, hunkLines, reversed) == ApplyCorrected(lines, h, hunkLines, reversed)
  {
  }

  /** Forward application (`reversed` false) is unaffected by the guard's choice of side. */
  lemma ApplyForwardAgrees(lines: seq<string>, h: Range, hunkLines: seq<DiffLine>)
    requires h.oldStart >= 1
    ensures ApplyAsWritten(lines, h, hunkLines, false) == ApplyCorrected(lines, h, hunkLines, false)
  {
  }

  /**
   * The written guard rejects a reverse application that should succeed: the
   * working file `a` is the new side of a hunk that deleted `b` and `c` from
   * `a b c`; reverse-applying it should restore `a b c`, but the old side's
   * range (three lines) does not fit in the one-line file, so `nil` is
   * returned (and discarding the hunk then fails).
   */
  lemma ReverseApplyRejected(a: DiffLine, b: DiffLine, c: DiffLine)
    requires a.kind == LineType.Context && a.text == "a"
    requires b.kind == Deletion && b.text == "b"
    requires c.kind == Deletion && c.text == "c"
    ensures var h := Range(1, 3, 1, 1);
      && Consistent(h, [a, b, c])
      && ApplyCorrected(["a", "b", "c"], h, [a, b, c], false) == Some(["a"])
      && ApplyAsWritten(["a"], h, [a, b, c], true) == None
      && ApplyCorrected(["a"], h, [a, b, c], true) == Some(["a", "b", "c"])
  {
    SidesPush([], a);
    assert [] + [a] == [a];
    SidesPush([a], b);
    assert [a] + [b] == [a, b];
    SidesPush([a, b], c);
    assert [a, b] + [c] == [a, b, c];
    assert OldSide([a, b, c]) == ["a", "b", "c"];
    assert NewSide([a, b, c]) == ["a"];
    var h := Range(1, 3, 1, 1);
    assert ["a", "b", "c"][0..3] == ["a", "b", "c"];
    assert Splice(["a", "b", "c"], 0, 3, ["a"]) == ["a"];
    assert ["a"][0..1] == ["a"];
    assert Splice(["a"], 0, 1, ["a", "b", "c"]) == ["a", "b", "c"];
  }

  // ---------------------------------------------------------------- the hunk object

  /** All lines of a sequence of parts, in order (`parts.flatMap(\.lines)`). */
  function PartLines(ps: seq<DiffHunkPart>): seq<DiffLine>
    reads ps
  {
    if ps == [] then [] else PartLines(ps[..|ps| - 1]) + ps[|ps| - 1].lines
  }

  /** The sum of the parts' selected counts. */
  function SumSelected(ps: seq<DiffHunkPart>): int
    reads ps
  {
    if ps == [] then 0 else SumSelected(ps[..|ps| - 1]) + ps[|ps| - 1].selectedLinesCount
  }

  /** A part whose count is up to date. */
  ghost predicate Refreshed(p: DiffHunkPart)
    reads p, p.lines
  {
    p.selectedLinesCount == CountTrue(Selections(p.lines))
  }

  /** The selection flags of two line sequences, concatenated. */
  lemma SelectionsAppend(a: seq<DiffLine>, b: seq<DiffLine>)
    ensures Selections(a + b) == Selections(a) + Selections(b)
  {
    assert forall i :: 0 <= i < |a + b| ==> (a + b)[i] == if i < |a| then a[i] else b[i - |a|];
  }

  /**
   * When every part's count is up to date, the hunk's total is the number of
   * selected lines among all its lines.
   */
  lemma {:induction false} SumSelectedCountsLines(ps: seq<DiffHunkPart>)
    requires forall p :: p in ps ==> Refreshed(p)
    ensures SumSelected(ps) == CountTrue(Selections(PartLines(ps)))
  {
    if ps != [] {
      var init := ps[..|ps| - 1];
      var p := ps[|ps| - 1];
      assert forall q :: q in init ==> q in ps;
      SumSelectedCountsLines(init);
      assert p in ps;
      SelectionsAppend(PartLines(init), p.lines);
      CountTrueAppend(Selections(PartLines(init)), Selections(p.lines));
    }
  }

  /** `SumSelectedCountsLines` for any parts, under the condition it needs. */
  lemma SumSelectedWhenRefreshed(ps: seq<DiffHunkPart>)
    ensures (forall p :: p in ps ==> Refreshed(p)) ==> SumSelected(ps) == CountTrue(Selections(PartLines(ps)))
  {
    if forall p :: p in ps ==> Refreshed(p) {
      SumSelectedCountsLines(ps);
    }
  }

  /** The part `init` creates at position `j` for the group `lines`: fresh, unselected, typed by position. */
  ghost predicate Built(p: DiffHunkPart, j: nat, lines: seq<DiffLine>, oldPath: Option<string>, newPath: Option<string>)
    reads p
  {
    && p.lines == lines
    && p.partType == PartTypeAt(j)
    && p.indexInHunk == j
    && p.oldFilePath == oldPath && p.newFilePath == newPath
    && !p.isSelected && p.selectedLinesCount == 0
  }

  /** No line object occurs twice; `lineAtIndex` makes a new line for every index. */
  predicate DistinctLines(s: seq<DiffLine>) {
    forall a, b :: 0 <= a < b < |s| ==> s[a] != s[b]
  }

  /** Every line of every part knows its position in that part. */
  ghost predicate Numbered(ps: seq<DiffHunkPart>)
    reads ps, set j, k | 0 <= j < |ps| && 0 <= k < |ps[j].lines| :: ps[j].lines[k]
  {
    forall j, k :: 0 <= j < |ps| && 0 <= k < |ps[j].lines| ==> ps[j].lines[k].indexInPart == k
  }

  /** Every line of every part is one of `s`. */
  ghost predicate LinesAmong(ps: seq<DiffHunkPart>, s: seq<DiffLine>)
    reads ps
  {
    forall j, l :: 0 <= j < |ps| && l in ps[j].lines ==> l in s
  }

  /** The lines of a new part are distinct and belong to none of the parts built before it. */
  ghost predicate Apart(ps: seq<DiffHunkPart>, lines: seq<DiffLine>)
    reads ps
  {
    && DistinctLines(lines)
    && forall j, l :: 0 <= j < |ps| && l in ps[j].lines ==> l !in lines
  }

  /** The current group, a later slice of distinct lines, is apart from the parts holding earlier lines. */
  lemma ApartFromPrefix(s: seq<DiffLine>, start: nat, i: nat, ps: seq<DiffHunkPart>)
    requires start <= i <= |s| && DistinctLines(s)
    requires LinesAmong(ps, s[..start])
    ensures Apart(ps, s[start..i])
  {
    forall j, l | 0 <= j < |ps| && l in ps[j].lines
      ensures l !in s[start..i]
    {
      assert l in s[..start];
      var a :| 0 <= a < start && s[..start][a] == l;
      forall b | 0 <= b < i - start
        ensures s[start..i][b] != l
      {
        assert s[a] != s[start + b];
      }
    }
  }

  /** A slice one longer ends with the next line. */
  lemma SliceSnoc(s: seq<DiffLine>, start: nat, i: nat)
    requires start <= i < |s|
    ensures s[start..i + 1] == s[start..i] + [s[i]]
  {
  }

  /** Closing the current group `s[start..i]` as a part leaves every part's lines among `s[..i]`. */
  lemma EarlierLinesGrow(s: seq<DiffLine>, start: nat, i: nat, before: seq<DiffHunkPart>, ps: seq<DiffHunkPart>)
    requires start <= i <= |s|
    requires LinesAmong(before, s[..start])
    requires |ps| == |before| + 1 && ps[..|before|] == before && ps[|before|].lines == s[start..i]
    ensures LinesAmong(ps, s[..i])
  {
    forall j, l | 0 <= j < |ps| && l in ps[j].lines
      ensures l in s[..i]
    {
      if j < |before| {
        assert ps[j] == before[j];
        assert l in s[..start];
        var a :| 0 <= a < start && s[..start][a] == l;
        assert s[..i][a] == l;
      } else {
        var b :| 0 <= b < i - start && s[start..i][b] == l;
        assert s[..i][start + b] == l;
      }
    }
  }

  /** One more line either extends the last group or starts a new one, leaving the earlier groups alone. */
  lemma GroupsSnoc(s: seq<DiffLine>, i: nat)
    requires i < |s|
    ensures var g0 := Groups(s[..i]);
      var g := Groups(s[..i + 1]);
      var k := |g0| - 1;
      && (IsChange(s[i]) == ChangeAt(k) ==> |g| == |g0| && g[k] == g0[k] + [s[i]])
      && (IsChange(s[i]) != ChangeAt(k) ==> |g| == |g0| + 1 && g[k + 1] == [s[i]] && g[k] == g0[k])
      && (forall j :: 0 <= j < k ==> g[j] == g0[j])
  {
    assert s[..i + 1][..i] == s[..i];
  }

  /**
   * The loop of `init`: walks the lines, closing the current part and
   * starting one of the other type at each line whose kind differs from it.
   */
  method BuildParts(hunkLines: seq<DiffLine>, oldFilePath: Option<string>, newFilePath: Option<string>)
    returns (ps: seq<DiffHunkPart>)
    modifies hunkLines
    ensures |ps| == |Groups(hunkLines)|
    ensures forall i :: 0 <= i < |ps| ==> Built(ps[i], i, Groups(hunkLines)[i], oldFilePath, newFilePath)
    ensures DistinctLines(hunkLines) ==> Numbered(ps)
    ensures forall l :: l in hunkLines ==> l.isSelected == old(l.isSelected)
  {
    ps := [];
    var currentLines: seq<DiffLine> := [];
    var currentType := PartType.Context;
    var partIndex := 0;
    var i := 0;
    ghost var g := Groups([]);
    ghost var start := 0;
    assert hunkLines[..0] == [];
    while i < |hunkLines|
      modifies hunkLines
      invariant 0 <= i <= |hunkLines| && g == Groups(hunkLines[..i])
      invariant |ps| + 1 == |g| && partIndex == |ps|
      invariant currentLines == g[|ps|] && currentType == PartTypeAt(|ps|)
      invariant 0 <= start <= i && currentLines == hunkLines[start..i]
      invariant forall j :: 0 <= j < |ps| ==> Built(ps[j], j, g[j], oldFilePath, newFilePath)
      invariant LinesAmong(ps, hunkLines[..start])
      invariant DistinctLines(hunkLines) ==> Numbered(ps)
      invariant forall l :: l in hunkLines ==> l.isSelected == old(l.isSelected)
    {
      var line := hunkLines[i];
      GroupsSnoc(hunkLines, i);
      ps, currentLines, currentType, partIndex, start :=
        TakeLine(ps, currentLines, currentType, partIndex, line, g, Groups(hunkLines[..i + 1]), oldFilePath, newFilePath,
                 hunkLines, start, i);
      g := Groups(hunkLines[..i + 1]);
      i := i + 1;
    }
    assert hunkLines[..i] == hunkLines;
    ps := AppendPart(ps, g, currentLines, oldFilePath, newFilePath, hunkLines, start, i);
  }

  /**
   * One pass of the loop of `init`: a line whose kind differs from the current
   * part's type closes that part and starts one of the other type with the
   * line; any other line joins the current part. `g` and `g'` are the groups
   * before and after the line; the current group is `s[start..i]` and `line`
   * is `s[i]`.
   */
  method TakeLine(ps: seq<DiffHunkPart>, currentLines: seq<DiffLine>, currentType: PartType, partIndex: int,
                  line: DiffLine, ghost g: seq<seq<DiffLine>>, ghost g': seq<seq<DiffLine>>,
                  oldFilePath: Option<string>, newFilePath: Option<string>,
                  ghost s: seq<DiffLine>, ghost start: nat, ghost i: nat)
    returns (ps': seq<DiffHunkPart>, currentLines': seq<DiffLine>, currentType': PartType, partIndex': int,
             ghost start': nat)
    requires |ps| + 1 == |g| && partIndex == |ps| && currentLines == g[|ps|] && currentType == PartTypeAt(|ps|)
    requires forall j :: 0 <= j < |ps| ==> Built(ps[j], j, g[j], oldFilePath, newFilePath)
    requires IsChange(line) == ChangeAt(|ps|) ==> |g'| == |g| && g'[|ps|] == g[|ps|] + [line]
    requires IsChange(line) != ChangeAt(|ps|) ==> |g'| == |g| + 1 && g'[|ps| + 1] == [line] && g'[|ps|] == g[|ps|]
    requires forall j :: 0 <= j < |ps| ==> g'[j] == g[j]
    requires start <= i < |s| && line == s[i] && currentLines == s[start..i]
    requires LinesAmong(ps, s[..start])
    requires DistinctLines(s) ==> Numbered(ps)
    modifies s
    ensures |ps'| + 1 == |g'| && partIndex' == |ps'| && currentLines' == g'[|ps'|] && currentType' == PartTypeAt(|ps'|)
    ensures forall j :: 0 <= j < |ps'| ==> Built(ps'[j], j, g'[j], oldFilePath, newFilePath)
    ensures start' <= i + 1 && currentLines' == s[start'..i + 1]
    ensures LinesAmong(ps', s[..start'])
    ensures DistinctLines(s) ==> Numbered(ps')
    ensures forall l :: l in s ==> l.isSelected == old(l.isSelected)
  {
    SliceSnoc(s, start, i);
    if (currentType == PartType.Context) == IsChange(line) {
      var nextType := if currentType == PartType.Context then AdditionOrDeletion else PartType.Context;
      ChangeAtFlip(|ps| + 1);
      ps' := AppendPart(ps, g, currentLines, oldFilePath, newFilePath, s, start, i);
      partIndex' := partIndex + 1;
      currentType' := nextType;
      currentLines' := [line];
      start' := i;
    } else {
      ps' := ps;
      partIndex' := partIndex;
      currentType' := currentType;
      currentLines' := currentLines + [line];
      start' := start;
    }
  }

  /**
   * The part `init` creates for group `|ps|` of `g`, appended to the parts
   * built so far, which keep their state.
   */
  method AppendPart(ps: seq<DiffHunkPart>, ghost g: seq<seq<DiffLine>>, lines: seq<DiffLine>,
                    oldFilePath: Option<string>, newFilePath: Option<string>,
                    ghost s: seq<DiffLine>, ghost start: nat, ghost i: nat)
    returns (ps': seq<DiffHunkPart>)
    requires |ps| < |g| && g[|ps|] == lines
    requires forall j :: 0 <= j < |ps| ==> Built(ps[j], j, g[j], oldFilePath, newFilePath)
    requires start <= i <= |s| && lines == s[start..i]
    requires LinesAmong(ps, s[..start])
    requires DistinctLines(s) ==> Numbered(ps)
    modifies s
    ensures |ps'| == |ps| + 1
    ensures forall j :: 0 <= j < |ps'| ==> Built(ps'[j], j, g[j], oldFilePath, newFilePath)
    ensures LinesAmong(ps', s[..i])
    ensures DistinctLines(s) ==> Numbered(ps')
    ensures forall l :: l in s ==> l.isSelected == old(l.isSelected)
  {
    if DistinctLines(s) {
      ApartFromPrefix(s, start, i, ps);
    }
    var part := new DiffHunkPart(PartTypeAt(|ps|), lines, |ps|, oldFilePath, newFilePath);
    ps' := ps + [part];
    assert ps'[..|ps|] == ps;
    EarlierLinesGrow(s, start, i, ps, ps');
    if DistinctLines(s) {
      forall j, k | 0 <= j < |ps'| && 0 <= k < |ps'[j].lines|
        ensures ps'[j].lines[k].indexInPart == k
      {
        if j < |ps| {
          assert ps'[j] == ps[j];
          assert ps[j].lines[k] in ps[j].lines;
          assert ps[j].lines[k] !in lines;
          assert old(ps[j].lines[k].indexInPart) == k;
        } else {
          assert ps'[j] == part;
          assert forall m :: k < m < |lines| ==> lines[m] != lines[k];
          assert lines[k].indexInPart == k;
        }
      }
    }
  }

  class DiffHunk {
    var parts: seq<DiffHunkPart>
    const range: Range
    const oldFilePath: Option<string>
    const newFilePath: Option<string>

    /**
     * `init`: groups the hunk's lines (the lines `git_patch_get_line_in_hunk`
     * returns, in order) into parts, numbering the parts from 0.
     */
    constructor (hunkLines: seq<DiffLine>, range: Range, oldFilePath: Option<string>, newFilePath: Option<string>)
      modifies hunkLines
      ensures this.range == range && this.oldFilePath == oldFilePath && this.newFilePath == newFilePath
      ensures |parts| == |Groups(hunkLines)|
      ensures PartLines(parts) == hunkLines
      ensures forall i :: 0 <= i < |parts| ==> Built(parts[i], i, Groups(hunkLines)[i], oldFilePath, newFilePath)
      ensures DistinctLines(hunkLines) ==>
                forall i, k :: 0 <= i < |parts| && 0 <= k < |parts[i].lines| ==> parts[i].lines[k].indexInPart == k
      ensures forall l :: l in hunkLines ==> l.isSelected == old(l.isSelected)
    {
      var ps := BuildParts(hunkLines, oldFilePath, newFilePath);
      GroupsSpec(hunkLines);
      PartLinesOfGroups(ps, Groups(hunkLines));
      parts := ps;
      this.range := range;
      this.oldFilePath := oldFilePath;
      this.newFilePath := newFilePath;
    }

    /**
     * `selectedLinesCount`: the parts' counts added up, which is the number of
     * selected lines of the hunk when every part's count is up to date.
     */
    function SelectedLinesCount(): (n: int)
      reads this, parts, set p, l | p in parts && l in p.lines :: l
      ensures (forall p :: p in parts ==> Refreshed(p)) ==> n == CountTrue(Selections(PartLines(parts)))
    {
      SumSelectedWhenRefreshed(parts);
      SumSelected(parts)
    }

    /** The loop of `applied` that collects both sides of the hunk. */
    method Sides() returns (oldText: seq<string>, newText: seq<string>)
      ensures oldText == OldSide(PartLines(parts)) && newText == NewSide(PartLines(parts))
    {
      var all := PartLines(parts);
      oldText, newText := [], [];
      var i := 0;
      while i < |all|
        invariant 0 <= i <= |all|
        invariant oldText == OldSide(all[..i]) && newText == NewSide(all[..i])
      {
        assert all[..i + 1][..i] == all[..i];
        var line := all[i];
        match line.kind {
          case Context =>
            oldText := oldText + [line.text];
            newText := newText + [line.text];
          case Addition =>
            newText := newText + [line.text];
          case Deletion =>
            oldText := oldText + [line.text];
          case _ =>
        }
        i := i + 1;
      }
      assert all[..i] == all;
    }

    /**
     * `applied(to:reversed:)` on the file's lines, before they are rejoined.
     * The caller must not let the slice trap: once the guard passes, the
     * target range has to lie inside the file.
     */
    method Applied(lines: seq<string>, reversed: bool) returns (r: Option<seq<string>>)
      requires GuardAsWritten(range, |lines|) ==> TargetInFile(range, reversed, |lines|)
      ensures r == ApplyAsWritten(lines, range, PartLines(parts), reversed)
    {
      ghost var hl := PartLines(parts);
      if !(range.oldStart - 1 + range.oldLines <= |lines|) {
        return None;
      }
      var oldText, newText := Sides();
      assert oldText == OldSide(hl) && newText == NewSide(hl);
      var targetLines := if reversed then newText else oldText;
      var replacementLines := if reversed then oldText else newText;
      assert targetLines == TargetSide(hl, reversed) && replacementLines == ReplacementSide(hl, reversed);
      var targetLineStart := (if reversed then range.newStart else range.oldStart) - 1;
      var targetLineCount := if reversed then range.newLines else range.oldLines;
      if targetLines != lines[targetLineStart..targetLineStart + targetLineCount] {
        return None;
      }
      r := Some(Splice(lines, targetLineStart, targetLineCount, replacementLines));
    }

    /** `applied` with the guard on the replaced side: the definition the round trip holds for. */
    method AppliedCorrected(lines: seq<string>, reversed: bool) returns (r: Option<seq<string>>)
      ensures r == ApplyCorrected(lines, range, PartLines(parts), reversed)
    {
      var targetLineStart := (if reversed then range.newStart else range.oldStart) - 1;
      var targetLineCount := if reversed then range.newLines else range.oldLines;
      assert targetLineStart == TargetStart(range, reversed) && targetLineCount == TargetCount(range, reversed);
      ghost var hl := PartLines(parts);
      if !(0 <= targetLineStart && targetLineStart + targetLineCount <= |lines|) {
        return None;
      }
      var oldText, newText := Sides();
      assert oldText == OldSide(hl) && newText == NewSide(hl);
      var targetLines := if reversed then newText else oldText;
      var replacementLines := if reversed then oldText else newText;
      assert targetLines == TargetSide(hl, reversed) && replacementLines == ReplacementSide(hl, reversed);
      if targetLines != lines[targetLineStart..targetLineStart + targetLineCount] {
        return None;
      }
      r := Some(Splice(lines, targetLineStart, targetLineCount, replacementLines));
    }
  }

  /** Parts whose lines are the groups concatenate to the grouped lines. */
  lemma {:induction false} PartLinesOfGroups(ps: seq<DiffHunkPart>, g: seq<seq<DiffLine>>)
    requires |ps| == |g| && forall i :: 0 <= i < |ps| ==> ps[i].lines == g[i]
    ensures PartLines(ps) == Concat(g)
  {
    if ps != [] {
      PartLinesOfGroups(ps[..|ps| - 1], g[..|g| - 1]);
    }
  }
}
