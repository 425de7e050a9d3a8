/**
 * A line of a diff hunk as the staging views use it: the libgit2 line fields
 * that never change, and the two fields the views update (whether the user
 * picked the line, and its position inside its hunk part).
 */
module DiffLines {

  /** `DiffLineType`: the libgit2 line origins. */
  datatype LineType =
    | Context | Addition | Deletion
    | ContextEofNl | AddEofNl | DelEofNl
    | FileHeader | HunkHeader | Binary

  class DiffLine {
    const kind: LineType
    const text: string
    /** `old_lineno` / `new_lineno`: 1-based line numbers in the old and new file (-1 when absent). */
    const oldLine: int
    const newLine: int
    var isSelected: bool
    var indexInPart: int

    constructor (kind: LineType, text: string, oldLine: int, newLine: int)
      ensures this.kind == kind && this.text == text && this.oldLine == oldLine && this.newLine == newLine
      ensures !isSelected && indexInPart == 0
    {
      this.kind := kind;
      this.text := text;
      this.oldLine := oldLine;
      this.newLine := newLine;
      isSelected := false;
      indexInPart := 0;
    }
  }

  /** `isAdditionOrDeletion` */
  predicate IsChange(l: DiffLine) {
    l.kind == Addition || l.kind == Deletion
  }

  /** The selection flags of a sequence of lines, position by position. */
  function Selections(lines: seq<DiffLine>): (s: seq<bool>)
    reads lines
    ensures |s| == |lines|
    ensures forall i :: 0 <= i < |lines| ==> s[i] == lines[i].isSelected
  {
    if lines == [] then [] else Selections(lines[..|lines| - 1]) + [lines[|lines| - 1].isSelected]
  }

  /** The number of `true` flags (`filter(\.isSelected).count`). */
  function CountTrue(s: seq<bool>): (n: nat)
    ensures n <= |s|
    ensures n == 0 <==> forall i :: 0 <= i < |s| ==> !s[i]
    ensures n == |s| <==> forall i :: 0 <= i < |s| ==> s[i]
  {
    if s == [] then 0 else CountTrue(s[..|s| - 1]) + (if s[|s| - 1] then 1 else 0)
  }

  /** Counting distributes over concatenation. */
  lemma {:induction false} CountTrueAppend(a: seq<bool>, b: seq<bool>)
    ensures CountTrue(a + b) == CountTrue(a) + CountTrue(b)
    decreases |b|
  {
    if b == [] {
      assert a + b == a;
    } else {
      assert (a + b)[..|a + b| - 1] == a + b[..|b| - 1];
      CountTrueAppend(a, b[..|b| - 1]);
    }
  }

  /** `texts`: the text of each line, in order. */
  function Texts(lines: seq<DiffLine>): (r: seq<string>)
    ensures |r| == |lines|
    ensures forall i :: 0 <= i < |lines| ==> r[i] == lines[i].text
  {
    if lines == [] then [] else Texts(lines[..|lines| - 1]) + [lines[|lines| - 1].text]
  }
}
