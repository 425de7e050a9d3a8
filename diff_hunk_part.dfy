/**
 * `DiffHunkPart`: a run of hunk lines of one kind (context, or additions and
 * deletions) with the selection summary the staging view shows for it.
 */
module DiffHunkParts {
  import opened Wrappers
  import opened DiffLines

  datatype PartType = Context | AdditionOrDeletion {
    /** The `id` of the part type. */
    function Id(): string {
      match this
      case Context => "context"
      case AdditionOrDeletion => "additionOrDeletion"
    }
  }

  class DiffHunkPart {
    const partType: PartType
    const indexInHunk: int
    const oldFilePath: Option<string>
    const newFilePath: Option<string>
    var lines: seq<DiffLine>
    var isSelected: bool
    var selectedLinesCount: int

    /**
     * `init`: stores the lines and numbers them; the number a line ends up with
     * is the position of its last occurrence in `lines`.
     */
    constructor (partType: PartType, lines: seq<DiffLine>, indexInHunk: int,
                 oldFilePath: Option<string>, newFilePath: Option<string>)
      modifies lines
      ensures this.partType == partType && this.lines == lines && this.indexInHunk == indexInHunk
      ensures this.oldFilePath == oldFilePath && this.newFilePath == newFilePath
      ensures !isSelected && selectedLinesCount == 0
      ensures forall i :: 0 <= i < |lines| && (forall j :: i < j < |lines| ==> lines[j] != lines[i]) ==>
                lines[i].indexInPart == i
      ensures forall l :: l in lines ==> l.isSelected == old(l.isSelected)
    {
      this.partType := partType;
      this.indexInHunk := indexInHunk;
      this.lines := lines;
      this.oldFilePath := oldFilePath;
      this.newFilePath := newFilePath;
      isSelected := false;
      selectedLinesCount := 0;
      new;
      var i := 0;
      while i < |lines|
        invariant 0 <= i <= |lines| && this.lines == lines
        invariant forall k :: 0 <= k < i && (forall j :: k < j < i ==> lines[j] != lines[k]) ==>
                    lines[k].indexInPart == k
        invariant forall l :: l in lines ==> l.isSelected == old(l.isSelected)
        invariant !isSelected && selectedLinesCount == 0
      {
        lines[i].indexInPart := i;
        i := i + 1;
      }
    }

    /**
     * The `id` string of the part: the type's id and a dot first, the file
     * paths last.
     */
    function Id(): (r: string)
      reads this
      ensures var head := partType.Id() + ".";
        |head| <= |r| && r[..|head|] == head
      ensures var tail := PathsTail(oldFilePath, newFilePath);
        |tail| <= |r| && r[|r| - |tail|..] == tail
    {
      PartIdEnds(partType, indexInHunk, isSelected, selectedLinesCount, oldFilePath, newFilePath);
      PartId(partType, indexInHunk, isSelected, selectedLinesCount, oldFilePath, newFilePath)
    }

    /** `refreshSelectedStatus`: recounts the selected lines; a context part is refused. */
    method RefreshSelectedStatus()
      requires partType == AdditionOrDeletion
      modifies this
      ensures lines == old(lines)
      ensures selectedLinesCount == CountTrue(Selections(lines))
      ensures isSelected <==> forall l :: l in lines ==> l.isSelected
    {
      var flags := Selections(lines);
      var count := CountTrue(flags);
      var all := AllSelected(lines);
      selectedLinesCount := count;
      isSelected := all;
      assert Selections(lines) == flags;
    }

    /** `toggleLine`: flips one line's selection and recounts. */
    method ToggleLine(line: DiffLine)
      requires partType == AdditionOrDeletion
      modifies this, line
      ensures lines == old(lines)
      ensures line.isSelected == !old(line.isSelected) && line.indexInPart == old(line.indexInPart)
      ensures selectedLinesCount == CountTrue(Selections(lines))
      ensures isSelected <==> forall l :: l in lines ==> l.isSelected
    {
      line.isSelected := !line.isSelected;
      RefreshSelectedStatus();
    }

    /** `selectLine`: sets one line's flag; a context part is refused. */
    method SelectLine(line: DiffLine, flag: bool)
      requires partType == AdditionOrDeletion
      modifies line
      ensures line.isSelected == flag && line.indexInPart == old(line.indexInPart)
    {
      line.isSelected := flag;
    }

    /** The loop of `toggle`: `selectLine` with the flag on every line. */
    method SelectAll(flag: bool)
      requires partType == AdditionOrDeletion
      modifies lines
      ensures forall k :: 0 <= k < |lines| ==> lines[k].isSelected == flag
      ensures forall l :: l in lines ==> l.indexInPart == old(l.indexInPart)
    {
      var i := 0;
      while i < |lines|
        invariant 0 <= i <= |lines|
        invariant forall k :: 0 <= k < i ==> lines[k].isSelected == flag
        invariant forall l :: l in lines ==> l.indexInPart == old(l.indexInPart)
      {
        SelectLine(lines[i], flag);
        i := i + 1;
      }
    }

    /**
     * `toggle`: gives every line the negation of the part's flag, then recounts,
     * so afterwards all lines or none are counted.
     */
    method Toggle()
      requires partType == AdditionOrDeletion
      modifies this, lines
      ensures lines == old(lines)
      ensures forall k :: 0 <= k < |lines| ==> lines[k].isSelected == !old(isSelected)
      ensures forall l :: l in lines ==> l.indexInPart == old(l.indexInPart)
      ensures selectedLinesCount == if old(isSelected) then 0 else |lines|
      ensures isSelected == (!old(isSelected) || lines == [])
    {
      var flag := !isSelected;
      SelectAll(flag);
      RefreshUniform(flag);
    }

    /** The recount that ends `toggle`, once every line carries the same flag. */
    method RefreshUniform(flag: bool)
      requires partType == AdditionOrDeletion
      requires forall k :: 0 <= k < |lines| ==> lines[k].isSelected == flag
      modifies this
      ensures lines == old(lines)
      ensures selectedLinesCount == if flag then |lines| else 0
      ensures isSelected == (flag || lines == [])
    {
      RefreshSelectedStatus();
      UniformSelection(lines, flag);
    }
  }

  /** Lines that all carry the same flag count as all or nothing, and agree with `allSatisfy`. */
  lemma UniformSelection(lines: seq<DiffLine>, flag: bool)
    requires forall k :: 0 <= k < |lines| ==> lines[k].isSelected == flag
    ensures forall l :: l in lines ==> l.isSelected == flag
    ensures CountTrue(Selections(lines)) == if flag then |lines| else 0
    ensures (forall l :: l in lines ==> l.isSelected) <==> flag || lines == []
  {
    CountUniform(Selections(lines), flag);
    if lines != [] {
      assert lines[0] in lines;
    }
  }

  /** Flags that are all equal count as all or nothing. */
  lemma CountUniform(s: seq<bool>, b: bool)
    requires forall k :: 0 <= k < |s| ==> s[k] == b
    ensures CountTrue(s) == if b then |s| else 0
  {
  }

  /** `allSatisfy(\.isSelected)` */
  function AllSelected(lines: seq<DiffLine>): (b: bool)
    reads lines
    ensures b <==> forall l :: l in lines ==> l.isSelected
  {
    forall i :: 0 <= i < |lines| ==> lines[i].isSelected
  }

  function BoolToString(b: bool): string {
    if b then "true" else "false"
  }

  function DigitChar(d: nat): (c: char)
    requires d < 10
    ensures '0' <= c <= '9'
  {
    ['0', '1', '2', '3', '4', '5', '6', '7', '8', '9'][d]
  }

  /** Decimal digits of a natural number, without leading zeros. */
  function NatToString(n: nat): (s: string)
    ensures |s| >= 1
    ensures forall i :: 0 <= i < |s| ==> '0' <= s[i] <= '9'
    ensures n >= 10 ==> |s| >= 2
  {
    if n < 10 then [DigitChar(n)] else NatToString(n / 10) + [DigitChar(n % 10)]
  }

  /** Swift's decimal description of an `Int`. */
  function IntToString(n: int): (s: string)
    ensures '.' !in s
  {
    if n < 0 then "-" + NatToString(-n) else NatToString(n)
  }

  lemma DigitCharInjective(a: nat, b: nat)
    requires a < 10 && b < 10 && DigitChar(a) == DigitChar(b)
    ensures a == b
  {
  }

  /** Different numbers print differently. */
  lemma {:induction false} NatToStringInjective(a: nat, b: nat)
    ensures NatToString(a) == NatToString(b) ==> a == b
  {
    var sa, sb := NatToString(a), NatToString(b);
    if sa == sb {
      if a >= 10 && b >= 10 {
        assert sa[..|sa| - 1] == NatToString(a / 10) && sb[..|sb| - 1] == NatToString(b / 10);
        NatToStringInjective(a / 10, b / 10);
        DigitCharInjective(a % 10, b % 10);
      } else if a < 10 && b < 10 {
        DigitCharInjective(a, b);
      }
    }
  }

  /** A printed integer starts with a minus sign exactly when it is negative. */
  lemma IntToStringSign(n: int)
    ensures |IntToString(n)| >= 1
    ensures IntToString(n)[0] == '-' <==> n < 0
  {
    if n >= 0 {
      assert '0' <= NatToString(n)[0];
    }
  }

  lemma IntToStringInjective(a: int, b: int)
    requires IntToString(a) == IntToString(b)
    ensures a == b
  {
    assert (a < 0) == (b < 0) by {
      IntToStringSign(a);
      IntToStringSign(b);
    }
    if a < 0 {
      NegativeToStringInjective(a, b);
    } else {
      NatToStringInjective(a, b);
    }
  }

  /** Different negative numbers print differently. */
  lemma NegativeToStringInjective(a: int, b: int)
    requires a < 0 && b < 0 && IntToString(a) == IntToString(b)
    ensures a == b
  {
    assert NatToString(-a) == NatToString(-b) by {
      SignedInjective(NatToString(-a), NatToString(-b));
    }
    NatToStringInjective(-a, -b);
  }

  /** A leading sign can be dropped from both sides of an equation. */
  lemma SignedInjective(x: string, y: string)
    requires "-" + x == "-" + y
    ensures x == y
  {
    assert x == ("-" + x)[1..];
    assert y == ("-" + y)[1..];
  }

  /** Position of the first `.`, or `|s|` when there is none. */
  function FirstDot(s: string): (i: nat)
    ensures i <= |s|
    ensures forall j :: 0 <= j < i ==> s[j] != '.'
    ensures i < |s| ==> s[i] == '.'
  {
    if s == [] || s[0] == '.' then 0 else 1 + FirstDot(s[1..])
  }

  /** The first dot of `a + "." + x` is the one after `a` when `a` has none. */
  lemma FirstDotAfterHead(a: string, x: string)
    requires '.' !in a
    ensures FirstDot(a + "." + x) == |a|
  {
    var s := a + "." + x;
    assert s[|a|] == '.';
    assert forall j :: 0 <= j < |a| ==> s[j] == a[j];
  }

  /** A dot-separated string with a dot-free head splits back into its head and tail. */
  lemma SplitAtDot(a: string, x: string, b: string, y: string)
    requires '.' !in a && '.' !in b && a + "." + x == b + "." + y
    ensures a == b && x == y
  {
    var s := a + "." + x;
    FirstDotAfterHead(a, x);
    FirstDotAfterHead(b, y);
    assert a == s[..|a|] == b;
    assert x == s[|a| + 1..] == y;
  }

  /** The dot-joined fields that make up a part's `id`. */
  function PartId(t: PartType, index: int, selected: bool, count: int,
                  oldPath: Option<string>, newPath: Option<string>): string
  {
    t.Id() + "." + (IntToString(index) + "." + (BoolToString(selected) + "."
      + (IntToString(count) + "." + PathsTail(oldPath, newPath))))
  }

  /** A suffix of `b` is a suffix of `a + b`. */
  lemma SuffixOfAppend(a: string, b: string, p: string)
    requires |p| <= |b| && b[|b| - |p|..] == p
    ensures |p| <= |a + b| && (a + b)[|a + b| - |p|..] == p
  {
    assert (a + b)[|a + b| - |p|..] == b[|b| - |p|..];
  }

  /** An `id` begins with its type's id and a dot and ends with the paths. */
  lemma PartIdEnds(t: PartType, index: int, selected: bool, count: int,
                   oldPath: Option<string>, newPath: Option<string>)
    ensures var r, head := PartId(t, index, selected, count, oldPath, newPath), t.Id() + ".";
      |head| <= |r| && r[..|head|] == head
    ensures var r, tail := PartId(t, index, selected, count, oldPath, newPath), PathsTail(oldPath, newPath);
      |tail| <= |r| && r[|r| - |tail|..] == tail
  {
    DotJoinedEnds(t.Id(), IntToString(index), BoolToString(selected), IntToString(count), PathsTail(oldPath, newPath));
  }

  /** Five fields joined by dots begin with the first and a dot and end with the last. */
  lemma DotJoinedEnds(a: string, b: string, c: string, d: string, tail: string)
    ensures var r := a + "." + (b + "." + (c + "." + (d + "." + tail)));
      |a + "."| <= |r| && r[..|a + "."|] == a + "." && |tail| <= |r| && r[|r| - |tail|..] == tail
  {
    var s3 := d + "." + tail;
    var s2 := c + "." + s3;
    var s1 := b + "." + s2;
    assert s3[|s3| - |tail|..] == tail;
    SuffixOfAppend(c + ".", s3, tail);
    SuffixOfAppend(b + ".", s2, tail);
    SuffixOfAppend(a + ".", s1, tail);
  }

  /** The part of an `id` after the count. */
  function PathsTail(oldPath: Option<string>, newPath: Option<string>): string {
    oldPath.GetOr("") + "." + newPath.GetOr("")
  }

  /** An `id` from the selection flag on determines the flag and the count. */
  lemma FlagCountDetermined(b1: bool, c1: int, x1: string, b2: bool, c2: int, x2: string)
    requires BoolToString(b1) + "." + (IntToString(c1) + "." + x1) == BoolToString(b2) + "." + (IntToString(c2) + "." + x2)
    ensures b1 == b2 && c1 == c2
  {
    SplitAtDot(BoolToString(b1), IntToString(c1) + "." + x1, BoolToString(b2), IntToString(c2) + "." + x2);
    SplitAtDot(IntToString(c1), x1, IntToString(c2), x2);
    IntToStringInjective(c1, c2);
  }

  /** An `id` determines the part type and the rest. */
  lemma TypeDetermined(t1: PartType, r1: string, t2: PartType, r2: string)
    requires t1.Id() + "." + r1 == t2.Id() + "." + r2
    ensures t1 == t2 && r1 == r2
  {
    assert '.' !in t1.Id() && '.' !in t2.Id();
    SplitAtDot(t1.Id(), r1, t2.Id(), r2);
  }

  /** An `id` from the index on determines the index, the flag and the count. */
  lemma IndexFlagCountDetermined(i1: int, r1: string, i2: int, r2: string)
    requires IntToString(i1) + "." + r1 == IntToString(i2) + "." + r2
    ensures i1 == i2 && r1 == r2
  {
    SplitAtDot(IntToString(i1), r1, IntToString(i2), r2);
    IntToStringInjective(i1, i2);
  }

  /**
   * The `id` identifies a part's type, position in the hunk, selection flag
   * and selected count: two parts with the same `id` agree on all four (the
   * file paths may contain dots, so they are not recovered).
   */
  lemma IdDeterminesSummary(p: DiffHunkPart, q: DiffHunkPart)
    requires p.Id() == q.Id()
    ensures p.partType == q.partType && p.indexInHunk == q.indexInHunk
    ensures p.isSelected == q.isSelected && p.selectedLinesCount == q.selectedLinesCount
  {
    PartIdInjective(p.partType, p.indexInHunk, p.isSelected, p.selectedLinesCount, p.oldFilePath, p.newFilePath,
                    q.partType, q.indexInHunk, q.isSelected, q.selectedLinesCount, q.oldFilePath, q.newFilePath);
  }

  /** Equal `id` strings come from equal types, indices, flags and counts. */
  lemma PartIdInjective(t1: PartType, i1: int, b1: bool, c1: int, o1: Option<string>, n1: Option<string>,
                        t2: PartType, i2: int, b2: bool, c2: int, o2: Option<string>, n2: Option<string>)
    requires PartId(t1, i1, b1, c1, o1, n1) == PartId(t2, i2, b2, c2, o2, n2)
    ensures t1 == t2 && i1 == i2 && b1 == b2 && c1 == c2
  {
    var x1, x2 := PathsTail(o1, n1), PathsTail(o2, n2);
    var s1 := BoolToString(b1) + "." + (IntToString(c1) + "." + x1);
    var s2 := BoolToString(b2) + "." + (IntToString(c2) + "." + x2);
    var r1 := IntToString(i1) + "." + s1;
    var r2 := IntToString(i2) + "." + s2;
    assert PartId(t1, i1, b1, c1, o1, n1) == t1.Id() + "." + r1;
    assert PartId(t2, i2, b2, c2, o2, n2) == t2.Id() + "." + r2;
    TypeDetermined(t1, r1, t2, r2);
    IndexFlagCountDetermined(i1, s1, i2, s2);
    FlagCountDetermined(b1, c1, x1, b2, c2, x2);
  }
}
