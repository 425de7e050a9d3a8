/**
 * Helpers of GitExtensions.swift: the stage bits of an index entry's flags,
 * the running fold `scan`, and the packed string buffer that
 * `withGitStringArray` hands to libgit2 as a `git_strarray`.
 */
module GitExtensions {
  import opened Wrappers

  // ---------------------------------------------------------------------
  // `git_index_entry.stage`
  // ---------------------------------------------------------------------

  // libgit2's index.h: GIT_INDEX_ENTRY_STAGEMASK is 0x3000 and
  // GIT_INDEX_ENTRY_STAGESHIFT is 12; `~STAGEMASK` on 16 bits is 0xCFFF.

  /** The stage an entry with these flags is in: the two bits under the mask. */
  function StageOf(flags: bv16): (s: bv16)
    ensures s <= 3
    ensures s << 12 == flags & 0x3000
  {
    (flags & 0x3000) >> 12
  }

  /** Flags with their stage bits replaced by the low two bits of `v`. */
  function WithStage(flags: bv16, v: bv16): (r: bv16)
    ensures r & 0xCFFF == flags & 0xCFFF
  {
    (flags & 0xCFFF) | ((v & 0x03) << 12)
  }

  /** Writing a stage and reading it back gives its low two bits; other bits are kept. */
  lemma StageRoundTrip(flags: bv16, v: bv16)
    ensures StageOf(WithStage(flags, v)) == v & 3
    ensures WithStage(flags, StageOf(flags)) == flags
    ensures WithStage(WithStage(flags, v), v) == WithStage(flags, v)
  {
  }

  class IndexEntry {
    var flags: bv16

    constructor (flags: bv16)
      ensures this.flags == flags
    {
      this.flags := flags;
    }

    /** The `stage` getter. */
    function Stage(): (s: bv16)
      reads this
      ensures s <= 3 && s << 12 == flags & 0x3000
    {
      StageOf(flags)
    }

    /** The `stage` setter: the mask bits take `newValue & 3`, every other bit stays. */
    method SetStage(newValue: bv16)
      modifies this
      ensures flags == WithStage(old(flags), newValue)
      ensures Stage() == newValue & 3
    {
      ghost var was := flags;
      var cleared := flags & 0xCFFF;
      flags := cleared | ((newValue & 0x03) << 12);
      assert flags == WithStage(was, newValue);
      StageRoundTrip(was, newValue);
    }
  }

  // ---------------------------------------------------------------------
  // `scan`
  // ---------------------------------------------------------------------

  /** The running result before element `k` is folded in. */
  function RunningBefore<U>(result: seq<U>, initial: U, k: nat): U
    requires k <= |result|
  {
    if k == 0 then initial else result[k - 1]
  }

  /** `scan(seq, initial, combine)`: every running result of the fold, one per element. */
  method Scan<S, U>(s: seq<S>, initial: U, combine: (U, S) -> U) returns (result: seq<U>)
    ensures |result| == |s|
    ensures forall i :: 0 <= i < |s| ==> result[i] == combine(RunningBefore(result, initial, i), s[i])
  {
    result := [];
    var runningResult := initial;
    var i := 0;
    while i < |s|
      invariant 0 <= i <= |s| && |result| == i
      invariant runningResult == RunningBefore(result, initial, i)
      invariant forall k :: 0 <= k < i ==> result[k] == combine(RunningBefore(result, initial, k), s[k])
    {
      runningResult := combine(runningResult, s[i]);
      result := result + [runningResult];
      i := i + 1;
    }
  }

  // ---------------------------------------------------------------------
  // `withGitStringArray`
  // ---------------------------------------------------------------------

  /** A UTF-8 code unit and a C `char` (`Int8`). */
  newtype byte = x: int | 0 <= x < 256
  newtype int8 = x: int | -128 <= x < 128

  /** `Int8($0)` as written: the value-preserving conversion, which traps from 128 on. */
  function CCharAsWritten(b: byte): (c: int8)
    requires b < 128
    ensures c as int == b as int
  {
    b as int8
  }

  /** Every code unit is below 128: the strings `Int8($0)` converts without trapping. */
  predicate AsciiOnly(s: seq<byte>) {
    forall j :: 0 <= j < |s| ==> s[j] < 128
  }

  /**
   * The UTF-8 encoding of "é", as a path may contain it, is not ASCII, so the
   * buffer loop as written traps on it (`PackStringsAsWritten` cannot be called).
   */
  lemma NonAsciiPathTraps()
    ensures var e: seq<byte> := [0xC3, 0xA9]; !AsciiOnly(e)
  {
    var e: seq<byte> := [0xC3, 0xA9];
    assert !(e[0] < 128);
  }

  /** `Int8(bitPattern: $0)`: the same eight bits read as a signed `char`. */
  function CChar(b: byte): (c: int8)
    ensures (c as int + 256) % 256 == b as int
    ensures c == 0 <==> b == 0
    ensures b < 128 ==> c == CCharAsWritten(b)
  {
    if b < 128 then b as int8 else (b as int - 256) as int8
  }

  /** The `char`s of one string. */
  function Encode(s: seq<byte>): (r: seq<int8>)
    ensures |r| == |s| && forall j :: 0 <= j < |s| ==> r[j] == CChar(s[j])
  {
    seq(|s|, j requires 0 <= j < |s| => CChar(s[j]))
  }

  /** `string.utf8.map { Int8($0) }` as written: defined only where no code unit traps. */
  function EncodeAsWritten(s: seq<byte>): (r: seq<int8>)
    requires AsciiOnly(s)
    ensures |r| == |s| && forall j :: 0 <= j < |s| ==> r[j] as int == s[j] as int
    ensures r == Encode(s)
  {
    seq(|s|, j requires 0 <= j < |s| => CCharAsWritten(s[j]))
  }

  /** Each string's `char`s followed by a NUL, one after another. */
  function Packed(ss: seq<seq<byte>>): seq<int8> {
    if ss == [] then [] else Packed(ss[..|ss| - 1]) + Encode(ss[|ss| - 1]) + [0]
  }

  /** Where each string starts in the packed buffer, plus the end of the buffer. */
  function Offsets(ss: seq<seq<byte>>): (o: seq<nat>)
    ensures |o| == |ss| + 1 && o[0] == 0
  {
    if ss == [] then [0]
    else
      var o := Offsets(ss[..|ss| - 1]);
      o + [o[|o| - 1] + |ss[|ss| - 1]| + 1]
  }

  /** `lengths`: each string's size with its terminator. */
  function Lengths(ss: seq<seq<byte>>): (r: seq<int>)
    ensures |r| == |ss| && forall i :: 0 <= i < |ss| ==> r[i] == |ss[i]| + 1
  {
    seq(|ss|, i requires 0 <= i < |ss| => |ss[i]| + 1)
  }

  /** Each offset is the previous one plus the previous string's size and its NUL. */
  lemma {:induction false} OffsetsStep(ss: seq<seq<byte>>)
    ensures forall i :: 0 <= i < |ss| ==> Offsets(ss)[i + 1] == Offsets(ss)[i] + |ss[i]| + 1
  {
    if ss != [] {
      var init := ss[..|ss| - 1];
      OffsetsStep(init);
      assert forall i :: 0 <= i < |init| ==> init[i] == ss[i];
    }
  }

  /** A list that starts at 0 and steps like the offsets is the offsets. */
  lemma {:induction false} OffsetsUnique(ss: seq<seq<byte>>, o: seq<int>)
    requires |o| == |ss| + 1 && o[0] == 0
    requires forall i :: 0 <= i < |ss| ==> o[i + 1] == o[i] + |ss[i]| + 1
    ensures o == Offsets(ss)
  {
    if ss != [] {
      var init := ss[..|ss| - 1];
      assert forall i :: 0 <= i < |init| ==> init[i] == ss[i];
      OffsetsUnique(init, o[..|o| - 1]);
      assert o == o[..|o| - 1] + [o[|o| - 1]];
    }
  }

  /** The buffer is exactly as long as the last offset says. */
  lemma {:induction false} PackedSize(ss: seq<seq<byte>>)
    ensures |Packed(ss)| == Offsets(ss)[|ss|]
  {
    if ss != [] {
      PackedSize(ss[..|ss| - 1]);
    }
  }

  /** At its offset the buffer holds string `i`, and right after it a NUL. */
  lemma {:induction false} PackedHolds(ss: seq<seq<byte>>, i: nat)
    requires i < |ss|
    ensures Offsets(ss)[i] + |ss[i]| < |Packed(ss)|
    ensures Packed(ss)[Offsets(ss)[i]..Offsets(ss)[i] + |ss[i]|] == Encode(ss[i])
    ensures Packed(ss)[Offsets(ss)[i] + |ss[i]|] == 0
    decreases |ss|, 1
  {
    var n := |ss| - 1;
    var p := Packed(ss[..n]);
    var tail := Encode(ss[n]) + [0];
    assert Packed(ss) == p + tail;
    PackedSize(ss[..n]);
    if i < n {
      PackedHoldsEarlier(ss, i);
    } else {
      assert Offsets(ss)[i] == |p|;
      AppendedString(p, Encode(ss[n]));
    }
  }

  /** The step of `PackedHolds` for a string before the last. */
  lemma {:induction false} PackedHoldsEarlier(ss: seq<seq<byte>>, i: nat)
    requires i < |ss| - 1
    ensures Offsets(ss)[i] + |ss[i]| < |Packed(ss[..|ss| - 1])|
    ensures Packed(ss[..|ss| - 1])[Offsets(ss)[i]..Offsets(ss)[i] + |ss[i]|] == Encode(ss[i])
    ensures Packed(ss[..|ss| - 1])[Offsets(ss)[i] + |ss[i]|] == 0
    decreases |ss|, 0
  {
    var init := ss[..|ss| - 1];
    PackedHolds(init, i);
    assert init[i] == ss[i];
    assert Offsets(ss)[i] == Offsets(init)[i];
  }

  /** A string appended with its terminator sits right after the front. */
  lemma AppendedString(p: seq<int8>, e: seq<int8>)
    ensures (p + (e + [0]))[|p|..|p| + |e|] == e && (p + (e + [0]))[|p| + |e|] == 0
  {
    assert (p + (e + [0]))[|p|..] == e + [0];
  }

  /** `String(cString:)`: the `char`s from `start` up to the first NUL. */
  function ReadCString(buffer: seq<int8>, start: nat): (r: seq<int8>)
    ensures forall j :: 0 <= j < |r| ==> r[j] != 0
    ensures r != [] ==> start + |r| <= |buffer| && r == buffer[start..start + |r|]
    ensures start + |r| < |buffer| ==> buffer[start + |r|] == 0
    decreases |buffer| - start
  {
    if start >= |buffer| || buffer[start] == 0 then []
    else
      var rest := ReadCString(buffer, start + 1);
      assert rest != [] ==> buffer[start..start + 1 + |rest|] == [buffer[start]] + buffer[start + 1..start + 1 + |rest|];
      [buffer[start]] + rest
  }

  /** Reading stops exactly at a terminator that follows NUL-free text. */
  lemma {:induction false} ReadUpToNul(buffer: seq<int8>, start: nat, w: seq<int8>)
    requires start + |w| < |buffer| && buffer[start..start + |w|] == w && buffer[start + |w|] == 0
    requires forall j :: 0 <= j < |w| ==> w[j] != 0
    ensures ReadCString(buffer, start) == w
    decreases |w|
  {
    if w != [] {
      assert buffer[start] == w[0];
      assert buffer[start + 1..start + 1 + |w[1..]|] == w[1..];
      ReadUpToNul(buffer, start + 1, w[1..]);
    }
  }

  /** The `git_strarray` passed to the block: pointers into the buffer, and the count. */
  datatype StrArray = StrArray(strings: seq<Option<nat>>, count: int)

  /** The `git_strarray` subscript: the C string at entry `index`, or nil. */
  function Subscript(buffer: seq<int8>, a: StrArray, index: nat): Option<seq<int8>>
    requires index < |a.strings|
  {
    match a.strings[index]
    case None => None
    case Some(o) => Some(ReadCString(buffer, o))
  }

  /**
   * The buffer and array `withGitStringArray` builds before calling its block:
   * sizes with terminators, their running offsets, the strings packed with
   * their NULs, a pointer per offset with the last set to nil, and the count.
   * The bytes are converted with the corrected `Int8(bitPattern:)`, so the
   * method is defined on every string; the conversion as written is
   * `PackStringsAsWritten`.
   */
  method WithGitStringArray(strings: seq<seq<byte>>) returns (buffer: seq<int8>, strarray: StrArray)
    ensures buffer == Packed(strings) && |buffer| == Offsets(strings)[|strings|]
    ensures strarray.count == |strings| && |strarray.strings| == |strings| + 1
    ensures strarray.strings[|strings|] == None
    ensures forall i :: 0 <= i < |strings| ==> strarray.strings[i] == Some(Offsets(strings)[i])
  {
    var offsets := StringOffsets(strings);
    buffer := PackStrings(strings);
    PackedSize(strings);
    var cStrings := seq(|offsets|, k requires 0 <= k < |offsets| => Some(offsets[k]));
    cStrings := cStrings[|cStrings| - 1 := None];
    strarray := StrArray(cStrings, |strings|);
  }

  /** `[0] + scan(lengths, 0, +)`: the offsets of the strings in the buffer. */
  method StringOffsets(strings: seq<seq<byte>>) returns (offsets: seq<nat>)
    ensures offsets == Offsets(strings)
  {
    var lengths := Lengths(strings);
    var scanned := Scan(lengths, 0, (a: int, b: int) => a + b);
    var all := [0] + scanned;
    forall i | 0 <= i < |strings|
      ensures all[i + 1] == all[i] + lengths[i]
    {
      assert all[i + 1] == scanned[i];
      if i > 0 {
        assert all[i] == scanned[i - 1];
      }
    }
    OffsetsUnique(strings, all);
    offsets := all;
  }

  /** The buffer loop: each string's code units as `char`s, then a NUL. */
  method PackStrings(strings: seq<seq<byte>>) returns (buffer: seq<int8>)
    ensures buffer == Packed(strings)
  {
    buffer := [];
    var i := 0;
    while i < |strings|
      invariant 0 <= i <= |strings|
      invariant buffer == Packed(strings[..i])
    {
      assert strings[..i + 1][..i] == strings[..i];
      buffer := buffer + Encode(strings[i]);
      buffer := buffer + [0];
      i := i + 1;
    }
    assert strings[..i] == strings;
  }

  /**
   * The buffer loop as written, with `Int8($0)`: it traps unless every string is
   * ASCII, and where it does not trap it builds the same buffer as the
   * corrected conversion.
   */
  method PackStringsAsWritten(strings: seq<seq<byte>>) returns (buffer: seq<int8>)
    requires forall i :: 0 <= i < |strings| ==> AsciiOnly(strings[i])
    ensures buffer == Packed(strings)
  {
    buffer := [];
    var i := 0;
    while i < |strings|
      invariant 0 <= i <= |strings|
      invariant buffer == Packed(strings[..i])
    {
      assert strings[..i + 1][..i] == strings[..i];
      buffer := buffer + EncodeAsWritten(strings[i]);
      buffer := buffer + [0];
      i := i + 1;
    }
    assert strings[..i] == strings;
  }

  /** Entry `i` of the array reads back string `i`, as long as it holds no NUL byte. */
  lemma StringArrayRoundTrip(strings: seq<seq<byte>>, buffer: seq<int8>, a: StrArray, i: nat)
    requires buffer == Packed(strings) && |a.strings| == |strings| + 1
    requires forall k :: 0 <= k < |strings| ==> a.strings[k] == Some(Offsets(strings)[k])
    requires i < |strings| && forall j :: 0 <= j < |strings[i]| ==> strings[i][j] != 0
    ensures Subscript(buffer, a, i) == Some(Encode(strings[i]))
  {
    PackedHolds(strings, i);
    ReadUpToNul(buffer, Offsets(strings)[i], Encode(strings[i]));
  }
}
