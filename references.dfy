/**
 * Reference-name helpers of References.swift: the `refs/...` prefixes, the
 * long and short forms of branch and tag names, and the name-derived
 * properties of branches and tags.
 */
module References {
  import opened Wrappers
  import RefStore

  const TagPrefix: string := "refs/tags/"
  const BranchPrefix: string := "refs/heads/"
  const RemotePrefix: string := "refs/remotes/"
  const LongPrefix: string := "refs/"

  /** Swift's `hasPrefix`. */
  predicate HasPrefix(s: string, p: string) {
    |p| <= |s| && s[..|p|] == p
  }

  predicate IsLongRef(s: string) { HasPrefix(s, LongPrefix) }
  predicate IsBranchRef(s: string) { HasPrefix(s, BranchPrefix) }
  predicate IsTagRef(s: string) { HasPrefix(s, TagPrefix) }
  predicate IsRemoteRef(s: string) { HasPrefix(s, RemotePrefix) }
  /** `isHEAD`: the bare name `HEAD`, which is never a long name. */
  predicate IsHEAD(s: string)
    ensures IsHEAD(s) ==> !IsLongRef(s) && !IsBranchRef(s)
  {
    s == "HEAD"
  }

  /** `longBranchRef`: a long name unchanged, anything else under `refs/heads/`. */
  function LongBranchRef(s: string): (r: string)
    ensures IsLongRef(r)
  {
    if IsLongRef(s) then s else BranchPrefix + s
  }

  /** `longTagRef`: a long name unchanged, anything else under `refs/tags/`. */
  function LongTagRef(s: string): (r: string)
    ensures IsLongRef(r)
  {
    if IsLongRef(s) then s else TagPrefix + s
  }

  // ---------------------------------------------------------------- splitting

  /** Position of the first `/`, or `|s|` when there is none. */
  function FirstSlash(s: string): (i: nat)
    ensures i <= |s|
    ensures i < |s| ==> s[i] == '/'
    ensures forall j :: 0 <= j < i ==> s[j] != '/'
  {
    if s == [] || s[0] == '/' then 0 else 1 + FirstSlash(s[1..])
  }

  /** `split(separator: "/")`, which omits empty segments. */
  function Split(s: string): (pieces: seq<string>)
    ensures forall k :: 0 <= k < |pieces| ==> pieces[k] != [] && '/' !in pieces[k]
    decreases |s|
  {
    if s == [] then []
    else
      var i := FirstSlash(s);
      if i == 0 then Split(s[1..])
      else if i == |s| then [s]
      else [s[..i]] + Split(s[i + 1..])
  }

  /** `joined(separator: "/")`. */
  function Join(pieces: seq<string>): string {
    if pieces == [] then ""
    else if |pieces| == 1 then pieces[0]
    else pieces[0] + "/" + Join(pieces[1..])
  }

  /** `shortRef`: a long name of at least three segments without its first two. */
  function ShortRef(s: string): (r: string)
    ensures !IsLongRef(s) || |Split(s)| < 3 ==> r == s
    ensures IsLongRef(s) && |Split(s)| >= 3 ==> Split(r) == Split(s)[2..]
  {
    if !IsLongRef(s) then s
    else
      var pieces := Split(s);
      if |pieces| < 3 then s else SplitJoin(pieces[2..]); Join(pieces[2..])
  }

  /** Splitting joined segments, each non-empty and without `/`, gives the segments back. */
  lemma {:induction false} SplitJoin(pieces: seq<string>)
    requires forall k :: 0 <= k < |pieces| ==> pieces[k] != [] && '/' !in pieces[k]
    ensures Split(Join(pieces)) == pieces
  {
    if |pieces| == 1 {
      var p := pieces[0];
      assert FirstSlash(p) == |p|;
    } else if |pieces| > 1 {
      SplitJoin(pieces[1..]);
      SplitSegment(pieces[0], Join(pieces[1..]));
      assert [pieces[0]] + pieces[1..] == pieces;
    }
  }

  /** A name that `split` cuts into segments with nothing lost: no leading, trailing or doubled `/`. */
  predicate WellSegmented(s: string) {
    && s != []
    && s[0] != '/'
    && s[|s| - 1] != '/'
    && (forall i :: 0 <= i < |s| - 1 && s[i] == '/' ==> s[i + 1] != '/')
  }

  /** What follows a slash of a well-segmented name is well segmented. */
  lemma WellSegmentedAfterSlash(s: string, i: nat)
    requires WellSegmented(s) && i < |s| && s[i] == '/'
    ensures WellSegmented(s[i + 1..])
  {
    var rest := s[i + 1..];
    assert rest[0] == s[i + 1];
    forall j | 0 <= j < |rest| - 1 && rest[j] == '/' ensures rest[j + 1] != '/' {
      assert rest[j] == s[i + 1 + j];
    }
  }

  /** Joining the segments of a well-segmented name gives the name back. */
  lemma {:induction false} JoinSplit(s: string)
    requires WellSegmented(s)
    ensures |Split(s)| >= 1
    ensures Join(Split(s)) == s
    decreases |s|
  {
    var i := FirstSlash(s);
    if i < |s| {
      var rest := s[i + 1..];
      WellSegmentedAfterSlash(s, i);
      JoinSplit(rest);
      var pieces := Split(s);
      assert pieces == [s[..i]] + Split(rest);
      assert pieces[1..] == Split(rest);
      assert Join(pieces) == s[..i] + "/" + Join(Split(rest));
      assert s == s[..i] + "/" + rest;
    }
  }

  /** Splitting a name behind one segment and a slash yields that segment first. */
  lemma SplitSegment(seg: string, s: string)
    requires seg != [] && '/' !in seg
    ensures Split(seg + "/" + s) == [seg] + Split(s)
  {
    var t := seg + "/" + s;
    var i := |seg|;
    assert t[..i] == seg && t[i] == '/';
    FirstSlashAt(t, i);
    assert t[i + 1..] == s;
  }

  /** Splitting a name behind a two-segment prefix yields those two segments first. */
  lemma SplitUnderPrefix(prefix: string, first: string, second: string, s: string)
    requires prefix == first + "/" + second + "/"
    requires first != [] && '/' !in first && second != [] && '/' !in second
    ensures Split(prefix + s) == [first, second] + Split(s)
  {
    var rest := second + "/" + s;
    assert prefix + s == first + "/" + rest;
    SplitSegment(first, rest);
    SplitSegment(second, s);
    assert [first] + ([second] + Split(s)) == [first, second] + Split(s);
  }

  /** The first `/` is found at a position with a slash and none before. */
  lemma FirstSlashAt(s: string, i: nat)
    requires i < |s| && s[i] == '/' && '/' !in s[..i]
    ensures FirstSlash(s) == i
  {
  }

  /** `refs/heads/` and `refs/tags/` each split into two segments. */
  lemma SplitBranchRef(s: string)
    ensures Split(BranchPrefix + s) == ["refs", "heads"] + Split(s)
  {
    SplitUnderPrefix(BranchPrefix, "refs", "heads", s);
  }

  lemma SplitTagRef(s: string)
    ensures Split(TagPrefix + s) == ["refs", "tags"] + Split(s)
  {
    SplitUnderPrefix(TagPrefix, "refs", "tags", s);
  }

  lemma SplitRemoteRef(s: string)
    ensures Split(RemotePrefix + s) == ["refs", "remotes"] + Split(s)
  {
    SplitUnderPrefix(RemotePrefix, "refs", "remotes", s);
  }

  // ---------------------------------------------------------------- properties

  /** Branch, tag and remote names are long, and no name is two of them. */
  lemma PrefixesExclusive(s: string)
    ensures IsBranchRef(s) || IsTagRef(s) || IsRemoteRef(s) ==> IsLongRef(s)
    ensures !(IsBranchRef(s) && IsTagRef(s))
    ensures !(IsBranchRef(s) && IsRemoteRef(s))
    ensures !(IsTagRef(s) && IsRemoteRef(s))
  {
    if IsBranchRef(s) { assert s[..5] == s[..|BranchPrefix|][..5]; assert s[5] == 'h'; }
    if IsTagRef(s) { assert s[..5] == s[..|TagPrefix|][..5]; assert s[5] == 't'; }
    if IsRemoteRef(s) { assert s[..5] == s[..|RemotePrefix|][..5]; assert s[5] == 'r'; }
  }

  /** Making a name long twice changes nothing the second time. */
  lemma LongRefIdempotent(s: string)
    ensures LongBranchRef(LongBranchRef(s)) == LongBranchRef(s)
    ensures LongTagRef(LongTagRef(s)) == LongTagRef(s)
  {
  }

  /** A short branch name survives `longBranchRef` and then `shortRef`. */
  lemma {:induction false} ShortRefOfLongBranchRef(name: string)
    requires !IsLongRef(name) && WellSegmented(name)
    ensures ShortRef(LongBranchRef(name)) == name
  {
    var s := BranchPrefix + name;
    assert LongBranchRef(name) == s;
    assert s[..|LongPrefix|] == LongPrefix;
    SplitBranchRef(name);
    JoinSplit(name);
    var pieces := Split(s);
    assert pieces == ["refs", "heads"] + Split(name);
    assert pieces[2..] == Split(name);
  }

  /** Likewise for tags: `shortRef` of `refs/tags/<name>` is `<name>`, for a name without empty segments. */
  lemma {:induction false} ShortRefOfTagRef(name: string)
    requires WellSegmented(name)
    ensures ShortRef(TagPrefix + name) == name
  {
    var s := TagPrefix + name;
    assert s[..|LongPrefix|] == LongPrefix;
    SplitTagRef(name);
    JoinSplit(name);
    var pieces := Split(s);
    assert pieces == ["refs", "tags"] + Split(name);
    assert pieces[2..] == Split(name);
  }

  /** A name that is not long, or has fewer than three segments, is its own short form. */
  lemma ShortRefKeeps(s: string)
    requires !IsLongRef(s) || |Split(s)| < 3
    ensures ShortRef(s) == s
  {
  }

  // ---------------------------------------------------------------- branches and tags

  /** The name-related fields of `Branch`; its commit pointer is reduced to the OID. */
  datatype Branch = Branch(longName: string, name: string, oid: RefStore.Oid)

  /** `isLocal`: the long name is under `refs/heads/`, hence long and neither a remote nor a tag name. */
  predicate IsLocal(b: Branch)
    ensures IsLocal(b) ==> IsLongRef(b.longName) && !IsRemoteRef(b.longName) && !IsTagRef(b.longName)
  {
    PrefixesExclusive(b.longName); IsBranchRef(b.longName)
  }

  /** `isRemote`: the long name is under `refs/remotes/`, hence long and neither a local nor a tag name. */
  predicate IsRemote(b: Branch)
    ensures IsRemote(b) ==> IsLongRef(b.longName) && !IsBranchRef(b.longName) && !IsTagRef(b.longName)
  {
    PrefixesExclusive(b.longName); IsRemoteRef(b.longName)
  }

  /** `shortName`: for a remote branch, what follows the first `/` of `name` (when there is one). */
  function ShortName(b: Branch): (r: string)
    ensures |r| <= |b.name|
  {
    if IsRemote(b) && FirstSlash(b.name) < |b.name| then b.name[FirstSlash(b.name) + 1..] else b.name
  }

  /**
   * `remoteName`: the third segment of a remote branch's long name. Subscripting
   * the segments traps when there is no third one.
   */
  function RemoteName(b: Branch): (r: Option<string>)
    requires IsRemote(b) ==> |Split(b.longName)| >= 3
    ensures r.Some? <==> IsRemote(b)
    ensures r.Some? ==> r.value != [] && '/' !in r.value
  {
    if IsRemote(b) then Some(Split(b.longName)[2]) else None
  }

  /** For `refs/remotes/<remote>/<branch>`, `remoteName` is `<remote>`. */
  lemma RemoteNameOfRemoteBranch(b: Branch, remote: string, branch: string)
    requires remote != [] && '/' !in remote
    requires b.longName == RemotePrefix + remote + "/" + branch
    ensures IsRemote(b) && |Split(b.longName)| >= 3
    ensures RemoteName(b) == Some(remote)
  {
    RemoteBranchRef(remote, branch);
  }

  /** A name under `refs/remotes/<remote>/` is a remote ref whose segments start with `refs`, `remotes`, `<remote>`. */
  lemma RemoteBranchRef(remote: string, branch: string)
    requires remote != [] && '/' !in remote
    ensures IsRemoteRef(RemotePrefix + remote + "/" + branch)
    ensures Split(RemotePrefix + remote + "/" + branch) == ["refs", "remotes", remote] + Split(branch)
  {
    var u := remote + "/" + branch;
    var s := RemotePrefix + remote + "/" + branch;
    assert s == RemotePrefix + u;
    assert s[..|RemotePrefix|] == RemotePrefix;
    SplitRemoteRef(u);
    SplitSegment(remote, branch);
  }

  /** For a remote branch named `<remote>/<rest>`, `shortName` is `<rest>`. */
  lemma ShortNameOfRemoteBranch(b: Branch, remote: string, rest: string)
    requires IsRemote(b) && '/' !in remote && b.name == remote + "/" + rest
    ensures ShortName(b) == rest
  {
    assert b.name[..|remote|] == remote;
    FirstSlashAt(b.name, |remote|);
    assert b.name[|remote| + 1..] == rest;
  }

  /** A local branch's short name is its name. */
  lemma ShortNameOfLocalBranch(b: Branch)
    requires IsLocal(b)
    ensures ShortName(b) == b.name
  {
    PrefixesExclusive(b.longName);
  }

  /** The tag object an annotated tag points to, reduced to its target's OID. */
  datatype Tag = Tag(targetOid: RefStore.Oid)

  /** `TagReference` */
  datatype TagReference = Lightweight(ltName: string, ltOid: RefStore.Oid) | Annotated(atName: string, tag: Tag)

  function TagLongName(t: TagReference): string {
    match t
    case Lightweight(n, _) => n
    case Annotated(n, _) => n
  }

  /** `name`, which is also `shortName`: the short form of the long name. */
  function TagName(t: TagReference): (r: string)
    ensures var long := TagLongName(t);
      IsTagRef(long) && WellSegmented(long[|TagPrefix|..]) ==> TagPrefix + r == long
    ensures !IsLongRef(TagLongName(t)) ==> r == TagLongName(t)
  {
    var long := TagLongName(t);
    TagNameOfTagRef(long);
    ShortRef(long)
  }

  /** A well-segmented name under `refs/tags/` shortens to what follows the prefix. */
  lemma TagNameOfTagRef(long: string)
    ensures IsTagRef(long) && WellSegmented(long[|TagPrefix|..]) ==> TagPrefix + ShortRef(long) == long
  {
    if IsTagRef(long) && WellSegmented(long[|TagPrefix|..]) {
      var name := long[|TagPrefix|..];
      assert long == TagPrefix + name;
      ShortRefOfTagRef(name);
    }
  }

  /** `oid`: the stored OID of a lightweight tag, the target of an annotated tag's object. */
  function TagOid(t: TagReference): (r: RefStore.Oid)
    ensures t.Lightweight? ==> r == t.ltOid
    ensures t.Annotated? ==> r == t.tag.targetOid
  {
    match t
    case Lightweight(_, oid) => oid
    case Annotated(_, tag) => tag.targetOid
  }

  /** A tag called `refs/tags/<name>` is named `<name>` and points where its kind says. */
  lemma TagNameAndOid(t: TagReference, name: string)
    requires WellSegmented(name) && TagLongName(t) == TagPrefix + name
    ensures TagName(t) == name
    ensures t.Lightweight? ==> TagOid(t) == t.ltOid
    ensures t.Annotated? ==> TagOid(t) == t.tag.targetOid
  {
    ShortRefOfTagRef(name);
  }
}
