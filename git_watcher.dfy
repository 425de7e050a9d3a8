/**
 * Reference-cache change detection of the repository watcher. The watcher
 * keeps one name-to-OID cache per kind of reference (local branches, remote
 * branches, tags). When a file event touches that kind, it takes a fresh
 * snapshot of the matching references and sorts every name into added,
 * deleted or changed. If any category is non-empty, it publishes the
 * categories that are, and then the snapshot replaces the cache.
 *
 * The repository's reference listing is an input here: a sequence of
 * (long name, OID) pairs, of which `references(withPrefix:)` keeps those
 * whose name starts with the prefix. Each publisher is modelled as the
 * sequence of values sent to it (a count for the `Void` publishers).
 */
module GitWatchers {
  import RefStore
  import References

  type Oid = RefStore.Oid
  type RefCache = map<string, Oid>

  datatype Reference = Reference(longName: string, oid: Oid)

  datatype RefKey = Added | Deleted | Changed

  type RefChangeMap = map<RefKey, set<string>>

  /** `repository.references(withPrefix:)` on the listing `refs`, in listing order. */
  function WithPrefix(refs: seq<Reference>, prefix: string): (r: seq<Reference>)
    ensures forall x :: x in r <==> x in refs && References.HasPrefix(x.longName, prefix)
    ensures |r| <= |refs|
  {
    if refs == [] then []
    else
      var last := refs[|refs| - 1];
      WithPrefix(refs[..|refs| - 1], prefix) + (if References.HasPrefix(last.longName, prefix) then [last] else [])
  }

  /**
   * The cache that `forEach { cache[$0.longName] = $0.oid }` builds: at most
   * one entry per listed reference, and the last listing wins.
   */
  function Snapshot(refs: seq<Reference>): (r: RefCache)
    ensures |r| <= |refs|
    ensures refs != [] ==> refs[|refs| - 1].longName in r && r[refs[|refs| - 1].longName] == refs[|refs| - 1].oid
  {
    if refs == [] then map[]
    else
      var last := refs[|refs| - 1];
      Snapshot(refs[..|refs| - 1])[last.longName := last.oid]
  }

  /** A snapshot holds exactly the listed names, each with the OID of its last listing. */
  lemma SnapshotContents(refs: seq<Reference>)
    ensures forall n :: n in Snapshot(refs) <==> exists i :: 0 <= i < |refs| && refs[i].longName == n
    ensures forall i :: 0 <= i < |refs| && (forall j :: i < j < |refs| ==> refs[j].longName != refs[i].longName) ==>
      refs[i].longName in Snapshot(refs) && Snapshot(refs)[refs[i].longName] == refs[i].oid
  {
    SnapshotKeys(refs);
    forall i | 0 <= i < |refs| && (forall j :: i < j < |refs| ==> refs[j].longName != refs[i].longName)
      ensures refs[i].longName in Snapshot(refs) && Snapshot(refs)[refs[i].longName] == refs[i].oid
    {
      SnapshotLast(refs, i);
    }
  }

  /** The keys of a snapshot are the listed names. */
  lemma {:induction false} SnapshotKeys(refs: seq<Reference>)
    ensures forall n :: n in Snapshot(refs) <==> exists i :: 0 <= i < |refs| && refs[i].longName == n
  {
    if refs != [] {
      var init := refs[..|refs| - 1];
      SnapshotKeys(init);
      forall n | n in Snapshot(refs)
        ensures exists i :: 0 <= i < |refs| && refs[i].longName == n
      {
        if n != refs[|refs| - 1].longName {
          assert n in Snapshot(init);
          var i :| 0 <= i < |init| && init[i].longName == n;
          assert refs[i].longName == n;
        }
      }
      forall n | exists i :: 0 <= i < |refs| && refs[i].longName == n
        ensures n in Snapshot(refs)
      {
        var i :| 0 <= i < |refs| && refs[i].longName == n;
        if i < |init| {
          assert init[i].longName == n;
        }
      }
    }
  }

  /** A name listed for the last time at position `i` maps to that listing's OID. */
  lemma {:induction false} SnapshotLast(refs: seq<Reference>, i: nat)
    requires i < |refs|
    requires forall j :: i < j < |refs| ==> refs[j].longName != refs[i].longName
    ensures refs[i].longName in Snapshot(refs) && Snapshot(refs)[refs[i].longName] == refs[i].oid
  {
    var init := refs[..|refs| - 1];
    if i < |init| {
      assert init[i] == refs[i];
      forall j | i < j < |init| ensures init[j].longName != init[i].longName {
        assert init[j] == refs[j];
      }
      SnapshotLast(init, i);
    }
  }

  /** The `forEach` loop that fills a fresh cache from a listing. */
  method BuildCache(refs: seq<Reference>) returns (cache: RefCache)
    ensures cache == Snapshot(refs)
  {
    cache := map[];
    var i := 0;
    while i < |refs|
      invariant 0 <= i <= |refs|
      invariant cache == Snapshot(refs[..i])
    {
      assert refs[..i + 1][..i] == refs[..i];
      cache := cache[refs[i].longName := refs[i].oid];
      i := i + 1;
    }
    assert refs[..|refs|] == refs;
  }

  /** `newKeys.subtracting(oldKeys)` */
  function AddedRefs(oldCache: RefCache, newCache: RefCache): (r: set<string>)
    ensures forall n :: n in r <==> n in newCache && n !in oldCache
  {
    newCache.Keys - oldCache.Keys
  }

  /** `oldKeys.subtracting(newKeys)` */
  function DeletedRefs(oldCache: RefCache, newCache: RefCache): (r: set<string>)
    ensures forall n :: n in r <==> n in oldCache && n !in newCache
  {
    oldCache.Keys - newCache.Keys
  }

  /** The new keys that are not added and whose old and new OIDs both exist and differ. */
  function ChangedRefs(oldCache: RefCache, newCache: RefCache): (r: set<string>)
    ensures forall n :: n in r <==> n in oldCache && n in newCache && oldCache[n] != newCache[n]
  {
    set n | n in newCache.Keys - AddedRefs(oldCache, newCache) && n in oldCache && oldCache[n] != newCache[n]
  }

  /** The `refChanges` dictionary: each category that is not empty, under its key. */
  function RefChanges(oldCache: RefCache, newCache: RefCache): (m: RefChangeMap)
    ensures forall k :: k in m ==> m[k] != {}
    ensures Added in m <==> AddedRefs(oldCache, newCache) != {}
    ensures Deleted in m <==> DeletedRefs(oldCache, newCache) != {}
    ensures Changed in m <==> ChangedRefs(oldCache, newCache) != {}
    ensures Added in m ==> m[Added] == AddedRefs(oldCache, newCache)
    ensures Deleted in m ==> m[Deleted] == DeletedRefs(oldCache, newCache)
    ensures Changed in m ==> m[Changed] == ChangedRefs(oldCache, newCache)
  {
    var added, deleted, changed :=
      AddedRefs(oldCache, newCache), DeletedRefs(oldCache, newCache), ChangedRefs(oldCache, newCache);
    var m0: RefChangeMap := map[];
    var m1 := if added != {} then m0[Added := added] else m0;
    var m2 := if deleted != {} then m1[Deleted := deleted] else m1;
    if changed != {} then m2[Changed := changed] else m2
  }

  /** No name falls into two categories. */
  lemma CategoriesDisjoint(oldCache: RefCache, newCache: RefCache)
    ensures AddedRefs(oldCache, newCache) !! DeletedRefs(oldCache, newCache)
    ensures AddedRefs(oldCache, newCache) !! ChangedRefs(oldCache, newCache)
    ensures DeletedRefs(oldCache, newCache) !! ChangedRefs(oldCache, newCache)
  {
  }

  /** A name is in some category exactly when the two caches disagree about it. */
  lemma CategoriesCover(oldCache: RefCache, newCache: RefCache, n: string)
    ensures n in AddedRefs(oldCache, newCache) + DeletedRefs(oldCache, newCache) + ChangedRefs(oldCache, newCache)
      <==> (n in oldCache) != (n in newCache) || (n in oldCache && n in newCache && oldCache[n] != newCache[n])
  {
  }

  /** Dropping the deleted names and adding the added ones turns the old key set into the new one. */
  lemma KeysFollowChanges(oldCache: RefCache, newCache: RefCache)
    ensures (oldCache.Keys - DeletedRefs(oldCache, newCache)) + AddedRefs(oldCache, newCache) == newCache.Keys
  {
  }

  /** The change map is empty exactly when the snapshot equals the cache. */
  lemma RefChangesEmpty(oldCache: RefCache, newCache: RefCache)
    ensures RefChanges(oldCache, newCache) == map[] <==> oldCache == newCache
  {
    var m := RefChanges(oldCache, newCache);
    if oldCache == newCache {
      assert AddedRefs(oldCache, newCache) == {};
      assert DeletedRefs(oldCache, newCache) == {};
      assert ChangedRefs(oldCache, newCache) == {};
      assert m.Keys == {};
    }
    if m == map[] {
      assert Added !in m && Deleted !in m && Changed !in m;
      forall n | n in newCache
        ensures n in oldCache
      {
        assert n !in AddedRefs(oldCache, newCache);
      }
      forall n | n in oldCache
        ensures n in newCache && oldCache[n] == newCache[n]
      {
        assert n !in DeletedRefs(oldCache, newCache);
        assert n !in ChangedRefs(oldCache, newCache);
      }
      assert oldCache.Keys == newCache.Keys;
    }
  }

  /** What one check sends to its publisher: the change map, once, if it is not empty. */
  function Published(oldCache: RefCache, newCache: RefCache): (sent: seq<RefChangeMap>)
    ensures sent == [] <==> oldCache == newCache
    ensures |sent| <= 1 && forall i :: 0 <= i < |sent| ==> sent[i] != map[]
  {
    RefChangesEmpty(oldCache, newCache);
    var m := RefChanges(oldCache, newCache);
    if m == map[] then [] else [m]
  }

  /**
   * The body shared by `checkLocalBranches`, `checkRemoteBranches` and
   * `checkTags`: the snapshot under `prefix` and what is sent for it.
   */
  method CheckRefKind(cache: RefCache, refs: seq<Reference>, prefix: string)
    returns (newCache: RefCache, sent: seq<RefChangeMap>)
    ensures newCache == Snapshot(WithPrefix(refs, prefix))
    ensures sent == Published(cache, newCache)
  {
    newCache := BuildCache(WithPrefix(refs, prefix));
    var refChanges := RefChanges(cache, newCache);
    if refChanges != map[] {
      sent := [refChanges];
    } else {
      sent := [];
    }
  }

  /** Checking against a snapshot equal to the cache publishes nothing, so a repeated check is silent. */
  lemma {:induction false} RepeatedCheckSilent(refs: seq<Reference>, prefix: string)
    ensures Published(Snapshot(WithPrefix(refs, prefix)), Snapshot(WithPrefix(refs, prefix))) == []
  {
    RefChangesEmpty(Snapshot(WithPrefix(refs, prefix)), Snapshot(WithPrefix(refs, prefix)));
  }

  /** `path.hasSuffix(subpath)` */
  predicate HasSuffix(s: string, suffix: string) {
    |suffix| <= |s| && s[|s| - |suffix|..] == suffix
  }

  /** The path with its last component removed: the text before the last `/`, or empty. */
  function Parent(path: string): (r: string)
    ensures r <= path
    ensures '/' !in path ==> r == ""
    ensures '/' in path ==> |r| < |path| && path[|r|] == '/' && '/' !in path[|r| + 1..]
  {
    if path == [] then []
    else if path[|path| - 1] == '/' then path[..|path| - 1]
    else
      var init := path[..|path| - 1];
      assert path == init + [path[|path| - 1]];
      var r := Parent(init);
      if '/' in init then
        assert path[|r| + 1..] == init[|r| + 1..] + [path[|path| - 1]];
        r
      else
        r
  }

  /** One path against one subpath, as the inner test of `paths(_:includeSubpaths:)`. */
  predicate PathMatches(path: string, subpath: string) {
    HasSuffix(path, subpath) || HasSuffix(Parent(path), subpath)
  }

  /** Some path, or its parent directory, ends with some subpath. */
  predicate AnyPathMatches(paths: seq<string>, subpaths: seq<string>) {
    exists i, j :: 0 <= i < |paths| && 0 <= j < |subpaths| && PathMatches(paths[i], subpaths[j])
  }

  /** `paths(_:includeSubpaths:)`: the nested loop, returning at the first match. */
  method Paths(paths: seq<string>, subpaths: seq<string>) returns (found: bool)
    ensures found <==> AnyPathMatches(paths, subpaths)
    ensures paths == [] ==> !found
  {
    var i := 0;
    while i < |paths|
      invariant 0 <= i <= |paths|
      invariant forall a, b :: 0 <= a < i && 0 <= b < |subpaths| ==> !PathMatches(paths[a], subpaths[b])
    {
      var j := 0;
      while j < |subpaths|
        invariant 0 <= j <= |subpaths|
        invariant forall b :: 0 <= b < j ==> !PathMatches(paths[i], subpaths[b])
      {
        if HasSuffix(paths[i], subpaths[j]) || HasSuffix(Parent(paths[i]), subpaths[j]) {
          return true;
        }
        j := j + 1;
      }
      i := i + 1;
    }
    return false;
  }

  class GitWatcher {
    var localBranchCache: RefCache
    var remoteBranchCache: RefCache
    var tagCache: RefCache
    /** Values sent to `localBranchesChangePublisher`, oldest first. */
    var localBranchChanges: seq<RefChangeMap>
    /** Values sent to `remoteBranchesChangePublisher`, oldest first. */
    var remoteBranchChanges: seq<RefChangeMap>
    /** Values sent to `tagsChangePublisher`, oldest first. */
    var tagChanges: seq<RefChangeMap>
    /** How often `headChangePublisher` has fired. */
    var headChanges: nat
    /** How often `reflogChangePublisher` has fired. */
    var reflogChanges: nat

    /**
     * The cache set-up of `init`: the local-branch cache is filled from the
     * listing under the empty prefix, so it holds every reference, and the
     * other two caches start empty.
     */
    constructor (refs: seq<Reference>)
      ensures localBranchCache == Snapshot(WithPrefix(refs, ""))
      ensures remoteBranchCache == map[] && tagCache == map[]
      ensures localBranchChanges == [] && remoteBranchChanges == [] && tagChanges == []
      ensures headChanges == 0 && reflogChanges == 0
    {
      var cache := BuildCache(WithPrefix(refs, ""));
      localBranchCache := cache;
      remoteBranchCache := map[];
      tagCache := map[];
      localBranchChanges := [];
      remoteBranchChanges := [];
      tagChanges := [];
      headChanges := 0;
      reflogChanges := 0;
    }

    /**
     * The set-up of `init` with the local-branch cache filled from the listing
     * under `refs/heads`, the prefix that `checkLocalBranches` lists.
     */
    constructor FromLocalBranches(refs: seq<Reference>)
      ensures localBranchCache == Snapshot(WithPrefix(refs, "refs/heads"))
      ensures remoteBranchCache == map[] && tagCache == map[]
      ensures localBranchChanges == [] && remoteBranchChanges == [] && tagChanges == []
      ensures headChanges == 0 && reflogChanges == 0
    {
      var cache := BuildCache(WithPrefix(refs, "refs/heads"));
      localBranchCache := cache;
      remoteBranchCache := map[];
      tagCache := map[];
      localBranchChanges := [];
      remoteBranchChanges := [];
      tagChanges := [];
      headChanges := 0;
      reflogChanges := 0;
    }

    /** `checkLocalBranches` */
    method CheckLocalBranches(refs: seq<Reference>)
      modifies this
      ensures localBranchCache == Snapshot(WithPrefix(refs, "refs/heads"))
      ensures localBranchChanges == old(localBranchChanges) + Published(old(localBranchCache), localBranchCache)
      ensures remoteBranchCache == old(remoteBranchCache) && remoteBranchChanges == old(remoteBranchChanges)
      ensures tagCache == old(tagCache) && tagChanges == old(tagChanges)
      ensures headChanges == old(headChanges) && reflogChanges == old(reflogChanges)
    {
      var newCache, sent := CheckRefKind(localBranchCache, refs, "refs/heads");
      localBranchChanges := localBranchChanges + sent;
      localBranchCache := newCache;
    }

    /** `checkRemoteBranches` */
    method CheckRemoteBranches(refs: seq<Reference>)
      modifies this
      ensures remoteBranchCache == Snapshot(WithPrefix(refs, "refs/remotes"))
      ensures remoteBranchChanges == old(remoteBranchChanges) + Published(old(remoteBranchCache), remoteBranchCache)
      ensures localBranchCache == old(localBranchCache) && localBranchChanges == old(localBranchChanges)
      ensures tagCache == old(tagCache) && tagChanges == old(tagChanges)
      ensures headChanges == old(headChanges) && reflogChanges == old(reflogChanges)
    {
      var newCache, sent := CheckRefKind(remoteBranchCache, refs, "refs/remotes");
      remoteBranchChanges := remoteBranchChanges + sent;
      remoteBranchCache := newCache;
    }

    /** `checkTags` */
    method CheckTags(refs: seq<Reference>)
      modifies this
      ensures tagCache == Snapshot(WithPrefix(refs, "refs/tags"))
      ensures tagChanges == old(tagChanges) + Published(old(tagCache), tagCache)
      ensures localBranchCache == old(localBranchCache) && localBranchChanges == old(localBranchChanges)
      ensures remoteBranchCache == old(remoteBranchCache) && remoteBranchChanges == old(remoteBranchChanges)
      ensures headChanges == old(headChanges) && reflogChanges == old(reflogChanges)
    {
      var newCache, sent := CheckRefKind(tagCache, refs, "refs/tags");
      tagChanges := tagChanges + sent;
      tagCache := newCache;
    }

    /** `checkHead`: fires when a changed path or its directory ends with `HEAD`. */
    method CheckHead(changedPaths: seq<string>)
      modifies this
      ensures headChanges == old(headChanges) + if AnyPathMatches(changedPaths, ["HEAD"]) then 1 else 0
      ensures localBranchCache == old(localBranchCache) && localBranchChanges == old(localBranchChanges)
      ensures remoteBranchCache == old(remoteBranchCache) && remoteBranchChanges == old(remoteBranchChanges)
      ensures tagCache == old(tagCache) && tagChanges == old(tagChanges)
      ensures reflogChanges == old(reflogChanges)
    {
      var hit := Paths(changedPaths, ["HEAD"]);
      if hit {
        headChanges := headChanges + 1;
      }
    }

    /** `checkLogs`: fires when a changed path or its directory ends with `logs/refs`. */
    method CheckLogs(changedPaths: seq<string>)
      modifies this
      ensures reflogChanges == old(reflogChanges) + if AnyPathMatches(changedPaths, ["logs/refs"]) then 1 else 0
      ensures localBranchCache == old(localBranchCache) && localBranchChanges == old(localBranchChanges)
      ensures remoteBranchCache == old(remoteBranchCache) && remoteBranchChanges == old(remoteBranchChanges)
      ensures tagCache == old(tagCache) && tagChanges == old(tagChanges)
      ensures headChanges == old(headChanges)
    {
      var hit := Paths(changedPaths, ["logs/refs"]);
      if hit {
        reflogChanges := reflogChanges + 1;
      }
    }

    /**
     * `checkRefs`: each kind of reference is re-checked when a changed path
     * or its directory ends with that kind's directory.
     */
    method CheckRefs(changedPaths: seq<string>, refs: seq<Reference>)
      modifies this
      ensures AnyPathMatches(changedPaths, ["refs/heads"]) ==>
        localBranchCache == Snapshot(WithPrefix(refs, "refs/heads")) &&
        localBranchChanges == old(localBranchChanges) + Published(old(localBranchCache), localBranchCache)
      ensures !AnyPathMatches(changedPaths, ["refs/heads"]) ==>
        localBranchCache == old(localBranchCache) && localBranchChanges == old(localBranchChanges)
      ensures AnyPathMatches(changedPaths, ["refs/remotes"]) ==>
        remoteBranchCache == Snapshot(WithPrefix(refs, "refs/remotes")) &&
        remoteBranchChanges == old(remoteBranchChanges) + Published(old(remoteBranchCache), remoteBranchCache)
      ensures !AnyPathMatches(changedPaths, ["refs/remotes"]) ==>
        remoteBranchCache == old(remoteBranchCache) && remoteBranchChanges == old(remoteBranchChanges)
      ensures AnyPathMatches(changedPaths, ["refs/tags"]) ==>
        tagCache == Snapshot(WithPrefix(refs, "refs/tags")) &&
        tagChanges == old(tagChanges) + Published(old(tagCache), tagCache)
      ensures !AnyPathMatches(changedPaths, ["refs/tags"]) ==>
        tagCache == old(tagCache) && tagChanges == old(tagChanges)
      ensures headChanges == old(headChanges) && reflogChanges == old(reflogChanges)
    {
      var heads := Paths(changedPaths, ["refs/heads"]);
      if heads {
        CheckLocalBranches(refs);
      }
      var remotes := Paths(changedPaths, ["refs/remotes"]);
      if remotes {
        CheckRemoteBranches(refs);
      }
      var tags := Paths(changedPaths, ["refs/tags"]);
      if tags {
        CheckTags(refs);
      }
    }

    /**
     * The packed-refs monitor's handler as written: it checks local
     * branches, then remote branches twice, and never tags. The second remote
     * check finds nothing new; the tag cache and its publisher are untouched.
     */
    method PackedRefsChangedAsWritten(refs: seq<Reference>)
      modifies this
      ensures localBranchCache == Snapshot(WithPrefix(refs, "refs/heads"))
      ensures localBranchChanges == old(localBranchChanges) + Published(old(localBranchCache), localBranchCache)
      ensures remoteBranchCache == Snapshot(WithPrefix(refs, "refs/remotes"))
      ensures remoteBranchChanges == old(remoteBranchChanges) + Published(old(remoteBranchCache), remoteBranchCache)
      ensures tagCache == old(tagCache) && tagChanges == old(tagChanges)
      ensures headChanges == old(headChanges) && reflogChanges == old(reflogChanges)
    {
      CheckLocalBranches(refs);
      CheckRemoteBranches(refs);
      CheckRemoteBranches(refs);
      RepeatedCheckSilent(refs, "refs/remotes");
    }

    /** The packed-refs handler checking each kind once: local branches, remote branches, tags. */
    method PackedRefsChanged(refs: seq<Reference>)
      modifies this
      ensures localBranchCache == Snapshot(WithPrefix(refs, "refs/heads"))
      ensures localBranchChanges == old(localBranchChanges) + Published(old(localBranchCache), localBranchCache)
      ensures remoteBranchCache == Snapshot(WithPrefix(refs, "refs/remotes"))
      ensures remoteBranchChanges == old(remoteBranchChanges) + Published(old(remoteBranchCache), remoteBranchCache)
      ensures tagCache == Snapshot(WithPrefix(refs, "refs/tags"))
      ensures tagChanges == old(tagChanges) + Published(old(tagCache), tagCache)
      ensures headChanges == old(headChanges) && reflogChanges == old(reflogChanges)
    {
      CheckLocalBranches(refs);
      CheckRemoteBranches(refs);
      CheckTags(refs);
    }
  }

  /** A one-byte-different OID, for the examples below. */
  function SomeOid(): (o: Oid)
    ensures o != RefStore.ZeroOid
  {
    var o := RefStore.ZeroOid[0 := 1];
    assert o[0] != RefStore.ZeroOid[0];
    o
  }

  /** The listing filter and the snapshot of a one- or two-reference listing. */
  lemma ListingOfOne(a: Reference, prefix: string)
    ensures WithPrefix([a], prefix) == if References.HasPrefix(a.longName, prefix) then [a] else []
    ensures Snapshot([a]) == map[a.longName := a.oid]
  {
    assert [a][..0] == [];
  }

  lemma ListingOfTwo(a: Reference, b: Reference, prefix: string)
    ensures WithPrefix([a, b], prefix) ==
      (if References.HasPrefix(a.longName, prefix) then [a] else []) + (if References.HasPrefix(b.longName, prefix) then [b] else [])
    ensures Snapshot([a, b]) == map[a.longName := a.oid][b.longName := b.oid]
  {
    assert [a, b][..1] == [a];
    ListingOfOne(a, prefix);
  }

  /** When a check finds only additions, it sends one map holding them. */
  lemma PublishedOnlyAdded(oldCache: RefCache, newCache: RefCache)
    requires AddedRefs(oldCache, newCache) != {}
    requires DeletedRefs(oldCache, newCache) == {} && ChangedRefs(oldCache, newCache) == {}
    ensures Published(oldCache, newCache) == [map[Added := AddedRefs(oldCache, newCache)]]
  {
    var m := RefChanges(oldCache, newCache);
    assert m.Keys == {Added};
  }

  /** When a check finds only deletions, it sends one map holding them. */
  lemma PublishedOnlyDeleted(oldCache: RefCache, newCache: RefCache)
    requires DeletedRefs(oldCache, newCache) != {}
    requires AddedRefs(oldCache, newCache) == {} && ChangedRefs(oldCache, newCache) == {}
    ensures Published(oldCache, newCache) == [map[Deleted := DeletedRefs(oldCache, newCache)]]
  {
    var m := RefChanges(oldCache, newCache);
    assert m.Keys == {Deleted};
  }

  /**
   * A tag that appears only in `packed-refs` (after `git pack-refs` or a
   * fetch of tags): the handler as written leaves the tag cache empty and
   * sends nothing, while checking tags would report it as added.
   */
  lemma PackedTagGoesUnreported()
    ensures var refs := [Reference("refs/tags/v1", SomeOid())];
      Published(map[], Snapshot(WithPrefix(refs, "refs/tags"))) == [map[Added := {"refs/tags/v1"}]]
  {
    var tag := Reference("refs/tags/v1", SomeOid());
    assert References.HasPrefix(tag.longName, "refs/tags");
    ListingOfOne(tag, "refs/tags");
    var c := Snapshot([tag]);
    assert AddedRefs(map[], c) == {tag.longName};
    PublishedOnlyAdded(map[], c);
  }

  /**
   * A packed-refs change seen by a freshly set-up watcher (tag cache empty):
   * the handler as written publishes no tag change and leaves the tag cache
   * empty whatever the repository holds, while the corrected handler caches
   * the listed tags and publishes a change exactly when there is a tag.
   */
  method PackedTagsCompared(refs: seq<Reference>)
    returns (asWrittenSent: seq<RefChangeMap>, asWrittenCache: RefCache,
             correctedSent: seq<RefChangeMap>, correctedCache: RefCache)
    ensures asWrittenSent == [] && asWrittenCache == map[]
    ensures correctedCache == Snapshot(WithPrefix(refs, "refs/tags"))
    ensures correctedSent == Published(map[], correctedCache)
    ensures correctedSent != [] <==> WithPrefix(refs, "refs/tags") != []
  {
    var asWritten := new GitWatcher(refs);
    asWritten.PackedRefsChangedAsWritten(refs);
    asWrittenSent, asWrittenCache := asWritten.tagChanges, asWritten.tagCache;
    var corrected := new GitWatcher(refs);
    corrected.PackedRefsChanged(refs);
    correctedSent, correctedCache := corrected.tagChanges, corrected.tagCache;
  }

  /**
   * Because the local-branch cache starts out holding every reference, the
   * first local-branch check on an unchanged repository reports its tags
   * and remote branches as deleted local branches.
   */
  lemma FirstLocalCheckReportsOtherRefs()
    ensures var refs := [Reference("refs/heads/main", SomeOid()), Reference("refs/tags/v1", SomeOid())];
      Published(Snapshot(WithPrefix(refs, "")), Snapshot(WithPrefix(refs, "refs/heads")))
        == [map[Deleted := {"refs/tags/v1"}]]
  {
    var main, tag := Reference("refs/heads/main", SomeOid()), Reference("refs/tags/v1", SomeOid());
    assert References.HasPrefix(main.longName, "refs/heads");
    assert tag.longName[..10][5] != "refs/heads"[5];
    FirstLocalCheckOfTwo(main, tag);
  }

  /** A branch listed before a reference of another kind: the first check finds the other one deleted. */
  lemma FirstLocalCheckOfTwo(branch: Reference, other: Reference)
    requires References.HasPrefix(branch.longName, "refs/heads") && !References.HasPrefix(other.longName, "refs/heads")
    ensures Published(Snapshot(WithPrefix([branch, other], "")), Snapshot(WithPrefix([branch, other], "refs/heads")))
      == [map[Deleted := {other.longName}]]
  {
    assert References.HasPrefix(branch.longName, "") && References.HasPrefix(other.longName, "");
    ListingOfTwo(branch, other, "");
    ListingOfTwo(branch, other, "refs/heads");
    ListingOfOne(branch, "refs/heads");
    assert WithPrefix([branch, other], "") == [branch, other];
    assert WithPrefix([branch, other], "refs/heads") == [branch];
    OnlyLastDeleted(branch.longName, other.longName, branch.oid, other.oid);
  }

  /** Dropping one of two names from a cache publishes that name alone, as deleted. */
  lemma OnlyLastDeleted(a: string, b: string, o: Oid, p: Oid)
    requires a != b
    ensures Published(map[a := o][b := p], map[a := o]) == [map[Deleted := {b}]]
  {
    var all, kept := map[a := o][b := p], map[a := o];
    assert all.Keys == {a, b} && kept.Keys == {a};
    assert DeletedRefs(all, kept) == {b};
    assert AddedRefs(all, kept) == {};
    assert ChangedRefs(all, kept) == {};
    PublishedOnlyDeleted(all, kept);
  }

  /**
   * With the local-branch cache filled from `refs/heads`, the first
   * local-branch check on an unchanged repository publishes nothing.
   */
  method FirstLocalCheckSilent(refs: seq<Reference>) returns (sent: seq<RefChangeMap>)
    ensures sent == []
  {
    var watcher := new GitWatcher.FromLocalBranches(refs);
    watcher.CheckLocalBranches(refs);
    sent := watcher.localBranchChanges;
  }
}
