/**
 * The `memory_refdb_backend` object of MemoryRefDB.c: a fixed array of 1223
 * bucket heads, updated in place by the callbacks libgit2 calls. Each method
 * walks a chain the way the C loops do and is proved to leave the array in the
 * state the matching table function of `RefStore` describes.
 */
module RefBackend {
  import opened Wrappers
  import opened RefStore

  /** `hash`: the loop over the string, proved to compute `HashOf`. */
  method Hash(s: seq<Byte>) returns (h: nat)
    ensures h == HashOf(s) && h < HashTableSize
  {
    var acc: nat := 0;
    var i := 0;
    while i < |s|
      invariant 0 <= i <= |s|
      invariant acc == HashFold(s[..i])
    {
      assert s[..i + 1][..i] == s[..i];
      acc := (acc * 31 + SignedChar(s[i])) % UIntModulus;
      i := i + 1;
    }
    assert s[..i] == s;
    h := acc % HashTableSize;
  }

  /** The `while (ref) { if (strcmp(ref->name, name) == 0) ... ref = ref->next; }` walk. */
  method FindIndex(chain: Chain, name: CString) returns (k: nat)
    ensures k == IndexOf(chain, name)
  {
    k := 0;
    while k < |chain|
      invariant k <= |chain|
      invariant forall j :: 0 <= j < k ==> chain[j].name != name
    {
      if chain[k].name == name {
        break;
      }
      k := k + 1;
    }
    IndexOfFirstMatch(chain, name, k);
  }

  class Backend {
    /** `refs[HASH_TABLE_SIZE]`: the bucket heads; a bucket's chain is its whole linked list. */
    const refs: array<Chain>

    ghost predicate Valid()
      reads this, refs
    {
      refs.Length == HashTableSize && ValidTable(refs[..])
    }

    /** `create_memory_refdb`: a backend whose buckets are all empty. */
    constructor ()
      ensures Valid() && fresh(refs)
      ensures refs[..] == EmptyTable()
    {
      refs := new Chain[HashTableSize](_ => []);
      new;
      assert refs[..] == EmptyTable();
    }

    /** `memory_ref_exists` */
    method Exists(name: CString) returns (status: int, found: bool)
      requires Valid()
      ensures (status, found) == ExistsTable(refs[..], name)
    {
      var h := Hash(name);
      var k := FindIndex(refs[h], name);
      found := k < |refs[h]|;
      status := Ok;
    }

    /** `memory_ref_lookup`; `allocOk` says whether `git_reference__alloc` returns an object. */
    method Lookup(name: CString, allocOk: bool) returns (status: int, out: Option<RefValue>)
      requires Valid()
      ensures (status, out) == LookupTable(refs[..], name, allocOk)
    {
      var h := Hash(name);
      var chain := refs[h];
      var k := FindIndex(chain, name);
      if k == |chain| {
        return ENotFound, None;
      }
      var rec := chain[k];
      if !allocOk {
        return ENoMem, None;
      }
      if rec.kind == Symbolic && rec.symbolicTarget.Some? {
        out := Some(SymbolicRef(name, rec.symbolicTarget.value));
      } else {
        out := Some(DirectRef(name, rec.target));
      }
      status := Ok;
    }

    /**
     * `memory_ref_write`. The signature, message and old-value arguments are
     * accepted and ignored, as in the C function.
     */
    method Write(ref: Option<GitReference>, force: bool, oldId: Option<Oid>, oldTarget: Option<CString>,
                 allocOk: bool) returns (status: int)
      requires Valid()
      modifies refs
      ensures Valid()
      ensures (refs[..], status) == WriteTable(old(refs[..]), ref, force, allocOk)
    {
      WritePreservesValid(refs[..], ref, force, allocOk);
      if ref.None? || ref.value.name.None? {
        return EInvalidSpec;
      }
      var g := ref.value;
      var name := g.name.value;
      if g.kind == Direct {
        if g.target.None? {
          return EInvalidSpec;
        }
        var h := Hash(name);
        var k := FindIndex(refs[h], name);
        if k < |refs[h]| {
          if !force {
            return EExists;
          }
          refs[h] := refs[h][k := refs[h][k].(target := g.target.value)];
          return Ok;
        }
        if !allocOk {
          return ENoMem;
        }
        refs[h] := [Record(name, g.target.value, None, Direct)] + refs[h];
        return Ok;
      } else if g.kind == Symbolic {
        if g.symbolicTarget.None? {
          return EInvalidSpec;
        }
        var h := Hash(name);
        var k := FindIndex(refs[h], name);
        if k < |refs[h]| {
          if !force {
            return EExists;
          }
          refs[h] := refs[h][k := refs[h][k].(symbolicTarget := g.symbolicTarget, kind := Symbolic)];
          return Ok;
        }
        if !allocOk {
          return ENoMem;
        }
        refs[h] := [FreshSymbolic(name, g.symbolicTarget.value)] + refs[h];
        return Ok;
      } else {
        return EInvalidSpec;
      }
    }

    /** `memory_ref_delete` */
    method Delete(name: CString, oldId: Option<Oid>, oldTarget: Option<CString>) returns (status: int)
      requires Valid()
      modifies refs
      ensures Valid()
      ensures (refs[..], status) == DeleteTable(old(refs[..]), name, oldId, oldTarget)
    {
      DeletePreservesValid(refs[..], name, oldId, oldTarget);
      var h := Hash(name);
      var chain := refs[h];
      var k := FindIndex(chain, name);
      if k == |chain| {
        return ENotFound;
      }
      var rec := chain[k];
      if rec.kind == Direct && oldId.Some? && rec.target != oldId.value {
        return EModified;
      }
      if rec.kind == Symbolic && oldTarget.Some? && rec.symbolicTarget != oldTarget {
        return EModified;
      }
      refs[h] := Unlink(chain, k);
      return Ok;
    }

    /** `memory_ref_del`, the alias installed as the backend's `del` callback. */
    method Del(name: CString, oldId: Option<Oid>, oldTarget: Option<CString>) returns (status: int)
      requires Valid()
      modifies refs
      ensures Valid()
      ensures (refs[..], status) == DeleteTable(old(refs[..]), name, oldId, oldTarget)
    {
      status := Delete(name, oldId, oldTarget);
    }

    /**
     * `memory_ref_rename`. `allocOk` says whether duplicating the new name
     * succeeds; `createStatus` is what the final `git_reference_create` with a
     * NULL repository returns, and the output is the direct reference it is
     * asked for when that status is 0.
     */
    method Rename(oldName: CString, newName: CString, force: bool, allocOk: bool, createStatus: int)
      returns (status: int, out: Option<RefValue>)
      requires Valid()
      modifies refs
      ensures Valid()
      ensures (refs[..], status, out) == RenameTable(old(refs[..]), oldName, newName, force, allocOk, createStatus)
    {
      RenamePreservesValid(refs[..], oldName, newName, force, allocOk, createStatus);
      var oldH := Hash(oldName);
      var newH := Hash(newName);
      if !force {
        var e := FindIndex(refs[newH], newName);
        if e < |refs[newH]| {
          return EExists, None;
        }
      }
      var chain := refs[oldH];
      var k := FindIndex(chain, oldName);
      if k == |chain| {
        return ENotFound, None;
      }
      var rec := chain[k];
      refs[oldH] := Unlink(chain, k);
      if !allocOk {
        return ENoMem, None;
      }
      refs[newH] := [rec.(name := newName)] + refs[newH];
      if createStatus != Ok {
        return createStatus, None;
      }
      return Ok, Some(DirectRef(newName, rec.target));
    }

    /** `memory_ref_compress`: nothing to compact in memory. */
    method Compress() returns (status: int)
      ensures status == Ok
    {
      status := Ok;
    }

    /** `memory_ref_has_log`: no reference has a reflog. */
    method HasLog(name: CString) returns (status: int)
      ensures status == 0
    {
      status := 0;
    }

    /** `memory_ref_ensure_log`: reports success without creating a log. */
    method EnsureLog(name: CString) returns (status: int)
      ensures status == Ok
    {
      status := Ok;
    }

    /** `reflog_read`: there is never a reflog to read. */
    method ReflogRead(name: CString) returns (status: int)
      ensures status == ENotFound
    {
      status := ENotFound;
    }

    /** `reflog_write`: reports success and stores nothing. */
    method ReflogWrite() returns (status: int)
      ensures status == Ok
    {
      status := Ok;
    }

    /** `reflog_rename`: reports success and changes nothing. */
    method ReflogRename(oldName: CString, newName: CString) returns (status: int)
      ensures status == Ok
    {
      status := Ok;
    }

    /** `reflog_delete`: reports success and changes nothing. */
    method ReflogDelete(name: CString) returns (status: int)
      ensures status == Ok
    {
      status := Ok;
    }
  }
}
