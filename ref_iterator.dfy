/**
 * The reference iterator of MemoryRefDB.c. It walks the table bucket by
 * bucket and, inside a bucket, from the head of the chain to its tail. The
 * order in which it yields records is `Flatten` of the table; the cursor in
 * the class is proved to yield exactly that sequence, one record per call.
 */
module RefIteration {
  import opened Wrappers
  import opened RefStore
  import opened RefBackend

  /** All records of a table in iteration order: bucket 0 first, each chain from its head. */
  function Flatten(t: Table): seq<Record> {
    if t == [] then [] else Flatten(t[..|t| - 1]) + t[|t| - 1]
  }

  /** Number of records stored before bucket `b`. */
  function Offset(t: Table, b: nat): nat
    requires b <= |t|
  {
    |Flatten(t[..b])|
  }

  /** Flattening distributes over concatenation of tables. */
  lemma {:induction false} FlattenAppend(a: Table, b: Table)
    ensures Flatten(a + b) == Flatten(a) + Flatten(b)
  {
    if b != [] {
      var b' := b[..|b| - 1];
      assert (a + b)[..|a + b| - 1] == a + b';
      FlattenAppend(a, b');
    } else {
      assert a + b == a;
    }
  }

  /** Each bucket adds its chain's length to the offset of the next. */
  lemma OffsetStep(t: Table, b: nat)
    requires b < |t|
    ensures Offset(t, b + 1) == Offset(t, b) + |t[b]|
  {
    assert t[..b + 1][..b] == t[..b];
  }

  /** Offsets of the whole table count every record. */
  lemma OffsetAll(t: Table)
    ensures Offset(t, |t|) == |Flatten(t)|
  {
    assert t[..|t|] == t;
  }

  /** The record at position `k` of bucket `b` is yielded at place `Offset(t, b) + k`. */
  lemma FlattenIndex(t: Table, b: nat, k: nat)
    requires b < |t| && k < |t[b]|
    ensures Offset(t, b) + k < |Flatten(t)|
    ensures Flatten(t)[Offset(t, b) + k] == t[b][k]
  {
    assert t == t[..b + 1] + t[b + 1..];
    FlattenAppend(t[..b + 1], t[b + 1..]);
    assert t[..b + 1][..b] == t[..b];
  }

  /** Where a place of the iteration order comes from. */
  datatype Position = Position(bucket: nat, index: nat)

  /** The bucket and chain position of the record yielded at place `c`. */
  function Locate(t: Table, c: nat): (p: Position)
    requires c < |Flatten(t)|
    ensures p.bucket < |t| && p.index < |t[p.bucket]|
    ensures Offset(t, p.bucket) + p.index == c
    ensures Flatten(t)[c] == t[p.bucket][p.index]
  {
    var init := t[..|t| - 1];
    if c < |Flatten(init)| then
      var p := Locate(init, c);
      assert init[..p.bucket] == t[..p.bucket];
      p
    else
      assert t[..|t| - 1] == init;
      Position(|t| - 1, c - |Flatten(init)|)
  }

  /** Every stored record is yielded, and nothing else is. */
  lemma IterationCoversTable(t: Table, rec: Record)
    ensures rec in Flatten(t) <==> exists b, k :: 0 <= b < |t| && 0 <= k < |t[b]| && t[b][k] == rec
  {
    if rec in Flatten(t) {
      var c :| 0 <= c < |Flatten(t)| && Flatten(t)[c] == rec;
      var p := Locate(t, c);
      assert t[p.bucket][p.index] == rec;
    }
    if exists b, k :: 0 <= b < |t| && 0 <= k < |t[b]| && t[b][k] == rec {
      var b, k :| 0 <= b < |t| && 0 <= k < |t[b]| && t[b][k] == rec;
      FlattenIndex(t, b, k);
    }
  }

  /**
   * In a valid table without duplicate names, no name is yielded twice: records
   * in different buckets have different hashes, records in one bucket differ
   * by uniqueness.
   */
  lemma IterationNamesDistinct(t: Table, i: nat, j: nat)
    requires ValidTable(t) && Unique(t)
    requires i < j < |Flatten(t)|
    ensures Flatten(t)[i].name != Flatten(t)[j].name
  {
    var pi := Locate(t, i);
    var pj := Locate(t, j);
    if pi.bucket == pj.bucket {
      assert pi.index < pj.index;
    } else {
      assert HashOf(t[pi.bucket][pi.index].name) != HashOf(t[pj.bucket][pj.index].name);
    }
  }

  /** `min(x, HASH_TABLE_SIZE)`: the buckets the cursor has passed. */
  function Clamp(x: nat): (r: nat)
    ensures r <= HashTableSize
    ensures r == x || (r == HashTableSize && x >= HashTableSize)
  {
    if x < HashTableSize then x else HashTableSize
  }

  /** `memory_ref_iterator_t`. The glob given at creation is ignored, as in the C code. */
  class RefIterator {
    const backend: Backend
    /** `current_bucket`; the initial `(size_t)-1` is written as -1. */
    var currentBucket: int
    /** `current_ref`: the last record yielded, by its place in the table. */
    var currentRef: Option<Position>
    /** The table as it was when iteration began; the backend must not change meanwhile. */
    ghost const snapshot: Table

    ghost predicate Valid()
      reads this, backend, backend.refs
    {
      && backend.Valid()
      && backend.refs[..] == snapshot
      && currentBucket >= -1
      && match currentRef
         case None => Offset(snapshot, Clamp(currentBucket + 1)) == 0
         case Some(p) =>
           && p.bucket < HashTableSize
           && p.index < |snapshot[p.bucket]|
           && (|| currentBucket == p.bucket
               || (currentBucket >= HashTableSize
                   && p.index + 1 == |snapshot[p.bucket]|
                   && Offset(snapshot, HashTableSize) == Offset(snapshot, p.bucket) + p.index + 1))
    }

    /** How many records have been yielded so far. */
    ghost function Consumed(): nat
      reads this, backend, backend.refs
      requires Valid()
    {
      match currentRef
      case None => 0
      case Some(p) => Offset(snapshot, p.bucket) + p.index + 1
    }

    /** `memory_ref_iterator`: a cursor before the first bucket. */
    constructor (backend: Backend)
      requires backend.Valid()
      ensures Valid() && Consumed() == 0
      ensures this.backend == backend && snapshot == backend.refs[..]
    {
      this.backend := backend;
      currentBucket := -1;
      currentRef := None;
      snapshot := backend.refs[..];
      new;
      assert snapshot[..0] == [];
    }

    /**
     * The cursor move shared by `next` and `next_name`: the following record of
     * the current chain, or else the head of the next non-empty bucket. It
     * reports whether a record was reached; at the end it leaves the cursor on
     * the last record and only moves `current_bucket` on.
     */
    method Advance() returns (found: bool)
      requires Valid()
      modifies this
      ensures Valid()
      ensures found <==> old(Consumed()) < |Flatten(snapshot)|
      ensures found ==> currentRef.Some? && Consumed() == old(Consumed()) + 1
      ensures !found ==> Consumed() == old(Consumed())
    {
      ghost var c := Consumed();
      if currentRef.Some? && currentRef.value.index + 1 < |backend.refs[currentRef.value.bucket]| {
        FlattenIndex(snapshot, currentRef.value.bucket, currentRef.value.index + 1);
        currentRef := Some(Position(currentRef.value.bucket, currentRef.value.index + 1));
        return true;
      }
      if currentRef.Some? && currentBucket == currentRef.value.bucket {
        OffsetStep(snapshot, currentRef.value.bucket);
      }
      currentBucket := currentBucket + 1;
      while currentBucket < HashTableSize
        invariant backend.refs[..] == snapshot && backend.Valid()
        invariant currentRef == old(currentRef) && currentBucket >= 0
        invariant currentRef.Some? ==> currentRef.value.index + 1 == |snapshot[currentRef.value.bucket]|
        invariant Offset(snapshot, Clamp(currentBucket)) == c
        decreases HashTableSize - currentBucket
      {
        if backend.refs[currentBucket] != [] {
          FlattenIndex(snapshot, currentBucket, 0);
          currentRef := Some(Position(currentBucket, 0));
          return true;
        }
        OffsetStep(snapshot, currentBucket);
        currentBucket := currentBucket + 1;
      }
      OffsetAll(snapshot);
      return false;
    }

    /** `memory_ref_iterator_next_name`: the name of the next record, or GIT_ERROR and NULL at the end. */
    method NextName() returns (status: int, name: Option<CString>)
      requires Valid()
      modifies this
      ensures Valid()
      ensures var all := Flatten(snapshot);
        var c := old(Consumed());
        if c < |all| then status == Ok && name == Some(all[c].name) && Consumed() == c + 1
        else status == GitError && name == None && Consumed() == c
    {
      var found := Advance();
      if found {
        var p := currentRef.value;
        FlattenIndex(snapshot, p.bucket, p.index);
        return Ok, Some(backend.refs[p.bucket][p.index].name);
      }
      return GitError, None;
    }

    /**
     * `memory_ref_iterator_next` as written. It passes each record to
     * `git_reference_create` with force 0 on the backend's own repository, whose
     * reference database is this backend, so the create writes the record's name
     * back through `write`. `checkStatus` is the outcome of libgit2's own checks
     * of the name and the object before that write. Since the name is always
     * stored, no record ever comes out: each call moves the cursor on and
     * returns that status or EEXISTS, with no reference and the table unchanged.
     */
    method NextAsWritten(checkStatus: int, allocOk: bool) returns (status: int, ref: Option<RefValue>)
      requires Valid()
      modifies this, backend.refs
      ensures Valid()
      ensures var all := Flatten(snapshot);
        var c := old(Consumed());
        if c < |all| then
          && (status, ref) == (CreateThroughBackend(snapshot, all[c].name, all[c].target, checkStatus, allocOk).1,
                               CreateThroughBackend(snapshot, all[c].name, all[c].target, checkStatus, allocOk).2)
          && status == (if checkStatus != Ok then checkStatus else EExists)
          && ref == None
          && Consumed() == c + 1
        else status == GitError && ref == None && Consumed() == c
    {
      var found := Advance();
      if found {
        var p := currentRef.value;
        FlattenIndex(snapshot, p.bucket, p.index);
        var rec := backend.refs[p.bucket][p.index];
        CreateOfStoredNameFails(snapshot, p.bucket, p.index, checkStatus, allocOk);
        if checkStatus != Ok {
          return checkStatus, None;
        }
        WriteOfStoredNameFails(snapshot, p.bucket, p.index, allocOk);
        status := backend.Write(Some(GitReference(Some(rec.name), Direct, Some(rec.target), None)), false, None, None,
                                allocOk);
        ref := if status == Ok then Some(DirectRef(rec.name, rec.target)) else None;
        return;
      }
      return GitError, None;
    }

    /**
     * `memory_ref_iterator_next` as evidently intended: the next record becomes
     * a reference object the way `lookup` builds one (`git_reference__alloc`,
     * symbolic records as symbolic references), without writing anything, and
     * ENOMEM when that allocation fails (`allocOk` false). At the end it is
     * GIT_ERROR and NULL.
     */
    method Next(allocOk: bool) returns (status: int, ref: Option<RefValue>)
      requires Valid()
      modifies this
      ensures Valid()
      ensures var all := Flatten(snapshot);
        var c := old(Consumed());
        if c < |all| then
          && Consumed() == c + 1
          && (allocOk ==> status == Ok && ref == Some(Materialize(all[c].name, all[c])))
          && (!allocOk ==> status == ENoMem && ref == None)
        else status == GitError && ref == None && Consumed() == c
    {
      var found := Advance();
      if found {
        var p := currentRef.value;
        FlattenIndex(snapshot, p.bucket, p.index);
        var rec := backend.refs[p.bucket][p.index];
        if !allocOk {
          return ENoMem, None;
        }
        return Ok, Some(Materialize(rec.name, rec));
      }
      return GitError, None;
    }
  }
}
