/**
 * The in-memory reference database of MemoryRefDB.c, at the level of values.
 *
 * The backend keeps a fixed table of 1223 buckets; each bucket is a collision
 * chain of reference records, newest first. Here a chain is a `seq<Record>`
 * (position 0 is the head, the C `next` link is "the following position") and
 * the whole table is a `seq<Chain>`. The functions below say what each backend
 * call does to the table and what it returns; the class in ref_backend.dfy runs
 * the C loops over an array of chains and is proved to agree with them.
 */
module RefStore {
  import opened Wrappers

  newtype Byte = x: int | 0 <= x < 256

  /** The bytes of a NUL-terminated C string, without the terminator. */
  type CString = s: seq<Byte> | 0 !in s

  /** A `git_oid`: 20 raw bytes. */
  const OidSize: nat := 20
  type Oid = s: seq<Byte> | |s| == OidSize
    witness [0, 0, 0, 0, 0, 0, 0, 0, 0, 0, 0, 0, 0, 0, 0, 0, 0, 0, 0, 0]

  /** The identifier a `calloc`ed record carries until something is copied into it. */
  const ZeroOid: Oid := [0, 0, 0, 0, 0, 0, 0, 0, 0, 0, 0, 0, 0, 0, 0, 0, 0, 0, 0, 0]

  /** HASH_TABLE_SIZE */
  const HashTableSize: nat := 1223

  /** Range of C's `unsigned int`. */
  const UIntModulus: nat := 0x1_0000_0000

  // Status codes. GIT_ENOMEM is not a libgit2 code; the file defines it as -1,
  // which makes it the same value as GIT_ERROR.
  const Ok: int := 0
  const GitError: int := -1
  const ENoMem: int := -1
  const ENotFound: int := -3
  const EExists: int := -4
  const EInvalidSpec: int := -12
  const EModified: int := -15

  /** `git_reference_t` */
  datatype RefType = Invalid | Direct | Symbolic | All

  /** One `memory_ref`: the name, the OID slot, the optional symbolic target and the type. */
  datatype Record = Record(name: CString, target: Oid, symbolicTarget: Option<CString>, kind: RefType)

  /** What the host hands to `write`: every accessor of `git_reference` may yield NULL. */
  datatype GitReference = GitReference(
    name: Option<CString>,
    kind: RefType,
    target: Option<Oid>,
    symbolicTarget: Option<CString>)

  /** A reference object materialised for the caller. */
  datatype RefValue = DirectRef(name: CString, oid: Oid) | SymbolicRef(name: CString, target: CString)

  type Chain = seq<Record>
  type Table = seq<Chain>

  // ---------------------------------------------------------------- hashing

  /** A C `char` is signed on the targets the application is built for. */
  function SignedChar(c: Byte): (v: int)
    ensures -128 <= v < 128
    ensures v % 256 == c as int
  {
    if c < 128 then c as int else c as int - 256
  }

  /** The running value of `hash = hash * 31 + *str++` in `unsigned int` arithmetic. */
  function HashFold(s: seq<Byte>): (h: nat)
    ensures h < UIntModulus
  {
    if s == [] then 0 else (HashFold(s[..|s| - 1]) * 31 + SignedChar(s[|s| - 1])) % UIntModulus
  }

  /** The bucket of a name. */
  function HashOf(s: seq<Byte>): (b: nat)
    ensures b < HashTableSize
  {
    HashFold(s) % HashTableSize
  }

  // ---------------------------------------------------------------- chains

  /** Position of the first record called `name` in a chain, or `|chain|` when there is none. */
  function IndexOf(chain: Chain, name: CString): (k: nat)
    ensures k <= |chain|
    ensures k < |chain| ==> chain[k].name == name
    ensures forall j :: 0 <= j < k ==> chain[j].name != name
  {
    if chain == [] then 0
    else if chain[0].name == name then 0
    else 1 + IndexOf(chain[1..], name)
  }

  /** A position with a match and no earlier match (or the end with no match at all) is `IndexOf`. */
  lemma {:induction false} IndexOfFirstMatch(chain: Chain, name: CString, k: nat)
    requires k <= |chain|
    requires forall j :: 0 <= j < k ==> chain[j].name != name
    requires k < |chain| ==> chain[k].name == name
    ensures k == IndexOf(chain, name)
  {
    if chain != [] && chain[0].name != name {
      IndexOfFirstMatch(chain[1..], name, k - 1);
    }
  }

  /** The first record called `name` in a chain, as the `while (ref)` walks find it. */
  function Find(chain: Chain, name: CString): (r: Option<Record>)
    ensures r.Some? <==> exists j :: 0 <= j < |chain| && chain[j].name == name
    ensures r.Some? ==> r.value in chain && r.value.name == name
  {
    var k := IndexOf(chain, name);
    if k < |chain| then Some(chain[k]) else None
  }

  /** The record a lookup of `name` reaches: the first match in the name's bucket. */
  function Resolve(t: Table, name: CString): Option<Record>
    requires |t| == HashTableSize
  {
    Find(t[HashOf(name)], name)
  }

  /** A record's type and symbolic target agree, as every write leaves them. */
  predicate WellTyped(rec: Record) {
    || (rec.kind == Direct && rec.symbolicTarget.None?)
    || (rec.kind == Symbolic && rec.symbolicTarget.Some?)
  }

  /** The table's invariant: every record sits in the bucket of its own name and is well typed. */
  predicate ValidTable(t: Table) {
    && |t| == HashTableSize
    && (forall b, k :: 0 <= b < |t| && 0 <= k < |t[b]| ==> HashOf(t[b][k].name) == b)
    && (forall b, k :: 0 <= b < |t| && 0 <= k < |t[b]| ==> WellTyped(t[b][k]))
  }

  /** No bucket holds two records of the same name (so no name is stored twice). */
  predicate Unique(t: Table) {
    forall b, i, j :: 0 <= b < |t| && 0 <= i < j < |t[b]| ==> t[b][i].name != t[b][j].name
  }

  /** The table with no references, as `calloc` leaves it. */
  function EmptyTable(): (t: Table)
    ensures ValidTable(t) && Unique(t)
    ensures forall name: CString :: Resolve(t, name) == None
  {
    seq(HashTableSize, _ => [])
  }

  // ---------------------------------------------------------------- operations

  /**
   * The reference object `lookup` builds from a stored record
   * (`git_reference__alloc[_symbolic]`): it carries the looked-up name, and a
   * well-typed record keeps its kind and its target.
   */
  function Materialize(name: CString, rec: Record): (r: RefValue)
    ensures r.name == name
    ensures WellTyped(rec) ==> (r.SymbolicRef? <==> rec.kind == Symbolic)
    ensures r.DirectRef? ==> r.oid == rec.target
    ensures r.SymbolicRef? ==> rec.symbolicTarget == Some(r.target)
  {
    if rec.kind == Symbolic && rec.symbolicTarget.Some? then SymbolicRef(name, rec.symbolicTarget.value)
    else DirectRef(name, rec.target)
  }

  /** `memory_ref_exists`: always status 0, and whether a record of that name is reachable. */
  function ExistsTable(t: Table, name: CString): (r: (int, bool))
    requires |t| == HashTableSize
    ensures r.0 == Ok
    ensures r.1 <==> Resolve(t, name).Some?
  {
    var chain := t[HashOf(name)];
    (Ok, IndexOf(chain, name) < |chain|)
  }

  /**
   * `memory_ref_lookup`: the materialised reference, ENOTFOUND, or ENOMEM when
   * building the reference object fails (`allocOk` false).
   */
  function LookupTable(t: Table, name: CString, allocOk: bool): (r: (int, Option<RefValue>))
    requires |t| == HashTableSize
    ensures r.0 == Ok || r.0 == ENotFound || r.0 == ENoMem
    ensures r.0 == ENotFound <==> Resolve(t, name).None?
    ensures r.0 == ENoMem <==> Resolve(t, name).Some? && !allocOk
    ensures r.0 == Ok ==> r.1 == Some(Materialize(name, Resolve(t, name).value))
    ensures r.0 != Ok ==> r.1 == None
  {
    var chain := t[HashOf(name)];
    var k := IndexOf(chain, name);
    if k == |chain| then (ENotFound, None)
    else if !allocOk then (ENoMem, None)
    else (Ok, Some(Materialize(name, chain[k])))
  }

  /** A new symbolic record: its OID slot keeps the zeroes `calloc` put there. */
  function FreshSymbolic(name: CString, target: CString): (rec: Record)
    ensures rec.name == name && rec.kind == Symbolic && rec.symbolicTarget == Some(target)
    ensures WellTyped(rec)
  {
    Record(name, ZeroOid, Some(target), Symbolic)
  }

  /** The input checks at the top of `memory_ref_write`. */
  predicate WellFormedInput(ref: Option<GitReference>) {
    && ref.Some?
    && ref.value.name.Some?
    && ((ref.value.kind == Direct && ref.value.target.Some?)
        || (ref.value.kind == Symbolic && ref.value.symbolicTarget.Some?))
  }

  /**
   * `memory_ref_write`. `allocOk` says whether the record allocation and the
   * string copies succeed. The old-value arguments of the C function play no
   * part in its result, so they are not parameters here.
   */
  function WriteTable(t: Table, ref: Option<GitReference>, force: bool, allocOk: bool): (r: (Table, int))
    requires |t| == HashTableSize
    ensures r.1 == Ok || r.1 == EInvalidSpec || r.1 == EExists || r.1 == ENoMem
    ensures r.1 == EInvalidSpec <==> !WellFormedInput(ref)
    ensures r.1 == EExists <==> WellFormedInput(ref) && !force && Resolve(t, ref.value.name.value).Some?
    ensures r.1 != Ok ==> r.0 == t
    ensures |r.0| == HashTableSize
    ensures WellFormedInput(ref) ==>
      forall b :: 0 <= b < |t| && b != HashOf(ref.value.name.value) ==> r.0[b] == t[b]
  {
    if !WellFormedInput(ref) then (t, EInvalidSpec)
    else
      var g := ref.value;
      var name := g.name.value;
      var h := HashOf(name);
      var chain := t[h];
      var k := IndexOf(chain, name);
      if k < |chain| then
        if !force then (t, EExists)
        else if g.kind == Direct then (t[h := chain[k := chain[k].(target := g.target.value)]], Ok)
        else (t[h := chain[k := chain[k].(symbolicTarget := g.symbolicTarget, kind := Symbolic)]], Ok)
      else if !allocOk then (t, ENoMem)
      else if g.kind == Direct then (t[h := [Record(name, g.target.value, None, Direct)] + chain], Ok)
      else (t[h := [FreshSymbolic(name, g.symbolicTarget.value)] + chain], Ok)
  }

  /** The compare-and-swap test of `memory_ref_delete`: the caller's expected value disagrees with the record. */
  predicate Stale(rec: Record, oldId: Option<Oid>, oldTarget: Option<CString>) {
    || (rec.kind == Direct && oldId.Some? && rec.target != oldId.value)
    || (rec.kind == Symbolic && oldTarget.Some? && rec.symbolicTarget != oldTarget)
  }

  /** The chain without position `k`: the C unlink through `prev->next` or the bucket head. */
  function Unlink(chain: Chain, k: nat): (r: Chain)
    requires k < |chain|
    ensures |r| == |chain| - 1
    ensures forall j :: 0 <= j < k ==> r[j] == chain[j]
    ensures forall j :: k <= j < |r| ==> r[j] == chain[j + 1]
  {
    chain[..k] + chain[k + 1..]
  }

  /** `memory_ref_delete` (and its alias `memory_ref_del`). */
  function DeleteTable(t: Table, name: CString, oldId: Option<Oid>, oldTarget: Option<CString>): (r: (Table, int))
    requires |t| == HashTableSize
    ensures r.1 == Ok || r.1 == ENotFound || r.1 == EModified
    ensures r.1 == ENotFound <==> Resolve(t, name).None?
    ensures r.1 == EModified <==> Resolve(t, name).Some? && Stale(Resolve(t, name).value, oldId, oldTarget)
    ensures r.1 != Ok ==> r.0 == t
    ensures |r.0| == HashTableSize
  {
    var h := HashOf(name);
    var chain := t[h];
    var k := IndexOf(chain, name);
    if k == |chain| then (t, ENotFound)
    else if Stale(chain[k], oldId, oldTarget) then (t, EModified)
    else (t[h := Unlink(chain, k)], Ok)
  }

  /** A rename gets past its checks: the new name is free or forced, and the old one is stored. */
  predicate RenameReaches(t: Table, oldName: CString, newName: CString, force: bool)
    requires |t| == HashTableSize
  {
    (force || Resolve(t, newName).None?) && Resolve(t, oldName).Some?
  }

  /**
   * `memory_ref_rename`. Without `force` an existing `newName` is refused before
   * anything else; with `force` it is not looked at. `allocOk` says whether the
   * copy of the new name succeeds: when it fails, the C code has already unlinked
   * the record and frees it, so the reference is gone. After the move the C code
   * returns whatever `git_reference_create(out, NULL, ...)` returns; libgit2's
   * answer to a NULL repository is not part of this model, so it is the parameter
   * `createStatus`, and the output reference is set only when it is 0.
   */
  function RenameTable(t: Table, oldName: CString, newName: CString, force: bool, allocOk: bool,
                       createStatus: int)
    : (r: (Table, int, Option<RefValue>))
    requires |t| == HashTableSize
    ensures !force && Resolve(t, newName).Some? ==> r == (t, EExists, None)
    ensures (force || Resolve(t, newName).None?) && Resolve(t, oldName).None? ==> r == (t, ENotFound, None)
    ensures RenameReaches(t, oldName, newName, force) && !allocOk ==> r.1 == ENoMem && r.2 == None
    ensures RenameReaches(t, oldName, newName, force) && allocOk ==>
      && r.1 == createStatus
      && (r.2.Some? <==> createStatus == Ok)
      && (r.2.Some? ==> r.2 == Some(DirectRef(newName, Resolve(t, oldName).value.target)))
    ensures |r.0| == HashTableSize
  {
    var oldH := HashOf(oldName);
    var newH := HashOf(newName);
    if !force && IndexOf(t[newH], newName) < |t[newH]| then (t, EExists, None)
    else
      var chain := t[oldH];
      var k := IndexOf(chain, oldName);
      if k == |chain| then (t, ENotFound, None)
      else
        var rec := chain[k];
        var t1: Table := t[oldH := Unlink(chain, k)];
        if !allocOk then (t1, ENoMem, None)
        else
          var out := if createStatus == Ok then Some(DirectRef(newName, rec.target)) else None;
          (t1[newH := [rec.(name := newName)] + t1[newH]], createStatus, out)
  }

  /**
   * `git_reference_create(out, repo, name, oid, 0, NULL)` for a repository whose
   * reference database is this backend. libgit2's own checks of the name and the
   * object come first; their outcome is `checkStatus` (0 when they pass). The
   * new direct reference is then written through the backend without force, and
   * `out` is set only when that write succeeds.
   */
  function CreateThroughBackend(t: Table, name: CString, oid: Oid, checkStatus: int, allocOk: bool)
    : (r: (Table, int, Option<RefValue>))
    requires |t| == HashTableSize
    ensures checkStatus != Ok ==> r == (t, checkStatus, None)
    ensures checkStatus == Ok ==>
      (r.0, r.1) == WriteTable(t, Some(GitReference(Some(name), Direct, Some(oid), None)), false, allocOk)
    ensures r.2.Some? <==> r.1 == Ok
    ensures r.2.Some? ==> r.2 == Some(DirectRef(name, oid))
  {
    if checkStatus != Ok then (t, checkStatus, None)
    else
      var w := WriteTable(t, Some(GitReference(Some(name), Direct, Some(oid), None)), false, allocOk);
      (w.0, w.1, if w.1 == Ok then Some(DirectRef(name, oid)) else None)
  }

  /**
   * Creating, without force, a reference under a name the backend stores is
   * refused by the backend's own `write`: once libgit2's checks pass the status
   * is EEXISTS, and in every case the table is unchanged and no reference is
   * produced.
   */
  lemma CreateOfStoredNameFails(t: Table, b: nat, k: nat, checkStatus: int, allocOk: bool)
    requires ValidTable(t) && b < |t| && k < |t[b]|
    ensures CreateThroughBackend(t, t[b][k].name, t[b][k].target, checkStatus, allocOk)
      == (t, if checkStatus != Ok then checkStatus else EExists, None)
  {
    WriteOfStoredNameFails(t, b, k, allocOk);
  }

  /** A non-forced direct write of a stored record's name and OID is refused with EEXISTS. */
  lemma WriteOfStoredNameFails(t: Table, b: nat, k: nat, allocOk: bool)
    requires ValidTable(t) && b < |t| && k < |t[b]|
    ensures WriteTable(t, Some(GitReference(Some(t[b][k].name), Direct, Some(t[b][k].target), None)), false, allocOk)
      == (t, EExists)
  {
    assert HashOf(t[b][k].name) == b;
    assert Resolve(t, t[b][k].name).Some?;
  }

  // ---------------------------------------------------------------- lemmas on chains

  /** `IndexOf` looks at names only. */
  lemma {:induction false} IndexOfNamesOnly(c1: Chain, c2: Chain, name: CString)
    requires |c1| == |c2|
    requires forall j :: 0 <= j < |c1| ==> c1[j].name == c2[j].name
    ensures IndexOf(c1, name) == IndexOf(c2, name)
  {
    if c1 != [] && c1[0].name != name {
      IndexOfNamesOnly(c1[1..], c2[1..], name);
    }
  }

  /** Replacing a record by one of the same name leaves every other name's match where it was. */
  lemma FindAfterUpdate(chain: Chain, k: nat, rec: Record, name: CString)
    requires k < |chain| && rec.name == chain[k].name
    ensures IndexOf(chain[k := rec], name) == IndexOf(chain, name)
    ensures name != rec.name ==> Find(chain[k := rec], name) == Find(chain, name)
  {
    IndexOfNamesOnly(chain[k := rec], chain, name);
  }

  /** A new head only shadows its own name. */
  lemma FindAfterPush(chain: Chain, rec: Record, name: CString)
    ensures Find([rec] + chain, name) == if rec.name == name then Some(rec) else Find(chain, name)
  {
    assert ([rec] + chain)[1..] == chain;
  }

  /** Unlinking the first record of one name leaves every other name's match unchanged. */
  lemma FindAfterUnlink(chain: Chain, k: nat, name: CString)
    requires k < |chain| && k == IndexOf(chain, chain[k].name)
    requires name != chain[k].name
    ensures Find(Unlink(chain, k), name) == Find(chain, name)
  {
    var rest := Unlink(chain, k);
    var m := IndexOf(chain, name);
    if m < k {
      forall j | 0 <= j < m ensures rest[j].name != name {
        assert rest[j] == chain[j];
      }
      IndexOfFirstMatch(rest, name, m);
    } else {
      assert m != k;
      forall j | 0 <= j < m - 1 ensures rest[j].name != name {
        if j < k {
          assert rest[j] == chain[j];
        } else {
          assert rest[j] == chain[j + 1];
        }
      }
      assert m - 1 < |rest| ==> rest[m - 1] == chain[m];
      IndexOfFirstMatch(rest, name, m - 1);
    }
  }

  /** In a chain without repeated names, nothing called `chain[k].name` is left after unlinking it. */
  lemma UnlinkRemovesName(chain: Chain, k: nat)
    requires k < |chain|
    requires forall i, j :: 0 <= i < j < |chain| ==> chain[i].name != chain[j].name
    ensures Find(Unlink(chain, k), chain[k].name) == None
    ensures forall i, j :: 0 <= i < j < |Unlink(chain, k)| ==> Unlink(chain, k)[i].name != Unlink(chain, k)[j].name
  {
    var r := Unlink(chain, k);
    forall j | 0 <= j < |r| ensures r[j].name != chain[k].name {
      if j < k { assert r[j] == chain[j]; } else { assert r[j] == chain[j + 1]; }
    }
    forall i, j | 0 <= i < j < |r| ensures r[i].name != r[j].name {
      var i' := if i < k then i else i + 1;
      var j' := if j < k then j else j + 1;
      assert r[i] == chain[i'] && r[j] == chain[j'] && i' < j';
    }
  }

  // ---------------------------------------------------------------- lemmas on the table

  /** A name's bucket is the only one a change to another bucket cannot affect. */
  lemma ResolveOtherBucket(t: Table, h: nat, c: Chain, name: CString)
    requires |t| == HashTableSize && h < HashTableSize && HashOf(name) != h
    ensures Resolve(t[h := c], name) == Resolve(t, name)
  {
  }

  /** Every successful or failed write keeps the table's invariant. */
  lemma WritePreservesValid(t: Table, ref: Option<GitReference>, force: bool, allocOk: bool)
    requires ValidTable(t)
    ensures ValidTable(WriteTable(t, ref, force, allocOk).0)
  {
  }

  /**
   * Writing a name that is not stored yet, without force, stores it: a later
   * lookup reports the written kind and OID or target, `exists` reports it, and
   * no other name's lookup changes.
   */
  lemma WriteFreshThenLookup(t: Table, ref: Option<GitReference>, allocOk: bool, other: CString)
    requires ValidTable(t) && WellFormedInput(ref) && allocOk
    requires Resolve(t, ref.value.name.value).None?
    ensures var (t', status) := WriteTable(t, ref, false, allocOk);
      var g := ref.value;
      var name := g.name.value;
      && status == Ok
      && ExistsTable(t', name) == (Ok, true)
      && (g.kind == Direct ==> LookupTable(t', name, true) == (Ok, Some(DirectRef(name, g.target.value))))
      && (g.kind == Symbolic ==> LookupTable(t', name, true) == (Ok, Some(SymbolicRef(name, g.symbolicTarget.value))))
      && (other != name ==> Resolve(t', other) == Resolve(t, other))
  {
    var g := ref.value;
    var name := g.name.value;
    var h := HashOf(name);
    var rec := if g.kind == Direct then Record(name, g.target.value, None, Direct)
               else FreshSymbolic(name, g.symbolicTarget.value);
    var t' := WriteTable(t, ref, false, allocOk).0;
    assert t' == t[h := [rec] + t[h]];
    FindAfterPush(t[h], rec, name);
    if HashOf(other) == h {
      FindAfterPush(t[h], rec, other);
    }
  }

  /**
   * A forced write over a stored name changes that record in place: a direct write
   * replaces only the OID and keeps the record's type (a symbolic record stays
   * symbolic); a symbolic write replaces the target string and makes it symbolic.
   */
  lemma ForcedWriteOverwrites(t: Table, ref: Option<GitReference>, allocOk: bool, other: CString)
    requires ValidTable(t) && WellFormedInput(ref)
    requires Resolve(t, ref.value.name.value).Some?
    ensures var (t', status) := WriteTable(t, ref, true, allocOk);
      var g := ref.value;
      var name := g.name.value;
      var old_ := Resolve(t, name).value;
      && status == Ok
      && (g.kind == Direct ==> Resolve(t', name) == Some(old_.(target := g.target.value)))
      && (g.kind == Symbolic ==>
            Resolve(t', name) == Some(old_.(symbolicTarget := g.symbolicTarget, kind := Symbolic)))
      && (other != name ==> Resolve(t', other) == Resolve(t, other))
  {
    var g := ref.value;
    var name := g.name.value;
    var h := HashOf(name);
    var chain := t[h];
    var k := IndexOf(chain, name);
    var rec := if g.kind == Direct then chain[k].(target := g.target.value)
               else chain[k].(symbolicTarget := g.symbolicTarget, kind := Symbolic);
    assert WriteTable(t, ref, true, allocOk).0 == t[h := chain[k := rec]];
    FindAfterUpdate(chain, k, rec, name);
    FindAfterUpdate(chain, k, rec, other);
  }

  /** Writes never store a second record under a name that is already stored. */
  lemma WritePreservesUnique(t: Table, ref: Option<GitReference>, force: bool, allocOk: bool)
    requires ValidTable(t) && Unique(t)
    ensures Unique(WriteTable(t, ref, force, allocOk).0)
  {
    var (t', status) := WriteTable(t, ref, force, allocOk);
    if status == Ok {
      var name := ref.value.name.value;
      var h := HashOf(name);
      forall b, i, j | 0 <= b < |t'| && 0 <= i < j < |t'[b]| ensures t'[b][i].name != t'[b][j].name {
        if b == h && Resolve(t, name).None? {
          assert t'[h][1..] == t[h];
          if i == 0 {
            assert t'[h][j] == t[h][j - 1];
          } else {
            assert t'[h][i] == t[h][i - 1] && t'[h][j] == t[h][j - 1];
          }
        }
      }
    }
  }

  /** Deletion keeps the table's invariant. */
  lemma DeletePreservesValid(t: Table, name: CString, oldId: Option<Oid>, oldTarget: Option<CString>)
    requires ValidTable(t)
    ensures ValidTable(DeleteTable(t, name, oldId, oldTarget).0)
  {
    var (t', status) := DeleteTable(t, name, oldId, oldTarget);
    if status == Ok {
      var h := HashOf(name);
      var k := IndexOf(t[h], name);
      forall j | 0 <= j < |t'[h]| ensures t'[h][j] in t[h] {
        if j < k { assert t'[h][j] == t[h][j]; } else { assert t'[h][j] == t[h][j + 1]; }
      }
    }
  }

  /**
   * A successful delete removes the name (when names are unique) and nothing else:
   * every other name resolves as before, and uniqueness is kept.
   */
  lemma DeleteRemoves(t: Table, name: CString, oldId: Option<Oid>, oldTarget: Option<CString>, other: CString)
    requires ValidTable(t) && Unique(t)
    requires DeleteTable(t, name, oldId, oldTarget).1 == Ok
    ensures var t' := DeleteTable(t, name, oldId, oldTarget).0;
      && Resolve(t', name) == None
      && ExistsTable(t', name) == (Ok, false)
      && (other != name ==> Resolve(t', other) == Resolve(t, other))
      && Unique(t')
  {
    var h := HashOf(name);
    var chain := t[h];
    var k := IndexOf(chain, name);
    var t' := DeleteTable(t, name, oldId, oldTarget).0;
    assert t' == t[h := Unlink(chain, k)];
    UnlinkRemovesName(chain, k);
    if other != name && HashOf(other) == h {
      FindAfterUnlink(chain, k, other);
    }
  }

  /** Renaming keeps the table's invariant, whatever the outcome. */
  lemma RenamePreservesValid(t: Table, oldName: CString, newName: CString, force: bool, allocOk: bool,
                             createStatus: int)
    requires ValidTable(t)
    ensures ValidTable(RenameTable(t, oldName, newName, force, allocOk, createStatus).0)
  {
    var (t', status, _) := RenameTable(t, oldName, newName, force, allocOk, createStatus);
    if RenameReaches(t, oldName, newName, force) {
      var oldH := HashOf(oldName);
      var newH := HashOf(newName);
      var chain := t[oldH];
      var k := IndexOf(chain, oldName);
      var t1: Table := t[oldH := Unlink(chain, k)];
      forall j | 0 <= j < |t1[oldH]| ensures t1[oldH][j] in t[oldH] {
        if j < k { assert t1[oldH][j] == chain[j]; } else { assert t1[oldH][j] == chain[j + 1]; }
      }
      assert ValidTable(t1);
      if allocOk {
        var rec := chain[k].(name := newName);
        assert t' == t1[newH := [rec] + t1[newH]];
        forall j | 0 <= j < |t'[newH]| ensures HashOf(t'[newH][j].name) == newH && WellTyped(t'[newH][j]) {
          if j > 0 { assert t'[newH][j] == t1[newH][j - 1]; }
        }
      }
    }
  }

  /**
   * A rename to a name that is not stored, whose name copy succeeds, moves the
   * record whatever the final create returns: the new name resolves to the same
   * record under its new name (same OID, same type, same symbolic target), the
   * old name no longer resolves, every third name is unaffected, and names stay
   * unique. The status is the create's, and the output reference is set when
   * that is 0.
   */
  lemma RenameMoves(t: Table, oldName: CString, newName: CString, force: bool, createStatus: int, other: CString)
    requires ValidTable(t) && Unique(t)
    requires oldName != newName
    requires Resolve(t, oldName).Some? && Resolve(t, newName).None?
    ensures var (t', status, out) := RenameTable(t, oldName, newName, force, true, createStatus);
      var rec := Resolve(t, oldName).value;
      && status == createStatus
      && (createStatus == Ok ==> out == Some(DirectRef(newName, rec.target)))
      && Resolve(t', newName) == Some(rec.(name := newName))
      && Resolve(t', oldName) == None
      && (other != oldName && other != newName ==> Resolve(t', other) == Resolve(t, other))
      && Unique(t')
  {
    var oldH := HashOf(oldName);
    var newH := HashOf(newName);
    var chain := t[oldH];
    var k := IndexOf(chain, oldName);
    var rec := chain[k];
    var t1: Table := t[oldH := Unlink(chain, k)];
    var moved := rec.(name := newName);
    var t': Table := t1[newH := [moved] + t1[newH]];
    assert RenameTable(t, oldName, newName, force, true, createStatus).0 == t';
    assert Find(t1[oldH], oldName) == None by {
      UnlinkRemovesName(chain, k);
    }
    assert Find(t1[newH], newName) == None by {
      if newH == oldH {
        FindAfterUnlink(chain, k, newName);
      }
    }
    FindAfterPush(t1[newH], moved, newName);
    FindAfterPush(t1[newH], moved, oldName);
    if other != oldName && other != newName {
      RenameKeepsOthers(t, oldName, newName, force, createStatus, other);
    }
    RenameKeepsUnique(t, oldName, newName, force, createStatus);
  }

  /** A rename that moves the record leaves the match of every third name as it was. */
  lemma RenameKeepsOthers(t: Table, oldName: CString, newName: CString, force: bool, createStatus: int,
                          other: CString)
    requires ValidTable(t) && Unique(t)
    requires Resolve(t, oldName).Some? && Resolve(t, newName).None?
    requires other != oldName && other != newName
    ensures Resolve(RenameTable(t, oldName, newName, force, true, createStatus).0, other) == Resolve(t, other)
  {
    var oldH := HashOf(oldName);
    var newH := HashOf(newName);
    var chain := t[oldH];
    var k := IndexOf(chain, oldName);
    var t1: Table := t[oldH := Unlink(chain, k)];
    var moved := chain[k].(name := newName);
    assert RenameTable(t, oldName, newName, force, true, createStatus).0 == t1[newH := [moved] + t1[newH]];
    FindAfterPush(t1[newH], moved, other);
    if HashOf(other) == oldH {
      FindAfterUnlink(chain, k, other);
    }
  }

  /** A rename that moves the record keeps names unique. */
  lemma RenameKeepsUnique(t: Table, oldName: CString, newName: CString, force: bool, createStatus: int)
    requires ValidTable(t) && Unique(t)
    requires oldName != newName
    requires Resolve(t, oldName).Some? && Resolve(t, newName).None?
    ensures Unique(RenameTable(t, oldName, newName, force, true, createStatus).0)
  {
    var oldH := HashOf(oldName);
    var newH := HashOf(newName);
    var chain := t[oldH];
    var k := IndexOf(chain, oldName);
    var t1: Table := t[oldH := Unlink(chain, k)];
    var moved := chain[k].(name := newName);
    assert RenameTable(t, oldName, newName, force, true, createStatus).0 == t1[newH := [moved] + t1[newH]];
    UnlinkRemovesName(chain, k);
    assert Unique(t1);
    if newH == oldH {
      FindAfterUnlink(chain, k, newName);
    }
    PushKeepsUnique(t1, newH, moved);
  }

  /** Pushing a record onto a bucket that lacks its name keeps names unique. */
  lemma PushKeepsUnique(t: Table, h: nat, rec: Record)
    requires Unique(t) && h < |t| && Find(t[h], rec.name) == None
    ensures Unique(t[h := [rec] + t[h]])
  {
    var t': Table := t[h := [rec] + t[h]];
    forall b, i, j | 0 <= b < |t'| && 0 <= i < j < |t'[b]| ensures t'[b][i].name != t'[b][j].name {
      if b == h {
        if i == 0 {
          assert t'[b][j] == t[h][j - 1];
        } else {
          assert t'[b][i] == t[h][i - 1] && t'[b][j] == t[h][j - 1];
        }
      }
    }
  }

  /**
   * With force, a rename onto a stored name does not remove that record: the
   * moved record and the old holder of `newName` are both kept, so the table then
   * holds the name twice.
   */
  lemma ForcedRenameDuplicates(t: Table, oldName: CString, newName: CString, createStatus: int)
    requires ValidTable(t) && Unique(t)
    requires oldName != newName
    requires Resolve(t, oldName).Some? && Resolve(t, newName).Some?
    ensures var (t', status, _) := RenameTable(t, oldName, newName, true, true, createStatus);
      status == createStatus && !Unique(t')
  {
    var oldH := HashOf(oldName);
    var newH := HashOf(newName);
    var chain := t[oldH];
    var k := IndexOf(chain, oldName);
    var t1: Table := t[oldH := Unlink(chain, k)];
    var moved := chain[k].(name := newName);
    var t': Table := t1[newH := [moved] + t1[newH]];
    assert RenameTable(t, oldName, newName, true, true, createStatus).0 == t';
    if newH == oldH {
      FindAfterUnlink(chain, k, newName);
    }
    var j := IndexOf(t1[newH], newName);
    assert j < |t1[newH]|;
    assert t'[newH][0].name == newName && t'[newH][j + 1] == t1[newH][j];
  }

  /**
   * When copying the new name fails, the record has already been unlinked: the
   * result is ENOMEM and the reference is gone under both names.
   */
  lemma RenameAllocFailureLosesRecord(t: Table, oldName: CString, newName: CString, force: bool,
                                      createStatus: int)
    requires ValidTable(t) && Unique(t)
    requires Resolve(t, oldName).Some?
    requires force || Resolve(t, newName).None?
    ensures var (t', status, _) := RenameTable(t, oldName, newName, force, false, createStatus);
      && status == ENoMem
      && Resolve(t', oldName) == None
      && (Resolve(t, newName).None? ==> Resolve(t', newName) == None)
  {
    var oldH := HashOf(oldName);
    var chain := t[oldH];
    var k := IndexOf(chain, oldName);
    assert RenameTable(t, oldName, newName, force, false, createStatus).0 == t[oldH := Unlink(chain, k)];
    UnlinkRemovesName(chain, k);
    if newName != oldName && HashOf(newName) == oldH {
      FindAfterUnlink(chain, k, newName);
    }
  }
}
