# Xferro core logic in Dafny

A model of the self-contained logic of Xferro, a macOS Git client, with
proofs about it. The model covers:

- **The in-memory reference database** (`MemoryRefDB.c`). It is a libgit2
  `refdb` backend with a fixed table of 1223 buckets. Each bucket holds a
  collision chain of reference records; a record is either direct (it holds
  an OID) or symbolic (it holds a target name). The backend answers `exists`,
  `lookup`, `write`, `delete`, `rename` and iteration, and returns stub
  results for compression and reflogs.
  - `RefStore` (ref_store.dfy) states what each call does to the table, as
    functions on a `seq` of chains. Lemmas prove what those functions keep
    and what they guarantee.
  - `RefBackend` (ref_backend.dfy) is the backend object. It is a class
    over an `array` of chains whose methods walk the chains the way the C
    loops do. Each method is proved to leave the array and return the status
    exactly as the matching `RefStore` function says.
  - `RefIteration` (ref_iterator.dfy) is the iterator object with its
    bucket and chain cursor. It is proved to yield every stored record
    exactly once, bucket by bucket and head to tail, and then `GIT_ERROR`.
- **Reference-name helpers** (`References.swift`): long and short forms of
  branch and tag names, and the names derived from them.
- **Partial staging**:
  - `SelectedLinesDiffMaker.swift` rebuilds a file from its HEAD lines,
    its working lines and the selected lines;
  - `DiffHunk.swift` groups a hunk's lines into parts and applies a hunk to
    a file;
  - `DiffHunkPart.swift` and `DiffInfo.swift` hold the selection state and
    the tri-state checkbox.
- **Commit-graph layout** (`GitGraph+Static.swift`):
  - children of commits;
  - numbering and compaction of branches;
  - order group and colour lookup;
  - source and target branches;
  - column assignment.
- **Reference change detection** of the repository watcher
  (`GitWatcher.swift`).
- **Collection helpers**:
  - `RangeReplacableCollection++.swift`, `Collection++.swift`;
  - the stage bits of an index entry, `scan` and `withGitStringArray` in
    `GitExtensions.swift`;
  - `aggregateResult` in `Repository.swift`.

**How the source is represented:**
- Objects whose fields the source updates in place are classes:
  - the backend and the iterator;
  - `DiffLine`, `DiffHunkPart`, `DiffHunk`, `DiffInfo`;
  - the watcher;
  - the mutated collection;
  - the index entry.
- Swift value types become datatypes. The graph commits and branches are
  value types, so an `inout` array of them is an `array` whose elements are
  replaced.
- Pure code becomes functions and lemmas. Every loop of the source is a
  method with a loop, proved against a specification function.

**How the source's boundaries are represented:**
- Calls into libgit2, the file system and regular expressions become
  parameters:
  - the repository's reference listing;
  - a `matches` predicate for branch patterns;
  - an `allocOk` flag for allocations that may fail.
- A C string is a `seq<Byte>` without a NUL byte (`CString`). A null pointer is `None`.
- A `fatalError` or a Swift precondition trap is a `requires` clause.

**Where the cache's name and the code disagree, the model follows the code.**
The cache is called `localBranchCache`, and `checkLocalBranches`
(GitWatcher.swift:218-255) compares it against the references under
`refs/heads`. Its initializer (GitWatcher.swift:68) fills it from every
reference, prefix `""`. So the first local-branch check reports every
tag and remote branch as deleted (`GitWatchers.FirstLocalCheckReportsOtherRefs`).
`GitWatchers.GitWatcher.FromLocalBranches` is the set-up the name suggests,
filled from `refs/heads`; it is listed under "## Findings".

## Model

| member | source | states |
|---|---|---|
| RefStore.SignedChar | Xferro/Git/LibGit2Wrapper/MemoryRefDB.c:48 | a C `char` read as a signed byte, the value the hash adds for each character |
| RefStore.HashFold | Xferro/Git/LibGit2Wrapper/MemoryRefDB.c:45-49 | the running hash `h*31 + c` stays a 32-bit unsigned value |
| RefStore.HashOf | Xferro/Git/LibGit2Wrapper/MemoryRefDB.c:45-51 | the bucket of a name lies in `[0, 1223)` and is determined by the name |
| RefBackend.Hash | Xferro/Git/LibGit2Wrapper/MemoryRefDB.c:45-51 | the character loop with 32-bit wrap-around computes `HashOf` |
| RefStore.IndexOf | Xferro/Git/LibGit2Wrapper/MemoryRefDB.c:56-65 | the position of the first record of a chain with the name, or the chain length; no earlier record has the name |
| RefStore.Find | Xferro/Git/LibGit2Wrapper/MemoryRefDB.c:56-65 | the first record with the name in its chain, or none when no record has it |
| RefBackend.FindIndex | Xferro/Git/LibGit2Wrapper/MemoryRefDB.c:56-65 | the `while (ref)` walk stops at `IndexOf` |
| RefStore.IndexOfFirstMatch | Xferro/Git/LibGit2Wrapper/MemoryRefDB.c:56-65 | a position holding the name with none before it is `IndexOf` |
| RefStore.EmptyTable | Xferro/Git/LibGit2Wrapper/MemoryRefDB.c:438-441 | a fresh backend has 1223 empty buckets and resolves no name |
| RefBackend.Backend.constructor | Xferro/Git/LibGit2Wrapper/MemoryRefDB.c:438-462 | `create_memory_refdb` starts from the empty table |
| RefStore.ExistsTable | Xferro/Git/LibGit2Wrapper/MemoryRefDB.c:53-67 | `exists` is 1 exactly when the name's bucket holds a record with that name, and the status is 0 |
| RefBackend.Backend.Exists | Xferro/Git/LibGit2Wrapper/MemoryRefDB.c:53-67 | the C loop answers `ExistsTable` and changes nothing |
| RefStore.LookupTable | Xferro/Git/LibGit2Wrapper/MemoryRefDB.c:69-86 | ENOTFOUND exactly when the name is absent, ENOMEM when building the object fails, otherwise the record's kind and OID or target |
| RefStore.Materialize | Xferro/Git/LibGit2Wrapper/MemoryRefDB.c:76-80 | the object built for a record carries the looked-up name; a well-typed record keeps its kind, a direct one its OID, a symbolic one its target |
| RefBackend.Backend.Lookup | Xferro/Git/LibGit2Wrapper/MemoryRefDB.c:69-86 | the C loop answers `LookupTable` and changes nothing |
| RefStore.FreshSymbolic | Xferro/Git/LibGit2Wrapper/MemoryRefDB.c:175-188 | a new symbolic record has the name, the target, the symbolic kind and the zero OID `calloc` leaves |
| RefStore.WriteTable | Xferro/Git/LibGit2Wrapper/MemoryRefDB.c:88-200 | the status codes of `write`: EINVALIDSPEC and EEXISTS leave the table unchanged, and a write touches only the name's bucket |
| RefBackend.Backend.Write | Xferro/Git/LibGit2Wrapper/MemoryRefDB.c:88-200 | the C function leaves the array and status `WriteTable` gives, ignoring the old value, signature and message |
| RefStore.Unlink | Xferro/Git/LibGit2Wrapper/MemoryRefDB.c:371-376 | unlinking position k drops exactly that record and keeps the others in order |
| RefStore.DeleteTable | Xferro/Git/LibGit2Wrapper/MemoryRefDB.c:350-392 | ENOTFOUND when absent, EMODIFIED when a given old OID or old target differs (table unchanged), otherwise the record is unlinked and 0 |
| RefBackend.Backend.Delete | Xferro/Git/LibGit2Wrapper/MemoryRefDB.c:350-392 | the C loop with its `prev` pointer leaves the array and status `DeleteTable` gives |
| RefBackend.Backend.Del | Xferro/Git/LibGit2Wrapper/MemoryRefDB.c:410-416 | `memory_ref_del` behaves exactly as `delete` |
| RefStore.RenameTable | Xferro/Git/LibGit2Wrapper/MemoryRefDB.c:298-348 | EEXISTS without force when the new name is present, ENOTFOUND when the old one is absent, ENOMEM when the name copy fails, else the record moves to the head of the new bucket and the status is that of the final `git_reference_create` (`createStatus`), with an output reference only when it is 0 |
| RefBackend.Backend.Rename | Xferro/Git/LibGit2Wrapper/MemoryRefDB.c:298-348 | the C function leaves the array, status and output reference `RenameTable` gives, for a given `createStatus` |
| RefBackend.Backend.Compress | Xferro/Git/LibGit2Wrapper/MemoryRefDB.c:395-398 | always 0, table unchanged |
| RefBackend.Backend.HasLog | Xferro/Git/LibGit2Wrapper/MemoryRefDB.c:400-403 | always 0 (no log), table unchanged |
| RefBackend.Backend.EnsureLog | Xferro/Git/LibGit2Wrapper/MemoryRefDB.c:405-408 | always 0, table unchanged |
| RefBackend.Backend.ReflogRead | Xferro/Git/LibGit2Wrapper/MemoryRefDB.c:418-421 | always ENOTFOUND, table unchanged |
| RefBackend.Backend.ReflogWrite | Xferro/Git/LibGit2Wrapper/MemoryRefDB.c:423-426 | always 0, table unchanged |
| RefBackend.Backend.ReflogRename | Xferro/Git/LibGit2Wrapper/MemoryRefDB.c:428-431 | always 0, table unchanged |
| RefBackend.Backend.ReflogDelete | Xferro/Git/LibGit2Wrapper/MemoryRefDB.c:433-436 | always 0, table unchanged |
| RefStore.FindAfterUpdate | Xferro/Git/LibGit2Wrapper/MemoryRefDB.c:121-127 | updating a record in place keeps what every name resolves to, except the updated one |
| RefStore.FindAfterPush | Xferro/Git/LibGit2Wrapper/MemoryRefDB.c:145-147 | pushing a record at the head of a chain makes its name resolve to it and keeps the others |
| RefStore.FindAfterUnlink | Xferro/Git/LibGit2Wrapper/MemoryRefDB.c:371-376 | unlinking the first record with a name keeps what every other name resolves to |
| RefStore.UnlinkRemovesName | Xferro/Git/LibGit2Wrapper/MemoryRefDB.c:371-376 | in a chain without duplicate names, unlinking a name's record makes the name absent |
| RefStore.ResolveOtherBucket | Xferro/Git/LibGit2Wrapper/MemoryRefDB.c:45-56 | changing one bucket does not change what names of other buckets resolve to |
| RefStore.WritePreservesValid | Xferro/Git/LibGit2Wrapper/MemoryRefDB.c:88-200 | after any write every record still sits in the bucket of its name |
| RefStore.WriteFreshThenLookup | Xferro/Git/LibGit2Wrapper/MemoryRefDB.c:131-149 | a successful write of a fresh name makes `exists` 1 and `lookup` return the same kind with the same OID or target |
| RefStore.ForcedWriteOverwrites | Xferro/Git/LibGit2Wrapper/MemoryRefDB.c:121-127 | a forced direct write replaces only the OID and keeps the kind; a forced symbolic write replaces the target and sets the symbolic kind |
| RefStore.WritePreservesUnique | Xferro/Git/LibGit2Wrapper/MemoryRefDB.c:119-149 | write never creates a second record with the same name |
| RefStore.DeletePreservesValid | Xferro/Git/LibGit2Wrapper/MemoryRefDB.c:350-392 | after a delete every record still sits in the bucket of its name |
| RefStore.DeleteRemoves | Xferro/Git/LibGit2Wrapper/MemoryRefDB.c:357-386 | a successful delete in a table without duplicates makes the name absent and keeps every other name |
| RefStore.RenamePreservesValid | Xferro/Git/LibGit2Wrapper/MemoryRefDB.c:298-348 | after a rename every record still sits in the bucket of its name |
| RefStore.RenameMoves | Xferro/Git/LibGit2Wrapper/MemoryRefDB.c:320-341 | a rename that moves the record makes the new name resolve to it with the old target; the status is `createStatus`, and when that is 0 the output reference carries the record |
| RefStore.CreateThroughBackend | Xferro/Git/LibGit2Wrapper/MemoryRefDB.c:215-216 | `git_reference_create` with force 0 on the backend's own repository: libgit2's checks decide first, then the creation is a non-forced direct `write` to this backend; a reference comes out exactly when the status is 0 |
| RefStore.WriteOfStoredNameFails | Xferro/Git/LibGit2Wrapper/MemoryRefDB.c:119-123 | a non-forced direct write of a name the table already holds is refused with EEXISTS and changes nothing |
| RefStore.CreateOfStoredNameFails | Xferro/Git/LibGit2Wrapper/MemoryRefDB.c:215-224 | creating a reference for a name the table already holds, without force, fails with EEXISTS and changes nothing |
| RefStore.PushKeepsUnique | Xferro/Git/LibGit2Wrapper/MemoryRefDB.c:145-147 | pushing a record whose name is absent keeps names unique |
| RefStore.ForcedRenameDuplicates | Xferro/Git/LibGit2Wrapper/MemoryRefDB.c:308-338 | a forced rename onto an existing name leaves two records with that name |
| RefStore.RenameKeepsOthers | Xferro/Git/LibGit2Wrapper/MemoryRefDB.c:320-341 | a successful rename leaves what every third name resolves to unchanged |
| RefStore.RenameKeepsUnique | Xferro/Git/LibGit2Wrapper/MemoryRefDB.c:320-341 | after a successful rename no bucket holds a name twice |
| RefStore.RenameAllocFailureLosesRecord | Xferro/Git/LibGit2Wrapper/MemoryRefDB.c:322-334 | when the name copy fails after unlinking, the old name is gone and the new one is not created |
| RefIteration.FlattenIndex | Xferro/Git/LibGit2Wrapper/MemoryRefDB.c:213-226 | the yield order is all of bucket 0, then bucket 1, and so on, each chain head to tail |
| RefIteration.Locate | Xferro/Git/LibGit2Wrapper/MemoryRefDB.c:209-231 | each position of the yield order is a record of the table, at a bucket and chain position |
| RefIteration.IterationCoversTable | Xferro/Git/LibGit2Wrapper/MemoryRefDB.c:209-231 | every stored record appears in the yield order |
| RefIteration.IterationNamesDistinct | Xferro/Git/LibGit2Wrapper/MemoryRefDB.c:209-231 | in a table without duplicates, no name is yielded twice |
| RefIteration.Clamp | Xferro/Git/LibGit2Wrapper/MemoryRefDB.c:220 | the bucket cursor stays within the table |
| RefIteration.RefIterator.constructor | Xferro/Git/LibGit2Wrapper/MemoryRefDB.c:263-280 | a fresh iterator stands before bucket 0 with nothing yielded |
| RefIteration.RefIterator.Advance | Xferro/Git/LibGit2Wrapper/MemoryRefDB.c:212-226 | one step of the cursor: the next record of the chain, else the head of the next non-empty bucket, else the end |
| RefIteration.RefIterator.NextName | Xferro/Git/LibGit2Wrapper/MemoryRefDB.c:233-255 | each call yields the name of the next record in yield order and 0, and at the end NULL and GIT_ERROR |
| RefIteration.RefIterator.NextAsWritten | Xferro/Git/LibGit2Wrapper/MemoryRefDB.c:209-231 | as written: each call moves to the next record and passes it to `git_reference_create` through this backend, which answers EEXISTS (or libgit2's own error) and yields no reference; GIT_ERROR at the end |
| RefIteration.RefIterator.Next | Xferro/Git/LibGit2Wrapper/MemoryRefDB.c:209-231 | corrected: each call yields the next record as the reference `lookup` would build (symbolic records as symbolic references, direct ones as direct), or ENOMEM when building it fails, and GIT_ERROR at the end |
| References.LongBranchRef | Xferro/Git/LibGit2Wrapper/References.swift:13-15 | long refs unchanged, others get `refs/heads/`; the result is long |
| References.LongTagRef | Xferro/Git/LibGit2Wrapper/References.swift:17-19 | long refs unchanged, others get `refs/tags/`; the result is long |
| References.Split | Xferro/Git/LibGit2Wrapper/References.swift:43 | `split(separator: "/")`: non-empty, slash-free segments |
| References.SplitJoin | Xferro/Git/LibGit2Wrapper/References.swift:43-45 | splitting non-empty, slash-free segments joined with `/` gives the segments back |
| References.IsHEAD | Xferro/Git/LibGit2Wrapper/References.swift:37-39 | `isHEAD` holds only for `HEAD`, which is neither long nor a branch name |
| References.ShortRef | Xferro/Git/LibGit2Wrapper/References.swift:41-46 | a name that is not long or has fewer than three segments is returned as is; otherwise the result splits into the name's segments from the third on |
| References.JoinSplit | Xferro/Git/LibGit2Wrapper/References.swift:41-46 | splitting a name without empty segments and joining with `/` gives it back |
| References.PrefixesExclusive | Xferro/Git/LibGit2Wrapper/References.swift:9-35 | branch, tag and remote refs are long, and no name is two of them |
| References.LongRefIdempotent | Xferro/Git/LibGit2Wrapper/References.swift:13-23 | `longBranchRef` and `longTagRef` are idempotent |
| References.ShortRefOfLongBranchRef | Xferro/Git/LibGit2Wrapper/References.swift:13-46 | for a short name without empty segments, `longBranchRef.shortRef` gives the name back |
| References.ShortRefOfTagRef | Xferro/Git/LibGit2Wrapper/References.swift:41-46 | `refs/tags/x` shortens to `x` for `x` without empty segments |
| References.ShortRefKeeps | Xferro/Git/LibGit2Wrapper/References.swift:41-46 | `shortRef` returns the input when it is not long or has fewer than three segments |
| References.ShortName | Xferro/Git/LibGit2Wrapper/References.swift:146-153 | a remote branch's name after its first `/`; any other branch's name unchanged |
| References.RemoteName | Xferro/Git/LibGit2Wrapper/References.swift:173-179 | the third segment of the long name for remote branches, nil otherwise |
| References.RemoteNameOfRemoteBranch | Xferro/Git/LibGit2Wrapper/References.swift:173-179 | `refs/remotes/r/b` has remote name `r` |
| References.ShortNameOfRemoteBranch | Xferro/Git/LibGit2Wrapper/References.swift:146-153 | a remote branch `r/b` has short name `b` |
| References.ShortNameOfLocalBranch | Xferro/Git/LibGit2Wrapper/References.swift:146-153 | a local branch's short name is its name |
| References.IsLocal | Xferro/Git/LibGit2Wrapper/References.swift:161 | a local branch's long name is under `refs/heads/`, so it is long and neither a remote nor a tag name |
| References.IsRemote | Xferro/Git/LibGit2Wrapper/References.swift:164 | a remote branch's long name is under `refs/remotes/`, so it is long and neither a local nor a tag name |
| References.TagName | Xferro/Git/LibGit2Wrapper/References.swift:229-232 | a name that is not long is its own tag name; under `refs/tags/` with no empty segments, the tag name is what follows the prefix |
| References.TagOid | Xferro/Git/LibGit2Wrapper/References.swift:234-244 | the stored OID for a lightweight tag; the target of the tag object for an annotated one |
| References.TagNameAndOid | Xferro/Git/LibGit2Wrapper/References.swift:220-244 | a tag's name is `longName.shortRef`; its OID is the stored one when lightweight and the tag's target when annotated |
| Aggregation.FirstFailure | Xferro/Git/LibGit2Wrapper/Repository/Repository.swift:586-597 | the position of the first failure, with successes before it |
| Aggregation.Aggregate | Xferro/Git/LibGit2Wrapper/Repository/Repository.swift:586-597 | all successes give the values in order with the same count; otherwise the first failure |
| Aggregation.AggregateResult | Xferro/Git/LibGit2Wrapper/Repository/Repository.swift:586-597 | the loop with its early return computes `Aggregate` |
| Aggregation.AggregateStopsAtFailure | Xferro/Git/LibGit2Wrapper/Repository/Repository.swift:588-594 | elements after the first failure never affect the result |
| Aggregation.AggregateEmpty | Xferro/Git/LibGit2Wrapper/Repository/Repository.swift:596 | an empty input gives `success([])` |
| Collections.LastIndex | Xferro/Extensions/Collection++.swift:15-21 | nil iff empty, otherwise `count - 1` |
| Collections.Second | Xferro/Extensions/Collection++.swift:23-29 | nil iff `count <= 1`, otherwise the element at offset 1 |
| Collections.Last | Xferro/Extensions/Collection++.swift:31-37 | nil iff empty, otherwise the element at `lastIndex` |
| Collections.ContainsIndex | Xferro/Extensions/Collection++.swift:39-41 | an index is valid iff the collection is non-empty and it lies between 0 and `lastIndex` |
| Collections.ContainsAfter | Xferro/Extensions/Collection++.swift:43-45 | an index has a valid successor iff the collection is non-empty and it lies between 0 and `lastIndex`, excluded |
| Collections.AccessorsAgree | Xferro/Extensions/Collection++.swift:15-45 | `containsIndex` is `0 <= i < count`, `contains(after:)` holds iff `i` is before `lastIndex`, and the accessors agree |
| Collections.Indexes | Xferro/Extensions/Collection++.swift:87-93 | exactly the offsets of the matching elements, ascending |
| Collections.IncreasingUnique | Xferro/Extensions/Collection++.swift:87-93 | an ascending list is determined by its set of offsets, so `indexes(where:)` has one possible answer |
| DiffLines.DiffLine.constructor | Xferro/Git/LibGit2Wrapper/DiffLine.swift:10-19 | a line keeps the fields of the `DiffLine` protocol and starts unselected at position 0 |
| DiffLines.Selections | Xferro/Git/LibGit2Wrapper/DiffHunkPart.swift:82 | the selection flag of each line, position by position |
| DiffLines.CountTrue | Xferro/Git/LibGit2Wrapper/DiffHunkPart.swift:82 | the selected count is 0 iff nothing is selected and the full length iff everything is |
| DiffLines.CountTrueAppend | Xferro/Git/LibGit2Wrapper/DiffHunk.swift:27-29 | counting distributes over concatenation |
| DiffLines.Texts | Xferro/Features/Peek/Helpers/SelectedLinesDiffMaker.swift:141-143 | `map(\.text)`: one text per line, position by position |
| DiffHunkParts.DiffHunkPart.constructor | Xferro/Git/LibGit2Wrapper/DiffHunkPart.swift:36-51 | after `init` every line's `indexInPart` is its position (the last one, for a line listed twice), and no selection changes |
| DiffHunkParts.DiffHunkPart.RefreshSelectedStatus | Xferro/Git/LibGit2Wrapper/DiffHunkPart.swift:78-84 | the count becomes the number of selected lines and the flag whether all are selected; refused on a context part |
| DiffHunkParts.DiffHunkPart.ToggleLine | Xferro/Git/LibGit2Wrapper/DiffHunkPart.swift:56-62 | flips exactly that line's flag, then refreshes |
| DiffHunkParts.DiffHunkPart.SelectLine | Xferro/Git/LibGit2Wrapper/DiffHunkPart.swift:64-69 | sets one line's flag |
| DiffHunkParts.DiffHunkPart.Toggle | Xferro/Git/LibGit2Wrapper/DiffHunkPart.swift:71-76 | every line gets the negated part flag; the count becomes 0 or the line count |
| DiffHunkParts.DiffHunkPart.SelectAll | Xferro/Git/LibGit2Wrapper/DiffHunkPart.swift:71-74 | the loop of `toggle`: every line of the part gets the flag; lines and positions are kept |
| DiffHunkParts.DiffHunkPart.RefreshUniform | Xferro/Git/LibGit2Wrapper/DiffHunkPart.swift:75-84 | recounting lines that share one flag: the count is all lines or none, and the part flag is that flag (true for no lines) |
| DiffHunkParts.UniformSelection | Xferro/Git/LibGit2Wrapper/DiffHunkPart.swift:71-84 | lines with one common flag count as all or none |
| DiffHunkParts.AllSelected | Xferro/Git/LibGit2Wrapper/DiffHunkPart.swift:83 | `allSatisfy(\.isSelected)` |
| DiffHunkParts.IntToStringInjective | Xferro/Git/LibGit2Wrapper/DiffHunkPart.swift:16 | the decimal rendering of integers is injective |
| DiffHunkParts.IdDeterminesSummary | Xferro/Git/LibGit2Wrapper/DiffHunkPart.swift:15-17 | two parts with the same `id` have the same type, index, flag and count |
| DiffHunkParts.PartIdInjective | Xferro/Git/LibGit2Wrapper/DiffHunkPart.swift:15-17 | the `id` string determines type, index, flag and count |
| DiffHunkParts.DiffHunkPart.Id | Xferro/Git/LibGit2Wrapper/DiffHunkPart.swift:15-17 | the `id` starts with the type's id and a dot and ends with the dot-joined file paths |
| DiffInfos.CheckStateOf | Xferro/Features/Peek/ViewModels/DiffInfo.swift:36-44 | unchecked iff no change line is selected; checked iff there are change lines and all are selected; else partial |
| DiffInfos.CheckStateOfUniform | Xferro/Features/Peek/ViewModels/DiffInfo.swift:34-56 | with at least one change line, uniform flags read back as checked or unchecked |
| DiffInfos.ChangeParts | Xferro/Features/Peek/ViewModels/DiffInfo.swift:36 | the non-context parts of all hunks, in order |
| DiffInfos.HunkPartsIn | Xferro/Features/Peek/ViewModels/DiffInfo.swift:36 | the flattened parts are exactly the parts of the hunks, in both directions |
| DiffInfos.PartLinesMembers | Xferro/Features/Peek/ViewModels/DiffInfo.swift:36 | a line is in the flattened lines of some parts exactly when one of those parts holds it |
| DiffInfos.ChangeLinesMembers | Xferro/Features/Peek/ViewModels/DiffInfo.swift:36 | a line is considered exactly when some hunk has a non-context part holding it |
| DiffInfos.DiffInfo.constructor | Xferro/Features/Peek/ViewModels/DiffInfo.swift:18-28 | stores the hunks and counts |
| DiffInfos.DiffInfo.CheckState | Xferro/Features/Peek/ViewModels/DiffInfo.swift:35-44 | the getter is `CheckStateOf` of the change lines |
| DiffInfos.DiffInfo.SetCheckState | Xferro/Features/Peek/ViewModels/DiffInfo.swift:45-56 | checked selects and unchecked deselects every change line; partial changes nothing; context lines never change; set then get round-trips |
| DiffInfos.WriteAll | Xferro/Features/Peek/ViewModels/DiffInfo.swift:46-55 | the setter loop gives every listed line the flag |
| DiffHunks.Groups | Xferro/Git/LibGit2Wrapper/DiffHunk.swift:56-100 | the grouping of lines into parts: first part context, kinds alternate, concatenation is the input |
| DiffHunks.GroupsSpec | Xferro/Git/LibGit2Wrapper/DiffHunk.swift:56-100 | the groups concatenate to the lines, alternate in kind, and all but the first are non-empty |
| DiffHunks.GroupsUnique | Xferro/Git/LibGit2Wrapper/DiffHunk.swift:56-100 | any grouping with those properties is `Groups` |
| DiffHunks.BuildParts | Xferro/Git/LibGit2Wrapper/DiffHunk.swift:56-100 | the loop with `currentLines`, `currentPartType` and `partIndex` produces `Groups`, with `parts[i].indexInHunk == i`; when the lines are distinct objects each knows its position in its part, and no line's selection changes |
| DiffHunks.TakeLine | Xferro/Git/LibGit2Wrapper/DiffHunk.swift:60-92 | a line whose kind differs from the current part closes it (numbered by `partIndex`) and opens one of the other type holding the line; otherwise the line joins the current part; either way the parts and current lines track the grouping, the current lines stay the slice since the last part began, and numbering and selection are kept |
| DiffHunks.AppendPart | Xferro/Git/LibGit2Wrapper/DiffHunk.swift:64-70 | a new part of the kind, lines and index of its position is appended; the parts built before keep their state; the new part's lines, when distinct from the earlier ones, are numbered by position, and no line's selection changes |
| DiffHunks.DiffHunk.constructor | Xferro/Git/LibGit2Wrapper/DiffHunk.swift:31-101 | a hunk's parts are `Groups` of its lines, numbered in order; every part starts unselected; when the hunk's lines are distinct objects (as `lineAtIndex` makes them), every line's `indexInPart` is its position in its part; no line's `isSelected` changes |
| DiffHunks.PartLinesOfGroups | Xferro/Git/LibGit2Wrapper/DiffHunk.swift:134 | `parts.flatMap(\.lines)` reproduces the hunk's lines |
| DiffHunks.SumSelectedCountsLines | Xferro/Git/LibGit2Wrapper/DiffHunk.swift:27-29 | with refreshed parts, the hunk's selected count is the number of selected lines |
| DiffHunks.DiffHunk.SelectedLinesCount | Xferro/Git/LibGit2Wrapper/DiffHunk.swift:27-29 | when every part's count is up to date, the hunk's count is the number of its selected lines |
| DiffHunks.SidesPush | Xferro/Git/LibGit2Wrapper/DiffHunk.swift:134-148 | context goes to both sides, additions to the new side, deletions to the old side, other lines to neither |
| DiffHunks.DiffHunk.Sides | Xferro/Git/LibGit2Wrapper/DiffHunk.swift:131-148 | the loop builds the old and new sides |
| DiffHunks.Splice | Xferro/Git/LibGit2Wrapper/DiffHunk.swift:161 | `replaceSubrange`: prefix, replacement, suffix |
| DiffHunks.ApplyAsWritten | Xferro/Git/LibGit2Wrapper/DiffHunk.swift:125-164 | as written, success requires the old side's range to fit, whichever side is replaced |
| DiffHunks.DiffHunk.Applied | Xferro/Git/LibGit2Wrapper/DiffHunk.swift:125-164 | `applied(to:reversed:)` on the hunk's lines is `ApplyAsWritten` |
| DiffHunks.DiffHunk.AppliedCorrected | Xferro/Git/LibGit2Wrapper/DiffHunk.swift:125-164 | the corrected application on the hunk's lines |
| DiffHunks.ApplyCorrected | Xferro/Git/LibGit2Wrapper/DiffHunk.swift:125-164 | corrected `applied`: succeeds iff the target range lies in the file and holds the target side; the result's length trades that range for the other side |
| DiffHunks.ApplyCorrectedMeaning | Xferro/Git/LibGit2Wrapper/DiffHunk.swift:150-161 | success iff the target range holds the target side, and then the range is replaced by the other side |
| DiffHunks.ApplyCorrectedRoundTrip | Xferro/Git/LibGit2Wrapper/DiffHunk.swift:125-164 | reverse-applying a forward application restores the file |
| DiffHunks.ApplyAgreesWhenGuardsAgree | Xferro/Git/LibGit2Wrapper/DiffHunk.swift:128-129 | where both guards hold, the written and corrected versions agree |
| DiffHunks.ApplyForwardAgrees | Xferro/Git/LibGit2Wrapper/DiffHunk.swift:128-155 | forward application is unaffected by the guard's choice of side |
| DiffHunks.ReverseApplyRejected | Xferro/Git/LibGit2Wrapper/DiffHunk.swift:128-157 | a concrete reverse application that should succeed is rejected by the written guard |
| SelectedLinesDiffMaker.ResultingFileLinesOfEach | Xferro/Features/Peek/Helpers/SelectedLinesDiffMaker.swift:11-24 | `resultingFileLines` is the line array of whichever case is present |
| SelectedLinesDiffMaker.AddedFile | Xferro/Features/Peek/Helpers/SelectedLinesDiffMaker.swift:133-149 | a non-empty all-addition selection gives the selected texts in order |
| SelectedLinesDiffMaker.DeletionMatch | Xferro/Features/Peek/Helpers/SelectedLinesDiffMaker.swift:162-175 | whether some selected deletion has the 1-based HEAD position |
| SelectedLinesDiffMaker.IsSelectedDeletion | Xferro/Features/Peek/Helpers/SelectedLinesDiffMaker.swift:162-175 | the inner loop answers `DeletionMatch` |
| SelectedLinesDiffMaker.DeletedFile | Xferro/Features/Peek/Helpers/SelectedLinesDiffMaker.swift:151-181 | a non-empty all-deletion selection keeps, in order, the HEAD lines whose position no selected deletion names |
| SelectedLinesDiffMaker.KeepUnmarkedLength | Xferro/Features/Peek/Helpers/SelectedLinesDiffMaker.swift:159-180 | the deleted-file result has the HEAD count minus the number of distinct matched positions |
| SelectedLinesDiffMaker.KeepUnmarkedSubset | Xferro/Features/Peek/Helpers/SelectedLinesDiffMaker.swift:159-180 | every kept line is a HEAD line |
| SelectedLinesDiffMaker.FindAddition | Xferro/Features/Peek/Helpers/SelectedLinesDiffMaker.swift:200-208 | whether some addition in a list has the 1-based working position |
| SelectedLinesDiffMaker.FindDeletion | Xferro/Features/Peek/Helpers/SelectedLinesDiffMaker.swift:223-250 | whether some deletion in a list has the 1-based HEAD position |
| SelectedLinesDiffMaker.ChooseMove | Xferro/Features/Peek/Helpers/SelectedLinesDiffMaker.swift:197-287 | one step of the merge: equal non-addition lines, then selected deletion, unselected deletion, selected addition, unselected addition, else stop |
| SelectedLinesDiffMaker.ModifiedFile | Xferro/Features/Peek/Helpers/SelectedLinesDiffMaker.swift:183-290 | an empty selection gives the HEAD lines; otherwise the labelled loop computes the merge |
| SelectedLinesDiffMaker.MergeBounded | Xferro/Features/Peek/Helpers/SelectedLinesDiffMaker.swift:194-289 | the merge emits at most `head.count + current.count` lines, each from one of the inputs |
| SelectedLinesDiffMaker.ModifiedBounded | Xferro/Features/Peek/Helpers/SelectedLinesDiffMaker.swift:190-290 | the modified-file result has that bound and takes its lines from the inputs |
| SelectedLinesDiffMaker.MergeDropsHeadTail | Xferro/Features/Peek/Helpers/SelectedLinesDiffMaker.swift:197-289 | the merge stops when either file is used up and adds no tail, so an unselected trailing deletion's HEAD line is lost |
| SelectedLinesDiffMaker.MergeUnchanged | Xferro/Features/Peek/Helpers/SelectedLinesDiffMaker.swift:197-215 | identical files with no hunk additions merge to themselves |
| RangeReplaceable.FirstIndexWhere | Xferro/Extensions/RangeReplacableCollection++.swift:206 | the first offset satisfying the predicate, or none when none does |
| RangeReplaceable.Keep | Xferro/Extensions/RangeReplacableCollection++.swift:173-200 | the elements whose offsets are not named, in order |
| RangeReplaceable.KeepLength | Xferro/Extensions/RangeReplacableCollection++.swift:173-200 | removing distinct in-range offsets shortens the collection by their number |
| RangeReplaceable.KeepIndex | Xferro/Extensions/RangeReplacableCollection++.swift:173-200 | the k-th kept element is the element at the k-th unnamed offset |
| RangeReplaceable.Sort | Xferro/Extensions/RangeReplacableCollection++.swift:161 | `sorted()`: a sorted permutation |
| RangeReplaceable.SortDistinct | Xferro/Extensions/RangeReplacableCollection++.swift:158-162 | sorting repeat-free indices gives a strictly increasing list of the same offsets |
| RangeReplaceable.IsSorted | Xferro/Extensions/RangeReplacableCollection++.swift:146-156 | the sortedness scan answers whether the indices are non-decreasing |
| RangeReplaceable.SwapAt | Xferro/Extensions/RangeReplacableCollection++.swift:185 | `swapAt` exchanges two elements and keeps the rest |
| RangeReplaceable.ShiftLeftAsWritten | Xferro/Extensions/RangeReplacableCollection++.swift:182-190 | one as-written `shiftLeft`: the length is kept, the cursors stay in bounds, the source cursor ends one past `until` (or one past where it stood) and one further ahead of the destination |
| RangeReplaceable.SwapAtPermutes | Xferro/Extensions/RangeReplacableCollection++.swift:185 | `swapAt` permutes the elements |
| RangeReplaceable.ShiftLeftPermutes | Xferro/Extensions/RangeReplacableCollection++.swift:182-190 | one as-written `shiftLeft` is a permutation of the elements |
| RangeReplaceable.ShiftAllAsWritten | Xferro/Extensions/RangeReplacableCollection++.swift:191-196 | the as-written loop over the remaining indices: the length is kept, the cursors stay in bounds, and each index puts the source cursor one further ahead of the destination |
| RangeReplaceable.ShiftAllPermutes | Xferro/Extensions/RangeReplacableCollection++.swift:191-196 | the as-written loop is a permutation of the elements |
| RangeReplaceable.RemoveRepeatAsWritten | Xferro/Extensions/RangeReplacableCollection++.swift:173-200 | the as-written removal of offsets 0, 2, 2 from five elements keeps two of them |
| RangeReplaceable.DuplicateIndexDropsKeptElement | Xferro/Extensions/RangeReplacableCollection++.swift:181-194 | that result differs from dropping offsets 0 and 2, so an element that should stay is lost |
| RangeReplaceable.RemoveSortedAgreesWithoutRepeats | Xferro/Extensions/RangeReplacableCollection++.swift:173-200 | for strictly increasing in-range indices the written algorithm keeps exactly the unnamed elements |
| RangeReplaceable.RemoveSortedAsWritten | Xferro/Extensions/RangeReplacableCollection++.swift:173-200 | as written, with repeats allowed after the first index: at least one element goes and at most one per index |
| RangeReplaceable.WithLastRoundTrip | Xferro/Extensions/RangeReplacableCollection++.swift:40-54 | reading `mutableLast` after setting gives the value; setting what was read changes nothing |
| RangeReplaceable.JoinedConcat | Xferro/Extensions/RangeReplacableCollection++.swift:69-93 | appending in two batches is appending their concatenation |
| RangeReplaceable.JoinedNeverJoining | Xferro/Extensions/RangeReplacableCollection++.swift:69-93 | with a `join` that never merges, the call is a plain append |
| RangeReplaceable.JoinedLength | Xferro/Extensions/RangeReplacableCollection++.swift:69-93 | the collection never shrinks and grows by at most one per element |
| RangeReplaceable.CutAtMeaning | Xferro/Extensions/RangeReplacableCollection++.swift:204-216 | `removeAfter` keeps the prefix before the first match (everything when none matches), and a second cut changes nothing |
| RangeReplaceable.ReplaceableCollection.constructor | Xferro/Extensions/RangeReplacableCollection++.swift:10-14 | a collection of the given elements |
| RangeReplaceable.ReplaceableCollection.SetMutableLast | Xferro/Extensions/RangeReplacableCollection++.swift:40-54 | nil pops the last element; a value overwrites it, or is appended to an empty collection |
| RangeReplaceable.ReplaceableCollection.AppendJoining | Xferro/Extensions/RangeReplacableCollection++.swift:69-93 | each element merges into the last one when `join` allows, else it is appended |
| RangeReplaceable.ReplaceableCollection.Replace | Xferro/Extensions/RangeReplacableCollection++.swift:98-105 | the count is kept, the old element is returned and the new one is at the index |
| RangeReplaceable.ReplaceableCollection.RemoveAfter | Xferro/Extensions/RangeReplacableCollection++.swift:204-216 | truncates from the first match, unchanged when none matches |
| RangeReplaceable.ReplaceableCollection.ShiftLeft | Xferro/Extensions/RangeReplacableCollection++.swift:182-190 | one `shiftLeft(untilIndex:)` step, trapping on a repeated index |
| RangeReplaceable.ReplaceableCollection.RemoveElementsAtSortedIndices | Xferro/Extensions/RangeReplacableCollection++.swift:173-200 | with strictly increasing in-range indices, the collection becomes the original with exactly those positions dropped, order kept |
| RangeReplaceable.ReplaceableCollection.RemoveElementsAtIndices | Xferro/Extensions/RangeReplacableCollection++.swift:139-163 | an empty list changes nothing; unsorted indices are sorted first; the result drops exactly the named positions |
| GitExtensions.StageOf | Xferro/Git/GitExtensions.swift:30-33 | `(flags & 0x3000) >> 12`, a value below 4 |
| GitExtensions.WithStage | Xferro/Git/GitExtensions.swift:34-37 | the mask bits take `v & 3` and every other bit of `flags` is kept |
| GitExtensions.StageRoundTrip | Xferro/Git/GitExtensions.swift:29-38 | set then get gives `v & 3`; setting what was read changes nothing |
| GitExtensions.IndexEntry.constructor | Xferro/Git/GitExtensions.swift:28-39 | an index entry with the given flags |
| GitExtensions.IndexEntry.Stage | Xferro/Git/GitExtensions.swift:31-33 | the getter on the entry's flags |
| GitExtensions.IndexEntry.SetStage | Xferro/Git/GitExtensions.swift:34-37 | the setter replaces exactly the stage bits |
| GitExtensions.Scan | Xferro/Git/GitExtensions.swift:226-239 | one result per element, each the combination of the previous result (or the initial value) with the element |
| GitExtensions.CCharAsWritten | Xferro/Git/GitExtensions.swift:196 | `Int8($0)` is value-preserving and therefore defined only below 128 |
| GitExtensions.NonAsciiPathTraps | Xferro/Git/GitExtensions.swift:196 | the UTF-8 encoding of a non-ASCII path, `é` = `C3 A9`, is not ASCII-only, so it falls outside what the written conversion accepts |
| GitExtensions.EncodeAsWritten | Xferro/Git/GitExtensions.swift:196 | the written `Int8($0)` conversion, defined only for ASCII-only strings, keeps each byte's value and agrees with the corrected one there |
| GitExtensions.PackStringsAsWritten | Xferro/Git/GitExtensions.swift:192-198 | the buffer loop as written, for ASCII-only strings, packs each string followed by a NUL |
| GitExtensions.CChar | Xferro/Git/GitExtensions.swift:196 | the bit-pattern conversion: the same eight bits, zero only for zero, and equal to the written one below 128 |
| GitExtensions.Encode | Xferro/Git/GitExtensions.swift:196 | each byte of a string converted |
| GitExtensions.Offsets | Xferro/Git/GitExtensions.swift:190-191 | `[0] + scan(lengths, 0, +)`: starts at 0 with one entry per string plus the end |
| GitExtensions.Lengths | Xferro/Git/GitExtensions.swift:190 | each string's UTF-8 size plus its NUL |
| GitExtensions.OffsetsStep | Xferro/Git/GitExtensions.swift:190-191 | each offset is the previous plus the previous string's size and NUL |
| GitExtensions.OffsetsUnique | Xferro/Git/GitExtensions.swift:190-191 | any list starting at 0 that steps this way is the offsets |
| GitExtensions.PackedSize | Xferro/Git/GitExtensions.swift:194-200 | the buffer's size is the last offset |
| GitExtensions.PackedHolds | Xferro/Git/GitExtensions.swift:195-198 | at its offset the buffer holds string i, and right after it a NUL |
| GitExtensions.ReadCString | Xferro/Git/GitExtensions.swift:222 | `String(cString:)` reads up to the first NUL |
| GitExtensions.ReadUpToNul | Xferro/Git/GitExtensions.swift:222 | reading stops exactly at a NUL that follows NUL-free text |
| GitExtensions.StringOffsets | Xferro/Git/GitExtensions.swift:190-191 | the `scan` call computes `Offsets` |
| GitExtensions.PackStrings | Xferro/Git/GitExtensions.swift:192-198 | the buffer loop packs each string followed by a NUL |
| GitExtensions.WithGitStringArray | Xferro/Git/GitExtensions.swift:189-214 | with the corrected `Int8(bitPattern:)` conversion, the buffer is the packed strings of size `offsets.last`; the pointer list has count+1 entries, a trailing nil, and `count` strings |
| GitExtensions.StringArrayRoundTrip | Xferro/Git/GitExtensions.swift:217-223 | subscripting entry i of the array reads back string i when it has no NUL byte |
| GitWatchers.WithPrefix | Xferro/Watchers/GitWatcher.swift:149 | `references(withPrefix:)` keeps exactly the listed references with the prefix |
| GitWatchers.SnapshotContents | Xferro/Watchers/GitWatcher.swift:148-149 | the new cache holds exactly the listed names, each with its last listed OID |
| GitWatchers.Snapshot | Xferro/Watchers/GitWatcher.swift:223-224 | at most one cache entry per listed reference, and the last listed reference holds its own OID |
| GitWatchers.BuildCache | Xferro/Watchers/GitWatcher.swift:223-224 | the `forEach` loop builds the snapshot |
| GitWatchers.AddedRefs | Xferro/Watchers/GitWatcher.swift:227 | `newKeys - oldKeys` |
| GitWatchers.DeletedRefs | Xferro/Watchers/GitWatcher.swift:228 | `oldKeys - newKeys` |
| GitWatchers.ChangedRefs | Xferro/Watchers/GitWatcher.swift:229-236 | keys in both caches whose OIDs differ |
| GitWatchers.RefChanges | Xferro/Watchers/GitWatcher.swift:238-248 | the change map holds exactly the non-empty categories, each under its key |
| GitWatchers.CategoriesDisjoint | Xferro/Watchers/GitWatcher.swift:226-236 | added, deleted and changed are pairwise disjoint |
| GitWatchers.CategoriesCover | Xferro/Watchers/GitWatcher.swift:226-236 | a name is in some category exactly when the caches disagree about it |
| GitWatchers.KeysFollowChanges | Xferro/Watchers/GitWatcher.swift:226-228 | old keys minus deleted plus added are the new keys |
| GitWatchers.RefChangesEmpty | Xferro/Watchers/GitWatcher.swift:238-252 | the change map is empty exactly when the snapshot equals the cache |
| GitWatchers.Published | Xferro/Watchers/GitWatcher.swift:250-252 | one non-empty map is sent iff the caches differ |
| GitWatchers.CheckRefKind | Xferro/Watchers/GitWatcher.swift:218-255 | one check: the new cache is the snapshot and what is sent is `Published` |
| GitWatchers.RepeatedCheckSilent | Xferro/Watchers/GitWatcher.swift:254 | a second check against an identical snapshot publishes nothing |
| GitWatchers.Parent | Xferro/Watchers/GitWatcher.swift:297 | the path with its last component removed |
| GitWatchers.Paths | Xferro/Watchers/GitWatcher.swift:292-303 | true iff some path or its parent ends with some subpath; false for no paths |
| GitWatchers.GitWatcher.constructor | Xferro/Watchers/GitWatcher.swift:48-89 | the local-branch cache starts as the snapshot of all references; the other caches and publishers start empty |
| GitWatchers.GitWatcher.CheckLocalBranches | Xferro/Watchers/GitWatcher.swift:218-255 | classifies `refs/heads` against its cache, publishes the changes when any, replaces the cache; nothing else changes |
| GitWatchers.GitWatcher.CheckRemoteBranches | Xferro/Watchers/GitWatcher.swift:144-180 | the same classification for `refs/remotes` |
| GitWatchers.GitWatcher.CheckTags | Xferro/Watchers/GitWatcher.swift:181-217 | the same classification for `refs/tags` |
| GitWatchers.GitWatcher.CheckHead | Xferro/Watchers/GitWatcher.swift:117-122 | fires once when a path matches `HEAD` |
| GitWatchers.GitWatcher.CheckLogs | Xferro/Watchers/GitWatcher.swift:285-290 | fires once when a path matches `logs/refs` |
| GitWatchers.GitWatcher.CheckRefs | Xferro/Watchers/GitWatcher.swift:124-142 | runs each kind's check exactly when a path matches its directory |
| GitWatchers.GitWatcher.PackedRefsChangedAsWritten | Xferro/Watchers/GitWatcher.swift:263-268 | the packed-refs handler as written checks local and remote branches and never tags |
| GitWatchers.PackedTagGoesUnreported | Xferro/Watchers/GitWatcher.swift:263-268 | for a repository holding one tag, the tag check the handler skips would publish that tag as added |
| GitWatchers.PackedTagsCompared | Xferro/Watchers/GitWatcher.swift:263-268 | on a freshly set-up watcher, the handler as written publishes no tag change and leaves the tag cache empty for every repository, while the corrected handler caches the listed tags and publishes a change exactly when there is a tag |
| GitWatchers.GitWatcher.PackedRefsChanged | Xferro/Watchers/GitWatcher.swift:263-268 | the corrected handler checks each kind once |
| GitWatchers.FirstLocalCheckReportsOtherRefs | Xferro/Watchers/GitWatcher.swift:68 | the first local-branch check reports every non-branch reference as deleted, because the cache starts with all references |
| GitWatchers.GitWatcher.FromLocalBranches | Xferro/Watchers/GitWatcher.swift:68 | corrected set-up: the local-branch cache starts as the snapshot of `refs/heads`; the other caches and publishers start empty |
| GitWatchers.FirstLocalCheckSilent | Xferro/Watchers/GitWatcher.swift:68 | with the corrected set-up, the first local-branch check on an unchanged repository publishes nothing |
| GitGraphs.ParentHitsMembers | Xferro/Git/Git-Graph/GitGraph+Static.swift:17-21 | a commit gains a child once per parent entry that names it |
| GitGraphs.NewChildrenMembers | Xferro/Git/Git-Graph/GitGraph+Static.swift:12-23 | the children a commit gains are exactly the commits listing it as a known parent |
| GitGraphs.ChildrenSoFarStep | Xferro/Git/Git-Graph/GitGraph+Static.swift:17-21 | one more parent appends the OID to that parent's children only |
| GitGraphs.ChildrenSoFarNext | Xferro/Git/Git-Graph/GitGraph+Static.swift:13-22 | finishing one commit's parents is the state before the next commit |
| GitGraphs.ChildrenSoFarStart | Xferro/Git/Git-Graph/GitGraph+Static.swift:12-23 | before the loop every commit has only its old children |
| GitGraphs.AssignChildren | Xferro/Git/Git-Graph/GitGraph+Static.swift:12-23 | each commit's children become its old children plus, in commit order, every commit listing it as a parent; unknown parents are ignored |
| GitGraphs.AppendToParents | Xferro/Git/Git-Graph/GitGraph+Static.swift:17-21 | the inner loop over one commit's parents |
| GitGraphs.MappedBefore | Xferro/Git/Git-Graph/GitGraph+Static.swift:68-71 | how many earlier branches got a number |
| GitGraphs.NumberBranches | Xferro/Git/Git-Graph/GitGraph+Static.swift:45-73 | the first pass numbers the kept branches 0, 1, 2, … in order |
| GitGraphs.TraceCount | Xferro/Git/Git-Graph/GitGraph+Static.swift:76-80 | the number of commits traced to a branch is at most the commit count, and 0 exactly when no commit is traced to it |
| GitGraphs.CountCommits | Xferro/Git/Git-Graph/GitGraph+Static.swift:75-80 | each branch's count is the number of commits traced to it |
| GitGraphs.SkippedOnlyEmpty | Xferro/Git/Git-Graph/GitGraph+Static.swift:86 | with counts from the counting loop, a mapped branch is dropped exactly when it is merged, not a tag and no commit is traced to it, so no traced commit loses its branch |
| GitGraphs.SkippedBefore | Xferro/Git/Git-Graph/GitGraph+Static.swift:83-93 | the number of earlier mapped branches the second pass drops |
| GitGraphs.Compacted | Xferro/Git/Git-Graph/GitGraph+Static.swift:82-93 | the mapping after the second pass |
| GitGraphs.CompactMapping | Xferro/Git/Git-Graph/GitGraph+Static.swift:82-93 | the loop with `countSkipped` computes `Compacted` |
| GitGraphs.CompactedNumbered | Xferro/Git/Git-Graph/GitGraph+Static.swift:82-93 | compaction of a numbering is a numbering: the survivors are renumbered 0, 1, 2, … |
| GitGraphs.CompactedCount | Xferro/Git/Git-Graph/GitGraph+Static.swift:82-93 | before any position, the surviving entries number the mapped ones less the dropped ones, so each survivor moves down by the dropped branches before it |
| GitGraphs.CompactMap | Xferro/Git/Git-Graph/GitGraph+Static.swift:100-106 | the new numbers of the listed branches that survive |
| GitGraphs.Renumbered | Xferro/Git/Git-Graph/GitGraph+Static.swift:96-107 | an untraced commit is unchanged; a traced one keeps its OID, parents and children, takes its trace's new number, and its branches and tags are exactly the surviving new numbers of its old ones |
| GitGraphs.RenumberCommits | Xferro/Git/Git-Graph/GitGraph+Static.swift:95-108 | every traced commit takes its new trace, branch and tag numbers; untraced commits are unchanged |
| GitGraphs.RenumberCommit | Xferro/Git/Git-Graph/GitGraph+Static.swift:96-107 | one commit is renumbered and the others are untouched |
| GitGraphs.KeptBranches | Xferro/Git/Git-Graph/GitGraph+Static.swift:110-113 | the returned branches are those with a mapping entry, in order |
| GitGraphs.NumberIsPosition | Xferro/Git/Git-Graph/GitGraph+Static.swift:110-113 | under a numbering, a branch's number is its position in the returned list |
| GitGraphs.CompactionKeepsTraces | Xferro/Git/Git-Graph/GitGraph+Static.swift:82-113 | a surviving branch's new number points at that same branch in the returned list |
| GitGraphs.MatchedName | Xferro/Git/Git-Graph/GitGraph+Static.swift:407-409 | names starting with `origin/` are matched without it |
| GitGraphs.BranchOrder | Xferro/Git/Git-Graph/GitGraph+Static.swift:405-418 | the index of the first matching pattern, else the pattern count; the result is within `[0, count]` |
| GitGraphs.OriginIgnored | Xferro/Git/Git-Graph/GitGraph+Static.swift:405-418 | `origin/x` gets the same order as `x` |
| GitGraphs.BranchOrderDeterminedByName | Xferro/Git/Git-Graph/GitGraph+Static.swift:405-418 | names matched as the same string get the same order |
| GitGraphs.Patterns | Xferro/Git/Git-Graph/GitGraph+Static.swift:389 | the patterns of a colour table |
| GitGraphs.BranchColor | Xferro/Git/Git-Graph/GitGraph+Static.swift:382-402 | `colors[counter % count]` of the first matching entry, else from the unknown colours |
| GitGraphLayout.CommitAt | Xferro/Git/Git-Graph/GitGraph+Static.swift:493 | `commits[safe:]` |
| GitGraphLayout.TraceOfOid | Xferro/Git/Git-Graph/GitGraph+Static.swift:491-494 | the trace of the commit an OID names, when it resolves |
| GitGraphLayout.TargetBranchOf | Xferro/Git/Git-Graph/GitGraph+Static.swift:490-496 | the branch of the merge target's commit, nil when the chain does not resolve |
| GitGraphLayout.GroupOf | Xferro/Git/Git-Graph/GitGraph+Static.swift:498-500 | `branches[safe:].visual.orderGroup` |
| GitGraphLayout.WithTarget | Xferro/Git/Git-Graph/GitGraph+Static.swift:490-502 | a branch with its target branch and target group set |
| GitGraphLayout.TargetsAssigned | Xferro/Git/Git-Graph/GitGraph+Static.swift:490-503 | the branch list after the first loop; order groups unchanged |
| GitGraphLayout.AssignTargets | Xferro/Git/Git-Graph/GitGraph+Static.swift:490-503 | each branch's target is `TargetBranchOf` and its target group that branch's group |
| GitGraphLayout.ForeignParent | Xferro/Git/Git-Graph/GitGraph+Static.swift:512-514 | a parent counts only when it is on another trace |
| GitGraphLayout.ScanMaxGroup | Xferro/Git/Git-Graph/GitGraph+Static.swift:521-533 | the highest parent group is the largest group among foreign parents with a branch, none when there is none |
| GitGraphLayout.ScanSource | Xferro/Git/Git-Graph/GitGraph+Static.swift:516-519 | the source branch is the trace of the last foreign traced parent, never the commit's own |
| GitGraphLayout.ScanCommitParents | Xferro/Git/Git-Graph/GitGraph+Static.swift:510-535 | the parent loop computes the scan |
| GitGraphLayout.ApplyScan | Xferro/Git/Git-Graph/GitGraph+Static.swift:537-546 | a commit tells its branch its source group and source branch |
| GitGraphLayout.SourcesAssigned | Xferro/Git/Git-Graph/GitGraph+Static.swift:505-547 | the branch list after the first k commits; order groups unchanged |
| GitGraphLayout.AssignSources | Xferro/Git/Git-Graph/GitGraph+Static.swift:505-547 | the second loop computes `SourcesAssigned` |
| GitGraphLayout.AssignSourcesTargets | Xferro/Git/Git-Graph/GitGraph+Static.swift:484-548 | targets first, then sources |
| GitGraphLayout.SourcesOnlyTouchSources | Xferro/Git/Git-Graph/GitGraph+Static.swift:505-547 | the source pass changes only source branch and source group, and no branch becomes its own source |
| GitGraphColumns.Entries | Xferro/Git/Git-Graph/GitGraph+Static.swift:569-578 | exactly the considered branches, with default ends and groups |
| GitGraphColumns.EntrySpanAgrees | Xferro/Git/Git-Graph/GitGraph+Static.swift:572-578 | a branch's sort record names it and carries the rows the column search compares |
| GitGraphColumns.UnassignedGroupSortsLast | Xferro/Git/Git-Graph/GitGraph+Static.swift:576-577 | a branch without a source or target group gets the default `order.count + 1` and sorts after every branch whose groups are configured |
| GitGraphColumns.BeforeIrreflexive | Xferro/Git/Git-Graph/GitGraph+Static.swift:581-595 | the comparator never puts an entry before itself |
| GitGraphColumns.BeforeStrict | Xferro/Git/Git-Graph/GitGraph+Static.swift:581-595 | the comparator is asymmetric and transitive |
| GitGraphColumns.BeforeTies | Xferro/Git/Git-Graph/GitGraph+Static.swift:581-595 | entries the comparator cannot order agree on highest group, length and start |
| GitGraphColumns.Insert | Xferro/Git/Git-Graph/GitGraph+Static.swift:580-595 | inserting adds exactly one element |
| GitGraphColumns.InsertOrdered | Xferro/Git/Git-Graph/GitGraph+Static.swift:580-595 | inserting keeps comparator order |
| GitGraphColumns.SortEntries | Xferro/Git/Git-Graph/GitGraph+Static.swift:580-595 | a permutation in comparator order: group, then signed length, then signed start |
| GitGraphColumns.OrderedEverywhere | Xferro/Git/Git-Graph/GitGraph+Static.swift:580-595 | no later entry comes before an earlier one |
| GitGraphColumns.SortedEntryValid | Xferro/Git/Git-Graph/GitGraph+Static.swift:569-595 | each sorted entry is a considered branch's record |
| GitGraphColumns.SortedCoversConsidered | Xferro/Git/Git-Graph/GitGraph+Static.swift:569-595 | every considered branch has a sorted entry |
| GitGraphColumns.SortedEntriesFor | Xferro/Git/Git-Graph/GitGraph+Static.swift:569-595 | the sorted list is exactly the considered branches' records |
| GitGraphColumns.AlignRight | Xferro/Git/Git-Graph/GitGraph+Static.swift:603-608 | a branch leans right exactly when its source or target branch is in a group further right |
| GitGraphColumns.MergeColumn | Xferro/Git/Git-Graph/GitGraph+Static.swift:629-639 | a column only when the merge target resolves to a commit whose branch is in the same group and holds that column; none without a resolvable merge target |
| GitGraphColumns.FindColumn | Xferro/Git/Git-Graph/GitGraph+Static.swift:603-646 | the first free column from the left, or the right when aligning right, skipping overlapping spans and the merge target's column; none gives a new column |
| GitGraphColumns.Record | Xferro/Git/Git-Graph/GitGraph+Static.swift:651-654 | the span is added to the column found, which is opened when new |
| GitGraphColumns.PlaceStep | Xferro/Git/Git-Graph/GitGraph+Static.swift:598-655 | placing one branch in a free column keeps the placement invariant |
| GitGraphColumns.PlaceBranches | Xferro/Git/Git-Graph/GitGraph+Static.swift:598-655 | with the group written back, every considered branch gets a column and no two in a group and column share a row |
| GitGraphColumns.ColumnsBeforeGrows | Xferro/Git/Git-Graph/GitGraph+Static.swift:657-660 | the running column total does not decrease |
| GitGraphColumns.ColumnsBeforeEmpty | Xferro/Git/Git-Graph/GitGraph+Static.swift:657-660 | empty groups give a zero total |
| GitGraphColumns.GroupOffsets | Xferro/Git/Git-Graph/GitGraph+Static.swift:657-660 | `reduce(into:)`: the running total of columns per group |
| GitGraphColumns.ZeroOffsets | Xferro/Git/Git-Graph/GitGraph+Static.swift:657-660 | empty groups give all-zero offsets |
| GitGraphColumns.Shifted | Xferro/Git/Git-Graph/GitGraph+Static.swift:662-669 | each column moves right by the offset of the groups before it |
| GitGraphColumns.ApplyOffsets | Xferro/Git/Git-Graph/GitGraph+Static.swift:662-669 | the offset loop computes `Shifted` |
| GitGraphColumns.ZeroShiftKeeps | Xferro/Git/Git-Graph/GitGraph+Static.swift:662-669 | zero offsets change nothing |
| GitGraphColumns.ShiftSeparates | Xferro/Git/Git-Graph/GitGraph+Static.swift:657-669 | after shifting, branches of different groups never share a column, so the final columns have no overlaps |
| GitGraphColumns.AssignBranchColumns | Xferro/Git/Git-Graph/GitGraph+Static.swift:550-670 | the corrected assignment: every considered branch gets a column, overlapping considered branches get different columns, and every other branch keeps having a column or not; it returns the group offsets, which grow from group to group, and every other branch that holds a column is moved right by exactly its group's offset (group 0 by none), while a considered branch ends inside its group's band of columns |
| GitGraphColumns.InColumnZero | Xferro/Git/Git-Graph/GitGraph+Static.swift:599-654 | every considered branch in column 0, the others unchanged |
| GitGraphColumns.PlaceBranchesAsWritten | Xferro/Git/Git-Graph/GitGraph+Static.swift:598-655 | as written, with `groupOcc` a copy, every considered branch gets column 0 |
| GitGraphColumns.AssignBranchColumnsAsWritten | Xferro/Git/Git-Graph/GitGraph+Static.swift:552-670 | as written: considered branches end in column 0, all offsets are 0, other branches keep their column |
| GitGraphColumns.ShiftByGroups | Xferro/Git/Git-Graph/GitGraph+Static.swift:657-669 | laying the groups side by side moves a branch outside the placement by its group's offset and puts a placed branch inside its group's band, with offsets growing from group to group |
| GitGraphColumns.AsWrittenStacksOverlaps | Xferro/Git/Git-Graph/GitGraph+Static.swift:561-654 | two overlapping considered branches both get column 0 as written, which breaks the no-overlap promise |

## Left out

- `memory_ref_free` (MemoryRefDB.c:282-296) and every `free`: deallocation has no counterpart in the model.
- Chains are sequences of records rather than linked nodes, so node identity is not modelled. Nothing in the file shares or aliases nodes.
- Mutating the table while an iterator is open is not modelled: the iterator is proved against the table it was created on.
- `git_reference_create` and `git_reference__alloc` are not modelled themselves:
  - the iterator's create (MemoryRefDB.c:215-216, 223-224) works through this backend: libgit2's own checks are the `checkStatus` parameter, and the rest is a non-forced `write`;
  - the rename's create (MemoryRefDB.c:340) has a NULL repository, so its status is the `createStatus` parameter;
  - a failing `git_reference__alloc` is `allocOk` false.
- RefStore.WriteTable: a forced symbolic overwrite replaces the target with an unchecked `strdup` (MemoryRefDB.c:167-168). The model assumes that copy succeeds; a NULL target is not modelled.
- GitExtensions.WithGitStringArray: packs with the corrected `Int8(bitPattern:)` conversion. The written `Int8($0)` is modelled only for ASCII-only strings, by `EncodeAsWritten` and `PackStringsAsWritten`.
- RefIteration.RefIterator.Next: models the corrected iterator, which builds each reference as `lookup` does. The written one is `NextAsWritten`.
- The `who` and `message` arguments are accepted and unused, as in the C code. The `glob` argument of the iterator is ignored, as in the C code.
- `fprintf` diagnostics in `memory_ref_write` are I/O.
- References.swift: Swift's `hasPrefix`, `dropFirst` and `split` work on grapheme clusters, and the model works on `seq<char>`. A name whose `/` or prefix end is followed by a combining mark (for example `origin/` then U+0301) splits differently in Swift; this is not modelled.
- References.swift: the initializers that read libgit2 pointers, `UnbornBranch`, `referenceWithLibGit2Reference`, and the `==`/hash conformances. These are foreign calls or trivial.
- `isLongRef`, `isBranchRef`, `isTagRef` and `isRemoteRef` are prefix predicates with no contract of their own. `PrefixesExclusive` and the prefix lemmas state their properties.
- Collection++.swift: `bounds`, `contains(_ bounds:)`, `index(atDistance:)`, `index(_:insetBy:)`, `index(_:offsetByDistanceFromStartIndexFor:)`, `indices(of:)`, `index(before:)`/`index(after:)`, `distanceFromStartIndex`, `_stride` and `range(from:)` are offset arithmetic. On arrays they are the identity on offsets and are not modelled separately.
- Collections.Indexes: a throwing predicate is outside the model.
- RangeReplacableCollection++.swift:
  - `appending`, `mutableFirst`, `mutateFirstAndLast`, the other `replace` overloads (lines 108-135 and 219-224), `removing`, `reduce(byUnwrapping:)` and `init(capacity:)` are not modelled. They are thin wrappers over the standard library and are not named among the core helpers.
  - `removeFrom` has the same body as `removeAfter` and is modelled by `ReplaceableCollection.RemoveAfter`.
- DiffHunk.swift:
  - `getHunkHeader`, `discard`, `copy`, the UUID `id`, and `lineAtIndex` are foreign calls or I/O. The hunk's lines are a constructor parameter.
  - DiffHunks.DiffHunk.constructor: promises each line's `indexInPart` only when the hunk's lines are distinct objects, as `lineAtIndex` creates them. A line object listed twice would keep the number its last part gives it.
  - `components(separatedBy: .newlines)` and the rejoin with the text's line-ending style are not modelled: the text is its array of lines.
- DiffLines.DiffLine.constructor: DiffLine.swift declares `DiffLine` as a protocol. The class built at DiffHunk.swift:183 is not part of this model, so its fields follow the protocol, and that a new line starts unselected at position 0 is assumed.
- DiffLine.swift: the libgit2 accessors (`byteCount`, `offset`, `lineCount`) are not modelled. `isSelected` and `indexInPart` are the two fields the staging code updates.
- DiffInfo.swift: the `hunks` closure, `id`, `==`, and the `print` calls in `init`/`deinit`.
- SelectedLinesDiffMaker.ModifiedFile: models the merge as written, which ends when either file is used up (lines 197 and 289). `MergeDropsHeadTail` shows a kept HEAD line lost; no corrected merge is given, since the source does not say which tail it should keep.
- SelectedLinesDiffMaker.swift: `makeFileWithSelectedLines` dispatch, `makeFileWithSelectedLinesInTheHunk`, `makeDiff` and `getDiff`. They run `git show`, test file existence, write temporary files and call the diff tool.
- GitGraph+Static.swift:
  - `extractBranches`, `traceBranch`, `parseMergeSummary` and `correctForkMerges` are not modelled. They walk the repository or use regular expressions.
  - GitGraphs.NumberBranches: the first pass of `assignBranches` takes, per branch, whether it was kept after tracing (its target is indexed and it claimed commits or is not merged). The appends to a commit's `tags` and `branches` in that pass (lines 52-56) are not modelled.
  - Colours, terminal colour conversion and persistence are not modelled. `branchColor` is modelled on a generic colour type with pattern matching as the `matches` parameter.
  - GitGraphs.BranchColor: requires that the colour list it indexes is non-empty, where the source traps on `% 0`.
  - GitGraphColumns.SortEntries: Swift's `sort` is not stable, so entries that tie under the comparator may come out in a different order than this insertion sort gives. Every proof about column assignment holds for any ordered permutation, but the exact tie order is not modelled.
  - GitGraphColumns.AssignBranchColumns: requires every considered branch's merge chain to resolve to a valid branch index. The source dereferences it only when the merge check is reached, so this is slightly stronger than needed. Avoiding the merge target's column is stated only by `FindColumn`.
- GitWatcher.swift:
  - `checkIndex` (file dates), `makePackedRefsWatcher`/`makeStashWatcher` (file monitors), the recreation of the packed-refs watcher (lines 127-130), debouncing, `NSString` path standardisation and the mutex are I/O or concurrency.
  - GitWatchers.Parent: `URL(string:)!.deletingLastPathComponent().path` is approximated by cutting at the last `/`. Percent-encoding, trailing slashes and the trap on a string that is not a URL are not modelled.
- GitExtensions.swift: the fetch options, remote callbacks and credential code are foreign calls. The block passed to `withGitStringArray` is not modelled; the model returns the buffer and array it would be called with.

## Findings

| source | as written | input that shows it | evidently intended | confidence | as-written member | corrected member |
|---|---|---|---|---|---|---|
| Xferro/Git/LibGit2Wrapper/DiffHunk.swift:128-129 | the range guard checks `oldStart - 1 + oldLines` even when `reversed` replaces the new side | reverse-applying a hunk `a -b -c` (old 1,3; new 1,1) to the one-line file `a` returns nil instead of `a b c` | check the range of the side being replaced | medium, not executed | DiffHunks.ReverseApplyRejected | DiffHunks.ApplyCorrectedRoundTrip |
| Xferro/Extensions/RangeReplacableCollection++.swift:181-194 | `shiftLeft` swaps over a repeated index instead of stopping at it | removing offsets `[0, 2, 2]` from `[10, 11, 12, 13, 14]` keeps `[11, 14]`, losing 13 | drop offsets 0 and 2, keeping `[11, 13, 14]`, or refuse the repeat | medium, not executed | RangeReplaceable.DuplicateIndexDropsKeptElement | RangeReplaceable.ReplaceableCollection.RemoveElementsAtSortedIndices |
| Xferro/Git/GitExtensions.swift:196 | `Int8($0)` converts each UTF-8 byte by value, which traps from 128 on | any non-ASCII path, e.g. `é` = `C3 A9` | `Int8(bitPattern: $0)`, the same eight bits | high, not executed | GitExtensions.NonAsciiPathTraps | GitExtensions.StringArrayRoundTrip |
| Xferro/Watchers/GitWatcher.swift:263-268 | the packed-refs handler calls `checkRemoteBranches` twice and `checkTags` never | a tag that appears only in packed-refs is never published and not cached | check local branches, remote branches and tags once each | high, not executed | GitWatchers.PackedTagGoesUnreported | GitWatchers.GitWatcher.PackedRefsChanged |
| Xferro/Git/Git-Graph/GitGraph+Static.swift:561-654 | `groupOcc` is a copy of an element of the constant `occupied`, so the spans appended to it are lost | two considered branches of one group whose spans overlap both get column 0 | write the group back so later branches see the placed spans | high, not executed | GitGraphColumns.AsWrittenStacksOverlaps | GitGraphColumns.AssignBranchColumns |
| Xferro/Git/LibGit2Wrapper/MemoryRefDB.c:215-224 | `next` passes each record to `git_reference_create` with force 0 on this backend's repository, which writes it back through this backend | any table holding `refs/heads/main`: the first `next` answers EEXISTS and yields no reference | build the reference object as `lookup` does | medium, not executed; relies on libgit2's create writing through the reference database | RefIteration.RefIterator.NextAsWritten | RefIteration.RefIterator.Next |
| Xferro/Watchers/GitWatcher.swift:68 | `init` fills `localBranchCache` from every reference (prefix `""`), while `checkLocalBranches` compares it against `refs/heads` | a repository holding `refs/heads/main` and `refs/tags/v1`: the first local-branch check publishes `refs/tags/v1` as a deleted local branch | fill the cache from `refs/heads` | medium, not executed | GitWatchers.FirstLocalCheckReportsOtherRefs | GitWatchers.GitWatcher.FromLocalBranches |
