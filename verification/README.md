# A verified model of trex's stores

trex builds and edits Windows installation media from scripts. Below the scripting layer sit a few
data structures that everything else relies on, and this project models those and proves what they
are for. Nothing here runs the original program: every statement is about the Dafny model, which
follows the Go code branch by branch.

**The NT registry hive.** A `regf` image is a base block and bins that are tiled by cells with signed
sizes. `HiveLayout` describes tiled images, `HiveImage` the edits that keep them tiled, `FreeIndex` the
treap that replaces a linear first-fit search, `MutableHive` the allocator over the byte buffer,
`HiveBuilder` the writer of new images, and `HiveRun` whole runs from a new image on. On top of the
allocator, `SecurityRing` and `HivePatch` hold the reference-counted ring of security cells,
`SubkeyIndex` the one- and two-level child lists, `KeyDeletion`, `SubtreeRemoval` and `SubtreeDeletion`
the removal of a subtree (`StoredLinks` says where the stored lists lead), `HiveBatch`, `HiveCommit` and
`CommitSize` the transaction of pending child lists and its commit, and `HiveStart` a new hive that
satisfies all of this. The central invariant of a transaction, `Transaction.Valid`, says all of it at
once: exact tiling, an index equal to a fresh scan, one ring with exact counts, every key owning its own
cells, and every child list either stored as it should be or pending.

What a patch of a hive does is said without any of this. `NameTree` takes a transaction to its *shape*:
for every path of folded names the descriptor of the key there and its count of volatile children.
`SubtreeLimits`, `RemovablePaths` and `DeletableShape` say which paths can be deleted, `CreatedPaths`
where a created path lands, and `PatchRun` puts it together in the order of `patch_hive`: deletions,
creations with their security, lookups, the commit. A patch, and any number of patches from a new hive
on, succeeds exactly if a function on shapes is defined, and then the hive shows what that function
gives, before the commit and after it. `EnlargedKeys` and `PendingDeletion` are about callers that delete
after creating: exactly when that is right, and two runs in which it is not.

**The Windows 9x registry file.** `CregRecord`, `CregPlacement`, `CregParser`, `CregImage` and
`CregWriter` are a printer and a parser of CREG files in six generations, with a round trip between them.

**Stores that must agree with a plain byte array.** `MemoryStore` (pages shared with snapshots),
`SparseOverlay` (copy on write over faulty media) and `GeneratedImage` (extents of data, files and
nothing).

**The directory tree.** `DirectoryPaths`, `HardLinks` and `Directory`: an incrementally kept children
index, and identities with counts and alias lists; `DirectoryRun`: what any operations leave and answer;
`ShortNames`: the eight-and-three aliases of the names in one directory.

**Bounded channels.** `ReadyChannel` and `MemoryChannel` as state machines, one step for each section
the program runs under its lock; the classes carry out the machines.

**Readers of foreign formats.** `X86Memory` and `Arm64Memory` are page-table walkers (sections 4.3 and
4.4 of the Intel Software Developer's Manual, Volume 3A, and chapter D8 of the Arm Architecture
Reference Manual); `ApiSet` is the hash-indexed API-set namespace.

What the source mutates is a class or a loop here; what it only computes is a function. Text decoding,
case folding and upper-casing of registry names are parameters of a transaction (`HiveBatch.Text`), so
the theorems hold for any of them.

## Model

| member | source | states |
|---|---|---|
| FreeIndex.InsertSound | windows/hive_free.go:33-61 | Insertion keeps offset order, priority order and exact subtree maxima, and the set of cells changes by exactly the new one |
| FreeIndex.MergeSound | windows/hive_free.go:62-77 | Merging two treaps, one left of the other, keeps all three orders and loses no cell |
| FreeIndex.RemoveSound | windows/hive_free.go:78-91 | Removal keeps all three orders and takes away exactly the cell at the offset |
| FreeIndex.FirstFitCorrect | windows/hive_free.go:92-106 | For a positive size the descent finds the lowest-offset cell that is large enough, and nothing only if no cell is; for other sizes it finds nothing |
| FreeIndex.MaximumReached | windows/hive_free.go:18-24 | A subtree maximum is the size of some cell below it |
| FreeIndex.InsertNode | windows/hive_free.go:33-61 | The rotations on linked nodes carry out the insertion on values, without sharing a node |
| FreeIndex.MergeNodes | windows/hive_free.go:62-77 | The in-place merge carries out the merge on values |
| FreeIndex.RemoveNode | windows/hive_free.go:78-91 | The in-place removal carries out the removal on values |
| FreeIndex.Index.Add | windows/hive_free.go:25-32 | The free cells become the old ones with this one, replacing what was known of its offset |
| FreeIndex.Index.Fit | windows/hive_free.go:92-106 | The answer is what a scan by increasing offset would choose |
| HiveLayout.ScanFlat | windows/hive_free.go:107-137 | Scanning the bytes of any tiled image finds exactly its free cells and its bins |
| MutableHive.IndexFreeCells | windows/hive_free.go:107-137 | For any bytes the built index equals the scan that goes on while the base block says there is a bin and stops where the bytes are none |
| HiveLayout.ScanWhole | windows/hive_free.go:107-137 | Bytes as long as the base block says are scanned to their end |
| MutableHive.IndexIsFreshScan | windows/hive_free.go:107-137 | In every valid state the kept index equals what a fresh scan of the present bytes would collect |
| MutableHive.CellBodyOfImage | windows/hive_writer.go:2137-2158 | In a tiled image a live cell reads as its body and a free one fails as free |
| MutableHive.Hive.Body | windows/hive_writer.go:2137-2158 | Reading a live cell gives its body |
| MutableHive.Hive.FreeCell | windows/hive_writer.go:2160-2177 | Succeeds exactly for live cells; every other body stays, tiling, backward links and index are kept |
| MutableHive.Hive.AllocateCell | windows/hive_writer.go:2026-2079 | The body is stored in the lowest free cell that fits, or in a new bin only if none does; every other body stays, tiling, backward links and index are kept; fails only for an image without bins |
| MutableHive.Hive.AllocateExisting | windows/hive_writer.go:2080-2092 | The cell taken is the first fit among all free cells, and without one nothing changes |
| MutableHive.Hive.WriteAllocated | windows/hive_writer.go:2094-2126 | Splitting a free cell, with the format-1.1 link of the cell behind it, keeps the image tiled and adds one live cell |
| HiveImage.GrowEdit | windows/hive_writer.go:2036-2078 | An image with a new bin appended is tiled, and has one more live cell and the rest of the bin free |
| HiveBuilder.Writer.FinishBin | windows/hive_writer.go:3411-3439 | Closing a bin turns the rest of it into a free cell and keeps every body |
| HiveBuilder.Writer.StartBin | windows/hive_writer.go:3376-3410 | The new bin has room for the cell and keeps every body, whatever filler bins alignment takes |
| HiveBuilder.Writer.WriteCell | windows/hive_writer.go:3330-3352 | The body gets a cell of its own and every other body stays |
| HiveBuilder.Writer.NextCell | windows/hive_writer.go:3353-3361 | Announces where a body of a size will go, opening a bin if it does not fit |
| HiveBuilder.Writer.Patch | windows/hive_writer.go:3317-3324 | Patching references into a written cell changes that body only |
| HiveBuilder.Writer.Finish | windows/hive_writer.go:3411-3439 | The finished file is a tiled image with exactly the cells written |
| HiveRun.Run | windows/hive_writer.go:2026-2177 | Any run of allocations and frees from a built image ends in a tiled image whose index equals a fresh scan; each step does to the cells what its edit says, doing nothing only without a bin or with nothing held, and at the end cell k holds the k-th body the edits ask for |
| HiveRun.HoldingRun | windows/hive_writer.go:2026-2177 | In every run what is held at its end, cell by cell, is the function of the edits, and nothing else is live |
| HiveRun.NeverReleased | windows/hive_writer.go:2026-2177 | A cell no step of a run released has the body it had at the start |
| HiveRun.Build | windows/hive_writer.go:3330-3439 | In a built image cell k holds body k, and there is nothing else |
| SecurityRing.ReleaseCount | windows/hive_sparse.go:217-252 | Giving back one of several references keeps ring and counts exact |
| SecurityRing.ReleaseOnly | windows/hive_sparse.go:217-252 | When the only cell loses its last reference the ring is empty |
| SecurityRing.AcquireNew | windows/hive_sparse.go:301-334 | A new cell linked behind an anchor gives one ring with exact counts and one reference to hand out |
| SecurityRing.AddKey | windows/hive_writer.go:1842-1854 | Handing that reference to a new key makes all counts equal the number of keys pointing at each cell |
| SecurityRing.AssignKey | windows/hive_sparse.go:254-341 | Pointing a key elsewhere leaves exactly its old reference to be released |
| SecurityRing.DropKey | windows/hive_sparse.go:97-101 | A key that goes leaves exactly its reference to be released |
| HivePatch.Patch.ReleaseSecurity | windows/hive_sparse.go:217-252 | The cell is unlinked and freed exactly when its last reference goes; otherwise only its count changes; the ring stays one ring with exact counts |
| HivePatch.Patch.IncrementSecurityReference | windows/hive_writer.go:2007-2024 | One more reference is owed and no text changes; the counter is never full, because no image has room for so many keys |
| HivePatch.Patch.BuildCache | windows/hive_sparse.go:277-295 | The walk around the ring ends, and the cache names cells that hold their descriptors; refused exactly for a ring of more than 2^20 cells not yet read |
| HivePatch.Patch.NewSecurity | windows/hive_sparse.go:301-334 | Always done: a new cell with the descriptor joins the ring with one reference to hand out; all other cells keep their text |
| HivePatch.Patch.SetKeySecurity | windows/hive_sparse.go:254-341 | Refused exactly for an invalid descriptor, or a new one while a ring of more than 2^20 cells is not yet read; else the key ends at a ring cell with exactly this descriptor, ring and counts exact, and outside the ring only this key changed |
| HiveBatch.Transaction.SetSecurity | windows/hive_sparse.go:254-341 | Done under exactly that condition; the key has the descriptor, every other key its own, and everything a transaction keeps is kept |
| SubkeyIndex.ReadIndex | windows/hive_writer.go:1751-1825 | An index of any depth, whatever its leaves name, reads as those of the named cells that are live keys, in order; refused exactly beyond the depth and size limits or for a cell met twice |
| SubkeyIndex.FreeSubkeyIndex | windows/hive_sparse.go:113-153 | Frees each cell of an index exactly once and nothing else; refused exactly beyond the limits |
| SubkeyIndex.BodyRead | windows/hive_writer.go:1940-1971 | A written index cell reads back as its entries, as far as its 16-bit count reaches |
| SubkeyIndex.WriteSubkeyList | windows/hive_writer.go:1940-1971 | The new index reads back as the first Reach(n) of the n keys, in new cells, and every old cell is as it was |
| SubkeyIndex.ReachAll | windows/hive_writer.go:1940-1971 | All keys are reachable if and only if the number of leaves fits the 16-bit count |
| HiveCommit.KeysFit | windows/hive_writer.go:1940-1971 | Keys that fit an image below 2 GiB never need more leaves than that |
| KeyDeletion.ValueCells | windows/hive_writer.go:1725-1749 | For any list cell and any count: the listed cells that are live values, in order, none from a freed list, and the first cell that cannot be read is the error |
| KeyDeletion.FreeValue | windows/hive_sparse.go:155-204 | Frees a value's own cell and its data, inline, in one cell or in segments, each cell exactly once |
| SubtreeRemoval.RemoveKey | windows/hive_sparse.go:41-102 | For every transaction: succeeds exactly when the stored lists reach a tree of keys, none twice, within the depth and size limits and without volatile children; then frees exactly the cells that tree owns, keeps every other cell but for ring links and counts, and keeps the ring exact |
| SubtreeRemoval.RemoveEach | windows/hive_sparse.go:60-75 | The children are removed one after the other, all or the removal is refused |
| SubtreeRemoval.SpansUnique | windows/hive_sparse.go:41-102 | What the stored lists reach from a key is one tree |
| StoredLinks.SpansReach | windows/hive_sparse.go:41-102 | The keys of that tree are exactly those to which a chain of stored lists leads from its top |
| SubtreeRemoval.LeftEstate | windows/hive_sparse.go:41-102 | The keys that are left own what they owned, and their lists name nothing strange |
| KeyDeletion.KeptWhileUsed | windows/hive_sparse.go:217-252 | After a deletion a security cell is still there if and only if a remaining key points at it |
| SubtreeDeletion.Outside | windows/hive_sparse.go:23-107 | The top of a subtree that is stored as it is pending is the only link into it, and the root is not inside |
| SubtreeDeletion.AfterDelete | windows/hive_sparse.go:23-107 | Everything a transaction keeps is kept when the subtree and the link to it are gone |
| SubtreeDeletion.DeleteSubkey | windows/hive_sparse.go:31-106 | For every transaction: done exactly when the parent's list can be loaded, has the name, and what the stored lists reach from there can be removed; those keys are gone, the list is pending without the name, and if they are the keys pending there all a transaction keeps is kept |
| SubtreeDeletion.DeleteKey | windows/hive_sparse.go:23-107 | The same for what a path names; without success the path is empty, leads nowhere, meets a list that cannot be loaded, or names such a key. If every key was reached from the root, then afterwards every key left is reached and no list left names a freed cell if and only if, before the call, the stored lists led from the deleted key to the same keys as the pending lists; in that case all a transaction keeps is kept |
| SubtreeDeletion.ShrunkExact | windows/hive_sparse.go:23-107 | While there were deletions only, a stored subtree that can be removed is the pending one, and no list in it is waiting |
| SubtreeDeletion.ShrunkAfter | windows/hive_sparse.go:23-107 | A deletion leaves nothing but deletions |
| SubtreeLimits.TreeBelow | windows/hive_sparse.go:41-75 | Below a key whose lists are all in order the stored lists make up a tree of exactly the keys pending there |
| SubtreeLimits.ClearableExact | windows/hive_sparse.go:41-75 | While there were deletions only, a subtree can be removed if and only if nothing was deleted inside it, no key in it has volatile children, and it has at most 513 levels and 2^20 keys |
| RemovablePaths.RemovableAfter | windows/hive_sparse.go:23-107 | After a deletion exactly those paths can be deleted that could be before and neither lead to the deleted key nor pass it |
| DeletableShape.RemovableIsDeletable | windows/hive_sparse.go:41-75 | In a hive at rest the paths that can be deleted are said by the names and counts alone |
| SubtreeDeletion.CutExactly | windows/hive_sparse.go:23-107 | The if-and-only-if of `DeleteKey` as a lemma about the states before and after: what is left is whole exactly if stored and pending lists led to the same keys |
| SubtreeDeletion.LeftBehind | windows/hive_sparse.go:23-107 | A key below the deleted one that the stored lists do not lead to keeps its cells and is reached by no path |
| SubtreeDeletion.TooMuch | windows/hive_sparse.go:23-107 | When the stored lists lead to a key that does not lie below the deleted one, some list that is left names a freed cell |
| EnlargedKeys.MatchedSince | windows/hive_sparse.go:23-107 | After creations only, the stored lists lead from a key where the pending ones do exactly if no key was created below it |
| EnlargedKeys.WaitingExact | windows/hive_sparse.go:23-107 | After creations only, they do exactly if no list at or below the key is waiting; with `SubtreeDeletion.DeleteKey` this is when a deletion that succeeds is exact |
| EnlargedKeys.ClearableSince | windows/hive_sparse.go:41-102 | After creations only, a key that was there can be removed exactly if it could be at first |
| EnlargedKeys.ClearableNew | windows/hive_sparse.go:41-102 | A key that was created since can always be removed |
| EnlargedKeys.NewPaths | windows/hive_writer.go:1491-1512 | No key was created below a key exactly if every path that continues its own was there |
| PendingDeletion.DeleteAfterCreations | windows/hive_sparse.go:23-107 | Any creations in a hive at rest and then a deletion before a commit: the deletion succeeds exactly if the path is there and, unless it is new, could be deleted at first; every key left is reached and no list names a freed cell exactly if no path below it is new, and then the shape loses the path and all that continue it |
| PendingDeletion.CreateThenDelete | windows/hive_sparse.go:23-107 | A failing run: in any hive at rest, creating a child of a key and deleting the key before a commit succeeds and leaves the child as a key no path leads to |
| PendingDeletion.DeleteCreateDelete | windows/hive_sparse.go:23-107 | The other failing run: in any hive at rest, delete P\A, create Q\B elsewhere, and delete P before a commit. The last deletion succeeds if and only if the cell returned for B is the one A had; then B is no key any more and its cell is free, while Q has it as a child and names it in its pending list |
| PendingDeletion.ReusedExactly | windows/hive_sparse.go:23-107 | The same if-and-only-if about the states: the key that lost a child can be removed exactly if the new key took the cell |
| HiveBatch.Transaction.ChildBatch | windows/hive_batch.go:20-51 | A list is loaded once and holds each child under its folded name; two children with one folded name are refused |
| HiveBatch.Transaction.FindSubkey | windows/hive_writer.go:1646-1689 | Finds the pending child with the folded name, answers none only if there is none, and is refused exactly when the list cannot be loaded |
| HiveBatch.Transaction.LookupKey | windows/hive_writer.go:1518-1531 | The answer lies at the end of a path of pending children with these names; without an answer the step where it fails has no such child; refused only at a list that cannot be loaded |
| HiveBatch.Transaction.WriteKey | windows/hive_writer.go:1827-1854 | Always done: the new key has its name, its parent, the inherited security counted once more, no children, values or class, and nothing else changes |
| HiveBatch.NewKeyFacts | windows/hive_writer.go:1827-1854 | A new key cell reads back as such a key, its name as far as 16 bits count it |
| HiveBatch.Transaction.AddBatchedSubkey | windows/hive_batch.go:53-77 | The child becomes pending under its parent; refused exactly when the list cannot be loaded or another child has the same folded name |
| HiveBatch.Transaction.RaiseNameWidth | windows/hive_writer.go:3021-3034 | The recorded width becomes the larger of the two, kept in 16 bits, and names and lists stay |
| HiveBatch.Transaction.EnsureSubkey | windows/hive_writer.go:1491-1512 | Refused exactly when the list cannot be loaded, or the name is not there while the name it would be read by is; else the child with the name, or a new one under the name it can be read by |
| HiveBatch.Transaction.EnsureKey | windows/hive_writer.go:1491-1512 | Refused only at such a part; else the keys and links gained are those along the path, old keys carry the names asked for and new ones the names they can be read by, with the security of the key above; no key, name, list or descriptor that was there is lost |
| HiveCommit.SortedChildren | windows/hive_batch.go:79-154 | The cells are exactly the pending children, each once, in the order of their upper-cased names |
| HiveCommit.CommitParent | windows/hive_batch.go:79-154 | Done exactly when the old index can be walked: the stored index, flat or of two levels, reads back as exactly those cells, the key's count and maxima agree, and only the old index cells are freed |
| HiveCommit.DirtyParents | windows/hive_batch.go:79-154 | Exactly the changed parents, in rising order |
| HiveCommit.LongestIsMaximum | windows/hive_batch.go:79-154 | The recorded width bounds every child name if and only if every width is at most 0xffff, and then it is the maximum |
| HiveCommit.LongestWraps | windows/hive_writer.go:3021-3034 | A list with one child whose name has 0x8001 letters records the width 2 |
| HiveCommit.FinishChildBatches | windows/hive_batch.go:79-154 | Done exactly when the old indexes of the changed lists can be walked: afterwards nothing is pending, every key's stored list is its children with a matching count, every changed list is sorted without case-fold duplicates, and names and descriptors stay |
| CommitSize.CommitFits | windows/hive_batch.go:79-154 | A commit takes at most 0x4400 bytes for each changed list and 9 for each key |
| HiveBatch.OnePath | windows/hive_writer.go:1518-1531 | Along loaded lists a path of names leads to one key |
| PatchRun.Lookup | windows/hive_writer.go:1518-1531 | Always answers when all lists can be loaded: a key exactly if the path is in the shape, with what the shape says of it |
| NameTree.OneTrail | windows/hive_writer.go:1518-1531 | When all lists can be loaded a path of folded names is the path of one key |
| NameTree.DeletedShape | windows/hive_sparse.go:23-107 | Deleting takes away the path and all that continue it, and nothing else |
| NameTree.CreatedShape | windows/hive_writer.go:1491-1512 | Creating adds the path and the paths on the way to it, with the security of what they lie in, and nothing else |
| NameTree.SecuredShape | windows/hive_sparse.go:254-341 | Setting security changes what one path says |
| NameTree.KeptShape | windows/hive_batch.go:79-154 | A change that keeps names, links and descriptors keeps the shape |
| CreatedPaths.LandingDone | windows/hive_writer.go:1491-1512 | A creation that went through is where the function on names says it lands |
| CreatedPaths.LandingNone | windows/hive_writer.go:1491-1512 | A creation that was refused has nowhere to land |
| CreatedPaths.LegibleLands | windows/hive_writer.go:1491-1512 | Names that fold as they do when they are read back land where they were asked for, whatever is there |
| CreatedPaths.LandsElsewhere | windows/hive_writer.go:1827-1854 | A name lands under itself if and only if it is there or folds as it does when it is read back |
| PatchRun.Delete | windows/hive_sparse.go:23-107 | While there were deletions only: done exactly if the path can be deleted, and then exactly it and all that continue it are gone, every key elsewhere is as it was and where it was, and if every key was reached, every key still is |
| PatchRun.DeleteAll | windows/hive_writer.go:792-802 | Deletions of one patch all go through exactly if each could be done at first and none continues another one; whether the ring of descriptors can be read afterwards is a function of the keys they spare |
| PatchRun.ChildFirst | windows/hive_writer.go:792-802 | For every hive: deleting a child and then its parent in one patch makes the patch fail, and so does the other order |
| PatchRun.ParentAlone | windows/hive_writer.go:792-802 | The parent alone is deleted with all below it |
| PatchRun.ChildThenParent | windows/hive_writer.go:792-802 | A session that makes P and P\A fails when it deletes P\A and P, and comes back to the bare root when it deletes P |
| PatchRun.EnsurePath | windows/hive_writer.go:1491-1512 | Refused exactly if the path has nowhere to land; else the shape gains exactly where it lands, what was stored stays stored, and every key is reached if every key was |
| PatchRun.CreateKey | windows/hive_sparse.go:343-374 | Creating a key and giving it a descriptor is done exactly if the function on shapes is defined, and does what it says |
| PatchRun.CreateAll | windows/hive_writer.go:824-830 | The same for any number of creations |
| PatchRun.Commit | windows/hive_batch.go:79-154 | Always done when all lists can be walked; nothing is pending, the shape stays, it is what is stored, and every key is reached if every key was |
| PatchRun.PatchHive | windows/hive_writer.go:754-896 | A patch in the order of the source, deletions, creations with security, lookups, commit, goes through exactly if the edits are defined on the shape, where a new descriptor needs a ring that can be read once the deletions are done; then it leaves the shape they give, stored, with every lookup right |
| PatchRun.PatchAll | windows/hive_writer.go:754-896 | The same for any number of patches one after the other |
| PatchRun.Session | windows/hive_writer.go:754-896 | From a new hive any number of patches that stay within a size budget go through exactly if they are defined on the shape of a bare root, and leave what they give; the keys are then exactly those reached from the root |
| PatchRun.LegibleSession | windows/hive_writer.go:824-830 | Creations with names that read back and valid descriptors are always defined |
| HiveStart.NewHive | windows/hive_writer.go:3264-3324 | A new image of a root key and its security cell is tiled, and the cell is a ring of one with an exact count |
| HiveStart.Start | windows/hive_writer.go:3264-3324 | On such an image everything a transaction keeps holds from the start, and every key is reached from the root |
| CregRecord.DataRoundTrip | windows/creg_writer.go:525-542 | ASCII data comes back from storing as it was if and only if strings are terminated and even, and multi-strings doubly terminated |
| CregRecord.NameRoundTrip | windows/creg_writer.go:461-523 | A value name comes back as it was if and only if it is not empty |
| CregRecord.MultiIs | windows/creg.go:461-514 | A stored multi-string is cooked into its text with exactly two ending zeros |
| CregRecord.EncodeKey | windows/creg_writer.go:461-523 | Succeeds exactly when name, values and their number fit 16-bit lengths, and yields a slot with the reserve asked for |
| CregRecord.ParseRecord | windows/creg.go:461-514 | The loop over the values reads what the record grammar says, or rejects |
| CregRecord.SlotBack | windows/creg.go:461-514 | A slot of any room reads back as its key and cooked values, or is rejected if two values have one name |
| CregRecord.SlotGrown | windows/creg_writer.go:227-237 | Stretching a slot is the same as having given it more room |
| CregPlacement.ClearExtent | windows/creg_writer.go:215-239 | A record of at most 4 KiB that is not a block's first is put inside one extent, by stretching only the record before it |
| CregPlacement.FillBlock | windows/creg_writer.go:204-265 | A block takes at most 255 records within the size limit, in order, and fails only if its first record alone is too big |
| CregPlacement.Place | windows/creg_writer.go:199-272 | The blocks take all records in order, each within the limits and clear of extent boundaries, and it fails exactly when some record is too big for a block |
| CregPlacement.OneExtentMeans | windows/creg_writer.go:215-239 | Lying in one extent is crossing no boundary at 4 KiB and every 8 KiB from there |
| CregPlacement.IdentitiesDiffer | windows/creg_writer.go:199-272 | No two named keys share an identity |
| CregParser.ParseBlock | windows/creg.go:353-392 | The record loop of a block reads what the block grammar says, or rejects |
| CregParser.ParseCreg | windows/creg.go:322-459 | The parser answers for any bytes what the file grammar says |
| CregImage.ParsesBack | windows/creg.go:322-514 | A file in which a tree is written parses to that tree |
| CregWriter.WalkKey | windows/creg_writer.go:140-187 | Every key is encoded in preorder and linked to parent, first child and next peer |
| CregWriter.NavOffsets | windows/creg_writer.go:287-303 | Navigation records get places of their own, none overlapping |
| CregWriter.WriteNavigation | windows/creg_writer.go:357-403 | Every navigation record is in its place with the right references |
| CregWriter.WriteFree | windows/creg_writer.go:404-416 | Marking the free tail leaves every navigation record as it was, even when the mark runs over the end |
| CregWriter.WriteBlock | windows/creg_writer.go:417-457 | A block holds its records one after another and leaves everything before it alone |
| CregWriter.BuildCreg | windows/creg_writer.go:133-459 | A built file holds the tree; building succeeds when keys fit their lengths and blocks |
| CregWriter.TreesSame | windows/creg_writer.go:461-542 | A tree is unchanged by storing if and only if each value name is given and its data is in registry form |
| CregWriter.RoundTrip | windows/creg_writer.go:133-542 | In all six generations a built file parses to the same keys, values, types and data, and to the very same tree exactly when the root is bare and values are in registry form |
| MemoryStore.ReadMemory | storage/memory_store.go:91-118 | Reading pages gives the window of the plain array, with the end reported exactly when it is short; negative offsets are refused |
| MemoryStore.Store.WriteAt | storage/memory_store.go:57-90 | The store becomes the plain array with the bytes written over it, zeros in any gap; refused exactly outside the limits, and then unchanged |
| MemoryStore.Store.Truncate | storage/memory_store.go:127-160 | The store becomes the array cut or grown with zeros; refused exactly outside the limits |
| MemoryStore.Store.TakeSnapshot | storage/memory_store.go:165-177 | The snapshot has the present contents and the store gives up the right to change its pages |
| MemoryStore.WriteMeans | storage/memory_store.go:57-90 | Page-wise copying is writing into the plain array, and behind the end all pages stay zero |
| MemoryStore.CutMeans | storage/memory_store.go:127-160 | Dropping and clearing pages is cutting the plain array, and what is behind the end is zero |
| MemoryStore.Run | storage/memory_store.go:57-177 | After any run of writes, truncations, snapshots and close the store is the plain array and every snapshot what it was when taken |
| SparseOverlay.Overlay.ReadAt | block/sparse.go:70-106 | What is returned is right, the request complete if it succeeds; after a failure nothing succeeds |
| SparseOverlay.Overlay.WriteAt | block/sparse.go:116-155 | A successful write is the write into the plain contents; any failure breaks the overlay for good |
| SparseOverlay.Overlay.WritePiece | block/sparse.go:108-153 | A first write copies its whole chunk, so no byte of the backing is meant that was not written |
| SparseOverlay.Overlay.Stretch | block/sparse.go:82-93 | A joint read covers only changed or only unchanged chunks |
| SparseOverlay.Run | block/sparse.go:63-155 | Over any run with any media faults reads answer the base with the successful writes applied in order, requests out of range are refused and no others, after the first failure every operation fails, and nothing fails unless a medium did |
| GeneratedImage.EnsureIndexed | filesystem/image.go:31-63 | The index is the non-empty extents in order, in bounds and apart; it fails only for a bad size, an extent that does not fit, or an overlap |
| GeneratedImage.Image.ReadAt | filesystem/image.go:65-134 | What is returned are the image's bytes, all of them on success; the end is reported only at the image's end or for an extent outside its file; without file-backed extents it fails only for a negative offset |
| GeneratedImage.Image.WriteTo | filesystem/image.go:211-255 | A successful write is the same bytes if and only if every file-backed extent lies inside its file; a failed one is a prefix |
| GeneratedImage.Image.WriteSource | filesystem/compat.go:17-30 | A file that is too short is written as far as it goes and still counted in full |
| GeneratedImage.Image.Extents | filesystem/image.go:139-209 | The answer covers the request without gaps, no two neighbours of one kind, stored places have a source, and the others read as zero when nested maps are truthful; it fails only out of range or for a nested map that does not cover |
| GeneratedImage.Image.AppendNested | filesystem/image.go:180-197 | A nested map that covers the segment is taken over place by place, any other is refused |
| DirectoryPaths.CleanProper | storage/storage.go:50-53 | A cleaned path has only proper parts, whatever was given |
| DirectoryPaths.CleanAgain | storage/storage.go:50-53 | Cleaning a clean path changes nothing |
| DirectoryPaths.UpdateNames | filesystem/directory.go:726-748 | The sorted list gains or loses exactly the one name |
| DirectoryPaths.ListingUnique | filesystem/directory.go:255-273 | There is one sorted list of a set of names |
| Directory.Rebuild | filesystem/directory.go:255-273 | A rebuild lists for every directory exactly what lies in it, sorted |
| Directory.IndexUnique | filesystem/directory.go:255-273 | Two right indexes of one tree give the same lists, so the kept one equals a rebuild |
| Directory.Directory.NamespaceEntryChanged | filesystem/directory.go:726-748 | A built index stays current and right when one entry comes or goes |
| Directory.Directory.Mkdir | filesystem/directory.go:710-722 | The directory and all above it exist, nothing else changes, the index stays right |
| Directory.Directory.PutFile | filesystem/directory.go:516-525 | The file is there under existing directories, the index stays right |
| Directory.Directory.Remove | filesystem/directory.go:304-320 | Succeeds exactly for a file; its entry, metadata and attributes are gone, links and index stay right |
| Directory.Directory.RemoveEmptyDirectory | filesystem/directory_rmdir.go:23-52 | Succeeds exactly for a directory other than the root with no file of its name and nothing in it |
| Directory.Directory.ListDir | filesystem/directory.go:275-287 | In every state the answer is the sorted list of what lies directly in the directory |
| HardLinks.Rebind | filesystem/directory.go:528-576 | Giving a path any identity keeps counts, alias lists and per-path identities telling the same |
| HardLinks.CountIsHolders | filesystem/directory.go:528-576 | The count of an identity is the number of paths that carry it |
| HardLinks.HintAfter | filesystem/directory.go:555-566 | Every identity below the hint stays taken |
| HardLinks.FreshIdentity | filesystem/directory.go:220-233 | The new identity is the smallest no path carries, and there is none only if all 64-bit numbers are taken |
| HardLinks.SharedAgrees | filesystem/directory.go:682-707 | Giving an aspect to a path and its aliases keeps all aliases in agreement |
| Directory.Directory.SetMetadata | filesystem/directory.go:528-576 | One path has the metadata, the link tables follow, and the hint stays right |
| Directory.Directory.Share | filesystem/directory_metadata.go:60-72 | Exactly the path and all its aliases get the aspect |
| Directory.Directory.SetSecurity | filesystem/directory.go:682-707 | Succeeds exactly for an existing path and a self-relative revision-1 descriptor; all aliases get it and nothing else changes |
| Directory.Directory.SetTimes | filesystem/directory_metadata.go:53-73 | Succeeds exactly for an existing path; all aliases get the times and nothing else changes |
| Directory.Directory.HardLink | filesystem/directory.go:211-249 | Fails exactly without a source file or a free identity; else both paths carry one identity, the source's or the smallest unused, and all aliases agree |
| Directory.LinkedMeans | filesystem/directory.go:211-249 | After a link the two paths differ in their short name only and no third path changed |
| DirectoryRun.Run | filesystem/directory.go:211-320 | After any operations the directories, files, attributes, metadata and write order are the function of the operations, every answer is the one it must be, and parents, index, link tables and aliases stay right |
| DirectoryRun.LeastIsSmallest | filesystem/directory.go:220-233 | The identity a link takes is the smallest that no path carries, said of the metadata alone |
| DirectoryRun.LinkMakesAliases | filesystem/directory.go:211-249 | A link that succeeds makes two paths of one file |
| DirectoryRun.OneAnswer | filesystem/directory.go:211-320 | In every tree there is one answer to an operation, so the answers of a run are determined |
| DirectoryRun.GivenToBoth | filesystem/directory_metadata.go:53-73 | Times and security given to one path of a file are given to the other, to no other file, and change nothing else; what is no descriptor changes nothing |
| DirectoryRun.DeleteOnePath | filesystem/directory.go:304-320 | When one path of a file is deleted, the file goes on under the other with its contents and metadata |
| DirectoryRun.WriteParts | filesystem/directory.go:516-525 | Writing a path anew leaves its alias as it was; the two stay paths of one file exactly if the contents are the same |
| ShortNames.AssignShortNames | filesystem/directory.go:409-442 | Every name gets its own alias or the first free number, although the search starts where the last one for the same parts ended; the search ends |
| ShortNames.AliasesDiffer | filesystem/directory.go:409-442 | No two names of a directory get one alias |
| ShortNames.OneAssignment | filesystem/directory.go:409-442 | The aliases are determined by the names |
| ShortNames.CandidatesDiffer | filesystem/directory.go:424-440 | Different numbers make different aliases, tildes and digits in the name or not |
| ShortNames.NumberedFits | filesystem/directory.go:424-440 | A numbered alias has at most eight characters if and only if its number is below a million |
| ShortNames.AllFit | filesystem/directory.go:409-442 | In a directory of fewer than a million names all aliases are of eight and three characters |
| ReadyChannel.Channel.Check | channel/ready.go:66-84 | The producer stops at an end, waits when full, and asks for no more than there is room for |
| ReadyChannel.Channel.Deliver | channel/ready.go:86-111 | What arrives is appended in order, within the bound, wakes whoever waits and posts the token |
| ReadyChannel.Channel.Read | channel/ready.go:127-181 | A reader gets a non-empty front of the queue; the end only when nothing is queued; it waits exactly when nothing is queued and there is no end; draining the queue takes the token away, a partial read posts it |
| ReadyChannel.Channel.Close | channel/ready.go:194-206 | Closing loses no queued byte and sets the end once |
| ReadyChannel.Run | channel/ready.go:66-206 | Any schedule on a new channel gives the state and the answers of the state machine, an event being passed over exactly when it cannot happen |
| ReadyChannel.RunSafe | channel/ready.go:66-206 | In every schedule the bounds hold, nobody sleeps through what they wait for, a token means there is something to read, and what readers got, joined, with what is queued, is what arrived |
| ReadyChannel.ReaderProgress | channel/ready.go:127-181 | A reader that waits while there is something to read can wake, and then its read answers |
| ReadyChannel.ProducerProgress | channel/ready.go:66-84 | A parked producer can go on as soon as there is room or an end, and then it reads or stops |
| ReadyChannel.AskedIsExact | channel/ready.go:113-125 | After a caller has asked for the readiness channel its token is there if and only if a read would not wait |
| ReadyChannel.BecomesReadable | channel/ready.go:47-54 | What becomes readable gets its token |
| ReadyChannel.AnnouncedUntil | channel/ready.go:47-64 | What can be read keeps its token if and only if nobody takes it and nobody reads the last bytes of a channel that has ended |
| ReadyChannel.EndUnannounced | channel/ready.go:56-64 | Such a schedule: the last bytes of an ended channel are read, and the end has no token |
| MemoryChannel.Pair.ReadReady | channel/memory.go:66-73 | An unready answer names the notification that is open while nothing is there |
| MemoryChannel.Pair.WriteCapacity | channel/memory.go:75-83 | The capacity told is what is free, with the notification that is open while it holds |
| MemoryChannel.Pair.Read | channel/memory.go:85-108 | Takes the front of the queue; closed, end and would-block exactly when they apply |
| MemoryChannel.Pair.Write | channel/memory.go:110-125 | All or nothing within the maximum; closed exactly when an end is closed |
| MemoryChannel.Pair.Restore | channel/memory.go:140-159 | The captured state is back and every open notification is closed |
| MemoryChannel.Run | channel/memory.go:40-159 | Any events on a new pair give the state, the answers and the notifications of the state machine; a restore is passed over exactly when its checkpoint was not taken |
| MemoryChannel.After | channel/memory.go:40-159 | In every run the queues and checkpoints stay within the maximum, and what was restored plus what was written is what was read plus what is queued |
| MemoryChannel.SeenTrue | channel/memory.go:66-83 | In every run, restores included, every notification still open tells the truth |
| MemoryChannel.RestoresBack | channel/memory.go:140-159 | Whatever happened since, going back to a checkpoint gives the state in which it was taken |
| MemoryChannel.Replay | channel/memory.go:137-159 | From equal states with equal checkpoints the same events get the same answers, so a checkpoint can be used again |
| X86Memory.NewPhysical | memory/image.go:43-63 | A capture has the given ranges in order, non-empty, apart and inside the source; otherwise it is refused |
| X86Memory.CheckRanges | memory/image.go:55-61 | Accepts exactly the valid lists |
| X86Memory.Physical.ReadAt | memory/image.go:66-92 | Every byte returned is the captured one, a fault names the first byte that is not returned, and a source error means that the source failed |
| X86Memory.Space.Translate | memory/x86.go:35-97 | Agrees with the walk for 4K, 2M and 4M pages; a failure names the address and its reason, a source error only if the source failed |
| X86Memory.OnePage | memory/x86.go:35-97 | Addresses of one page translate to consecutive physical addresses |
| X86Memory.Space.ReadAt | memory/x86.go:98-117 | Byte i is the physical byte at the translation of address i, and a fault names the first byte not returned |
| Arm64Memory.LevelBounds | vmm/arm64_memory.go:75-84 | Each supported configuration takes one to four levels and its first table is no larger than the others |
| Arm64Memory.WalkEnds | vmm/arm64_memory.go:17-110 | A walk ends within four lookups, each inside its table |
| Arm64Memory.SpanSteps | vmm/arm64_memory.go:17-110 | Within the reported span translation is consecutive |
| Arm64Memory.Translate | vmm/arm64_memory.go:17-110 | The level loop is the recursive walk |
| Arm64Memory.Read | vmm/arm64_memory.go:112-133 | Byte i is the physical byte at the translation of address i; it fails only if some byte of the request has none |
| ApiSet.ParseNamespace | windows/api_set.go:27-145 | A namespace parses if and only if it is what the bytes say (header, entries, pairwise different names, and a hash table that is an index of them), the ranges of text it asks for, each counted once, are within eight times the size, and its values within a twentieth |
| ApiSet.CheckIndex | windows/api_set.go:125-143 | A stored table passes if and only if it is strictly ordered by hash, hashes the prefixes and names each entry once |
| ApiSet.ParseEntries | windows/api_set.go:47-124 | The entries are read if and only if they are what the bytes say and their text, each range counted once, and the number of their values are within the limits |
| ApiSet.EveryEntryIndexed | windows/api_set.go:125-143 | The table is one-to-one onto the entries |
| ApiSet.PrefixesDiffer | windows/api_set.go:125-143 | No two entries have one hashed prefix |
| ApiSet.OneMatch | windows/api_set.go:158-182 | At most one entry matches a contract |
| ApiSet.AnyOrder | windows/api_set.go:158-182 | The answer does not depend on the order of the entries |
| ApiSet.Resolve | windows/api_set.go:158-182 | The loop over the entries gives the host of the first entry that matches |

## Left out

- Values: writing, patching and deleting values of a hive (`patchValueParts` also abandons old data cells, so no statement here says that a hive leaks nothing).
- The INF, TXTSETUP and Starlark layers, and the readers of hives outside `mutableHive`: thin wrappers, or code in other packages.
- Text: decoding, case folding and upper-casing are parameters; CREG text is ASCII, because the parser leaves byte strings that are valid UTF-8 undecoded.
- Time and threads: deadlines, timers and mutexes; a locked section is one step, and a step that blocks is one that cannot be taken.
- The order in which a CREG tree's children and values are sorted; the round trip holds for every order.
- The seek-based gap of `writeImageGap`: the sink only ever gets bytes appended.
- The index of short paths, reparse points, DOS attributes, cloning and tar output of a directory.
- The one-time lazy index of a generated image is built when the image is opened.
- MutableHive.Hive.FreeCell: a number that points into the middle of a live cell at bytes that look like an allocated size is excluded; the code would take them for one.
- MutableHive.Hive.AllocateCell: asks for an image that stays below 2 GiB, where cell offsets fit their signed words; the code does not check this. The same holds of the builder and of every operation that allocates.
- HiveBuilder.Writer.FinishBin: the branch that extends the previous cell is not reachable, because every cell size is a multiple of the smallest free cell.
- HivePatch.Patch.SetKeySecurity: is about hives whose root has a security cell; without one the code starts a ring of its own for each new descriptor.
- HiveBatch.Transaction.EnsureKey: a name of more than 65535 encoded bytes is stored cut off, as in the code; the new key then has the name it is read by, and `CreatedPaths.LandsElsewhere` says exactly when that is another one.
- SubtreeDeletion.DeleteSubkey: says what is gone in any state, and that the rest is a well-formed hive when the keys the stored lists reach are the keys pending there; `SubtreeDeletion.DeleteKey` says that it is so exactly then. The code walks stored lists: a child that is only pending stays behind, and a stale entry whose cell was given to another key takes that key along. `patch_hive` deletes before it creates, where neither can happen; a deletion inside the subtree then makes the deletion of the subtree fail.
- PendingDeletion.DeleteCreateDelete: that the new key takes the freed cell is a condition on the cell the creation returns; first fit (`MutableHive.Hive.AllocateExisting`) decides it.
- PatchRun.PatchHive: is about hives in which every child list can be walked and has no two names that fold alike, as every hive from `HiveStart` on has; without that `SubtreeDeletion.DeleteKey`, `HiveBatch.Transaction.EnsureKey` and `HiveBatch.Transaction.LookupKey` say which list is in the way. The renaming of the root, values and key flags between deletions and commit are not part of it.
- PatchRun.Session: asks for a budget below 2 GiB that counts every edit at its most.
- HiveCommit.CommitParent: a parent that lost its last child gets an empty list cell that later edits no longer own, as in the code.
- HiveCommit.FinishChildBatches: asks for room for the new lists below 2 GiB, as `AllocateCell` does; `CommitSize.CommitFits` bounds it.
- CregWriter.RoundTrip: the root's own name and values are not stored by the code, so they do not come back.
- ReadyChannel.Channel.Close: what the producer is reading at that moment may still arrive and can be read.
- GeneratedImage.Image.ReadAt: the kinds of errors of a file are not told apart.
- Directory.Directory.PutFile: replacing the contents of one alias leaves the others with the old contents, as in the code.
