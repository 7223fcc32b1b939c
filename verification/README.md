# A verified model of the amber content-addressed store

This project models the core of the store in Dafny and proves what its parts promise together.
Everything is checked by the Dafny verifier alone: `dafny verify dfyconfig.toml`. Nothing here is executed.

The four parts:

- **Garbage collection.** `GcProtocol` is a step system of write spans, references, the write barrier, the
  concurrent mark and the sweep. `MarkSet` and `Marking` are the mark itself, on the bitmap it uses.
- **The segment store.** `SegmentIndex`, `SegmentFooter`, `Segments`, `SealedSegments` and `Scrub` are the byte
  formats and their readers. `PackStore`, `StoreWrites`, `StoreOpen`, `StoreReopen` and `Compaction` are the store as
  one finite map through every write, rotation, reopen and compaction. `CrashProtocol`, `CrashRecovery` and
  `UnmapProtocol` are its durability and its unmapping.
- **Prolly trees.** `Chunker`, `Trees`, `IndexBuilder` and `DirBuilder` build; `TreeReaders`, `FileContent`,
  `Directories`, `DirectoryTrees` and `DirectoryReaders` read back; `Walks` traverses the object graph.
- **Codecs and sync.** `Record`, `WirePack`, `Xattrs`, `Batching`, `Pulling`, `Inbox` and `Keys`.

## How things are modelled

- Objects whose methods update fields are classes; loops are loops; a critical section is one method or one step.
- The hash is never assumed injective. Reading back is proved for any store that holds the emitted objects under
  their keys. That equal keys carry equal payloads is an invariant of the store, since an append for a present key
  only ever copies its record.
- zstd, the checksum, the digest and the fuse filter are function-valued parameters with the one law each needs:
  decompression inverts compression, checksums are 32-bit, a built filter parses and has no false negatives.
- Files are byte sequences. Input and output failures are nondeterministic choices or parameters, and a failed
  write may leave any bytes past the valid end of a file. `healthy` says that a store's file operations work; which
  files cannot be removed is a parameter of its own (`stuck`).
- Object bodies are datatypes, as their CBOR decoders see them; only `Xattrs` is byte-exact CBOR.
- 64-bit arithmetic is written out where it can wrap: key lengths, the item chunker, the batcher, trailer fields.

## Where the code and the promise differ

- **Byte limit of a batch.** The batcher adds sizes in 64 bits, so the limit fails for sizes near 2^64
  (`Batching.OverflowBreaksTheLimit`); `Batching.LimitHoldsIffNoWrap` gives the exact condition.
- **Item chunker.** An average exponent above 60 wraps the run bounds (`Chunker.UsableIffBitsFit`).
- **Recovery after the process alone stops.** Recovery completes a rename without syncing the file, and resumes a
  file without syncing the directory. If the process stops in either window, reopens, and the machine then stops,
  the store can be refused or lose an acknowledged record (`CrashProtocol.UnsyncedFooterCanBeRefused`,
  `CrashProtocol.UnlistedFileCanLoseAcked`). Outside those two windows every run is safe
  (`CrashProtocol.ProcessStopsKeeps`), and so is every run in which only whole-machine stops occur. Acknowledged means
  that the writer's own sync succeeded, or that the record found was durable: storing again a record that is there
  but not synced, as after a process stop, succeeds at once and is not counted
  (`CrashProtocol.UnsyncedDedupCanBeLost`).
- **Non-canonical keys.** A record under a non-canonical key is stored and read, but the tail scan does not accept
  it (`Record.RecordParses`) and stops there: it and every later record of the segment, canonical or not, are cut
  away by the next open (`Segments.ScanStopsAtBadKey`, `Segments.GoodRecordBehindBadIsLost`).
  `Segments.ScanIsExactIff` and `StoreReopen.ReopenKeepsIff` give the exact conditions for the scan and for the map.
- **Failed writes.** A failed write can leave a whole record past the valid end, which the next open then finds
  though no one was told it is stored (`StoreReopen.Reopen`).
- **Failed removals.** A wipe or a sweep that cannot remove a file reports it and goes on; the next open loads the
  file, and the wiped or swept objects are back (`StoreReopen.WipedObjectsComeBack`, `StoreReopen.StaleComesBack`).
  After a seal that failed past its rename, the wipe looks for the file under its old name, so it always stays.
- **Failed seals.** A seal that fails past its rename leaves the file under its sealed name. If its keys do not fit
  the fanout, every later open is refused; otherwise all its records load, also those behind a non-canonical key
  (`StoreReopen.OpensIff`, `StoreReopen.RenamedKeepsAll`).
- **Failed creations.** The file is removed again, but if that fails it stays, and the next creation makes a second
  active file, with which no open succeeds (`CrashProtocol.UnremovedIsRefusedNext`, `StoreReopen.StrayIsRefused`).
- **Compacting non-canonical keys.** The copy re-parses each record, so a live record under a non-canonical key that
  only victims hold makes every compaction that selects them fail (`Compaction.Compact`).
- **Inbox barrier.** A commit looks for its body by name alone. Found under another root, or before its first
  committer has counted it, it succeeds without being counted (`Inboxes.OtherRootGoesOn`,
  `Inboxes.OverlapGoesOn`); `Inboxes.Inbox.Commit` gives the condition.
- **The mark and unmapping.** The mark reads segments without a lock or registration. It is safe only because
  segments are detached under the cycle slot (`UnmapProtocol.MarkIsNeverUnmapped`,
  `UnmapProtocol.WithoutTheSlotTheMarkIsUnmapped`); `Store.Remove` called past the collector would not be.

## Model

| member | source | states |
|---|---|---|
| `GcProtocol.StepKeeps` | gc/cycle.go:63-127 | every step of the collector protocol keeps the invariant: write spans, observed keys, dedup hits, appends and rotations, prepared, committed, aborted and deleted references, barrier start, snapshot, marking, locking, copying, removal, aborted cycles, wipe |
| `GcProtocol.NothingReferencedIsLost` | gc/cycle.go:79-119 | in every state of every run, all that a stored reference reaches is stored, and so is every key a running span was told is stored |
| `GcProtocol.AcknowledgedKeysSurviveTheSweep` | gc/collector.go:120-147 | a key acknowledged while a barrier is on stays stored through marking, sweeping or aborting until the next barrier starts |
| `GcProtocol.MarkNeverMissesAKey` | gc/collector.go:194-225 | in every run the mark never meets a key that is absent or does not decode |
| `GcProtocol.MarkIsReachability` | gc/collector.go:182-190 | a finished mark is exactly what the snapshot's roots reach |
| `GcProtocol.RemovalIsExact` | packstore/compact.go:126-170 | of what was stored, removal leaves exactly the live keys and those with a copy outside the victims |
| `GcProtocol.TakeGreyKeeps` | packstore/barrier.go:53-60 | taking the grey set under the exclusive lock keeps every key observed since the barrier live |
| `GcProtocol.WipeKeeps` | gc/collector.go:95-110 | dropping the references and then the objects leaves no dangling reference, and writers that go on keep their invariant |
| `GcProtocol.GarbageCanBeSwept` | gc/cycle.go:63-127 | some run of the protocol removes an unreferenced key |
| `Keys.NewKeyReadsBack` | key/key.go:100-112 | every constructed key is canonical and carries exactly the type, length and digest bytes given |
| `Keys.ValidIffConstructed` | key/key.go:62-73 | a key is canonical if and only if rebuilding it from its own fields gives it back |
| `Keys.SameKeyIffSamePrefix` | key/key.go:100-112 | keys of one type and length are equal if and only if the kept digest bytes are |
| `ObjectGraph.ListChildren` | fstree/children.go:12-62 | the child scan returns exactly the references of the decoded body, in encounter order, or the error of the first malformed one |
| `Walks.ReachableKeys` | fstree/reachable.go:23-72 | lists each reachable key once, root first; fails exactly when a reachable interior object cannot be read; terminates on any finite store |
| `Walks.CheckComplete` | fstree/checkcomplete.go:27-74 | succeeds exactly when everything reachable is stored and decodes, and lists each reachable key once, root first |
| `Walks.NothingMissingIffComplete` | remotesync/pull.go:110-150 | nothing is missing exactly for a complete tree |
| `Marking.MarkFrom` | gc/collector.go:194-225 | pruning at marked keys, marks exactly what the root reaches on top of what was marked; unless cancelled or closed, fails only on an incomplete tree; terminates |
| `Marking.MarkLive` | gc/collector.go:182-190 | marks exactly the union of what the roots reach |
| `Marking.WalksAgree` | gc/collector.go:182-225 | the mark of one root and the listing of its reachable keys are the same set, of the same size |
| `MarkSets.SetThenTest` | packstore/markset.go:63-70 | setting a bit of a word sets that bit and no other |
| `MarkSets.FindPos` | packstore/markset.go:32-46 | filter and index search give the position of exactly the keys of the segment |
| `MarkSets.MarkTells` | packstore/markset.go:50-70 | setting a key's slot marks that key and no other, across segments that hold copies |
| `MarkSets.MarkSet.constructor` | packstore/markset.go:15-29 | a fresh set has nothing marked and knows exactly the keys stored |
| `MarkSets.MarkSet.Locate` | packstore/markset.go:32-46 | finds a key in the active map or at its newest sealed copy, exactly when it is in the snapshot |
| `MarkSets.MarkSet.Mark` | packstore/markset.go:50-70 | refines adding to a set; newly exactly on first insertion; present exactly for snapshot keys; every word and bit index in bounds |
| `MarkSets.MarkSet.Contains` | packstore/markset.go:72-81 | holds exactly for the marked keys |
| `MarkSets.MarkSet.Marked` | packstore/markset.go:84-86 | is the number of distinct keys marked |
| `Chunker.UsableIffBitsFit` | chunkers/item.go:24-45 | the run bounds are ordered and let a run hold two items if and only if the exponent is at most 60; past that the 64-bit shift wraps |
| `IndexBuilding.IndexBuilder.Add` | fstree/index_builder.go:54-69 | appends exactly one child's leaves, closing runs upward; pending keys never grow by more than one; only a refused object fails it |
| `IndexBuilding.IndexBuilder.CloseLevel` | fstree/index_builder.go:78-88 | turns a run into a node one level up, keeping the leaves and lowering the pending keys |
| `IndexBuilding.IndexBuilder.BuildNode` | fstree/index_builder.go:99-110 | the node and separator of a run |
| `IndexBuilding.IndexBuilder.AddChild` | fstree/index_builder.go:50-52 | adds one leaf-level child at the end of the sequence |
| `IndexBuilding.IndexBuilder.Finish` | fstree/index_builder.go:115-150 | terminates although it grows the list it walks; fails only on a refused object or when nothing was added; the root covers exactly the leaves added, children emitted first, with fewer index nodes than leaves |
| `Trees.FewerNodesThanLeaves` | fstree/index_builder.go:115-150 | a tree whose nodes have two or more children has fewer nodes than leaves |
| `Trees.NodeEncodes` | fstree/encode.go:64-80 | a file node's length field is the wrapped sum of its children's; node keys are canonical and of their type |
| `DirBuilding.LeafEncodes` | fstree/encode.go:86-113 | a directory leaf's object carries its entries under a canonical leaf key |
| `DirBuilding.LeafEncodesIff` | fstree/encode.go:86-113 | a leaf encodes exactly when every key field of full length among its entries is canonical |
| `DirBuilding.DirBuilder.AddEntry` | fstree/dir_builder.go:27-39 | appends the entry, closing the leaf at a boundary; malformed only if some entry added so far has a malformed key field; otherwise only a refused object fails it |
| `DirBuilding.DirBuilder.CloseLeaf` | fstree/dir_builder.go:41-54 | emits the leaf and indexes it under its greatest name, keeping all that was added; malformed exactly when an entry of the leaf is |
| `DirBuilding.DirBuilder.Finish` | fstree/dir_builder.go:58-65 | the root heads a separated tree of exactly the entries added, every object emitted, children first; success means no entry has a malformed key field, and malformed means one does |
| `DirBuilding.BuildDirectory` | cmd/amber-store/driver.go:26-46 | streaming entries through the builder gives a tree of exactly those entries, all well-formed; malformed means one of them is not |
| `DirBuilding.NodesSeparate` | fstree/dir_builder.go:41-54 | separators are the greatest names at every level, not only at the leaves |
| `DirBuilding.DirectoryReadsBack` | fstree/collect.go:92-136 | in any store holding the emitted objects the listing is the entries added; the store holds a readable directory if and only if their names strictly increase |
| `DirBuilding.PagingListsDirectory` | fstree/list.go:18-79 | paging from the empty cursor lists every non-empty name once, in order |
| `TreeReaders.EmittedIsAcyclic` | fstree/index_builder.go:78-88 | emitting children first makes the stored graph acyclic |
| `TreeReaders.BodiesOfTree` | fstree/collect.go:100-136 | reading a stored tree depth first meets exactly its leaves' bodies, in order |
| `FileContent.BuildFile` | cmd/amber-store/driver.go:127-165 | a file's chunks become a tree over exactly those blobs; fails only on a refused object |
| `FileContent.WriteContent` | fstree/content.go:13-36 | writes the leaves' bytes in order, and succeeds exactly when every object on the way is present and decodes |
| `FileContent.FileReadsBack` | fstree/content.go:13-36 | the content below the built root is the chunks concatenated, and the root key's length is the byte count modulo 2^64 |
| `FileContent.FileLength` | fstree/encode.go:64-80 | a file node's length is its byte count modulo 2^64 at every depth |
| `Directories.CollectEntries` | fstree/collect.go:92-136 | succeeds exactly when all below is present and decodes and names strictly increase, and returns that listing |
| `DirectoryTrees.SeparatorIsLast` | fstree/dir_builder.go:41-54 | a subtree's separator is its last name |
| `DirectoryTrees.SearchDescends` | fstree/lookup.go:16-58 | only the first subtree whose separator is not below the name can hold it |
| `DirectoryTrees.PagesEnumerate` | fstree/list.go:18-28 | paging by last name enumerates the listing after the cursor exactly once, in order |
| `DirectoryReaders.LookupEntry` | fstree/lookup.go:16-58 | on a stored directory answers as a linear search of the listing, not-found included; elsewhere never returns another name |
| `DirectoryReaders.ListInto` | fstree/list.go:33-79 | fills the page with exactly the next qualifying entries of the subtree |
| `DirectoryReaders.ListEntries` | fstree/list.go:18-28 | returns the first `limit` entries after the cursor, with `more` exactly when another exists |
| `Record.RecordParses` | amberpack/record.go:100-136 | a written record parses, whatever follows it, exactly when its key is canonical, to its own header |
| `Record.PayloadDecodes` | amberpack/record.go:140-154 | the stored payload decodes to the data it came from, compressed or not |
| `Record.PrefixFails` | amberpack/record.go:100-136 | no proper prefix of a record parses |
| `Record.EncodedShape` | amberpack/record.go:69-89 | where each header field and the payload of an encoded record lie, and that the stored form is never longer |
| `WirePack.Writer.Add` | amberpack/pack.go:73-83 | appends one record, or refuses an oversized object leaving only the header |
| `WirePack.Writer.Close` | amberpack/pack.go:101-109 | the stream is then the complete pack of the objects added |
| `WirePack.ReadPack` | amberpack/pack.go:125-185 | the reader's loop yields exactly the objects of the specification |
| `WirePack.PackReadsBack` | amberpack/pack.go:125-185 | a pack of canonical-key objects within the limit reads back as those objects, cleanly ended |
| `WirePack.TruncationDetected` | amberpack/pack.go:125-185 | every proper prefix yields a prefix of the objects and then an error, never a clean end |
| `SegmentIndex.SortIgnoresOrder` | packstore/footer.go:49-71 | the sorted rows do not depend on the order given |
| `SegmentIndex.BuildIndexSection` | packstore/footer.go:49-71 | the bytes are the fanout and rows of the sorted entries |
| `SegmentIndex.ParseIndexSection` | packstore/footer.go:75-96 | accepts exactly the sections with a well-formed parse, and returns it |
| `SegmentIndex.BuiltParses` | packstore/footer.go:75-96 | a built section parses to its own cumulative fanout and rows |
| `SegmentIndex.SearchPos` | packstore/footer.go:191-210 | every access in bounds for any well-formed parse; on a built index finds exactly the keys present |
| `SegmentIndex.Lookup` | packstore/footer.go:181-188 | finds the stored offset and length of every key present and nothing else |
| `SegmentFooter.BuildFooter` | packstore/footer.go:214-242 | refuses an empty segment and a filter that does not build; otherwise the footer over the sorted index |
| `SegmentFooter.ParseFooter` | packstore/footer.go:258-313 | accepts exactly the images that have a footer, and returns it |
| `SegmentFooter.FooterUnique` | packstore/footer.go:258-313 | an image has at most one footer |
| `SegmentFooter.SealedParses` | packstore/footer.go:214-313 | a built segment is accepted, as exactly the index and filter it was built from, if and only if it has fewer than 2^32 entries |
| `SealedSegments.Seal` | packstore/packstore.go:421-466 | there is an image to write exactly when the filter builds and the file is not too long; it opens exactly when the keys fit the fanout, and then reads as the records sealed |
| `SealedSegments.EntriesOf` | packstore/packstore.go:426-429 | lists every indexed record once, in any order |
| `SealedSegments.Find` | packstore/footer.go:436-442 | filter and index find the row of every key held and of nothing else |
| `SealedSegments.Has` | packstore/footer.go:367-373 | holds exactly for the keys of the segment |
| `SealedSegments.Get` | packstore/footer.go:377-399 | the payload of every key held, none for others, an error for a row out of bounds |
| `SealedSegments.GetRecord` | packstore/footer.go:405-422 | the whole record of every key held, as it was encoded |
| `SealedSegments.StoredSize` | packstore/footer.go:426-432 | the stored length of every key held |
| `Scrub.Verify` | packstore/verify.go:52-91 | unless cancelled, succeeds exactly when sound records fill the body and the stored index is the one they derive |
| `Scrub.SealedIsCleanIff` | packstore/verify.go:52-91 | a sealed segment passes, whatever order its index was built in, exactly when its keys are canonical and its objects pass the check |
| `Scrub.StoreIsCleanIff` | packstore/verify.go:18-50 | every sealed segment of a store passes exactly when every object they hold has a canonical key and passes the check |
| `Scrub.MadeKeysAreAuthentic` | packstore/verify.go:98-114 | a key made from its payload passes the object check |
| `Segments.ScanActive` | packstore/recover.go:31-65 | resets a file without a header, seals one with a complete footer, and otherwise cuts at the first byte that starts no record |
| `Segments.ScanFindsRecords` | packstore/recover.go:31-65 | of a header, whole records under canonical keys and a torn record or partial footer the scan keeps exactly the whole records, at their offsets |
| `Segments.ScanIsExactIff` | packstore/recover.go:31-65 | for any records and any bytes after them, the scan ends where the records do if and only if all their keys are canonical and what follows starts no record |
| `Segments.ScanStopsAtBadKey` | packstore/recover.go:55-58 | a record under a non-canonical key ends the scan: it and all after it are cut away, and exactly the records before it are kept |
| `Segments.GoodRecordBehindBadIsLost` | packstore/recover.go:55-58 | the smallest such loss: a canonical record right behind a non-canonical one |
| `Segments.DirtyTailHidesNoKey` | packstore/recover.go:42-62 | whatever follows canonical records, the scan finds all their keys |
| `Segments.CutBody` | packstore/recover.go:26-30 | a body cut at any byte past its header is the body of its first records and a torn tail, and keeps every record before the cut |
| `Segments.CutRecordIsTorn` | packstore/recover.go:55-58 | a record cut short is torn |
| `Segments.LocsLocate` | packstore/recover.go:9-16 | the index locates exactly the objects held, each at its own record |
| `Segments.LocatedDecodes` | packstore/packstore.go:550-558 | a located record's stored bytes decode to its payload |
| `PackStore.Store.constructor` | packstore/packstore.go:147-170 | an empty store is the empty map |
| `PackStore.Store.Has` | packstore/packstore.go:687-704 | answers as the map does, or closed |
| `PackStore.Store.Get` | packstore/packstore.go:544-571 | the map's value, not found, or closed |
| `PackStore.Store.GetRecord` | packstore/packstore.go:579-604 | the record of the map's value, as encoded |
| `PackStore.Store.StoredSize` | packstore/packstore.go:610-627 | the stored length of the map's value |
| `PackStore.GetSealed` | packstore/packstore.go:559-570 | the newest sealed copy decides; a corrupt segment fails the read |
| `PackStore.Store.CreateActive` | packstore/packstore.go:290-317 | uses up one number and changes nothing stored, whether or not it succeeds; a failure leaves no file, or one with part of a header that could not be removed again |
| `PackStore.Store.SealActive` | packstore/packstore.go:421-466 | keeps the map whatever fails: the records answer from the active segment or, once swapped in, from the sealed one; a failure stops writes and may leave the file under its sealed name; with working files it succeeds exactly when the segment can be sealed |
| `PackStore.Store.AppendLocked` | packstore/packstore.go:329-380 | adds the object to the map, with rotation; ids that ascend below the next stay so; a failure past the write stops further writes; with working files an open, unpoisoned store fails exactly when the append fills a segment that cannot be sealed |
| `PackStore.Store.Put` | packstore/packstore.go:518-540 | adds an absent object, leaves a present one, observes the key first; an error leaves the map as it was or with the object; with working files succeeds exactly for a present key, or an object not too long whose segment can be sealed if it fills it |
| `PackStore.Store.SyncActive` | packstore/packstore.go:383-404 | changes nothing stored; a failed sync stops further writes; with working files it succeeds on every open, unpoisoned store |
| `PackStore.Store.Wipe` | packstore/packstore.go:712-759 | leaves the empty map and a write path that works again; what cannot be removed, and a file a failed seal renamed, stays on disk with its records, and is reported |
| `PackStore.Store.Observe` | packstore/barrier.go:23-32 | the key joins the grey set exactly while capturing |
| `PackStore.Store.BeginBarrier` | packstore/barrier.go:8-13 | capturing starts with an empty grey set |
| `PackStore.Store.AbortBarrier` | packstore/barrier.go:16-21 | capturing ends and the grey set is dropped |
| `PackStore.Store.TakeGrey` | packstore/barrier.go:53-60 | hands over the grey set and ends capturing |
| `StoreWrites.WriteBatch` | packstore/packstore.go:476-513 | stores every yielded object in order, absent keys once, all grey while the barrier is on; an error leaves a prefix stored; with working files fails exactly on an iterator error, an object too long whose key is absent when it comes, or a segment that cannot be sealed |
| `StoreWrites.WriteParallel` | packstore/parallel.go:45-157 | stores every object in some order of its own, each key once; counts stored and deduplicated exactly; only checked objects join; with working files an error means an iterator error, an object too long or failing its check, or a segment that cannot be sealed |
| `StoreWrites.OrderIrrelevant` | packstore/parallel.go:45-105 | any handling order of objects whose equal keys carry equal data gives the same map |
| `StoreOpen.Place` | packstore/packstore.go:208-208 | keeps the segments ordered by number, adding exactly the new one |
| `StoreOpen.OpenSealed` | packstore/packstore.go:181-208 | opens every sealed file in order of number, or fails on one that has no footer |
| `StoreOpen.RecoverActive` | packstore/packstore.go:231-287 | never refuses a file: a complete footer makes it sealed, otherwise it is cut to its valid part or reset; what it then holds is the records the file was written with, up to a torn tail or a non-canonical key |
| `StoreOpen.Load` | packstore/packstore.go:181-217 | fails exactly on a bad name, two active files, a sealed file without a footer, or a failing file operation of a recovery; on a directory a store left, however it stopped, the store then is exactly what the files hold, ids ascending if the active file has the highest |
| `StoreReopen.Close` | packstore/packstore.go:763-799 | leaves its files and the stale ones: the sealed segments, what removals could not remove, a renamed file, and the active records with any whole records failed writes left behind them |
| `StoreReopen.Reopen` | packstore/packstore.go:147-217 | succeeds exactly when at most one file has an active name and every stale file under a sealed name has a footer; the map is then all records under sealed names, stale ones included, and those of the active file up to the first non-canonical key; it equals the old map if and only if every stale record is in it and every record the scan adds or drops is elsewhere |
| `StoreReopen.ReopenKeepsIff` | packstore/packstore.go:181-287 | the exact condition for a reopen to keep the map, on the records alone |
| `StoreReopen.OpensIff` | packstore/packstore.go:181-217 | the exact condition for the open to succeed, on what is stale |
| `StoreReopen.StaleComesBack` | packstore/packstore.go:190-205 | a record of a file that could not be removed, and that the map does not have, is in the reopened map |
| `StoreReopen.WipedObjectsComeBack` | packstore/packstore.go:735-752 | a wipe that cannot remove one sealed file, then a reopen: the empty store has all objects of that file again |
| `StoreReopen.RenamedKeepsAll` | packstore/packstore.go:445-455 | after a seal that failed past its rename a reopen keeps every record, also behind a non-canonical key |
| `StoreReopen.UnrenamedLosesTheRest` | packstore/packstore.go:436-448 | before the rename a record from the first non-canonical key on, without a copy, is lost |
| `StoreReopen.StrayIsRefused` | packstore/packstore.go:298-302 | a file that a failed creation could not remove, next to the active one, makes the open fail |
| `Compaction.AllEntries` | packstore/compact.go:64-77 | the rows of a sealed segment, in order |
| `Compaction.Measure` | packstore/compact.go:79-96 | live and dead bytes, and whether any key is dead |
| `Compaction.SelectVictims` | packstore/compact.go:172-198 | exactly the eligible segments with a dead key whose dead bytes reach the ratio |
| `Compaction.SurvivorHas` | packstore/compact.go:208-222 | holds exactly for keys with a copy outside the victims |
| `Compaction.AppendSurvives` | packstore/compact.go:266-280 | an append mid-copy, even one that rotates, keeps every survivor and adds only its own key |
| `Compaction.CopyLive` | packstore/compact.go:203-288 | in any interleaving, success leaves every live victim key with a copy outside the victims; the map never changes and only live keys that are canonical and pass the check join the survivors; with working files an error means a segment that cannot be sealed, or a live key held only by victims that cannot be copied |
| `Compaction.RemoveVictims` | packstore/compact.go:290-325 | leaves exactly the survivors, with their old payloads; victim files that cannot be removed stay on disk, with their records, and are reported |
| `Compaction.CompactSealed` | packstore/compact.go:154-169 | from sealed segments: a failure before removal changes nothing; removal leaves exactly the live keys and those with a copy outside the victims chosen; with working files it comes to removal exactly when every live key held only by victims is canonical and passes the check |
| `Compaction.Compact` | packstore/compact.go:126-170 | nothing leaves unless every live record was copied; then exactly the live keys (marked or grey) and those with a copy outside the victims remain, with their old payloads; the segments this is said of are the store's own, its active one sealed; a live key held only by victims that is not canonical or fails the check stops it every time, and nothing else does on working files with sealable segments |
| `CrashProtocol.StepKeeps` | packstore/packstore.go:290-466 | every step of create, append, sync, seal, publish, stop and open, and of a compaction that copies, rotates mid-copy, syncs its copies and removes its victims, keeps the durability invariant |
| `CrashProtocol.OpenFindsOneActive` | packstore/packstore.go:181-217 | in runs where the file of a failed creation is removed, whatever directory a crash leaves has at most one active file and only whole sealed files |
| `CrashProtocol.UnremovedIsRefusedNext` | packstore/packstore.go:298-302 | where it is not removed, every directory has at most one active file until the next creation, and then two, so that the open refuses |
| `CrashProtocol.AckedSurvivesTheMachine` | packstore/packstore.go:363-368 | every record acknowledged as durable, and live in every sweep since or copied outside its victims, is whole in a listed file after the machine stops at any point of any run, sweeps included |
| `CrashProtocol.SweepKeepsLive` | packstore/compact.go:158-169 | at any point of any run, once the copies are synced and before any victim is removed, every live record of a victim is synced in a file outside the victims that every directory a stop can leave lists |
| `CrashProtocol.OnlyTheDeadAreForgotten` | packstore/compact.go:290-325 | an acknowledgement is taken back only when removal begins, for a dead record with no copy outside the victims |
| `CrashProtocol.CopyCanGoOn` | packstore/compact.go:266-280 | copying is never stuck: each record still to do is in the active file or can be appended to it |
| `CrashProtocol.ProcessStopsKeeps` | packstore/packstore.go:231-287 | the process alone may stop anywhere except while a file is being created or has a written, unsynced footer |
| `CrashProtocol.UnsyncedFooterCanBeRefused` | packstore/packstore.go:244-260 | from every state with a written, unsynced footer a process stop, an open and a machine stop can lead to a store that is refused |
| `CrashProtocol.UnlistedFileCanLoseAcked` | packstore/packstore.go:262-286 | from every state creating a file a process stop, an open, an acknowledged write and a machine stop can lose that write |
| `CrashProtocol.WindowsAreReached` | packstore/packstore.go:290-380 | ordinary writing passes through both states where a process stop is unsafe |
| `CrashProtocol.UnsyncedDedupCanBeLost` | packstore/packstore.go:515-534 | an unsynced record of the active file is found by a reader, so storing it again succeeds, and is gone if the machine stops |
| `CrashRecovery.FileAfterStop` | packstore/recover.go:26-65 | any prefix of a file's written bytes, no shorter than was synced, is its records cut at a whole one no earlier than the synced part, or all of them under a whole footer, for canonical keys |
| `CrashRecovery.AckedRecordsAreLoaded` | packstore/packstore.go:181-287 | for canonical keys: at any point of any run, whatever prefix of each file and whichever directory a stopped machine keeps, the bytes open as a store, file by file with the records of the protocol's next state, and the map it then is holds every acknowledged record with its payload |
| `UnmapProtocol.NothingHeldIsUnmapped` | packstore/packstore.go:116-141 | in every run of readers, scrubs, compactions, seals, removers, marks and close, no reader, scrub or compaction has an unmapped segment |
| `UnmapProtocol.MarkIsNeverUnmapped` | gc/collector.go:92-110 | in every run in which segments are detached by the holder of the cycle slot, the mark, which takes no lock and registers nowhere, refers to no segment unmapped or about to be |
| `UnmapProtocol.WithoutTheSlotTheMarkIsUnmapped` | gc/status.go:41-46 | a run in which another actor detaches without the slot leaves the mark on an unmapped segment |
| `UnmapProtocol.LateScrubsMissDetached` | packstore/gc.go:89-102 | a scrub that registers while a remover waits cannot reach what was detached |
| `UnmapProtocol.StepKeeps` | packstore/gc.go:205-253 | every step of the detach, wait and unmap protocol keeps its invariant |
| `Pulling.Missing` | packstore/missing.go:20-62 | exactly the absent keys, in order with repetitions, for any number of workers |
| `Pulling.LocalMissing` | remotesync/pull.go:115-150 | exactly the reachable absent keys, each once; on an open store fails exactly when a reachable stored body does not decode; terminates |
| `Pulling.FetchAll` | remotesync/pull.go:78-108 | stored objects only grow, by checked objects; every batch uses a response |
| `Pulling.Pull` | remotesync/pull.go:29-74 | success means the tree is complete, whatever the server listed and sent; nothing stored is lost or changed |
| `Batching.Batcher.Add` | remotesync/batch.go:73-83 | closes the current batch exactly when the wrapped sum passes the target or the key limit is reached, and returns it |
| `Batching.Batches` | remotesync/batch.go:95-107 | the loop over the batcher yields the batches of the 64-bit specification run, whose laws are below |
| `Batching.BatchesKeepKeys` | remotesync/batch.go:92-107 | batches concatenate to the keys in order; none is empty or over the key limit |
| `Batching.LimitHoldsIffNoWrap` | remotesync/batch.go:60-83 | every batch of two or more objects is within the byte target if and only if no step of the exact run overflows 64 bits back into it |
| `Batching.OverflowBreaksTheLimit` | remotesync/batch.go:76-76 | two objects of size 2^63 share a batch whose target is one byte |
| `Batching.SmallSizesDoNotWrap` | remotesync/batch.go:60-83 | sizes and target below 2^63 never overflow |
| `Batching.BatchesApproachTarget` | remotesync/batch.go:60-63 | with exact sums a batch ends only where the next object would pass the target or at the key limit |
| `Inboxes.Inbox.constructor` | inbox/inbox.go:183-209 | exactly the readable entries are queued and counted, in order; they and the unreadable ones that cannot be moved stay |
| `Inboxes.Inbox.Look` | inbox/inbox.go:138-144 | looks by name alone; a file under the same root was counted or is about to be |
| `Inboxes.Inbox.Publish` | inbox/inbox.go:145-150 | the file is there, its committer yet to count it |
| `Inboxes.Inbox.Count` | inbox/inbox.go:151-155 | the entry is queued and counted under its root |
| `Inboxes.Inbox.Commit` | inbox/inbox.go:135-157 | added exactly when no file has the name; its root's barrier covers it exactly if it was added or had been counted under that root, and a file found under that root with no commit in flight had been; otherwise all counts stay |
| `Inboxes.OtherRootGoesOn` | inbox/inbox.go:138-141 | a body queued under one root lets a commit under another succeed, whose waiters go on before it is handled |
| `Inboxes.OverlapGoesOn` | inbox/inbox.go:138-155 | a commit between another's rename and count succeeds before anything is counted |
| `Inboxes.Inbox.Take` | inbox/inbox.go:225-238 | a worker takes the oldest entry; counts stay exact |
| `Inboxes.Inbox.Process` | inbox/inbox.go:257-304 | the entry's file goes when it can be removed or set aside; counts are untouched |
| `Inboxes.Inbox.Finish` | inbox/inbox.go:240-252 | the decrement guard never fails and the count stays queued plus in hand |
| `Inboxes.Inbox.WaitFor` | inbox/inbox.go:161-167 | a waiter goes on only when every entry enqueued for the root has been handled |
| `Inboxes.TrackedCounts` | inbox/inbox.go:225-253 | an entry that is not handled is queued or in hand, so its root's count is positive |
| `Xattrs.HeadReadsBack` | cborx/cborx.go:100-133 | a head reads back, in all five sizes, whatever follows |
| `Xattrs.ByteStringReadsBack` | cborx/cborx.go:137-151 | a byte string reads back, whatever follows |
| `Xattrs.OrderIsLengthThenBytes` | cborx/cborx.go:50-55 | the bytewise order of encoded keys is shorter first, then bytewise |
| `Xattrs.EncodeXattrs` | cborx/cborx.go:45-62 | each name once with its value, in order, whatever order the map yields; the bytes decode to the map |
| `Xattrs.DecodeXattrs` | cborx/cborx.go:67-95 | the decoder's loop, byte for byte, with its pair-count bound and no trailing bytes |
| `Xattrs.DecodeEncode` | cborx/cborx.go:67-95 | decoding an encoding gives the map back |
| `Xattrs.EncodingIsInjective` | cborx/cborx.go:45-62 | different maps have different encodings |
| `Xattrs.EncodingIsUnique` | cborx/cborx.go:45-62 | a map has one encoding |

## Left out

- HTTP handlers, clients, daemon wiring, admin interface, signing, allowlists and reference storage: plumbing or foreign cryptography around the modelled cores.
- Content-defined chunking of bytes, compression, hashing, checksum and filter internals: libraries, kept abstract.
- Path resolution (`ResolvePath`, `ResolveEntry`), tar export, extraction, ignore patterns, the FUSE mount and the command line: easy loops over modelled readers, or operating-system calls.
- Push and its pipeline: it would reuse the batching, record and completeness results without a new law.
- Grace period, throttling, free-space policy and timings: the sweep may choose any eligible segments; the age test is the parameter `eligible`.
- The dead-byte ratio is compared over reals, not in floating point.
- Goroutine pools inside one call are modelled as an arbitrary order of whole object handlings (`WriteParallel`, `CopyLive`) or, where results are indexed by position, sequentially (`Expand`, `Missing`).
- Races between separate calls of `Put` for one key across a rotation: each method of `Store` is atomic; the interleaving of writers with the collector is in `GcProtocol`.
- Liveness: that waiters, pulls and collections eventually finish. Pull's server is a finite script of responses, so a server that never sends what it is asked for ends the pull with an error.
- Directory changes become durable in order in `CrashProtocol`, as on a journaling file system; a file system that reorders them is not modelled, and neither is `Wipe` there.
- StoreReopen.Reopen: says what is loaded only if every copy of a key, stale or not, has the same data, and if the bytes past the end of an active file start no record or footer other than those a failed write or a failed seal of this store put there; whether the open succeeds is said without either.
- StoreOpen.Load: says what is loaded only of directories a store left; of others it says exactly when the open fails.
- CrashRecovery.AckedRecordsAreLoaded: asks for canonical keys, and that no proper part of a written footer is itself a footer; a file keeps a prefix of what was written, never other bytes, and what failed writes leave past the end is not there.
- CrashProtocol.StepKeeps: equal keys are appended with equal data, since keys are made from the data.
- Inboxes.Inbox.Commit: directory syncs and their failures are not modelled.
- StoreWrites.WriteParallel: the handling of one object (observe, probe, append) is one step; two workers never interleave inside it.
- Pulling.FetchAll: batches are fetched one after another, and each gets one scripted response.
- FileContent.FileReadsBack: the length field is the byte count modulo 2^64, which is the byte count for every file below 2^64 bytes.
- Scrub.Verify: the object check is a parameter; `Scrub.Authentic` is the one the store uses.
- Pulling.Pull: batches are fetched one after another, not in parallel; progress reports and statistics are not modelled.
