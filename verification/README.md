# LevelDB and nanopb, modelled and proved

The pods of this app carry a storage engine (`leveldb-library`) and a protobuf codec (`nanopb`). This
project models both in Dafny and proves what they are for.

- **The store.** A database is a memtable, an immutable memtable and seven levels of files of entries
  (user key, sequence number, kind, value). `Lsm` has its atomic steps, `LsmCompaction` and `LsmRuns` what they
  keep over whole runs, and `DbImpl` the database object with its real fields, each method proved to be such a
  step. `Reads` is the specification: a finite map for every number of writes.
- **Files, versions, compactions.** `Version` searches the levels, `CompactionInputs` picks inputs,
  `CompactionWork` is the drop loop, `VersionBuilder` and `VersionSets` apply edits and recover them from the
  MANIFEST, `VersionEdits` and `ManifestBytes` are the MANIFEST as bytes.
- **Iterators.** `DbIter`, `Merger`, `TwoLevelIterators` and `BlockIters` each behave as one cursor over a
  sorted sequence; `Scans` says what that means for the whole database.
- **Formats.** `Coding`, `LogFormat` with `LogWriter` and `LogReader`, `WriteBatches`, `BlockFormat`, `Bloom`,
  `FilterBlocks`, `InternalKeys`, `TableFormat`, `TableBuilders`, `TableReader` and `StoredTables` are writer and
  reader pairs; `Recovery` replays a log cut anywhere, and `FilesAndTails` and `Reopening`
  put that together with the files and the MANIFEST.
- **Memory and threads.** `SkipLists` is searched while it is written, `SnapshotLists` is the ring of snapshots,
  `MemTables` the encoded entries, `HandleTables` and `LruCaches` the cache, `GroupCommit` the writers' queue.
- **nanopb.** `PbModel` has descriptors and messages, `PbCodec` the wire format as functions, `PbRoundTrip` the
  round trip, `PbFields` fields left out, unknown and in any order, `PbValidity` what any input decodes to,
  `PbEncoder` and `PbDecoder` the code over streams.

`Layouts` has the file formats byte by byte on small examples, so that writer and reader cannot change together.

Code that changes things in place is modelled by classes and loops and proved against functions; the laws are
lemmas about these.

## Findings

Three properties one would expect do not hold of the code. Each has an input that shows it and the exact condition.

- A compaction can bring a deleted value back. `AddBoundaryInputs` is called for `level` only
  (db/version_set.cc:1407), not for level + 1 (db/version_set.cc:1422). `LostDeletions.DeletionLost` is a run from the
  empty store, with a snapshot and two compactions of level 1, in which a value and its deletion come to lie in adjacent
  files of level 2; the second compaction takes the file with the deletion and drops it. Where the first one ends its
  output file depends on block sizes, which are parameters here: `LostDeletions.OutputsAreCut` has some for which it is
  there. `LsmCompaction.CompactionExact` and `LsmRuns.SnapshotIsolation` say exactly when a deletion is lost, and
  `LsmCompaction.BoundarySuffices` that closing level + 1 as well prevents it.
- `VersionEdit::Clear` leaves the compaction pointers (db/version_edit.cc:26-39), so decoding into an edit that was used
  before adds to them. `VersionEdits.RoundTrip` has the exact result. The callers in db/version_set.cc use fresh edits.
- nanopb encodes a string that fills its array without a terminator and refuses to decode what it wrote.
  `PbRoundTrip.StringExact` says so for every length.

## Model

| member | source | states |
|---|---|---|
| `Comparator.RankOrder` | TFL Tube Times/Pods/leveldb-library/util/comparator.cc:25-27 | Placing byte strings among the reals keeps their bytewise order and their equality, both ways, for every pair of keys. |
| `DbFormat.TagOrder` | TFL Tube Times/Pods/leveldb-library/db/dbformat.cc:51-67 | The packed tag orders by sequence number first and type second, and keys that compare equal are equal. |
| `DbFormat.LookupOrder` | TFL Tube Times/Pods/leveldb-library/db/dbformat.cc:121-138 | An entry sorts before the lookup key of (k, s) exactly if its user key is smaller or it is too new for s. |
| `Reads.HistoryIsMap` | TFL Tube Times/Pods/leveldb-library/db/db_impl.cc:1100-1134 | Reading the newest visible entry of the history at n, with deletions as absent, is looking the key up in the map after n writes. |
| `Reads.DropRuleExact` | TFL Tube Times/Pods/leveldb-library/db/db_impl.cc:929-963 | For all entries and inputs: dropping by the two rules keeps every read at every honoured snapshot if and only if no dropped marker that is the newest at the oldest snapshot has a value left underneath. |
| `Lsm.WriteKeeps` | TFL Tube Times/Pods/leveldb-library/db/db_impl.cc:1204-1236 | A write group keeps the shape of the store, and all views if they were kept so far. |
| `Lsm.SwitchKeeps` | TFL Tube Times/Pods/leveldb-library/db/db_impl.cc:1346-1365 | So does making the memtable immutable. |
| `Lsm.FlushNewer` | TFL Tube Times/Pods/leveldb-library/db/version_set.cc:491-516 | A flushed file is newer than all files of every level, and shares no user key with a level above its own. |
| `Lsm.FlushKeeps` | TFL Tube Times/Pods/leveldb-library/db/db_impl.cc:535-566 | Turning the immutable memtable into a file at level 0, 1 or 2 keeps shape and views. |
| `LsmCompaction.OutputApart` | TFL Tube Times/Pods/leveldb-library/db/db_impl.cc:860-876 | The outputs of a compaction are apart from every file of level + 1 that was left out. |
| `LsmCompaction.InstallOrder` | TFL Tube Times/Pods/leveldb-library/db/db_impl.cc:860-876 | After replacing inputs by outputs, levels are in order and shallower ones newer than deeper ones. |
| `LsmCompaction.CompactShape` | TFL Tube Times/Pods/leveldb-library/db/db_impl.cc:860-876 | Every compaction keeps the shape of the store and stores just what was stored, less what the drop rules drop. |
| `LsmCompaction.LocalIsExact` | TFL Tube Times/Pods/leveldb-library/db/db_impl.cc:940-954 | Whether dropped markers uncover anything depends only on markers from files of level + 1 and on the files of level + 1 that are left out. |
| `LsmCompaction.CompactionExact` | TFL Tube Times/Pods/leveldb-library/db/db_impl.cc:929-963 | A compaction always keeps the shape, and keeps every read at every honoured snapshot if and only if no such marker has a value in a left out file of level + 1. |
| `LsmCompaction.BoundarySuffices` | TFL Tube Times/Pods/leveldb-library/db/version_set.cc:1378-1401 | The boundary condition at level + 1 is enough for that. |
| `LsmCompaction.CompactionViews` | TFL Tube Times/Pods/leveldb-library/db/db_impl.cc:878-1036 | If all views were kept before a compaction, they are afterwards exactly if it uncovers nothing. |
| `LsmCompaction.MoveKeeps` | TFL Tube Times/Pods/leveldb-library/db/db_impl.cc:718-728 | A trivial move keeps shape and views. |
| `LsmRuns.RunKeepsShape` | TFL Tube Times/Pods/leveldb-library/db/version_set.cc:491-516 | In every state of every run of writes, switches, flushes, moves, compactions, snapshots and releases: levels sorted and apart, every shallower entry of a user key newer than every deeper one, file numbers unique. |
| `LsmRuns.RunKeepsViews` | TFL Tube Times/Pods/leveldb-library/db/db_impl.cc:890-963 | Up to any point of any run all live views were kept in every state if and only if no compaction on the way uncovered a value. |
| `LsmRuns.SnapshotIsolation` | TFL Tube Times/Pods/leveldb-library/db/snapshot.h:57-86 | Up to any point of any run every live snapshot reads as the map the database was then, in every state, if and only if no compaction on the way uncovered a value. |
| `LsmRuns.ClosedRunsIsolate` | TFL Tube Times/Pods/leveldb-library/db/version_set.cc:1378-1422 | In runs whose compactions meet the boundary condition at level + 1, every live snapshot reads as its map in every state. |
| `LostDeletions.EachIsAsTheCode` | TFL Tube Times/Pods/leveldb-library/db/version_set.cc:1403-1462 | Every flush of the run below goes to the level that the code picks for it, and both compactions have inputs that the code picks and does not just move. |
| `LostDeletions.OutputsAreCut` | TFL Tube Times/Pods/leveldb-library/db/db_impl.cc:988-991 | With blocks of two entries and files of one block, the code cuts the outputs of both compactions where the run does. |
| `LostDeletions.DeletionLost` | TFL Tube Times/Pods/leveldb-library/db/version_set.cc:1407-1422 | A concrete run from the empty store, every step as the code takes it, in which a deleted value comes back. |
| `Version.FindFile` | TFL Tube Times/Pods/leveldb-library/db/version_set.cc:88-106 | The binary search returns the first file whose largest key is not before the key. |
| `Version.SortNewestFirst` | TFL Tube Times/Pods/leveldb-library/db/version_set.cc:362-364 | The same files, each as often as before, highest number first. |
| `Version.CoveringFiles` | TFL Tube Times/Pods/leveldb-library/db/version_set.cc:350-359 | Just the level 0 files whose range has the key in it, each as often as it is listed. |
| `Version.SearchLevel0` | TFL Tube Times/Pods/leveldb-library/db/version_set.cc:350-364 | Searching the overlapping level 0 files newest first, up to the first that answers, answers for all of level 0. |
| `Version.SearchSortedLevel` | TFL Tube Times/Pods/leveldb-library/db/version_set.cc:366-382 | In a deeper level the one file found by binary search answers for the whole level. |
| `Version.Get` | TFL Tube Times/Pods/leveldb-library/db/version_set.cc:326-421 | Going level by level up to the first answer gives what the newest visible entry of all levels says. |
| `CompactionInputs.SomeFileOverlapsRange` | TFL Tube Times/Pods/leveldb-library/db/version_set.cc:122-157 | True exactly if some file meets the range, open ends included, for disjoint and for overlapping files. |
| `CompactionInputs.GetOverlappingInputs` | TFL Tube Times/Pods/leveldb-library/db/version_set.cc:519-559 | The restarts end, and the result is all and only the files meeting the range; in level 0, meeting the least range around it that no file sticks out of. |
| `CompactionInputs.FindSmallestBoundaryFile` | TFL Tube Times/Pods/leveldb-library/db/version_set.cc:1344-1362 | The boundary file with the smallest key, or none if there is no boundary file. |
| `CompactionInputs.AddBoundaryInputs` | TFL Tube Times/Pods/leveldb-library/db/version_set.cc:1378-1401 | The loop ends; it adds only smallest boundary files, one at a time, a run of following files; and it leaves no file that starts past the largest key with its user key. |
| `CompactionInputs.PickCompaction` | TFL Tube Times/Pods/leveldb-library/db/version_set.cc:1270-1322 | Picks the first file past the compaction pointer, wrapping around; in level 0 with everything that overlaps it. |
| `CompactionInputs.CompactRange` | TFL Tube Times/Pods/leveldb-library/db/version_set.cc:1464-1495 | The files meeting a manual range; except in level 0, the fewest from the front that reach the size limit. |
| `CompactionInputs.TryExpand` | TFL Tube Times/Pods/leveldb-library/db/version_set.cc:1417-1448 | The larger inputs, made of the files meeting the whole range and their boundary files, are taken exactly if they have more files of the level, stay under the byte limit and need no more files of the next level; and they meet all input conditions. |
| `CompactionInputs.SetupOtherInputs` | TFL Tube Times/Pods/leveldb-library/db/version_set.cc:1403-1462 | From any legal choice: boundary files, just the overlapping files of the next level, the expansion if it qualifies; the result is boundary closed, and grandparents and the new pointer are those of the inputs taken. |
| `CompactionInputs.PickedIsGood` | TFL Tube Times/Pods/leveldb-library/db/version_set.cc:1403-1462 | Whatever is picked leaves nothing older behind in its level. |
| `CompactionInputs.PickLevelForMemTableOutput` | TFL Tube Times/Pods/leveldb-library/db/version_set.cc:491-516 | The level is exactly as deep as nothing overlaps the new file and not too many bytes lie below, at most 2. |
| `CompactionWork.Compaction.IsBaseLevelForKey` | TFL Tube Times/Pods/leveldb-library/db/version_set.cc:1533-1552 | With cursors that only move forward, on ascending keys, the answer is that of a scan of all files from level + 2 on. |
| `CompactionWork.Compaction.ShouldStopBefore` | TFL Tube Times/Pods/leveldb-library/db/version_set.cc:1554-1576 | Counts the bytes of just the grandparents passed since the last cut, and says when they are too many. |
| `CompactionWork.HiddenIsLocal` | TFL Tube Times/Pods/leveldb-library/db/db_impl.cc:929-939 | Looking at the entry before in the stream decides whether any newer entry hides this one. |
| `CompactionWork.KeptSeqIsKept` | TFL Tube Times/Pods/leveldb-library/db/db_impl.cc:929-963 | The one pass rule of the loop keeps exactly what the rule on sets keeps. |
| `CompactionWork.FinishOutput` | TFL Tube Times/Pods/leveldb-library/db/db_impl.cc:811-858 | Closing an output keeps the outputs in order and loses nothing. |
| `CompactionWork.DoCompactionWork` | TFL Tube Times/Pods/leveldb-library/db/db_impl.cc:898-1008 | The outputs are in order, apart and freshly numbered, and hold exactly the entries of the input that the drop rules keep. No output could have ended earlier: no shorter front of it reaches the size limit, and between no two of its entries were too many bytes of grandparents passed; and each but the last had to end where it does, for one reason or the other. |
| `VersionBuilder.BatchIsOneAtATime` | TFL Tube Times/Pods/leveldb-library/db/version_set.cc:650-754 | One builder for many edits saves the same files as one version for each edit. |
| `VersionBuilder.SortedListUnique` | TFL Tube Times/Pods/leveldb-library/db/version_set.cc:598-612 | A set of files has only one sorted list. |
| `VersionBuilder.SaveLevel` | TFL Tube Times/Pods/leveldb-library/db/version_set.cc:695-739 | Merging base and added files gives, in order, exactly those that are not deleted. |
| `VersionSets.Builder.Apply` | TFL Tube Times/Pods/leveldb-library/db/version_set.cc:650-692 | Every level ends up with the deletions and additions of the edit, a new file taking back its deletion. |
| `VersionSets.Builder.SaveTo` | TFL Tube Times/Pods/leveldb-library/db/version_set.cc:695-754 | Every level of the saved version is the base less the deleted files plus the added ones, in order. |
| `VersionSets.LegalKeepsDescends` | TFL Tube Times/Pods/leveldb-library/db/version_set.cc:801-884 | File numbers stay unique over the life of a MANIFEST, and a file only moves to deeper levels. |
| `VersionSets.RecordExtends` | TFL Tube Times/Pods/leveldb-library/db/version_set.cc:801-884 | A record of a legal edit leaves the MANIFEST replayable, and it replays to the new version. |
| `VersionSets.SnapshotReplays` | TFL Tube Times/Pods/leveldb-library/db/version_set.cc:1088-1116 | A MANIFEST that starts with a snapshot record replays to the version it was taken of. |
| `VersionSets.VersionSet.LogAndApply` | TFL Tube Times/Pods/leveldb-library/db/version_set.cc:801-884 | Files, pointers and numbers are those of the edit applied, and the MANIFEST still describes the version set. |
| `VersionSets.VersionSet.Recover` | TFL Tube Times/Pods/leveldb-library/db/version_set.cc:924-1000 | One builder over all records gives what replaying them one by one gives; fails exactly if a number is missing. |
| `VersionSets.VersionSet.CrashAndRecover` | TFL Tube Times/Pods/leveldb-library/db/version_set.cc:886-1011 | From the MANIFEST of any reachable version set: the same file lists, pointers and log numbers, the last sequence number logged, and unused file numbers. |
| `VersionEdits.InsertAscends` | TFL Tube Times/Pods/leveldb-library/db/version_edit.cc:69-74 | Inserting into the set of deleted files keeps it in order without duplicates. |
| `VersionEdits.RoundTrip` | TFL Tube Times/Pods/leveldb-library/db/version_edit.cc:26-205 | A record decoded into an edit gives the edit written, after the compaction pointers the target had; it is exactly the one written if and only if it had none. |
| `VersionEdits.VersionEdit.EncodeTo` | TFL Tube Times/Pods/leveldb-library/db/version_edit.cc:41-85 | Appends the record of the fields. |
| `VersionEdits.VersionEdit.DecodeFrom` | TFL Tube Times/Pods/leveldb-library/db/version_edit.cc:107-205 | The loop sets the fields as the format says, or gives the message for the first entry it cannot read. |
| `VersionEdits.ManifestCut` | TFL Tube Times/Pods/leveldb-library/db/version_set.cc:924-978 | Edits logged to a file that is cut anywhere: those wholly written are read back, in order, each as logged. |
| `ManifestBytes.CutGivesFields` | TFL Tube Times/Pods/leveldb-library/db/version_set.cc:924-978 | The same for the edits of a version set. |
| `ManifestBytes.FieldsTell` | TFL Tube Times/Pods/leveldb-library/db/version_edit.cc:41-85 | Edits with the same record have the same numbers, pointers, deletions and new files, in level, number, size and bounds. |
| `ManifestBytes.RecoverFromCut` | TFL Tube Times/Pods/leveldb-library/db/version_set.cc:886-1011 | From a MANIFEST cut at any byte, what is recovered is what its whole records describe; it fails exactly if these lack a number. |
| `DbImpl.DBImpl.Write` | TFL Tube Times/Pods/leveldb-library/db/db_impl.cc:1204-1236 | A group is a write step: the map after it is the old one with the updates applied. |
| `DbImpl.DBImpl.SwitchMemTable` | TFL Tube Times/Pods/leveldb-library/db/db_impl.cc:1346-1365 | A switch step. |
| `DbImpl.DBImpl.WriteLevel0Table` | TFL Tube Times/Pods/leveldb-library/db/db_impl.cc:491-533 | One file with just the memtable's entries, of the size the builder says, at the level that PickLevelForMemTableOutput picks, where neither it nor a shallower one overlaps. |
| `DbImpl.DBImpl.CompactMemTable` | TFL Tube Times/Pods/leveldb-library/db/db_impl.cc:535-566 | A flush step, at that level, through the version edit that is logged, with the log number it is given. |
| `DbImpl.DBImpl.MakeInputIterator` | TFL Tube Times/Pods/leveldb-library/db/version_set.cc:1237-1268 | The entries of all input files in key order. |
| `DbImpl.DBImpl.DoCompaction` | TFL Tube Times/Pods/leveldb-library/db/db_impl.cc:878-1036 | A compaction step for any picked inputs; if views were kept, they still are exactly if it uncovers nothing, and always under the boundary condition. The outputs end just where size and grandparents call for it, and the level's compaction pointer moves to the new one and no other. |
| `DbImpl.DBImpl.TrivialMove` | TFL Tube Times/Pods/leveldb-library/db/db_impl.cc:718-728 | A move step, with the compaction pointer moved. |
| `DbImpl.DBImpl.GetSnapshot` | TFL Tube Times/Pods/leveldb-library/db/db_impl.cc:1166-1169 | The snapshot is the number of writes so far, and from now on it is honoured. |
| `DbImpl.DBImpl.ReleaseSnapshot` | TFL Tube Times/Pods/leveldb-library/db/db_impl.cc:1171-1174 | A release step. |
| `DbImpl.DBImpl.Get` | TFL Tube Times/Pods/leveldb-library/db/db_impl.cc:1100-1134 | Memtable, immutable memtable, then levels gives what the newest visible entry stored says; while views are kept, that is the key's value in the map after the writes up to the snapshot. |
| `Scans.ChildrenLayers` | TFL Tube Times/Pods/leveldb-library/db/version_set.cc:230-246 | The children of the internal iterator are sorted, hold exactly what is stored, and share no key. |
| `Scans.NewInternalIterator` | TFL Tube Times/Pods/leveldb-library/db/db_impl.cc:1062-1087 | The merged iterator stands over exactly the entries stored, in order. |
| `Scans.NewIterator` | TFL Tube Times/Pods/leveldb-library/db/db_impl.cc:1147-1157 | A database iterator over the merged iterator of all the database holds, at the snapshot given or the last sequence number. |
| `Scans.ScanIsMap` | TFL Tube Times/Pods/leveldb-library/db/db_impl.cc:1147-1157 | The live positions of a scan at a snapshot show each pair of its map once, in ascending order, and nothing else. |
| `Scans.WholeScanIsMap` | TFL Tube Times/Pods/leveldb-library/db/db_iter.cc:141-299 | A whole scan of the database iterator, forwards or backwards, shows the map of its snapshot: every key once, in order, with its value, and no other. |
| `Scans.FirstIsMapFirst` | TFL Tube Times/Pods/leveldb-library/db/db_iter.cc:168-198 | What a forward step finds is the map's first key past the bound, with its value, or that there is none. |
| `Scans.LastIsMapLast` | TFL Tube Times/Pods/leveldb-library/db/db_iter.cc:227-267 | What a backward step finds is the map's last key before the bound, with its value, or that there is none. |
| `DbIter.LiveIsRead` | TFL Tube Times/Pods/leveldb-library/db/db_iter.cc:168-198 | Live entries are exactly the values that a reader at the sequence number reads. |
| `DbIter.DBIter.Seek` | TFL Tube Times/Pods/leveldb-library/db/db_iter.cc:269-281 | Stands at the first live key at or after the target, or is not valid if there is none. |
| `DbIter.DBIter.SeekToFirst` | TFL Tube Times/Pods/leveldb-library/db/db_iter.cc:283-292 | Stands at the first live key. |
| `DbIter.DBIter.SeekToLast` | TFL Tube Times/Pods/leveldb-library/db/db_iter.cc:294-299 | Stands at the last live key. |
| `DbIter.DBIter.Next` | TFL Tube Times/Pods/leveldb-library/db/db_iter.cc:141-166 | Stands at the first live key after the current one, whichever direction it came from. |
| `DbIter.DBIter.Prev` | TFL Tube Times/Pods/leveldb-library/db/db_iter.cc:200-225 | Stands at the last live key before the current one, whichever direction it came from. |
| `DbIter.DBIter.KeyValue` | TFL Tube Times/Pods/leveldb-library/db/db_iter.cc:64-71 | Key and value are what a reader at the sequence number reads. |
| `DbIter.DBIter.ScanForward` | TFL Tube Times/Pods/leveldb-library/db/db_iter.cc:168-198 | The loop ends at the first live entry past the bound, skipping what is hidden. |
| `DbIter.DBIter.ScanBackward` | TFL Tube Times/Pods/leveldb-library/db/db_iter.cc:227-267 | The loop ends with the value of the last live key before the bound. |
| `Merger.WinnerIsUnion` | TFL Tube Times/Pods/leveldb-library/table/merger.cc:148-176 | With every child at the same place between keys, the extreme child is where the sorted union stands there. |
| `Merger.WinnerAligns` | TFL Tube Times/Pods/leveldb-library/table/merger.cc:55-108 | Once it is chosen, the others are at their first key past it, or in reverse at their last before it. |
| `Merger.MergingIterator.Seek` | TFL Tube Times/Pods/leveldb-library/table/merger.cc:47-53 | Stands at the first entry of the union not before the target. |
| `Merger.MergingIterator.SeekToFirst` | TFL Tube Times/Pods/leveldb-library/table/merger.cc:31-37 | Stands at the first entry of the union. |
| `Merger.MergingIterator.SeekToLast` | TFL Tube Times/Pods/leveldb-library/table/merger.cc:39-45 | Stands at the last entry of the union. |
| `Merger.MergingIterator.Next` | TFL Tube Times/Pods/leveldb-library/table/merger.cc:55-79 | One on in the union, also after a switch of direction. |
| `Merger.MergingIterator.Prev` | TFL Tube Times/Pods/leveldb-library/table/merger.cc:81-108 | One back in the union, also after a switch of direction. |
| `Merger.MergingIterator.TurnForward` | TFL Tube Times/Pods/leveldb-library/table/merger.cc:63-75 | Switching to forward puts the other children past the current key, and changes nothing for the caller. |
| `Merger.MergingIterator.TurnReverse` | TFL Tube Times/Pods/leveldb-library/table/merger.cc:89-104 | Switching to reverse puts the other children before the current key, and changes nothing for the caller. |
| `TwoLevelIterators.SeekSplits` | TFL Tube Times/Pods/leveldb-library/table/two_level_iterator.cc:82-87 | A seek in the index and one in the block it leads to split the whole table at the target. |
| `TwoLevelIterators.TwoLevelIterator.Seek` | TFL Tube Times/Pods/leveldb-library/table/two_level_iterator.cc:82-87 | Stands at the first pair of all blocks not before the target. |
| `TwoLevelIterators.TwoLevelIterator.SeekToFirst` | TFL Tube Times/Pods/leveldb-library/table/two_level_iterator.cc:89-94 | Stands at the first pair of all blocks. |
| `TwoLevelIterators.TwoLevelIterator.SeekToLast` | TFL Tube Times/Pods/leveldb-library/table/two_level_iterator.cc:96-101 | Stands at the last pair of all blocks. |
| `TwoLevelIterators.TwoLevelIterator.Next` | TFL Tube Times/Pods/leveldb-library/table/two_level_iterator.cc:103-107 | One on in the concatenation of the blocks. |
| `TwoLevelIterators.TwoLevelIterator.Prev` | TFL Tube Times/Pods/leveldb-library/table/two_level_iterator.cc:109-113 | One back in it. |
| `TwoLevelIterators.TwoLevelIterator.InitDataBlock` | TFL Tube Times/Pods/leveldb-library/table/two_level_iterator.cc:146-161 | The open block is the one the index stands at, opened anew only if it is another. |
| `TwoLevelIterators.TwoLevelIterator.SkipForward` | TFL Tube Times/Pods/leveldb-library/table/two_level_iterator.cc:115-126 | From the end of a block to the next pair, if any block has one. |
| `TwoLevelIterators.TwoLevelIterator.SkipBackward` | TFL Tube Times/Pods/leveldb-library/table/two_level_iterator.cc:128-139 | And back. |
| `Coding.VarintRoundTrip` | TFL Tube Times/Pods/leveldb-library/util/coding.cc:81-157 | An encoded number is read back whole, whatever follows it. |
| `Coding.VarintCut` | TFL Tube Times/Pods/leveldb-library/util/coding.cc:112-157 | A cut inside an encoded number leaves no number. |
| `Coding.PrefixedRoundTrip` | TFL Tube Times/Pods/leveldb-library/util/coding.cc:98-101 | A length-prefixed string is read back, with what follows it. |
| `Coding.FixedWords` | TFL Tube Times/Pods/leveldb-library/util/coding.cc:9-33 | 32 and 64-bit numbers are read back from their little-endian bytes. |
| `Coding.EncodeVarint32` | TFL Tube Times/Pods/leveldb-library/util/coding.cc:47-73 | The branches for one to five bytes give the varint. |
| `Coding.EncodeVarint64` | TFL Tube Times/Pods/leveldb-library/util/coding.cc:81-90 | The loop gives the varint. |
| `Coding.VarintLength` | TFL Tube Times/Pods/leveldb-library/util/coding.cc:103-110 | The length of the varint. |
| `Coding.GetVarintPtr` | TFL Tube Times/Pods/leveldb-library/util/coding.cc:112-157 | Decodes any varint of at most the given length, dropping bits past the width, or fails. |
| `Coding.GetVarint32` | TFL Tube Times/Pods/leveldb-library/util/coding.cc:130-140 | The number and the rest of the input, or nothing. |
| `Coding.GetVarint64` | TFL Tube Times/Pods/leveldb-library/util/coding.cc:159-169 | The number and the rest of the input, or nothing. |
| `Coding.GetLengthPrefixedSlice` | TFL Tube Times/Pods/leveldb-library/util/coding.cc:179-190 | The string and the rest of the input, or nothing. |
| `LogFormat.UnmaskMask` | TFL Tube Times/Pods/leveldb-library/util/crc32c.h:29-38 | Unmasking undoes masking, with 32-bit rotation and wrap-around. |
| `LogFormat.ReadRecordAt` | TFL Tube Times/Pods/leveldb-library/db/log_reader.cc:189-271 | A physical record is read back if the file holds all of it; a file that ends inside it ends quietly. |
| `LogFormat.ReadEmitted` | TFL Tube Times/Pods/leveldb-library/db/log_reader.cc:56-174 | A record in any number of fragments is put together again if the file holds all of it, and otherwise ends quietly. |
| `LogFormat.CrashPrefix` | TFL Tube Times/Pods/leveldb-library/db/log_reader.cc:56-271 | For any records and any cut: what is read back is exactly the whole records, in order, with nothing reported. |
| `LogFormat.WholeIsExact` | TFL Tube Times/Pods/leveldb-library/db/log_writer.cc:34-80 | The records counted as whole are those whose bytes fit, and no more. |
| `LogFormat.UncutLog` | TFL Tube Times/Pods/leveldb-library/db/log_reader.cc:56-174 | An uncut log gives back every record. |
| `LogIntegrity.ParsedIsIntact` | TFL Tube Times/Pods/leveldb-library/db/log_reader.cc:240-256 | A physical record is returned only if the checksum stored with it is that of its type and payload. |
| `LogIntegrity.AllGenuine` | TFL Tube Times/Pods/leveldb-library/db/log_reader.cc:56-271 | On any bytes at all: every record read lies in the file, as one full fragment or a first, middle ones and a last in order, each with the right checksum. |
| `LogWriter.Writer.AddRecord` | TFL Tube Times/Pods/leveldb-library/db/log_writer.cc:34-80 | Appends the record, in fragments that fill blocks, with trailers where no header fits. |
| `LogWriter.Writer.EmitPhysicalRecord` | TFL Tube Times/Pods/leveldb-library/db/log_writer.cc:82-108 | Appends one fragment with masked checksum, length and type. |
| `LogReader.Reader.ReadPhysicalRecord` | TFL Tube Times/Pods/leveldb-library/db/log_reader.cc:189-271 | Reading in blocks gives the same record or verdict, position and drops as parsing the file at that place. |
| `LogReader.Reader.ReadRecord` | TFL Tube Times/Pods/leveldb-library/db/log_reader.cc:56-174 | The loop over fragments gives the record, position and drops that the format says, on any file. |
| `WriteBatches.FirstRoundTrip` | TFL Tube Times/Pods/leveldb-library/db/write_batch.cc:98-109 | An update is read back whatever follows it. |
| `WriteBatches.UpdatesConcat` | TFL Tube Times/Pods/leveldb-library/db/write_batch.cc:144-148 | The updates of two bodies in a row are the one's and then the other's. |
| `WriteBatches.WriteBatch.Put` | TFL Tube Times/Pods/leveldb-library/db/write_batch.cc:98-103 | One more update at the end, the count in the header raised, the sequence number untouched. |
| `WriteBatches.WriteBatch.Delete` | TFL Tube Times/Pods/leveldb-library/db/write_batch.cc:105-109 | The same for a deletion. |
| `WriteBatches.WriteBatch.Append` | TFL Tube Times/Pods/leveldb-library/db/write_batch.cc:144-148 | The other batch's updates follow; its header is dropped. |
| `WriteBatches.WriteBatch.Iterate` | TFL Tube Times/Pods/leveldb-library/db/write_batch.cc:42-80 | Hands over the updates in order, and succeeds exactly on well-formed batches. |
| `Recovery.InsertInto` | TFL Tube Times/Pods/leveldb-library/db/write_batch.cc:115-137 | The table gains just what the updates become: for update i an entry with its key and sequence number + i, a value with exactly its bytes for a Put, a deletion marker for a Delete; and it stays sorted. |
| `Recovery.EntriesOfUpdates` | TFL Tube Times/Pods/leveldb-library/db/write_batch.cc:121-128 | What a batch adds is, entry by entry, what its updates say, with nothing else in it. |
| `Recovery.MapIsContents` | TFL Tube Times/Pods/leveldb-library/db/write_batch.cc:98-109 | Looking a byte key up in the map that the store is proved against finds what the last update of the key says: the value of a Put, nothing after a Delete. |
| `Recovery.RecoverLogFile` | TFL Tube Times/Pods/leveldb-library/db/db_impl.cc:371-489 | On any log: succeeds exactly if nothing stops it, then with tables of just the updates of all records; stopped, with tables of the first records; every table is sorted; the largest sequence number is that of the records used. |
| `Recovery.UsableIsPrefix` | TFL Tube Times/Pods/leveldb-library/db/db_impl.cc:412-449 | The records replayed are a prefix of those in the log, up to the first report of dropped bytes or bad batch when errors count, and all of them exactly if there is none. |
| `Recovery.CrashRecovery` | TFL Tube Times/Pods/leveldb-library/db/db_impl.cc:412-439 | Cut the log at any byte: recovery is that of a prefix of the committed groups, and of every byte key a reader then finds what the last update of the key says, over the updates before and those of that prefix. |
| `GroupCommit.BuildBatchGroup` | TFL Tube Times/Pods/leveldb-library/db/db_impl.cc:1260-1306 | The group is as long a queue prefix as sync and size allow, and its batch has all their updates in order. |
| `GroupCommit.RunKeepsInv` | TFL Tube Times/Pods/leveldb-library/db/db_impl.cc:1185-1256 | The protocol's invariant holds in every state of every interleaving. |
| `GroupCommit.LoggedOnceInOrder` | TFL Tube Times/Pods/leveldb-library/db/db_impl.cc:1185-1256 | In every interleaving each write is logged once, in order of arrival, with consecutive sequence numbers. |
| `GroupCommit.ReadersSeeWholeGroups` | TFL Tube Times/Pods/leveldb-library/db/db_impl.cc:1204-1236 | In every interleaving a reader at the published sequence number finds, for every byte key, what the last of the finished writers' updates of it says. |
| `GroupCommit.SyncedSurvives` | TFL Tube Times/Pods/leveldb-library/db/db_impl.cc:1204-1236 | A finished sync write is found by recovery after any crash that keeps what was synced. |
| `GroupCommit.PublishIsWrite` | TFL Tube Times/Pods/leveldb-library/db/db_impl.cc:1185-1256 | Publishing a group is one write step of the store with all the group's updates, and no other step of any writer changes what is published. |
| `FilesAndTails.RunKeepsTails` | TFL Tube Times/Pods/leveldb-library/db/db_impl.cc:535-566 | In every state of every run, files, immutable memtable and memtable split the history: what the logs not yet deleted hold is what the files lack. |
| `FilesAndTails.RunKeepsFiles` | TFL Tube Times/Pods/leveldb-library/db/db_impl.cc:890-963 | Up to any point of any run the files alone showed every live snapshot of what was flushed, in every state, if and only if no compaction on the way uncovered a value in them. |
| `FilesAndTails.ClosedRunsKeepFiles` | TFL Tube Times/Pods/leveldb-library/db/version_set.cc:1378-1422 | In runs whose compactions meet the boundary condition at level + 1 the files alone always show what was flushed. |
| `FilesAndTails.CrashReads` | TFL Tube Times/Pods/leveldb-library/db/db_impl.cc:316-367 | Files, the log of the immutable memtable and any prefix of the writes after it read as the map after those writes. |
| `Reopening.ReplayLogs` | TFL Tube Times/Pods/leveldb-library/db/db_impl.cc:349-362 | Logs are replayed in order; it succeeds exactly if nothing stops any of them, with sorted tables of just their updates. |
| `Reopening.Recover` | TFL Tube Times/Pods/leveldb-library/db/db_impl.cc:311-367 | The files of the version and tables of just the logs' updates, failing exactly if a log stops; the last sequence number is the larger of the one logged and the last one replayed. |
| `Reopening.Reopen` | TFL Tube Times/Pods/leveldb-library/db/db_impl.cc:280-369 | After a crash that cuts the last log anywhere, recovery succeeds, with the files of the version, and every byte key reads as the last update of it says, among a prefix of the writes: all flushed or being flushed, and those wholly in the last log. |
| `MemTables.EncodedOrder` | TFL Tube Times/Pods/leveldb-library/db/memtable.cc:28-34 | Encoded entries compare as the entries they stand for. |
| `MemTables.MemTable.Add` | TFL Tube Times/Pods/leveldb-library/db/memtable.cc:75-98 | The table has the new entry, in its place, and all the old ones. |
| `MemTables.MemTable.Get` | TFL Tube Times/Pods/leveldb-library/db/memtable.cc:100-134 | Answers what the newest entry of the key visible at the snapshot says, from the encoded bytes. |
| `SnapshotLists.SnapshotList.New` | TFL Tube Times/Pods/leveldb-library/db/snapshot.h:57-70 | The ring is relinked with the new snapshot at its end. |
| `SnapshotLists.SnapshotList.Delete` | TFL Tube Times/Pods/leveldb-library/db/snapshot.h:79-86 | The ring is relinked without the snapshot, the rest in order. |
| `SnapshotLists.SnapshotList.Oldest` | TFL Tube Times/Pods/leveldb-library/db/snapshot.h:47-50 | Nothing in the list has a smaller sequence number. |
| `SkipLists.LinkGrows` | TFL Tube Times/Pods/leveldb-library/db/skiplist.h:361-367 | After linking on a level every level is sorted and part of the one below. |
| `SkipLists.HalfLinkGrows` | TFL Tube Times/Pods/leveldb-library/db/skiplist.h:362-366 | Between the two stores the list is as valid as before. |
| `SkipLists.InsertStepGrows` | TFL Tube Times/Pods/leveldb-library/db/skiplist.h:337-368 | After each single store of an insertion the list is valid, has lost nothing, and the insertion can go on. |
| `SkipLists.StepKeeps` | TFL Tube Times/Pods/leveldb-library/db/skiplist.h:262-281 | The read that ends a search ends it with the answer of that moment. |
| `SkipLists.OverlappingSearch` | TFL Tube Times/Pods/leveldb-library/db/skiplist.h:262-281 | A search overlapping any stores of any insertions reads only links that exist, and returns the exact successor of its key as of its last read. |
| `SkipLists.SkipList.FindGreaterOrEqual` | TFL Tube Times/Pods/leveldb-library/db/skiplist.h:262-281 | The first node at or after the key, and the last before it on every level. |
| `SkipLists.SkipList.FindLessThan` | TFL Tube Times/Pods/leveldb-library/db/skiplist.h:285-302 | The last node before the key, or the head. |
| `SkipLists.SkipList.FindLast` | TFL Tube Times/Pods/leveldb-library/db/skiplist.h:305-322 | The last node, or the head. |
| `SkipLists.SkipList.Insert` | TFL Tube Times/Pods/leveldb-library/db/skiplist.h:337-368 | For any height drawn, the contents are the old ones with the entry in its place. |
| `SkipLists.Iterator.Seek` | TFL Tube Times/Pods/leveldb-library/db/skiplist.h:224-226 | Stands at the first node at or after the key. |
| `SkipLists.Iterator.Next` | TFL Tube Times/Pods/leveldb-library/db/skiplist.h:207-210 | One on. |
| `SkipLists.Iterator.Prev` | TFL Tube Times/Pods/leveldb-library/db/skiplist.h:213-221 | One back. |
| `SkipLists.Iterator.SeekToLast` | TFL Tube Times/Pods/leveldb-library/db/skiplist.h:234-239 | Stands at the last node. |
| `HandleTables.HandleTable.FindPointer` | TFL Tube Times/Pods/leveldb-library/util/cache.cc:114-120 | The place of the key in its bucket, or the bucket's end. |
| `HandleTables.HandleTable.Insert` | TFL Tube Times/Pods/leveldb-library/util/cache.cc:78-92 | The map with the key bound to the new handle; returns the one it replaced. |
| `HandleTables.HandleTable.Remove` | TFL Tube Times/Pods/leveldb-library/util/cache.cc:94-102 | The map without the key; returns what was there. |
| `HandleTables.HandleTable.Lookup` | TFL Tube Times/Pods/leveldb-library/util/cache.cc:74-76 | What the map says. |
| `HandleTables.HandleTable.Resize` | TFL Tube Times/Pods/leveldb-library/util/cache.cc:122-146 | The same map in a table of power of two length, large enough. |
| `LruCaches.RefKeeps` | TFL Tube Times/Pods/leveldb-library/util/cache.cc:217-223 | Taking a reference keeps lists, counts, usage and table in step. |
| `LruCaches.UnrefKeeps` | TFL Tube Times/Pods/leveldb-library/util/cache.cc:225-237 | So does giving one back. |
| `LruCaches.DropKeeps` | TFL Tube Times/Pods/leveldb-library/util/cache.cc:307-316 | So does dropping an entry, whose deleter runs at once exactly if nobody holds it. |
| `LruCaches.LRUCache.Lookup` | TFL Tube Times/Pods/leveldb-library/util/cache.cc:252-259 | The entry under the key, with one more reference; it leaves the list of evictable entries, whose order stays. |
| `LruCaches.LRUCache.Release` | TFL Tube Times/Pods/leveldb-library/util/cache.cc:261-264 | One reference less; the deleter runs exactly at the last. An entry that only the cache still holds goes to the newest end of the evictable ones, so that over any run these are in the order of their last release; otherwise that list stays as it is. |
| `LruCaches.LRUCache.Insert` | TFL Tube Times/Pods/leveldb-library/util/cache.cc:266-303 | The entry is cached and held; evicted are the least recently used, each last released before all that stay, no more than needed, until the capacity is met or nothing is left to evict; every other key stays with its entry; deleters run for the evicted ones, in order, and for the replaced entry exactly if nobody holds it. |
| `LruCaches.LRUCache.Erase` | TFL Tube Times/Pods/leveldb-library/util/cache.cc:318-321 | Only that key leaves; its deleter runs exactly if nobody holds it. |
| `LruCaches.LRUCache.Prune` | TFL Tube Times/Pods/leveldb-library/util/cache.cc:323-333 | Exactly the entries that clients hold are left. |
| `BlockBuilders.BlockBuilder.Add` | TFL Tube Times/Pods/leveldb-library/table/block_builder.cc:72-106 | The block holds the old pairs and the new one. |
| `BlockBuilders.BlockBuilder.Finish` | TFL Tube Times/Pods/leveldb-library/table/block_builder.cc:62-70 | The bytes are a block of the pairs, of the size that was estimated. |
| `BlockIters.EntryReads` | TFL Tube Times/Pods/leveldb-library/table/block.cc:54-74 | Every entry is read back as laid out, shared prefix and all. |
| `BlockIters.DecodeEntry` | TFL Tube Times/Pods/leveldb-library/table/block.cc:54-74 | The short form for three one-byte numbers agrees with the long one, checks included. |
| `BlockIters.NewIterator` | TFL Tube Times/Pods/leveldb-library/table/block.cc:254-264 | A finished block opens to an iterator over its pairs. |
| `BlockIters.BlockIter.Seek` | TFL Tube Times/Pods/leveldb-library/table/block.cc:163-201 | Stands at the first pair not before the target, for any restart interval. |
| `BlockIters.BlockIter.FindRestart` | TFL Tube Times/Pods/leveldb-library/table/block.cc:166-189 | The binary search ends at the last restart point whose first key is before the target, or at the first restart point. |
| `BlockIters.BlockIter.Next` | TFL Tube Times/Pods/leveldb-library/table/block.cc:137-140 | One on. |
| `BlockIters.BlockIter.Prev` | TFL Tube Times/Pods/leveldb-library/table/block.cc:142-161 | One back. |
| `BlockIters.BlockIter.SeekToFirst` | TFL Tube Times/Pods/leveldb-library/table/block.cc:203-206 | Stands at the first pair. |
| `BlockIters.BlockIter.SeekToLast` | TFL Tube Times/Pods/leveldb-library/table/block.cc:208-213 | Stands at the last pair. |
| `Bloom.CreateFilter` | TFL Tube Times/Pods/leveldb-library/util/bloom.cc:28-54 | The filter has the size asked for, matches every key, and has no bit set but the keys' probes. |
| `Bloom.KeyMayMatch` | TFL Tube Times/Pods/leveldb-library/util/bloom.cc:56-80 | True exactly if all probes are set, or the filter is of a later kind. |
| `FilterBlocks.FilterBlockBuilder.Finish` | TFL Tube Times/Pods/leveldb-library/table/filter_block.cc:35-49 | The block covers every key that was added, with its offsets. |
| `FilterBlocks.FilterBlockReader.KeyMayMatch` | TFL Tube Times/Pods/leveldb-library/table/filter_block.cc:90-104 | Looks in the filter that the offset index says. |
| `FilterBlocks.NoFalseNegatives` | TFL Tube Times/Pods/leveldb-library/table/filter_block.cc:21-104 | Every key added to a block is found under the block's offset, through the index and the bloom filter. |
| `InternalKeys.ShortestSeparator` | TFL Tube Times/Pods/leveldb-library/util/comparator.cc:29-50 | Which separator is returned, and that it is not before the start and before the limit. |
| `InternalKeys.ShortSuccessor` | TFL Tube Times/Pods/leveldb-library/util/comparator.cc:52-64 | Which successor is returned, and that it is not before the key. |
| `InternalKeys.FindShortestSeparator` | TFL Tube Times/Pods/leveldb-library/db/dbformat.cc:69-86 | The separator sorts between the two keys. |
| `InternalKeys.FindShortSuccessor` | TFL Tube Times/Pods/leveldb-library/db/dbformat.cc:88-101 | The successor is not before the key. |
| `TableLookup.ChunkDecides` | TFL Tube Times/Pods/leveldb-library/table/table.cc:216-244 | Searching just the block the index leads to gives an exact answer for the table. |
| `TableLookup.SkipIsExact` | TFL Tube Times/Pods/leveldb-library/table/table.cc:223-230 | If that block has no entry of the user key, no entry at or after the key has it. |
| `TableFormat.HandleRoundTrip` | TFL Tube Times/Pods/leveldb-library/table/format.cc:15-29 | A block handle is read back, with what follows it. |
| `TableFormat.ReadBlock` | TFL Tube Times/Pods/leveldb-library/table/format.cc:64-139 | With checksums gives contents exactly if they are stored undamaged; without, what is at the handle, exactly if it is within the file and of the uncompressed type. |
| `TableBuilders.TableBuilder.Add` | TFL Tube Times/Pods/leveldb-library/table/table_builder.cc:94-123 | One pair more, in order; a block that reaches its size is written. |
| `TableBuilders.TableBuilder.Flush` | TFL Tube Times/Pods/leveldb-library/table/table_builder.cc:125-139 | Writes the block and loses nothing; the index entry waits for the next key. |
| `TableBuilders.TableBuilder.Finish` | TFL Tube Times/Pods/leveldb-library/table/table_builder.cc:198-253 | The file holds every pair that was added, in blocks with separators, index, filter and footer. |
| `TableReader.FilterIsRight` | TFL Tube Times/Pods/leveldb-library/table/table.cc:223-230 | The filter never hides a block with the user key. |
| `TableReader.Table.Open` | TFL Tube Times/Pods/leveldb-library/table/table.cc:38-82 | A finished file opens to a table of its pairs. |
| `TableReader.Table.InternalGet` | TFL Tube Times/Pods/leveldb-library/table/table.cc:216-244 | Reports the first pair at or after the key, or nothing, and then nothing at or after it has its user key. |
| `StoredTables.SavedAnswers` | TFL Tube Times/Pods/leveldb-library/db/version_set.cc:263-276 | What SaveValue makes of an exact lookup among bytes is what a reader of the entries must be told. |
| `StoredTables.FinishAndOpen` | TFL Tube Times/Pods/leveldb-library/db/builder.cc:39-63 | A table that was built and opened again holds the pairs that were added. |
| `StoredTables.Get` | TFL Tube Times/Pods/leveldb-library/db/table_cache.cc:100-112 | A table of some entries tells every reader what the entries do. |
| `Layouts.RecordBytes` | TFL Tube Times/Pods/leveldb-library/db/log_writer.cc:82-108 | A log record byte by byte. |
| `Layouts.CutAtBlockEnd` | TFL Tube Times/Pods/leveldb-library/db/log_writer.cc:34-80 | A record at the end of a block becomes a first and a last fragment. |
| `Layouts.ZerosAtBlockEnd` | TFL Tube Times/Pods/leveldb-library/db/log_writer.cc:46-55 | Where no header fits the rest of the block is zeros. |
| `Layouts.MaskedWords` | TFL Tube Times/Pods/leveldb-library/util/crc32c.h:22-32 | Masked checksums as numbers. |
| `Layouts.UpdateBytes` | TFL Tube Times/Pods/leveldb-library/db/write_batch.cc:98-109 | The updates of a batch byte by byte. |
| `Layouts.EditBytes` | TFL Tube Times/Pods/leveldb-library/db/version_edit.cc:41-62 | The numbers of a version edit byte by byte. |
| `Layouts.ListBytes` | TFL Tube Times/Pods/leveldb-library/db/version_edit.cc:64-84 | Its pointers, deletions and new files. |
| `Layouts.EntryBytes` | TFL Tube Times/Pods/leveldb-library/table/block_builder.cc:92-99 | A block entry byte by byte. |
| `Layouts.TrailerBytes` | TFL Tube Times/Pods/leveldb-library/table/table_builder.cc:184-189 | The type and checksum behind a block. |
| `Layouts.MagicBytes` | TFL Tube Times/Pods/leveldb-library/table/format.cc:31-40 | The last eight bytes of a table. |
| `Layouts.FilterBlockBytes` | TFL Tube Times/Pods/leveldb-library/table/filter_block.cc:35-49 | A filter block byte by byte. |
| `Layouts.InternalKeyBytes` | TFL Tube Times/Pods/leveldb-library/db/dbformat.cc:16-24 | An internal key byte by byte. |
| `Layouts.ProbesOf` | TFL Tube Times/Pods/leveldb-library/util/bloom.cc:42-52 | The probes of a key are its hash plus multiples of the step. |
| `Layouts.BloomNumbers` | TFL Tube Times/Pods/leveldb-library/util/bloom.cc:17-47 | The step, the number of probes and the size of a filter as numbers. |
| `PbRoundTrip.Varint32RoundTrip` | TFL Tube Times/Pods/nanopb/pb_decode.c:187-247 | A 32-bit varint is read back, whatever follows it. |
| `PbRoundTrip.PlainRoundTrip` | TFL Tube Times/Pods/nanopb/pb_decode.c:1321-1551 | A valid value of any type but submessages is read back, whatever follows it. |
| `PbRoundTrip.EncodesFields` | TFL Tube Times/Pods/nanopb/pb_encode.c:528-550 | Every valid message is encoded. |
| `PbRoundTrip.ZeroIsDefault` | TFL Tube Times/Pods/nanopb/pb_encode.c:240-337 | A field taken for zero and not sent holds its default. |
| `PbRoundTrip.MixedStep` | TFL Tube Times/Pods/nanopb/pb_decode.c:406-483 | Decoding a field changes just its slot or its union. |
| `PbRoundTrip.RoundTrip` | TFL Tube Times/Pods/nanopb/pb_decode.c:928-1090 | For every well-formed descriptor tree and valid message: it encodes, and decoding uses all bytes and gives it back, less what its own flags say is absent. |
| `PbRoundTrip.CheckIsExact` | TFL Tube Times/Pods/nanopb/pb_decode.c:1034-1073 | The check at the end of decoding passes if and only if each of the first 64 required fields was decoded. |
| `PbRoundTrip.StringExact` | TFL Tube Times/Pods/nanopb/pb_encode.c:875-899 | A string is read back if and only if it leaves room for a terminator in its array. |
| `PbFields.ValueSkipped` | TFL Tube Times/Pods/nanopb/pb_decode.c:321-331 | The wire type sent with a value of any type makes the decoder skip just that value. |
| `PbFields.FieldSkipped` | TFL Tube Times/Pods/nanopb/pb_decode.c:985-989 | A field whose tag is not known is passed over, single, packed or item by item, and changes nothing. |
| `PbFields.AnyOrder` | TFL Tube Times/Pods/nanopb/pb_decode.c:928-1076 | Any fields of a valid message in any order, read with a descriptor of any of them: it fails if and only if one of that descriptor's first 64 required fields was not sent; otherwise it has what came of the fields it knows, and defaults for the rest. |
| `PbFields.MissingRequired` | TFL Tube Times/Pods/nanopb/pb_decode.c:1034-1073 | Without one of the first 64 required fields a message is refused, whatever else is sent. |
| `PbFields.OrderIsFree` | TFL Tube Times/Pods/nanopb/pb_decode.c:928-1076 | With every field sent, in any order, the message is read back. |
| `PbFields.UnknownSkipped` | TFL Tube Times/Pods/nanopb/pb_decode.c:966-989 | Decoding a whole message with a descriptor that lacks some of its fields gives the message of the others. |
| `PbFields.WireNumbers` | TFL Tube Times/Pods/nanopb/pb_encode.c:673-713 | The tag of each type ends in 0, 1, 2 or 5, as pb.h:318-323 numbers the wire types. |
| `PbFields.PackedBytes` | TFL Tube Times/Pods/nanopb/pb_encode.c:162-211 | Arrays of numbers are sent packed: one tag, one length, then the items. |
| `PbFields.SilentIfAbsent` | TFL Tube Times/Pods/nanopb/pb_encode.c:341-426 | Nothing is sent of a field if and only if it is absent: never for a required one; a zero without a flag, an empty array, a member that is not selected. |
| `PbFields.SomeBytes` | TFL Tube Times/Pods/nanopb/pb_encode.c:608-713 | Small messages byte by byte: a bool, a varint, minus one in ten bytes, a zigzag number, a string. |
| `PbFields.FixedSent` | TFL Tube Times/Pods/nanopb/pb_encode.c:646-713 | The same for the fixed 32-bit and 64-bit numbers. |
| `PbValidity.DecodesToValid` | TFL Tube Times/Pods/nanopb/pb_decode.c:1321-1551 | Whatever the input, a decoded message is valid: numbers in range, strings terminated within their arrays, arrays within their maximum, oneof tags those of members. |
| `PbValidity.DecodedIsSentOn` | TFL Tube Times/Pods/nanopb/pb_decode.c:1078-1090 | So whatever was decoded encodes, and decoding that gives it back, less what its flags say is absent. |
| `PbEncoder.OStream.EncodeVarint` | TFL Tube Times/Pods/nanopb/pb_encode.c:608-628 | Writes the varint, or fails exactly if it does not fit. |
| `PbEncoder.EncodeSubmessage` | TFL Tube Times/Pods/nanopb/pb_encode.c:717-765 | Sizing pass, length and writing pass agree at every depth: it fails only if the message has no encoding or there is no room. |
| `PbEncoder.EncodeRepeated` | TFL Tube Times/Pods/nanopb/pb_encode.c:147-236 | Packed or not, writes just the items, or fails exactly if there is no room or no encoding. |
| `PbEncoder.EncodeBasicField` | TFL Tube Times/Pods/nanopb/pb_encode.c:341-426 | Writes the field's encoding, or nothing exactly if the field is absent (PbFields.SilentIfAbsent); the tag has the wire type of PbFields.WireNumbers. |
| `PbEncoder.PbEncode` | TFL Tube Times/Pods/nanopb/pb_encode.c:528-550 | Writes exactly the encoding that PbFields.UnknownSkipped and PbFields.WireNumbers are about, or counts it when sizing; succeeds exactly if there is one that fits. |
| `PbEncoder.GetEncodedSize` | TFL Tube Times/Pods/nanopb/pb_encode.c:567-576 | The length of the encoding, or that there is none. |
| `PbDecoder.IStream.DecodeVarint32` | TFL Tube Times/Pods/nanopb/pb_decode.c:187-252 | Reads what the format says on any input, with sign extension and overflow checks. |
| `PbDecoder.IStream.DecodeVarint` | TFL Tube Times/Pods/nanopb/pb_decode.c:255-275 | The same for 64 bits. |
| `PbDecoder.IStream.SkipField` | TFL Tube Times/Pods/nanopb/pb_decode.c:321-331 | Skips just one field of the wire type, or fails. |
| `PbDecoder.IStream.MakeStringSubstream` | TFL Tube Times/Pods/nanopb/pb_decode.c:372-385 | The substream has just the bytes of the length; the parent has the ones behind it. |
| `PbDecoder.IStream.CloseStringSubstream` | TFL Tube Times/Pods/nanopb/pb_decode.c:387-400 | The parent goes on behind the substream, whatever was left in it. |
| `PbDecoder.WordExact` | TFL Tube Times/Pods/nanopb/pb_decode.c:1054-1072 | A word of the bitmap is full exactly if all its required fields were seen. |
| `PbDecoder.AllRequired` | TFL Tube Times/Pods/nanopb/pb_decode.c:1034-1073 | True exactly if the first 64 required fields were all seen. |
| `PbDecoder.FieldIter.FindTag` | TFL Tube Times/Pods/nanopb/pb_common.c:78-95 | Once around from anywhere: stands at a field of the tag, or there is none and it stands where it did. |
| `PbDecoder.FieldIter.CountRequired` | TFL Tube Times/Pods/nanopb/pb_decode.c:1039-1049 | From anywhere, the number of required fields. |
| `PbDecoder.DecodeOne` | TFL Tube Times/Pods/nanopb/pb_decode.c:1321-1551 | Reads just the value of the type, or fails, on any input. |
| `PbDecoder.DecodeStaticField` | TFL Tube Times/Pods/nanopb/pb_decode.c:406-483 | Sets just the field's slot or union, packed and unpacked arrays within their maximum. |
| `PbDecoder.DecodeNoinit` | TFL Tube Times/Pods/nanopb/pb_decode.c:928-1076 | On any input, fields in any order: the message the format says, or failure, in particular when a required field is missing; what is left of the input is what follows a zero tag. |
| `PbDecoder.PbDecode` | TFL Tube Times/Pods/nanopb/pb_decode.c:1078-1090 | The same, starting from the defaults: the decoding that PbFields.AnyOrder and PbValidity.DecodesToValid are about. |

## Left out

Taken as given, or modelled in another form:

- Each flush and each compaction is one atomic step; the flush of the immutable memtable from inside the compaction
  loop (db/db_impl.cc:907-918) is a step before or after it.
- User keys are real numbers in the store model. `Comparator.RankOrder` embeds byte strings with the bytewise order;
  `MemTables` and `StoredTables` work on the bytes.
- What a table file holds is part of a `File` in the store model, so that `Version.Get` looks entries up in it.
  `StoredTables.Get` is the same lookup from the bytes of the file.
- `DbIter.DBIter` runs over `Merger.MergingIterator`, which runs over plain cursors. That block, table and skip list
  iterators behave as such cursors is proved for each, but there is no common type to put them in their place.
- The merged input of a compaction is built by insertion; `Merger.MergingIterator` is proved on its own.
- `std::sort`, `std::upper_bound` and `std::set` are simple loops or functions with their contracts. So is the order of
  files by smallest key, and the memtable's table in `MemTables`, a sorted sequence in place of the skip list.
- Pointers of the skip list and the cache are indices; the cache's intrusive lists are sequences, and its values and
  deleter functions are left out: that a deleter runs is an entry in a list. `SnapshotLists` has real links.
- Bit operations are arithmetic. Widths are explicit where values wrap: varints, checksum masks, probes, tags.
- Which level to compact, sizes of files, whether a memtable is full, the height of a node, the checksum and the bloom
  hash are parameters: the results hold for all of them.
- Sequence numbers stay below 2^56 - 1, strings and blocks below 2^32 bytes, files below 2^64. The C++ code does not
  check these.

Not modelled:

- I/O errors, background errors and failed writes; files are byte strings that may be cut short.
- Corrupted tables and filters, beyond what `TableFormat.ReadBlock` does with a damaged block. The log reader and the
  decoders of batches, edits and messages are modelled on all inputs.
- Threads and memory orderings: the writers' queue and the skip list are interleavings of atomic steps.
- `MakeRoomForWrite` apart from the switch, seek compactions, compaction scores, write throttling.
- Log files with an initial offset, log and MANIFEST reuse, comparator names in edits, `repair.cc`, `dumpfile.cc`.
- Snappy, the block cache's part in `Table::BlockReader`, sharding of the cache.
- `Reopening.Reopen`: the tables replayed are not entered in a version again, and the log of the immutable memtable is
  taken to be whole, though a switch does not sync it and a machine crash may cut it.
- `PbRoundTrip.RoundTrip`: messages that are 2^32 bytes long or longer encode, but their decoding is not stated, as
  lengths are read as 32 bits.
- nanopb callbacks, extensions, pointer fields, fixed count arrays, builds without 64-bit numbers. The bit position of
  `pb_decode_varint32` may wrap on a varint padded to 37 bytes or more; here it does not.
- nanopb takes the size of a packed fixed32 or fixed64 array as 4 or 8 times the count; here it is counted as for the
  other types, with the same result.
- The bytes of unused array tails and of union members that are not selected.
- The Swift app and its network code.
