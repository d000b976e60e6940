# A verified model of the storage engine and the message codec

The application keeps data through two C and C++ libraries it ships: LevelDB, a log-structured merge-tree store, and
nanopb, a Protocol Buffers codec for fixed C structs. This project models both in Dafny and proves what they are for.

## What is modelled

**Reads.** An entry is a user key, a sequence number, a kind (value or deletion) and a value. A read of a key at a
snapshot means: the newest entry of that key at or below the snapshot, over all entries; not found if that is a deletion
or there is none (`InternalKeys`). `Versions` proves that `Version::Get` gives that answer while it looks at only one
file per deeper level, and states the invariant this needs.

**Compaction.** `Inputs` models the selection of input files with the measures that make its loops end, `Compactions`
the merge loop with its tombstone check, `Builders` and `Installs` the edit that replaces inputs by outputs, and `Stores`
the whole store as a state machine: writes, memtable switches, flushes, trivial moves, compactions that run beside all
of that, snapshots. `Boundaries` says in terms of file bounds when a compaction exposes a key, `StoreRuns` proves that
over every run whose compactions expose none, what is left answers every read at or above the oldest snapshot as the
complete write history does, and `DeletedKeys` is a run that ends in one that does.

**Cursors.** `Merging` proves that the merging iterator is one cursor over the sorted union of its children, and
`DBIterators` that the user-facing iterator is a cursor over exactly the live keys of its snapshot, both through any mix
of seeks and steps with changes of direction.

**Concurrency.** `WriteQueue` models group commit with one step between any two points where the mutex or the log is
released: batches are applied once, in queue order, visible all or not at all, and no writer is stranded. `Background`
models the scheduling of the background thread and who wakes whom.

**Durability.** `LogFormat`, `LogWriter` and `LogReader` model the log in bytes and prove that after a cut at any byte
exactly the whole records come back. On top of that, `WriteBatches` and `Recoveries` take a crash in any state of the
write queue to the recovered memtable, `VersionEdits` and `Manifests` take a crash while a manifest is written to the
recovered version, and `Journals` proves that this is the version the running store had after the last edit left.

**Tables and memory structures.** `Blocks` and `BlockIterators` (prefix-compressed blocks with restart points), `Blooms`
and `Filters`, `Separators`, `Tables` and `TwoLevelIterators` (an index of shortened keys that agrees with a scan),
`SkipLists` (searches interleaved with the single stores of an insertion), `HandleTables` and `Caches` (the LRU cache
and its hash table).

**nanopb.** `Wire`, `Messages` and `Parsing` say what encoding and decoding by a descriptor mean and prove that they
invert each other; `Encoders` and `Decoders` are the stream code, with its dry runs, substreams and wrap-around field
iterator, proved to do just that for any input. `Varints`, `Sending`, `Shapes` and `Received` say, apart from those
definitions, what is sent and what is left out, which bytes are accepted, and what a struct is like after any of them.

Classes stand for the classes and structs the code updates in place, with their fields and loops; state machines stand
for what several threads do; functions say what a method has to compute.

## Where the code does not do what it is meant to

- A compaction can bring a deleted key back. `DoCompactionWork` drops an obsolete deletion on the ground that older data
  of its key in the levels being compacted is dropped with it (the comment at `db/db_impl.cc:952-958`), but
  `SetupOtherInputs` closes only the first level of its inputs under shared user keys (`db/version_set.cc:1407`), not the
  next one (line 1410). `Boundaries.UncoversIffExposes` is the exact condition on files and inputs in every state a run
  can reach, `Boundaries.ApartNeverExposes` and `StoreRuns.ApartRunReads` rule the failure out from the file bounds
  alone, and `DeletedKeys.DeletedKeyReturns` is a run from an empty store in which it happens.
- A manual compaction request can be withdrawn while the compaction that serves it still runs
  (`Background.WithdrawnRequest`); `Background.OnlyCancelLosesRequest` says exactly when.
- `pb_field_iter_find` (pb_common.c:78-95) finds tag 0 in a descriptor without fields, because there the iterator stands
  on the terminator; such a record is then not skipped by its wire type but decoded as a varint.
  `Parsing.UnknownIsSkippedIff` is the exact condition, `Parsing.TerminatorTakesRecord` an instance.
- nanopb encodes a string that fills its whole array, but does not decode it (`Shapes.RoundTripIff`, with the
  instance `Parsing.StringFillsArray`).
- The log reader uses the type numbers 5 and 6 for its own answers end of file and bad record (`db/log_reader.h:65-73`), so
  a record of type 5 with a right checksum, which no writer writes, ends the reading (`LogReader.Reader.ReadRecord`).
- `VersionEdit::Clear` keeps the compaction pointers, so decoding gives the edit back exactly if there were none
  (`VersionEdits.EditRoundTripIff`, with the instance `VersionEdits.PointerStays`).

## Conventions

A user key is a real number that stands for its position in the comparator's order (every countable total order embeds
in the reals) wherever only the order matters; in `Separators`, `Tables`, `Blocks`, `Filters`, `WriteBatches` and
`VersionEdits` keys are byte strings. The checksum and the hash are arbitrary functions, so the results hold for the
real ones. Files are byte strings, and the tables of a version carry their entries. Bytes, 32-bit and 64-bit words are
bounded integers, and sums that wrap around in the code are reduced explicitly. A bitwise or of disjoint bits is written
as a sum.

## Model

| member | source | states |
|---|---|---|
| InternalKeys.NewestExists | Access/Pods/leveldb-library/db/dbformat.cc:51-67 | a key with any entry at or below a snapshot has a newest one, so the reference answer of a read is defined |
| InternalKeys.ReadCases | Access/Pods/leveldb-library/db/version_set.cc:263-276 | the reference answer is the value of the newest visible entry, or not found if that is a deletion or nothing is visible |
| Versions.VersionDistinct | Access/Pods/leveldb-library/db/version_set.cc:336-340 | in a version that satisfies the invariant no user key has two entries with one sequence number, across all files of all levels |
| Versions.FindFile | Access/Pods/leveldb-library/db/version_set.cc:88-106 | binary search finds the first file whose largest key is not before the key: every earlier file ends before it, no later one does |
| Versions.SomeFileOverlapsRange | Access/Pods/leveldb-library/db/version_set.cc:122-160 | true exactly if some file touches the user-key range, whether found by binary search on a sorted level or by a scan of level 0 |
| Versions.FirstAtOrAfter | Access/Pods/leveldb-library/table/table.cc:216-244 | the first entry of a table at or after a key, which is what a table lookup hands to Version::Get |
| Versions.NewestFirstSorted | Access/Pods/leveldb-library/db/version_set.cc:278-280 | sorting the candidate level-0 files puts higher file numbers first and loses none |
| Versions.SearchEntries | Access/Pods/leveldb-library/db/memtable.cc:100-134 | seeking to (key, snapshot) and comparing the user key finds the newest visible entry of sorted entries, or proves there is none |
| Versions.FilesCovering | Access/Pods/leveldb-library/db/version_set.cc:344-359 | the level-0 files not considered hold nothing of the key |
| Versions.FirstHit | Access/Pods/leveldb-library/db/version_set.cc:382-414 | files are asked in order until the first that holds a visible entry; all before it hold none |
| Versions.SearchLevel0 | Access/Pods/leveldb-library/db/version_set.cc:344-360 | the first level-0 file with an answer holds the newest one: every other level-0 file has only older entries of the key or none |
| Versions.LevelSearchComplete | Access/Pods/leveldb-library/db/version_set.cc:361-381 | on a sorted level one binary-searched file suffices: the files before it hold nothing visible and the files behind it only older entries |
| Versions.Get | Access/Pods/leveldb-library/db/version_set.cc:326-421 | looking at newest-first level-0 files and one file per deeper level, stopping at the first hit, gives the newest entry at or below the snapshot over all entries of the version |
| Inputs.GetOverlappingInputs | Access/Pods/leveldb-library/db/version_set.cc:519-559 | the restart loop ends; at level 0 it ends with the least range around the request that no file sticks out of, and with exactly the files touching that range; below level 0 with exactly the files touching the request |
| Inputs.StickingShrinks | Access/Pods/leveldb-library/db/version_set.cc:537-556 | the measure of the restart loop: widening the range to a file's end leaves strictly fewer files sticking out of it |
| Inputs.SizesAddUp | Access/Pods/leveldb-library/db/version_set.cc:60-67 | the size of a list of files is the sum of their own sizes |
| Inputs.GetRange | Access/Pods/leveldb-library/db/version_set.cc:1205-1227 | the smallest and largest keys are keys of inputs and bound all inputs |
| Inputs.FindLargestKey | Access/Pods/leveldb-library/db/version_set.cc:1326-1340 | the largest key of the files, or none if there are no files |
| Inputs.FindSmallestBoundaryFile | Access/Pods/leveldb-library/db/version_set.cc:1344-1358 | the boundary file with the smallest key, found exactly if there is a boundary file |
| Inputs.AddBoundaryInputs | Access/Pods/leveldb-library/db/version_set.cc:1378-1401 | the search loop ends, keeps the inputs, adds only files that lie past the largest key so far with the same user key, and leaves no such file; an empty list stays empty |
| Inputs.StartingPastShrinks | Access/Pods/leveldb-library/db/version_set.cc:1385-1400 | the measure of the boundary loop: each file added leaves strictly fewer files starting past the largest key, so none is added twice |
| Inputs.ChosenIsClosed | Access/Pods/leveldb-library/db/version_set.cc:1403-1410 | a choice that has no boundary file shares a user key with a left-out file of its level only if that file is newer |
| Inputs.NextLevelOutside | Access/Pods/leveldb-library/db/version_set.cc:1409-1410 | every next-level file left out of a compaction lies wholly before or wholly behind all its inputs in internal-key order (not in user-key order) |
| Inputs.OverlappingIsSlice | Access/Pods/leveldb-library/db/version_set.cc:519-559 | on a sorted level the files touching a range are neighbours |
| Inputs.SetupOtherInputs | Access/Pods/leveldb-library/db/version_set.cc:1403-1462 | the inputs are closed, the next level's overlap is taken, and the inputs grow exactly if that adds files, stays within the limit and draws in no more next-level files; what results is closed at its level and keeps the files picked |
| Inputs.GrowthIs | Access/Pods/leveldb-library/db/version_set.cc:1424-1445 | growing keeps the first inputs and leaves the next level's share as it is; it happens only if it adds files and all inputs together stay below the limit, and is left only if there is no next-level share or one of these fails |
| Inputs.CompactRangeInputs | Access/Pods/leveldb-library/db/version_set.cc:1464-1495 | a manual range gives at level 0 all files of the least closed range, and below it the shortest run of touching files that reaches the size limit; nothing only if no file touches the range |
| Inputs.EnoughBytes | Access/Pods/leveldb-library/db/version_set.cc:1471-1485 | the cut keeps the shortest nonempty run of files that reaches the size limit |
| Inputs.PickLevelForMemTableOutput | Access/Pods/leveldb-library/db/version_set.cc:491-516 | a level at most 2; if it is not 0, no file from level 0 down to it touches the range and the files two levels below every level passed overlap it by no more than the grandparent limit; a level short of 2 is where a file touched or that limit was passed |
| Builders.Builder.Apply | Access/Pods/leveldb-library/db/version_set.cc:650-692 | an edit's additions erase their own numbers from the deletions recorded so far, level by level; other levels are untouched |
| Builders.Builder.SaveTo | Access/Pods/leveldb-library/db/version_set.cc:695-739 | each level of the new version is the merge of base and added files without the deleted ones |
| Builders.SaveMembers | Access/Pods/leveldb-library/db/version_set.cc:695-754 | a saved level has exactly the base and added files whose numbers are not deleted |
| Builders.SaveSorted | Access/Pods/leveldb-library/db/version_set.cc:695-754 | a saved level is strictly sorted by smallest key and number if both sources are and no kept base file shares a number with an added one |
| Builders.SavedOrder | Access/Pods/leveldb-library/db/version_set.cc:593-605 | in a saved level files ascend by smallest key, and by number where they start with the same key |
| Builders.RecoveryIsInstallation | Access/Pods/leveldb-library/db/version_set.cc:924-1000 | for any edits, not only a store's: replaying all of them through one builder gives each level that installing them in turn gives, if no edit adds a file number to a level that held it before |
| Builders.ReAddedFileReturns | Access/Pods/leveldb-library/db/version_set.cc:684-690 | edits no store writes, starting from an empty version: add a file, delete it, add a file with its number and a later place; one builder ends with both files, installing in turn with the second alone |
| Builders.SnapshotRestores | Access/Pods/leveldb-library/db/version_set.cc:1088-1116 | the snapshot record at the head of a manifest, applied to nothing, gives every level back |
| Builders.RecoverRestores | Access/Pods/leveldb-library/db/version_set.cc:1088-1116 | recovery from a snapshot record and later edits gives each level that installing those edits on the version gives |
| Journals.RecoversCurrent | Access/Pods/leveldb-library/db/version_set.cc:924-1000 | at every moment of every run of the store, replaying the manifest (snapshot record, then the edits logged) through one builder gives exactly the store's current version, level by level |
| Journals.PrefixRecovers | Access/Pods/leveldb-library/db/version_set.cc:924-1000 | whatever whole edits a crash leaves at the front of the manifest, one builder recovers from them exactly the version the store had after the last of them |
| Journals.EveryRunHasJournal | Access/Pods/leveldb-library/db/version_set.cc:834-850 | every run of the store is the store part of a run that logs, step by step, the edits of its flushes, moves and compactions behind a snapshot record |
| Journals.NextKeeps | Access/Pods/leveldb-library/db/version_set.cc:801-888 | every step keeps: the version is what installing the logged edits in turn gives, no edit adds a number to a level that held it before, and no live file is above a level its number was ever added to |
| VersionEdits.GetPutItem | Access/Pods/leveldb-library/db/version_edit.cc:107-197 | every kind of tagged item of an edit decodes to itself, whatever follows it |
| VersionEdits.ItemBytesAre | Access/Pods/leveldb-library/db/version_edit.cc:13-85 | the bytes of every kind of item, with its number in front: 1 to 7 and 9 |
| VersionEdits.OtherItemsRefused | Access/Pods/leveldb-library/db/version_edit.cc:97-197 | any other number, and any level from 7 on, is refused |
| VersionEdits.LastItemDecides | Access/Pods/leveldb-library/db/version_edit.cc:107-197 | one more item at the end of a record overwrites the name or the counter it is for, or adds to its list or set, and changes nothing else |
| VersionEdits.EditRoundTrip | Access/Pods/leveldb-library/db/version_edit.cc:41-85 | decoding an encoded edit gives all of its fields back, the deleted files in set order; compaction pointers already in the object stay in front, because Clear does not clear them |
| VersionEdits.EditRoundTripIff | Access/Pods/leveldb-library/db/version_edit.cc:26-39 | decoding an encoded edit into a used object gives that edit back if and only if the object had no compaction pointers |
| VersionEdits.PointerStays | Access/Pods/leveldb-library/db/version_edit.cc:26-39 | an object with one compaction pointer into which the edit without items is decoded: the pointer stays |
| VersionEdits.InsertLast | Access/Pods/leveldb-library/db/version_edit.cc:166-172 | inserting ascending pairs into the ordered set appends them, so the set is rebuilt in its own order |
| VersionEdits.VersionEdit.Clear | Access/Pods/leveldb-library/db/version_edit.cc:26-39 | every field but the compaction pointers is reset |
| VersionEdits.VersionEdit.EncodeTo | Access/Pods/leveldb-library/db/version_edit.cc:41-85 | the bytes appended are the items of the edit in the fixed order; what was in the buffer stays |
| VersionEdits.VersionEdit.DecodeFrom | Access/Pods/leveldb-library/db/version_edit.cc:107-205 | succeeds exactly on sequences of known, complete items and then has applied them in order to the cleared fields |
| Manifests.DecodedLevels | Access/Pods/leveldb-library/db/version_edit.cc:97-105 | whatever bytes are decoded, the levels named are levels there are, so replay never indexes outside the builder |
| Manifests.ReadEdit | Access/Pods/leveldb-library/db/version_set.cc:933-943 | for any bytes: accepted exactly if they decode to an edit of this comparator or of none, and then that edit, whose levels are levels there are; an edit written under this comparator is read back as it was |
| Manifests.ReadEdits | Access/Pods/leveldb-library/db/version_set.cc:926-969 | for any bytes: if nothing fails, the builder and the counters are those of edits that stand in the file, in order and with right checksums; over what a crash left of a manifest nothing fails and those are exactly the edits wholly there |
| Manifests.CountersAre | Access/Pods/leveldb-library/db/version_set.cc:945-969 | each counter has the value of the last edit that sets it, or none if no edit does |
| Manifests.EditSays | Access/Pods/leveldb-library/db/version_set.cc:665-692 | the files an edit deletes and adds are the pairs and files it lists |
| Manifests.Recover | Access/Pods/leveldb-library/db/version_set.cc:886-1000 | for any bytes, what is recovered is what edits say that stand in the file with right checksums; from a manifest cut at any byte: fails exactly if the whole edits never set one of the three required counters, and otherwise gives the files and counters that installing those edits in turn gives |
| Journals.Reopen | Access/Pods/leveldb-library/db/version_set.cc:886-1000 | from the bytes a crash left of a run's manifest, Recover either lacks a counter or gives exactly the version the store had after the last edit that is wholly there |
| Compactions.Compaction.constructor | Access/Pods/leveldb-library/db/version_set.cc:1497-1507 | a new compaction's level cursors start at the front |
| Compactions.Compaction.IsBaseLevelForKey | Access/Pods/leveldb-library/db/version_set.cc:1533-1552 | for keys asked in ascending order, cursors that only move forward answer exactly whether no file two or more levels down covers the key |
| Compactions.DropEntry | Access/Pods/leveldb-library/db/db_impl.cc:946-961 | an entry is dropped exactly if a newer one of its key is visible to every snapshot, or it is a deletion at or below the smallest snapshot and no file two or more levels down has its key in range |
| Compactions.DoCompactionWork | Access/Pods/leveldb-library/db/db_impl.cc:903-1007 | an input entry is in the outputs exactly if no newer input entry of its key is at or below the smallest snapshot and, if it is a deletion at or below that, some file two or more levels down has its key in range; the outputs are sorted, and each is a nonempty table with its own number and its first and last keys as bounds |
| Compactions.KeptMembers | Access/Pods/leveldb-library/db/db_impl.cc:930-997 | an entry survives exactly if some place of the stream holds it and that place is not dropped |
| Compactions.KeptIff | Access/Pods/leveldb-library/db/db_impl.cc:946-997 | the same about the kept part of any sorted stream, by what the entries are instead of where they stand |
| Compactions.KeptSorted | Access/Pods/leveldb-library/db/db_impl.cc:930-997 | the survivors stay sorted and are input entries |
| Compactions.UncoveredReads | Access/Pods/leveldb-library/db/db_impl.cc:948-959 | a read answered by a dropped deletion is not found before and afterwards whatever the data left alone says at the smallest snapshot |
| Compactions.CoveredReads | Access/Pods/leveldb-library/db/db_impl.cc:906-999 | if the compaction uncovers nothing of a key, every read of it at or above the smallest snapshot answers as before |
| Compactions.CompactionPreservesReadsIff | Access/Pods/leveldb-library/db/db_impl.cc:906-999 | for every key and every snapshot at or above the smallest one, reads of the survivors plus the untouched data agree with reads before the compaction if and only if no dropped deletion uncovers a value in the untouched data |
| Boundaries.UncoversIffExposes | Access/Pods/leveldb-library/db/version_set.cc:1403-1422 | in every state that satisfies the store invariant, a compaction uncovers a key if and only if: an input of the next level ends with that user key, the next file of that level is left out and starts with a value of it, the inputs' newest entry of it at the smallest snapshot is an obsolete deletion, and neither memory nor a left-out file at or above the compaction's level has an entry of it that the snapshot sees |
| Boundaries.ApartNeverExposes | Access/Pods/leveldb-library/db/version_set.cc:1403-1422 | if no left-out next-level file starts with a user key that a next-level input ends with, a compaction exposes no key |
| DeletedKeys.DeletedKeyReturns | Access/Pods/leveldb-library/db/version_set.cc:1403-1411 | a run from an empty store reaches a compaction whose inputs are the ones SetupOtherInputs picks under any limit and whose outputs are the ones the merge loop writes; a key deleted before it reads as not found before it and as its old value after it: the comment in DoCompactionWork is wrong there |
| Installs.StoredIsOk | Access/Pods/leveldb-library/db/version_set.cc:741-754 | the invariant on files by membership is the one reads rely on plus a sorted level 0 |
| Installs.SelectedIsInputsOk | Access/Pods/leveldb-library/db/version_set.cc:1403-1462 | inputs as selected are version files, closed at their level, with next-level files left out lying outside them |
| Installs.CompactionReplaces | Access/Pods/leveldb-library/db/db_impl.cc:860-876 | installing a compaction takes exactly the inputs out and puts exactly the outputs in, one level down; all other files stay |
| Installs.InstallKeepsStored | Access/Pods/leveldb-library/db/db_impl.cc:860-876 | the version after a compaction again satisfies everything reads rely on: sorted disjoint levels, newer above older, unique numbers |
| Installs.FlushKeepsStored | Access/Pods/leveldb-library/db/db_impl.cc:491-533 | adding a flushed table at the level picked keeps the invariant and adds exactly that file |
| StoreRuns.WriteKeepsInv | Access/Pods/leveldb-library/db/db_impl.cc:1185-1256 | inserting a batch under the next sequence numbers keeps the store invariant: what is left answers every read at or above the oldest snapshot as the whole history does |
| StoreRuns.SwitchKeepsInv | Access/Pods/leveldb-library/db/db_impl.cc:1348-1366 | making the memtable immutable keeps the store invariant |
| StoreRuns.FlushKeepsInv | Access/Pods/leveldb-library/db/db_impl.cc:535-566 | replacing the immutable memtable by a table at the level picked keeps the store invariant |
| StoreRuns.MoveKeepsInv | Access/Pods/leveldb-library/db/db_impl.cc:719-734 | a trivial move keeps the store invariant |
| StoreRuns.BeginKeepsInv | Access/Pods/leveldb-library/db/db_impl.cc:884-898 | starting a compaction with the oldest snapshot keeps the store invariant |
| StoreRuns.FinishKeepsInv | Access/Pods/leveldb-library/db/db_impl.cc:1030-1036 | installing the outputs of a compaction that ran beside writes, switches and new snapshots keeps the store invariant, if the compaction exposes no key, a condition on file bounds and on the inputs' newest entry |
| StoreRuns.AbandonKeepsInv | Access/Pods/leveldb-library/db/db_impl.cc:1033-1036 | a failed compaction keeps the store invariant |
| StoreRuns.SnapshotKeepsInv | Access/Pods/leveldb-library/db/snapshot.h:57-70 | appending a snapshot keeps the list ascending and the store invariant |
| StoreRuns.ReleaseKeepsInv | Access/Pods/leveldb-library/db/snapshot.h:79-86 | removing any snapshot keeps the list ascending and the store invariant, although the oldest snapshot may move up |
| StoreRuns.NextKeepsInv | Access/Pods/leveldb-library/db/db_impl.cc:688-767 | every step of the store keeps the invariant, a compaction's end if it exposes no key |
| StoreRuns.SnapshotsAreKept | Access/Pods/leveldb-library/db/snapshot.h:57-86 | a step takes one snapshot, of the present, or gives one up, or leaves them all; a compaction starts with the oldest snapshot, or with the present if there is none, and keeps that and its inputs until it ends |
| StoreRuns.JobMayFail | Access/Pods/leveldb-library/db/db_impl.cc:1033-1036 | a running compaction may fail at any moment, which ends it and changes nothing else |
| StoreRuns.RunInv | Access/Pods/leveldb-library/db/db_impl.cc:688-767 | the invariant holds in every state of every run from an empty store whose compactions expose no key |
| StoreRuns.ApartRunReads | Access/Pods/leveldb-library/db/version_set.cc:1403-1422 | over every run whose compactions leave no next-level file that starts with a user key a next-level input ends with, a purely structural condition on file bounds, what is left answers every read at or above the oldest snapshot as the complete history does |
| StoreRuns.Get | Access/Pods/leveldb-library/db/db_impl.cc:1100-1145 | memtable, immutable memtable and version together answer any read at or above the oldest snapshot as the complete write history does |
| StoreRuns.SnapshotReadsAreStable | Access/Pods/leveldb-library/db/db_impl.cc:1166-1174 | along every run, a read at a sequence number that stays at or above the oldest snapshot keeps its answer through writes, flushes, moves and compactions |
| DBIterators.ShownIsSnapshot | Access/Pods/leveldb-library/db/db_iter.cc:168-198 | the entries shown are exactly the live user keys of the snapshot with the values a read returns |
| DBIterators.ShownAscending | Access/Pods/leveldb-library/db/db_iter.cc:168-198 | shown entries are strictly ascending in user key |
| DBIterators.NextPrevInverse | Access/Pods/leveldb-library/db/db_iter.cc:141-225 | one shown entry is the next of another exactly if the other is its previous one |
| DBIterators.DBIter.Item | Access/Pods/leveldb-library/db/db_iter.cc:64-71 | key and value are those of the entry the iterator is on, whichever direction it moves and wherever its inner cursor stands |
| DBIterators.DBIter.FindNextUserEntry | Access/Pods/leveldb-library/db/db_iter.cc:168-198 | skipping hidden, deleted and too new entries ends on the first shown entry above the bound, or at the end if there is none |
| DBIterators.DBIter.FindPrevUserEntry | Access/Pods/leveldb-library/db/db_iter.cc:227-267 | scanning backwards ends on the last shown entry before the start, with key and value saved, or at the end if there is none |
| DBIterators.DBIter.SeekToFirst | Access/Pods/leveldb-library/db/db_iter.cc:283-292 | on the first shown entry |
| DBIterators.DBIter.SeekToLast | Access/Pods/leveldb-library/db/db_iter.cc:294-299 | on the last shown entry |
| DBIterators.DBIter.Seek | Access/Pods/leveldb-library/db/db_iter.cc:269-281 | on the first shown entry at or after the target |
| DBIterators.DBIter.Next | Access/Pods/leveldb-library/db/db_iter.cc:141-166 | on the first shown entry with a greater user key, also right after moving backwards |
| DBIterators.DBIter.Prev | Access/Pods/leveldb-library/db/db_iter.cc:200-225 | on the last shown entry before, also right after moving forwards |
| Merging.SplitStep | Access/Pods/leveldb-library/table/merger.cc:55-79 | passing one entry of the union moves the split of exactly the list that owns it |
| Merging.MergingIterator.constructor | Access/Pods/leveldb-library/table/merger.cc:15-25 | distinct children over lists that make up the sorted union; the iterator is nowhere yet |
| Merging.MergingIterator.FindSmallest | Access/Pods/leveldb-library/table/merger.cc:148-161 | with the children at a split, the smallest current entry is the next entry of the union |
| Merging.MergingIterator.FindLargest | Access/Pods/leveldb-library/table/merger.cc:163-176 | with the children one before a split, the largest current entry is the previous entry of the union |
| Merging.MergingIterator.SeekToFirst | Access/Pods/leveldb-library/table/merger.cc:31-37 | on the first entry of the union, from any state of the children |
| Merging.MergingIterator.SeekToLast | Access/Pods/leveldb-library/table/merger.cc:39-45 | on the last entry of the union, from any state of the children |
| Merging.MergingIterator.Seek | Access/Pods/leveldb-library/table/merger.cc:47-53 | on the first entry of the union at or after the target |
| Merging.MergingIterator.TurnForward | Access/Pods/leveldb-library/table/merger.cc:62-74 | after a move backwards, re-seeking the other children puts all of them at one split of the union again |
| Merging.MergingIterator.TurnBackward | Access/Pods/leveldb-library/table/merger.cc:88-103 | after a move forwards, re-seeking the other children puts all of them one before a split |
| Merging.MergingIterator.Next | Access/Pods/leveldb-library/table/merger.cc:55-79 | one entry further in the union, in any mix with Prev and Seek |
| Merging.MergingIterator.Prev | Access/Pods/leveldb-library/table/merger.cc:81-108 | one entry back in the union, or nowhere before the first, in any mix with Next and Seek |
| WriteQueue.GroupIsUnique | Access/Pods/leveldb-library/db/db_impl.cc:1260-1306 | a queue has at most one group: the rule which writers ride along leaves no choice |
| WriteQueue.GroupLimits | Access/Pods/leveldb-library/db/db_impl.cc:1266-1303 | a sync write rides only with a front writer that syncs, and a group grown beyond the first batch stays within the limit, at most 1 MB |
| WriteQueue.GroupIsMaximal | Access/Pods/leveldb-library/db/db_impl.cc:1266-1303 | the next writer is left out only if it syncs and the front writer does not, or its batch would bring the group over 1 MB, or for a first batch of at most 128 KB over that batch and 128 KB more |
| WriteQueue.BuildBatchGroup | Access/Pods/leveldb-library/db/db_impl.cc:1260-1306 | stops exactly at the end of the group and returns the operations of all its batches in queue order |
| WriteQueue.PopGroup | Access/Pods/leveldb-library/db/db_impl.cc:1236-1246 | releases the writers up to and including the last of the group and no other |
| WriteQueue.NextKeepsInv | Access/Pods/leveldb-library/db/db_impl.cc:1185-1256 | every step of any thread keeps the invariant: log and memtable are what the returned writers, one after another, would have produced, plus what the leader has done so far |
| WriteQueue.RunInv | Access/Pods/leveldb-library/db/db_impl.cc:1185-1256 | the invariant holds over all interleavings of any number of writers, with sync failures and appends that fail whole included |
| WriteQueue.SeenIsHistory | Access/Pods/leveldb-library/db/db_impl.cc:1220-1231 | a reader at LastSequence sees exactly the entries of the applied writers in queue order |
| WriteQueue.BatchIsWhole | Access/Pods/leveldb-library/db/db_impl.cc:1220-1231 | a reader at LastSequence sees all entries of a returned batch, under consecutive numbers of its own, if the write succeeded, and none otherwise |
| WriteQueue.LogIsWhole | Access/Pods/leveldb-library/db/db_impl.cc:1209-1219 | the log holds all entries of a returned batch or none |
| WriteQueue.SequencesAreContiguous | Access/Pods/leveldb-library/db/db_impl.cc:1202-1206 | with no failed group, the visible entries carry every sequence number after the start exactly once, in order |
| WriteQueue.NextKeepsSnapshots | Access/Pods/leveldb-library/db/db_impl.cc:1206-1231 | no step lowers LastSequence or changes what a reader at or below it sees |
| WriteQueue.SnapshotsAreStable | Access/Pods/leveldb-library/db/db_impl.cc:1206-1231 | along every run a reader at an old LastSequence sees the same entries for ever |
| WriteQueue.StepIsAtomicWrite | Access/Pods/leveldb-library/db/db_impl.cc:1220-1231 | the step that publishes a group adds exactly the group's entries under the next numbers and raises LastSequence by their count; every other step shows readers nothing new |
| WriteQueue.FinishDurable | Access/Pods/leveldb-library/db/db_impl.cc:1209-1216 | every write that asked for sync and succeeded has its operations, under its numbers, in a synced log record |
| WriteQueue.MemberHeld | Access/Pods/leveldb-library/db/db_impl.cc:1266-1303 | the record of a group holds each member's operations where its numbers say |
| WriteQueue.FrontCanMove | Access/Pods/leveldb-library/db/db_impl.cc:1185-1256 | while anyone waits, the thread at the front of the queue has a step it can take, so no wake-up is lost |
| WriteQueue.FrontComesNearer | Access/Pods/leveldb-library/db/db_impl.cc:1185-1256 | each such step shortens the queue or brings its front nearer to returning, so every writer returns if the front keeps running |
| WriteQueue.FrontCanSucceed | Access/Pods/leveldb-library/db/db_impl.cc:1185-1256 | while there is no error and nothing has failed, the front writer has a step in which nothing fails |
| WriteQueue.FrontSucceeds | Access/Pods/leveldb-library/db/db_impl.cc:1185-1256 | from every such state there is a run on which the front writer returns with success |
| WriteQueue.NothingAppliedAfterFailedSync | Access/Pods/leveldb-library/db/db_impl.cc:1225-1232 | over every run: after a log sync has failed, no writer that had not returned by then succeeds |
| WriteQueue.NothingAppliedAfterError | Access/Pods/leveldb-library/db/db_impl.cc:1314-1320 | over every run: after a background error, once no group is on its way, no writer that had not returned by then succeeds |
| WriteQueue.ErrorHasCause | Access/Pods/leveldb-library/db/db_impl.cc:1211-1232 | an error in a run comes from a failed sync or from the background thread, never from a failed append |
| WriteQueue.SyncedOnRequest | Access/Pods/leveldb-library/db/db_impl.cc:1211-1216 | over every run: each synced record was the last of the log when a leader that asked for it synced the log |
| Background.NextKeepsInv | Access/Pods/leveldb-library/db/db_impl.cc:648-686 | every step keeps: one background call exactly while the flag is set, pending work implies the flag unless there is an error or a shutdown, and a parked thread implies the flag |
| Background.RunInv | Access/Pods/leveldb-library/db/db_impl.cc:648-686 | that invariant holds in every state of every run |
| Background.PendingWorkHasOneJob | Access/Pods/leveldb-library/db/db_impl.cc:648-663 | an immutable memtable, a manual request or a needed compaction, with no error and no shutdown, means exactly one background call queued or running |
| Background.WaiterHasJob | Access/Pods/leveldb-library/db/db_impl.cc:1325-1366 | a writer that must wait for room always has a background call to wait for |
| Background.WriterWaitsOrSwitches | Access/Pods/leveldb-library/db/db_impl.cc:1325-1366 | a writer with a full memtable can wait exactly if there is an immutable memtable or level 0 has twelve files, and otherwise can make the memtable immutable |
| Background.JobReschedules | Access/Pods/leveldb-library/db/db_impl.cc:648-686 | when a background call ends, another is on its way exactly if there is an immutable memtable, a manual request, four files on level 0 or another reason to compact, and neither an error nor a shutdown; and everyone has been woken |
| Background.OthersScheduleForWork | Access/Pods/leveldb-library/db/db_impl.cc:648-663 | every other step hands out a call only for such work, and never after an error or a shutdown |
| Background.JobDoesItsWork | Access/Pods/leveldb-library/db/db_impl.cc:669-767 | a call does nothing after an error or a shutdown, flushes before it compacts, and when it ends has flushed the immutable memtable or met an error, or has done with the manual request it was for |
| Background.RequestStays | Access/Pods/leveldb-library/db/db_impl.cc:590-621 | a manual request stays until the call that serves it is over or, after an error or a shutdown, its owner is awake and withdraws it |
| Background.StoppedStep | Access/Pods/leveldb-library/db/db_impl.cc:669-686 | after an error or a shutdown no work is begun, and each step of the background thread brings it nearer to rest, but for a flush inside a running compaction |
| Background.ComesToRest | Access/Pods/leveldb-library/db/db_impl.cc:154-160 | over every run: after an error or a shutdown the background thread has at most two steps left, such flushes apart, and after them the flag is down and stays down, so the destructor's wait ends |
| Background.ErrorWakesAll | Access/Pods/leveldb-library/db/db_impl.cc:640-646 | the step that records the first error wakes every thread that waits |
| Background.SignalIsComing | Access/Pods/leveldb-library/db/db_impl.cc:669-686 | while any thread is parked the background thread has a step it can take, unless the request it serves was withdrawn |
| Background.JobStepSignals | Access/Pods/leveldb-library/db/db_impl.cc:669-686 | each background step wakes everyone or brings the call nearer to its end, which wakes everyone |
| Background.RequestKeptWithoutErrors | Access/Pods/leveldb-library/db/db_impl.cc:688-767 | a compaction started for a manual request finds that request when it ends if there was neither error nor shutdown |
| Background.WithdrawnRequest | Access/Pods/leveldb-library/db/db_impl.cc:608-621 | a concrete run after which BackgroundCompaction looks for a manual request that its owner withdrew after a failed log sync |
| Background.OnlyCancelLosesRequest | Access/Pods/leveldb-library/db/db_impl.cc:615-621 | exactly that withdrawal loses the request; every other step keeps it |
| LogFormat.UnmaskMask | Access/Pods/leveldb-library/util/crc32c.h:29-38 | unmasking a masked checksum gives it back, in 32 bits |
| LogFormat.RecordBytesAre | Access/Pods/leveldb-library/db/log_writer.cc:82-108 | the bytes of a physical record: masked checksum of type and payload, two bytes of length, one of type, and at most 32761 bytes of payload |
| LogFormat.TypesAre | Access/Pods/leveldb-library/db/log_format.h:14-24 | type 1 for a whole record, 2 for its first, 3 for a middle and 4 for its last fragment |
| LogFormat.FragmentsShape | Access/Pods/leveldb-library/db/log_writer.cc:34-80 | a record becomes one full fragment or a first, middles and a last one that join to it, and each stays within its block |
| LogFormat.FileIsLayout | Access/Pods/leveldb-library/db/log_writer.cc:34-108 | the file written for a list of records is the layout of all their fragments |
| LogWriter.Writer.AddRecord | Access/Pods/leveldb-library/db/log_writer.cc:34-80 | appends exactly the record's blocks, padding included, from any length of the file |
| LogWriter.Writer.EmitPhysicalRecord | Access/Pods/leveldb-library/db/log_writer.cc:82-108 | appends header, with the masked checksum of type and payload, and payload, and keeps the offset in the block |
| LogWriter.WriteAll | Access/Pods/leveldb-library/db/log_writer.cc:34-80 | records added one after the other make the file of the list |
| LogReader.Reader.FillBuffer | Access/Pods/leveldb-library/db/log_reader.cc:189-218 | a new block is read only when no header is left, and then it is the next one whole or all the file has of it; the trailer is skipped, and too few bytes at the end of the file mean the next fragment is not there |
| LogReader.Reader.ReadPhysicalRecord | Access/Pods/leveldb-library/db/log_reader.cc:189-271 | of a prefix of a written file, the next fragment if the file holds it whole, end of file otherwise, and no report either way; of any file, what is returned stands there with its length, type and, if asked for, its checksum |
| LogReader.Reader.TakeRecord | Access/Pods/leveldb-library/db/log_reader.cc:216-270 | for any bytes: a record longer than the block, a zero record and one with a wrong checksum each end the block, the first and the last with a report, one cut short by the end of the file ends the reading without one, and any other is taken off the front as it stands |
| LogReader.Reader.ReadRecord | Access/Pods/leveldb-library/db/log_reader.cc:56-174 | of a prefix of a written file, the next record exactly if the file holds it whole, and a record cut short by the end is no error; of any file, a record returned is a full one or a first, middles and a last that stand one behind the other with right checksums, and reading stops only at the end or at a record of type 5 |
| LogReader.WholeCountIs | Access/Pods/leveldb-library/db/log_writer.cc:34-80 | records end in the order they were added, so the ones wholly inside a cut file are its first ones, and their number is well defined |
| LogReader.ReadAll | Access/Pods/leveldb-library/db/log_reader.cc:56-174 | of a written file cut at any byte, exactly the records wholly inside are read, in order, and nothing is reported |
| LogReader.WholeFileReadsAll | Access/Pods/leveldb-library/db/log_reader.cc:56-174 | reading the whole file gives every record |
| LogReader.WriteCrashRead | Access/Pods/leveldb-library/db/log_reader.cc:56-174 | write any records, cut anywhere, read: the longest list of whole records comes back, all of them if nothing was cut |
| WriteBatches.GetPutOp | Access/Pods/leveldb-library/db/write_batch.cc:52-74 | an encoded operation decodes to itself, whatever follows it |
| WriteBatches.OpBytesAre | Access/Pods/leveldb-library/db/write_batch.cc:98-109 | the bytes of an operation: 1 for a value and 0 for a deletion, then each string behind its length |
| WriteBatches.OtherTagsRefused | Access/Pods/leveldb-library/db/write_batch.cc:52-74 | any other first byte is corruption and ends the batch |
| WriteBatches.ParseEncodeOps | Access/Pods/leveldb-library/db/write_batch.cc:42-80 | the encoded operations decode to all of them and end at the end |
| WriteBatches.WriteBatch.Put | Access/Pods/leveldb-library/db/write_batch.cc:98-103 | the batch stands for one more operation, with count and bytes in step |
| WriteBatches.WriteBatch.Delete | Access/Pods/leveldb-library/db/write_batch.cc:105-109 | the batch stands for one more deletion, with count and bytes in step |
| WriteBatches.WriteBatch.Append | Access/Pods/leveldb-library/db/write_batch.cc:144-148 | the batch stands for its own operations and then the other's, under its own sequence number |
| WriteBatches.WriteBatch.SetSequence | Access/Pods/leveldb-library/db/write_batch.cc:94-96 | the batch stands for the same operations under the new sequence number |
| WriteBatches.WriteBatch.Iterate | Access/Pods/leveldb-library/db/write_batch.cc:42-80 | for any bytes: the operations up to the first corruption are delivered, and it succeeds exactly if the end was reached with the count in the header, which is below 2^31 |
| WriteBatches.WriteBatch.InsertInto | Access/Pods/leveldb-library/db/write_batch.cc:132-137 | the operations delivered enter the memtable under consecutive numbers from the header's, and a batch built by Put, Delete and Append enters whole |
| Recoveries.RecoverLogFile | Access/Pods/leveldb-library/db/db_impl.cc:371-453 | for any bytes: the memtable holds the operations of records that stand in the file in order with right checksums, all of them whole batches if a paranoid recovery succeeds; of what a crash left of a log, exactly the batches wholly there, and the highest sequence number is the last one used |
| Recoveries.StampsBelow | Access/Pods/leveldb-library/db/db_impl.cc:435-439 | no recovered entry lies above the sequence number recovery ends with, so new writes get fresh numbers |
| Recoveries.HighestIsUsed | Access/Pods/leveldb-library/db/db_impl.cc:435-439 | that number is the one known before or the last one of some batch |
| Recoveries.StampedIsLog | Access/Pods/leveldb-library/db/db_impl.cc:1209-1211 | what is recovered from whole records are the entries the queue's log stands for |
| Recoveries.SyncedWriteSurvives | Access/Pods/leveldb-library/db/db_impl.cc:1209-1216 | a write acknowledged with sync is in every recovery from a file that kept what was synced |
| Recoveries.Restart | Access/Pods/leveldb-library/db/db_impl.cc:371-453 | stop the machine in any state of any run of the write queue, keep at least the synced bytes, recover: the memtable holds a prefix of the log and every acknowledged sync write whole, under its own numbers |
| Coding.GetPutVarint32 | Access/Pods/leveldb-library/util/coding.cc:112-128 | the five-byte varint reader gives back every 32-bit value, whatever follows |
| Coding.GetPutSlice | Access/Pods/leveldb-library/util/coding.cc:181-190 | a length-prefixed string is read back with the rest of the input left over |
| Coding.SliceCutShort | Access/Pods/leveldb-library/util/coding.cc:181-190 | a string with fewer bytes than its length says is refused |
| Coding.Fixed32Is | Access/Pods/leveldb-library/util/coding.cc:9-18 | the four bytes of a word, lowest first |
| Coding.WordsBack | Access/Pods/leveldb-library/util/coding.cc:9-18 | every word of an encoded word array is read back at its offset |
| Coding.WordInside | Access/Pods/leveldb-library/util/coding.cc:9-18 | the same for an array between other bytes |
| Blocks.DecodeEncodeEntry | Access/Pods/leveldb-library/table/block.cc:54-74 | the entry header decodes to the shared, unshared and value lengths by the one-byte path and by the varint path alike |
| Blocks.ExtendedLaidOut | Access/Pods/leveldb-library/table/block_builder.cc:72-106 | adding a pair that shares a true prefix with its predecessor keeps the block's layout |
| Blocks.BlockBuilder.Add | Access/Pods/leveldb-library/table/block_builder.cc:72-106 | the block holds one more pair, which shares with the key before it as long a prefix as the two have in common, or nothing if it starts a restart run, and that is every interval-th pair |
| Blocks.BlockBuilder.Finish | Access/Pods/leveldb-library/table/block_builder.cc:62-70 | the restart offsets and their number follow the entries |
| Blocks.OpenBlock | Access/Pods/leveldb-library/table/block.cc:24-39 | a block is refused exactly if its restart count cannot fit, and otherwise the restart array is where the entries end |
| Blocks.FinishedHolds | Access/Pods/leveldb-library/table/block_builder.cc:62-70 | a finished block smaller than 4 GB holds its pairs and restart points as the reader looks for them |
| BlockIterators.EntryDecodes | Access/Pods/leveldb-library/table/block.cc:224-246 | the bytes at an entry's offset are its header, the unshared key part and the value, up to the next offset |
| BlockIterators.BlockIter.ParseNextKey | Access/Pods/leveldb-library/table/block.cc:224-251 | key and value of the next pair are restored from prefix and remainder, and the restart index keeps up; false exactly at the end |
| BlockIterators.BlockIter.Next | Access/Pods/leveldb-library/table/block.cc:137-140 | one pair further |
| BlockIterators.BlockIter.Prev | Access/Pods/leveldb-library/table/block.cc:142-161 | one pair back, by a scan from the last restart point before, or to the end before the first: the inverse of Next |
| BlockIterators.BlockIter.SearchRestarts | Access/Pods/leveldb-library/table/block.cc:163-190 | binary search ends at a restart point that is first or lies before the target |
| BlockIterators.BlockIter.Seek | Access/Pods/leveldb-library/table/block.cc:163-201 | on the first pair whose key is not before the target |
| BlockIterators.BlockIter.SeekToFirst | Access/Pods/leveldb-library/table/block.cc:203-206 | on the first pair |
| BlockIterators.BlockIter.SeekToLast | Access/Pods/leveldb-library/table/block.cc:208-213 | on the last pair |
| BlockIterators.BlockIter.ReadAll | Access/Pods/leveldb-library/table/block.cc:137-140 | iterating forward gives back exactly the pairs added, in order |
| Blooms.SetBitIs | Access/Pods/leveldb-library/util/bloom.cc:47-50 | setting a bit sets that bit and no other |
| Blooms.DeltaIsRotation | Access/Pods/leveldb-library/util/bloom.cc:47-47 | the step between probes is the hash rotated right by 17 bits |
| Blooms.ProbeIs | Access/Pods/leveldb-library/util/bloom.cc:46-52 | the j-th probe is the hash and j such steps, in 32 bits |
| Blooms.AddKey | Access/Pods/leveldb-library/util/bloom.cc:42-52 | the probes of the key are set, no other bit is, and none is cleared |
| Blooms.CreateFilter | Access/Pods/leveldb-library/util/bloom.cc:28-54 | the filter appended has as many bytes as the bits per key ask for, at least eight, and the number of probes; exactly those bits are set that some key probes, so every key matches; earlier bytes stay |
| Blooms.KeyMayMatch | Access/Pods/leveldb-library/util/bloom.cc:56-80 | false exactly if some probe is clear in a filter with a known probe count |
| Filters.FilterBlockBuilder.StartBlock | Access/Pods/leveldb-library/table/filter_block.cc:21-27 | a filter is closed for every 2 KB passed, so that the new block's keys get the filter of its own offset |
| Filters.FilterBlockBuilder.AddKey | Access/Pods/leveldb-library/table/filter_block.cc:29-33 | the key counts for the block begun last and none of the earlier keys is lost |
| Filters.FilterBlockBuilder.GenerateFilter | Access/Pods/leveldb-library/table/filter_block.cc:51-75 | closes one filter, empty if there are no keys, over exactly the keys pending |
| Filters.FilterBlockBuilder.Finish | Access/Pods/leveldb-library/table/filter_block.cc:35-49 | for every run of StartBlock and AddKey with non-decreasing offsets, the finished block matches every key at the offset of the block it was added for, and any other key exactly if the filter of that 2 KB of offsets does |
| Filters.FinishedMayMatch | Access/Pods/leveldb-library/table/filter_block.cc:90-104 | the reader's offset arithmetic finds the filter of an offset and answers exactly as that filter |
| Filters.MatchesIff | Access/Pods/leveldb-library/table/filter_block.cc:51-75 | a key matches a finished filter exactly if there are keys in it and they ask for all of its probes |
| Filters.DamagedMatches | Access/Pods/leveldb-library/table/filter_block.cc:90-104 | a filter block too short, an index or an array of offsets beyond its end and a range that ends before it starts or beyond the filters all let every key through |
| Separators.FindShortestSeparator | Access/Pods/leveldb-library/util/comparator.cc:29-50 | if the two strings first differ at a byte that can be raised by one and stay below the other's, start cut behind that byte and raised, and otherwise start; so at or after start and, if it differs, before limit |
| Separators.FindShortSuccessor | Access/Pods/leveldb-library/util/comparator.cc:52-63 | the key cut behind its first byte other than 0xFF and that byte raised by one, or the key if there is none; so at or after the key and no longer |
| Separators.SeparatorKey | Access/Pods/leveldb-library/db/dbformat.cc:69-86 | a separator of internal keys lies at or after start and before limit, and shares limit's user key only if start does |
| Separators.SuccessorKey | Access/Pods/leveldb-library/db/dbformat.cc:88-101 | the successor is not before the key in internal order |
| Tables.BlockHasAnswer | Access/Pods/leveldb-library/table/table.cc:216-244 | the block the index points to holds the first entry at or after the target, or no entry at or after it has the target's user key |
| Tables.FirstIsNewest | Access/Pods/leveldb-library/table/table.cc:216-244 | the first entry at or after (key, sequence) is the key's newest one at or below that sequence whenever the table holds one |
| Tables.InternalGet | Access/Pods/leveldb-library/table/table.cc:216-244 | despite shortened index keys and filters the lookup delivers the first entry of the whole table at or after the target whenever that has the user key, and never another entry; nothing if the filter of the block to look into rules the key out |
| Tables.TableBuilder.Add | Access/Pods/leveldb-library/table/table_builder.cc:94-123 | the table holds one more entry; the index entry delayed by the last flush now separates the two blocks |
| Tables.TableBuilder.Flush | Access/Pods/leveldb-library/table/table_builder.cc:125-139 | the pending entries become a block at the present offset, the next one starts behind it and its trailer of five bytes, and no entry is lost |
| Tables.TableBuilder.Finish | Access/Pods/leveldb-library/table/table_builder.cc:198-253 | the blocks hold exactly the entries added, the index separates them, and the filter lets every key through at its block's offset |
| TwoLevelIterators.SoughtPlace | Access/Pods/leveldb-library/table/two_level_iterator.cc:82-87 | seeking in the index and then in the block finds the first entry of the concatenation at or after the target |
| TwoLevelIterators.TableIsRanged | Access/Pods/leveldb-library/table/table_builder.cc:94-139 | a built table has the ranges that seeking relies on |
| TwoLevelIterators.TwoLevelIterator.Seek | Access/Pods/leveldb-library/table/two_level_iterator.cc:82-87 | on the first entry of all blocks at or after the target, past empty blocks |
| TwoLevelIterators.TwoLevelIterator.SeekToFirst | Access/Pods/leveldb-library/table/two_level_iterator.cc:89-94 | on the first entry of all blocks |
| TwoLevelIterators.TwoLevelIterator.SeekToLast | Access/Pods/leveldb-library/table/two_level_iterator.cc:96-101 | on the last entry of all blocks |
| TwoLevelIterators.TwoLevelIterator.Next | Access/Pods/leveldb-library/table/two_level_iterator.cc:103-107 | one entry further in the concatenation of the blocks |
| TwoLevelIterators.TwoLevelIterator.Prev | Access/Pods/leveldb-library/table/two_level_iterator.cc:109-113 | one entry back in the concatenation of the blocks, or to the end before the first |
| TwoLevelIterators.TwoLevelIterator.SkipEmptyDataBlocksForward | Access/Pods/leveldb-library/table/two_level_iterator.cc:115-126 | skipping empty blocks does not move the place in the concatenation |
| TwoLevelIterators.TwoLevelIterator.SkipEmptyDataBlocksBackward | Access/Pods/leveldb-library/table/two_level_iterator.cc:128-139 | skipping empty blocks backwards ends on the entry before the place it started from |
| SkipLists.PublishLinks | Access/Pods/leveldb-library/db/skiplist.h:356-367 | one pointer store puts the node into its level and changes no other place of it |
| SkipLists.StepKeepsOk | Access/Pods/leveldb-library/db/skiplist.h:336-368 | after every single store every level is strictly ascending and contained in the level below, and no node leaves a level |
| SkipLists.ReaderKeepsTrack | Access/Pods/leveldb-library/db/skiplist.h:260-281 | every turn of a search stays on a node of its level before the key |
| SkipLists.MixedRunOnTrack | Access/Pods/leveldb-library/db/skiplist.h:260-281 | the same over every interleaving of a search with the stores of insertions |
| SkipLists.SearchMissesNothing | Access/Pods/leveldb-library/db/skiplist.h:260-281 | a search interleaved with insertions ends on a key at or after the sought one that passes over no key present when it began |
| SkipLists.SkipList.FindGreaterOrEqual | Access/Pods/leveldb-library/db/skiplist.h:260-281 | the first node at or after the key, and on every level the last node before it |
| SkipLists.SkipList.FindLessThan | Access/Pods/leveldb-library/db/skiplist.h:283-302 | the last node before the key, or the head |
| SkipLists.SkipList.FindLast | Access/Pods/leveldb-library/db/skiplist.h:304-322 | the last node, or the head of an empty list |
| SkipLists.SkipList.Contains | Access/Pods/leveldb-library/db/skiplist.h:370-378 | true exactly if the key is in the list |
| SkipLists.SkipList.Insert | Access/Pods/leveldb-library/db/skiplist.h:336-368 | the contents grow by exactly the new key at its place, and every store made on the way is a step that keeps the levels |
| HandleTables.HandleTable.FindPointer | Access/Pods/leveldb-library/util/cache.cc:114-120 | the place in the key's chain that holds the key, or the end of the chain |
| HandleTables.HandleTable.Lookup | Access/Pods/leveldb-library/util/cache.cc:74-76 | agrees with a plain map |
| HandleTables.HandleTable.Insert | Access/Pods/leveldb-library/util/cache.cc:78-92 | the map gains or replaces the key, also when it resizes, the entry replaced is returned, and there are never more entries than buckets |
| HandleTables.HandleTable.Remove | Access/Pods/leveldb-library/util/cache.cc:94-102 | the map loses the key, and the entry removed is returned |
| HandleTables.HandleTable.Resize | Access/Pods/leveldb-library/util/cache.cc:122-146 | the buckets grow to at least the number of entries, at least four and otherwise fewer than twice that number, and the map stays the same |
| Caches.LookupKeepsOk | Access/Pods/leveldb-library/util/cache.cc:217-223 | a lookup of a cached entry keeps: each cached entry on exactly one list, by its references, usage the sum of charges, and one reference for the cache plus one for each handle |
| Caches.ReleaseKeepsOk | Access/Pods/leveldb-library/util/cache.cc:225-237 | releasing a handle keeps the same and never frees a cached entry |
| Caches.EraseKeepsOk | Access/Pods/leveldb-library/util/cache.cc:307-316 | taking an entry out of the table keeps the same and lets handles live on |
| Caches.EraseKeepsHandles | Access/Pods/leveldb-library/util/cache.cc:225-237 | taking an entry out of the cache frees it only if no handle on it is left |
| Caches.AddKeepsOk | Access/Pods/leveldb-library/util/cache.cc:266-292 | a new entry, cached or not, keeps the same |
| Caches.LRUCache.Lookup | Access/Pods/leveldb-library/util/cache.cc:252-259 | the cached entry of the key if there is one, with one more handle held on it and no longer evictable; the table does not change |
| Caches.LRUCache.Release | Access/Pods/leveldb-library/util/cache.cc:261-264 | one handle less; the entry is freed exactly if this was the last handle and it is not cached, and becomes the youngest evictable one exactly if it was the last and it is cached |
| Caches.LRUCache.EraseEntry | Access/Pods/leveldb-library/util/cache.cc:318-321 | the key leaves the table, every handle held stays good, and nothing changes if the key was not there |
| Caches.LRUCache.EvictOldest | Access/Pods/leveldb-library/util/cache.cc:293-300 | the entry unused for longest leaves the cache and is freed; nobody held it |
| Caches.LRUCache.Prune | Access/Pods/leveldb-library/util/cache.cc:323-333 | all unused entries leave the cache, the used ones stay, and every handle held stays good |
| Caches.LRUCache.Insert | Access/Pods/leveldb-library/util/cache.cc:266-303 | the new entry replaces the key's old one, the oldest unused entries are evicted one by one only while usage exceeds capacity, afterwards usage fits or nothing unused is left, and every handle held stays good |
| Wire.VarintRoundTrip | Access/Pods/nanopb/pb_decode.c:255-275 | every 64-bit value comes back from its varint, whatever follows |
| Wire.Varint32RoundTrip | Access/Pods/nanopb/pb_decode.c:187-247 | every 32-bit value comes back through the 32-bit reader with its overflow checks |
| Wire.VarintLength | Access/Pods/nanopb/pb_encode.c:608-628 | a value of n times seven bits takes at most n bytes, so ten bytes suffice for 64 bits |
| Wire.ZigZagRoundTrip | Access/Pods/nanopb/pb_encode.c:630-639 | zigzag maps every 64-bit integer to its rank by magnitude and back |
| Wire.LittleEndianRoundTrip | Access/Pods/nanopb/pb_encode.c:641-666 | fixed-width words come back from their bytes |
| Wire.LittleEndianByte | Access/Pods/nanopb/pb_encode.c:641-666 | byte k of a fixed-width word holds its k-th eight bits, the lowest first |
| Wire.TagRoundTrip | Access/Pods/nanopb/pb_encode.c:669-673 | field number and wire type come back from a tag, whatever follows |
| Wire.SignedRoundTrip | Access/Pods/nanopb/pb_decode.c:1329-1364 | a negative number comes back from its sign-extended unsigned form, at every width |
| Varints.VarintIs | Access/Pods/nanopb/pb_encode.c:608-628 | a varint has as few bytes as its base-128 digits need, the low ones first, and the top bit set on all but the last |
| Varints.VarintRead | Access/Pods/nanopb/pb_decode.c:255-275 | for any bytes: the 64-bit reader takes a varint of at most ten bytes, however long-winded, gives the low 64 bits of its digits, and refuses a longer one |
| Varints.VarintUnfinished | Access/Pods/nanopb/pb_decode.c:255-275 | bytes without a last one are refused |
| Varints.Varint32Read | Access/Pods/nanopb/pb_decode.c:187-247 | for any bytes: the 32-bit reader takes a varint exactly if what lies beyond 32 bits is zero or extends the sign, and gives its low 32 bits |
| Varints.ShortVarintRead | Access/Pods/leveldb-library/util/coding.cc:112-136 | for any bytes: the reader of the store's files takes varints of at most five bytes and gives their low 32 bits |
| Messages.ZeroIsDefault | Access/Pods/nanopb/pb_encode.c:240-337 | what the encoder takes for a proto3 default is the value the decoder starts from |
| Messages.AllDefaultIsDefaults | Access/Pods/nanopb/pb_encode.c:240-337 | the same for whole nested messages, so leaving one out loses nothing |
| Sending.SingularLeftOutIff | Access/Pods/nanopb/pb_encode.c:240-337 | a field without presence is left out exactly if it has its type's default and that default holds no byte that must be sent |
| Sending.DefaultsSendNothing | Access/Pods/nanopb/pb_encode.c:240-337 | a message of defaults without fixed bytes, required fields and fixed arrays takes no bytes |
| Sending.DefaultsNeedNoRoom | Access/Pods/nanopb/pb_encode.c:528-550 | so it goes into any stream, even a full one, and leaves it as it is |
| Sending.PresentIsSent | Access/Pods/nanopb/pb_encode.c:341-426 | whatever other field is set is sent with its own tag and wire type in front, whatever its value |
| Sending.ArrayIsPacked | Access/Pods/nanopb/pb_encode.c:156-203 | an array of numbers is sent as one record of wire type 2 |
| Sending.NegativeTakesTen | Access/Pods/nanopb/pb_encode.c:776-797 | a negative integer of any width is sent with its sign extended to 64 bits, in ten bytes |
| Parsing.NumberRoundTrip | Access/Pods/nanopb/pb_decode.c:1318-1429 | every number type of every width decodes to the number encoded, negative varints and zigzag included |
| Parsing.OctetsRoundTrip | Access/Pods/nanopb/pb_decode.c:1431-1548 | bytes, strings and fixed-length bytes decode to what was encoded |
| Parsing.StringRoundTripIff | Access/Pods/nanopb/pb_decode.c:1468-1501 | a string comes back if and only if it is shorter than its array: the encoder accepts a string that fills the array, the decoder does not |
| Parsing.StringFillsArray | Access/Pods/nanopb/pb_decode.c:1468-1501 | a string of one byte in an array of one byte: encoded as two bytes that the decoder refuses |
| Parsing.PackedRoundTrip | Access/Pods/nanopb/pb_decode.c:427-457 | a packed array decodes to the array, behind what the field holds already |
| Parsing.RecordStep | Access/Pods/nanopb/pb_decode.c:925-1073 | a record of a known field is decoded into that field alone, and decoding goes on behind it |
| Parsing.MessageRoundTrip | Access/Pods/nanopb/pb_encode.c:528-550 | for every well-formed static descriptor, decoding the encoding of a storable message from the defaults gives the message back, whatever its nesting |
| Shapes.RoundTripIff | Access/Pods/nanopb/pb_decode.c:1075-1087 | of all messages the encoder accepts, exactly those come back whose strings all leave room for their terminators |
| Shapes.DecodedIsShaped | Access/Pods/nanopb/pb_decode.c:1075-1087 | for any bytes: if decoding succeeds, at every depth each number is within its width, each string leaves room for its terminator, counts are within the declared ones, fixed arrays are whole or absent, and of every union at most one member is set |
| Shapes.FieldIsIsolated | Access/Pods/nanopb/pb_decode.c:406-480 | for any bytes: a record changes its own field only, except that a member of a union unsets the others |
| Shapes.ReceivedCanBeSent | Access/Pods/nanopb/pb_decode.c:1075-1087 | for any bytes: what decoding makes of them can be encoded again if no fixed array is absent, and decoding that gives the same message |
| Received.RequiredAreReceived | Access/Pods/nanopb/pb_decode.c:1030-1070 | for any bytes: decoding succeeds exactly if it does with the required fields made optional and each of the first 64 of them was then received, and gives the same message |
| Received.UnknownIsIgnored | Access/Pods/nanopb/pb_decode.c:321-331 | a record of a field the descriptor does not have changes nothing, whichever of the four wire types it has |
| Received.GroupsRefused | Access/Pods/nanopb/pb_decode.c:321-331 | groups and unknown wire types are refused |
| Received.SlotIsIgnored | Access/Pods/nanopb/pb_decode.c:957-986 | a reader whose descriptor lacks a field ignores all that the encoder sends for it |
| Received.UnsignedAccepted | Access/Pods/nanopb/pb_decode.c:1366-1388 | an unsigned field takes exactly the varints within its width |
| Received.SignedAccepted | Access/Pods/nanopb/pb_decode.c:1329-1364 | a signed field of 64 bits takes every varint in two's complement, a narrower one the low 32 bits in two's complement exactly if they are within its width |
| Received.ZigZagAccepted | Access/Pods/nanopb/pb_decode.c:1390-1412 | a zigzag field takes exactly the ranks of integers within its width |
| Received.BooleanAccepted | Access/Pods/nanopb/pb_decode.c:1318-1327 | a boolean is true for every number but zero |
| Received.OctetsAccepted | Access/Pods/nanopb/pb_decode.c:1431-1548 | a byte field takes what fits it, a string what leaves room for its terminator and up to the first zero, fixed bytes their exact number or none, which stands for zeros |
| Received.TruncatedIsRefused | Access/Pods/nanopb/pb_decode.c:1431-1466 | a length beyond the end of the bytes is refused |
| Received.PackedAcceptedIff | Access/Pods/nanopb/pb_decode.c:424-453 | a packed array is taken whole if there is room for all of it behind what the field holds, and refused otherwise |
| Received.FullArrayRefuses | Access/Pods/nanopb/pb_decode.c:454-464 | a full array takes no more records |
| Received.FixedArrayStartsAnew | Access/Pods/nanopb/pb_decode.c:988-1010 | records of a fixed array start it anew unless it is the one being received, and then add to it; they are refused while another one is incomplete |
| Received.LastRecordDecides | Access/Pods/nanopb/pb_decode.c:416-422 | of several records of a field that is no array and no message, the last one decides |
| Received.EmptyRecord | Access/Pods/nanopb/pb_decode.c:1503-1525 | a nested message that says nothing leaves a plain field as it is, starts a member of a union anew and gives an array a default entry: messages merge, array entries do not |
| Received.ZeroEnds | Access/Pods/nanopb/pb_decode.c:298-319 | a zero tag ends the message |
| Parsing.UnknownIsSkippedIff | Access/Pods/nanopb/pb_common.c:78-95 | all records whose tag no field has are skipped by their wire type if and only if the descriptor has a field or the tag is not 0 |
| Parsing.TerminatorTakesRecord | Access/Pods/nanopb/pb_common.c:78-95 | with no fields, the two bytes 2 and 5 decode as a whole message although the five bytes that the record announces are missing |
| Encoders.OStream.Write | Access/Pods/nanopb/pb_encode.c:103-124 | writes or counts all bytes if they fit, and otherwise writes none and leaves the stream as it was |
| Encoders.VarintBytes | Access/Pods/nanopb/pb_encode.c:616-627 | the loop stays within its ten bytes and fills in the varint |
| Encoders.PackedSize | Access/Pods/nanopb/pb_encode.c:164-187 | the size multiplied out or counted by a dry run is the size of the packed data |
| Encoders.PutPackedArray | Access/Pods/nanopb/pb_encode.c:156-203 | tag, length and data of a packed array, written or only counted, succeed exactly if they fit |
| Encoders.PutArray | Access/Pods/nanopb/pb_encode.c:147-236 | an array succeeds exactly if its count is within the declared one, its items are encodable and the bytes fit |
| Encoders.CheckDefault | Access/Pods/nanopb/pb_encode.c:240-337 | true exactly if the field has its proto3 default; by Sending.SingularLeftOutIff that is the type's default value, where it can be left out |
| Encoders.PutField | Access/Pods/nanopb/pb_encode.c:341-426 | a field writes what its kind requires: always, if present, if not default, or item by item; it succeeds exactly if encodable and fitting |
| Encoders.PutMessage | Access/Pods/nanopb/pb_encode.c:528-550 | on a sizing stream the count, and on a bounded stream the bytes, of a message are exactly its encoding (what that leaves out is the subject of Sending); success exactly if it is encodable and fits; what a failed run has written is a front part of the encoding within the limit, so nothing is ever written past it |
| Encoders.PutSubmessage | Access/Pods/nanopb/pb_encode.c:717-765 | at every depth the dry run counts exactly what the second pass writes, so the size never changes between the two |
| Decoders.GetVarint | Access/Pods/nanopb/pb_decode.c:255-275 | the loop reads the varint at the front of the stream and nothing else |
| Decoders.GetVarint32 | Access/Pods/nanopb/pb_decode.c:187-247 | the 32-bit loop accepts exactly the values and sign extensions its checks allow |
| Decoders.GetTag | Access/Pods/nanopb/pb_decode.c:298-319 | tag, end of message and broken tag are told apart |
| Decoders.PassField | Access/Pods/nanopb/pb_decode.c:321-331 | an unknown field is skipped by its wire type and nothing more |
| Decoders.GetPackedItems | Access/Pods/nanopb/pb_decode.c:427-457 | items are read until the substream ends or the array is full; a full array with data left is an error |
| Decoders.GetField | Access/Pods/nanopb/pb_decode.c:406-480 | for any bytes: a value goes into its own field, and outside it nothing changes except that a member of a union unsets the others; it succeeds, and what it stores is, as decoding a record means |
| Decoders.FieldIter.Next | Access/Pods/nanopb/pb_common.c:20-76 | moves on by one and wraps around, with the count of required fields in step |
| Decoders.FieldIter.Find | Access/Pods/nanopb/pb_common.c:78-95 | the wrap-around search ends and finds the field of the tag from wherever it stands; it succeeds exactly if there is one, or if there are no fields at all and the tag is 0, and otherwise returns to where it stood |
| Decoders.FieldIter.CountRequired | Access/Pods/nanopb/pb_decode.c:1031-1045 | the number of required fields, from wherever the iterator stands |
| Decoders.CheckRequired | Access/Pods/nanopb/pb_decode.c:1047-1069 | true exactly if every required field that has a bit was seen |
| Decoders.ReadRecords | Access/Pods/nanopb/pb_decode.c:945-1020 | the loop with its iterator, bit array and partly filled fixed array does what decoding record by record means, with tag 0 of an empty descriptor taken for a field |
| Decoders.TakeAtTerminator | Access/Pods/nanopb/pb_common.c:78-95 | a record with tag 0 of an empty descriptor is taken for the required boolean that the terminator reads as: a varint is consumed whatever the wire type, and the bit of the first required field is set |
| Decoders.Get | Access/Pods/nanopb/pb_decode.c:1075-1087 | for any bytes and any descriptor, the empty one included, pb_decode succeeds and fills the struct exactly as decoding from the defaults means, and a struct it fills has the shape its descriptor gives it |
| Decoders.EncodeThenDecode | Access/Pods/nanopb/pb_decode.c:1075-1087 | encoding into a buffer of any size and decoding what was written: sent exactly if encodable and fitting, and then received unchanged exactly if no string fills its whole array |

## Left out

- StoreRuns.FinishKeepsInv: a finished compaction is installed only if it exposes no key; `Stores.Exposes` is a condition
  on file bounds and the inputs' newest entry, exact by `Boundaries.UncoversIffExposes`, and `DeletedKeys` reaches a
  compaction that exposes one.
- StoreRuns.NextKeepsInv: a compaction step under the condition of FinishKeepsInv and flushes under that of FlushKeepsInv.
- StoreRuns.RunInv: the same for every step of a run; StoreRuns.ApartRunReads has a condition on file bounds alone.
- StoreRuns.SnapshotReadsAreStable: for such runs.
- StoreRuns.FlushKeepsInv: no flush inside a running compaction (db/db_impl.cc:908-918), so a compaction sees the version
  it picked its inputs from; `Background` does model that flush for scheduling.
- StoreRuns.Get: for the states of such runs; the memtable and the immutable memtable are sorted lists of entries here;
  the skip list that holds them is verified apart in `SkipLists` over integer keys.
- Journals.RecoversCurrent: a failed manifest write, after which the store accepts no more work, has no step; the log
  numbers and sequence counters in the edits are the subject of `Manifests` alone.
- Builders.RecoveryIsInstallation: for edits no store writes, the condition is sufficient, not necessary; `Journals` shows
  that it holds of everything a store writes.
- Versions.FirstAtOrAfter: a search of the table's entries in order stands for the seeks of the table iterator, which
  `TwoLevelIterators` and `BlockIterators` verify.
- Compactions.DoCompactionWork: corrupt internal keys, input errors and shutdown in the loop; where an output file ends
  is an arbitrary choice at every entry instead of the size and grandparent rules.
- Inputs.SetupOtherInputs: the compaction pointer and the choice of level by score and seeks (PickCompaction, Finalize)
  are arbitrary choices of a starting file.
- Manifests.Recover: the contents of the table files an edit names are a function parameter; CURRENT, reuse of the old
  manifest and MarkFileNumberUsed are not modelled.
- Manifests.ReadEdits: which records behind a corruption are still read is not claimed, only that those read stand in the
  file.
- Recoveries.RecoverLogFile: one log file; the memtables that a recovery fills and flushes on the way count as one; behind
  a corruption as for ReadEdits.
- LogReader.Reader.ReadRecord: initial offset 0 only, the content of corruption reports is a count, and behind a corruption
  as for ReadEdits.
- WriteBatches.WriteBatch.Put: batches of fewer than 2^31 operations with strings below 4 GB, which the int count and
  the 32-bit lengths of the code also need; Delete and Append alike.
- WriteQueue.NextKeepsInv: a failed append leaves its record whole in the log or not at all. A record torn by a failed
  write and then followed by later records, which log_writer.cc would frame as if it had been written, is not modelled.
- WriteQueue.LogIsWhole: for logs without torn records.
- Recoveries.Restart: for logs without torn records.
- WriteQueue.RunInv: MakeRoomForWrite is one step that may refuse; its waiting is the subject of `Background`.
- Background.NextKeepsInv: level-0 counts and scores after a job are arbitrary; the slow-down sleep of a millisecond has
  no effect on scheduling and has no step.
- SkipLists.SearchMissesNothing: steps are sequentially consistent; C++ memory orders are not modelled. Node heights are
  parameters instead of random numbers.
- Caches.LRUCache.Insert: values, deleters, the shards by hash and their mutexes.
- Blooms.CreateFilter: the number of probes is a parameter between 1 and 30; its derivation from bits per key uses
  floating point.
- Tables.InternalGet: reading of blocks, footer and metaindex, compression, checksums of blocks and the block cache; the
  seeks in index and block are the searches verified in `BlockIterators`, taken as the first entry at or after the
  target.
- Tables.TableBuilder.Add: as Finish.
- Tables.TableBuilder.Flush: as Finish.
- Tables.TableBuilder.Finish: block sizes are parameters, and entries are whole values, not block bytes.
- Blocks.FinishedHolds: blocks of 4 GB and more, whose offsets the 32-bit words of the format cannot hold.
- Parsing.MessageRoundTrip: encodings below 4 GB, since lengths are 32-bit on the decoding side.
- Messages.AllDefaultIsDefaults: proto2 default values other than zero.
- Decoders.GetVarint32: the bit position of the loop does not wrap at 8 bits, which takes a varint of more than 36 bytes.
- Decoders.TakeAtTerminator: the byte that decoding at the terminator stores lies in no field of the descriptor and is not
  modelled.
- Messages.TypedSlot: a fixed array that is absent is an empty slot; the code leaves its old items in place and clears the
  first size field's worth of bytes.
- Decoders.Get: pointer, callback and extension fields, error texts; struct offsets are slots and the presence flags
  are the presence of a slot's value.
- Memtable entries as arena bytes (db/memtable.cc:75-98), repair.cc, c.cc, dumpfile.cc,
  env_posix.cc, option handling, statistics and logging.
- The app's Swift code, Firebase, BoringSSL and the other bundled libraries: glue, declarations and data.
