# Smart Photo Kit: the storage engine, the wire formats and the array code

The app bundles two libraries whose code is a set of protocols rather than plumbing: LevelDB, a
log-structured key-value store, and nanopb, a Protocol Buffers codec for fixed memory. It also has two
small array algorithms of its own. This project models the parts of them that carry state from one step
to the next, and proves what their callers rely on, for all inputs and over all runs.

`dafny verify dfyconfig.toml` checks everything.

## The engine

| file | what it holds |
|---|---|
| Options | an optional value |
| Keys, DbFormat | internal keys: the order the engine sorts by, and the same order on encoded bytes; separators, lookup keys, arena entries |
| SkipList, MemTable | the linked index with every store of an insert as a step, readers between the stores, the memtable over it |
| Coding, LogFormat, LogIo, LogRoundTrip, LogInitialOffset, LogDamage | the block log: its byte format, writer and reader, torn files, reopened files, reading from an offset, and what a reader makes of any file, damaged or not |
| WriteBatch, Recovery | batches as bytes, and the replay of a log after a crash |
| GroupCommit, WriterQueue, WriterAcks, WriterThreads, Scheduler | concurrent writers, the groups they form, what their status tells them, their threads, and the scheduling of background work |
| Compaction, CompactionInputs, FlushPlacement, LevelOrder, VersionBuilder | which entries a compaction drops, which files it takes, where a flush may be put, when the next level stays in order, how a version lists its files |
| Store, StoreRuns, StoreInvariant, StoreWrites, StoreFlushes, StoreCompactions | the whole engine as a state machine of 22 kinds of events, and the invariant every event keeps |
| StoreComplete, StoreReads, StoreSorted, StoreGaps, StoreTheorems, StoreWitness | when reads stay answerable, when they stay right, and when levels stay sorted; what holds over every run, and two runs in which reads go wrong |
| StoreSnapshots, StoreUpkeep | which moment a snapshot is of, and what must get done: entries no read needs are dropped, files nothing uses deleted, errors remembered |
| StoreLevels | the same choices made from files and their recorded bounds |
| StoreCrash, StoreIterators, WritersStore | the engine with its neighbours: torn logs replayed, cursors over what a reader pins, the writers' threads |
| DbIter, Snapshots | the user's cursor over many versions of many keys, and the list of live snapshots |

Code that works on objects or arrays in place is a class or a method with loops, proved against a
function of values; then lemmas say what that function promises. Threads are modelled by events: one
event is the code a thread runs between two points at which it releases the mutex, and a run is any
sequence of events, each possible where it happens. In the skip list one event is one load or one store.

In the state machine of the engine a file is its table of entries. A compaction may begin with any inputs
that leave only newer entries at their level and above, and that take from the next level everything in
reach of theirs: StoreLevels proves this of the files SetupOtherInputs chooses, at every level. A flush goes
to the level that is picked for it. Reads look into one file of each deeper level, the one the binary search
finds in the level's list, which is in the order of the smallest keys. Two things can go wrong
with reads, by what compactions drop and by where flushes go. The events allow both, and the theorems about
reads name them as conditions on the run. What a compaction may drop is judged by the reads that are still
possible: on the running engine those at the horizon of installed compactions or above; after a crash, which
may lose unsynced groups, also those below it at which everything newer was still in a memtable.

## The codec

PbWire has the numbers, PbMessage the bytes of a message by its descriptor, PbParse the message of a
string of bytes. PbEncode and PbDecode are the encoder and the decoder as the library runs them, on
streams, each proved against that specification for every descriptor tree of static fields; PbIter and
PbRequired are the field iterator and the bookkeeping of required fields; PbRoundTrip puts the two
directions together. PbRecords has a reader that knows the wire format only and no descriptor, and shows that
everything encoded is read by it as the fields of the message, and that the decoder skips what its descriptor
does not know. PbCompat is about messages from programs with other descriptors, about fields that come twice
and messages that come in parts; PbDefaults about fields that are not sent and the end of a message; PbFits
shows that whatever is decoded fits its structure and can be encoded again; PbRefusals is about what is out of
range or does not fit. The wire format is that of the Protocol Buffers "Encoding" guide, sections "Base 128
Varints", "Message Structure", "Signed Integers", "Last One Wins" and "Packed Repeated Fields".

## The app

Transpose is the transposition of a multi-dimensional array by an odometer of indices, Nms the greedy
selection of bounding boxes, for one class and for many.

## Where the code does something else than it says

Each of these is a lemma with a concrete case, and beside it the exact condition under which the code
keeps its promise.

- A compaction can bring a deleted value back. The upper level's inputs are extended to the end of a user
  key, the next level's are not; when they end with a deletion marker whose older value starts the next
  file, the marker is dropped and the value stays. ChosenInputsPreserveReads has the condition on the files,
  InstallReadsRight on the state of the engine, ReadsAreRightExactly on its runs, each in both directions;
  DeletedValueReturns and DroppedMarkerIsMissed are the cases.
- A flush nested in a compaction may be placed between two of its inputs, where nothing overlaps it. An
  output of the compaction then spans the gap, and lookups in that level miss the flushed entry; a debug
  build stops at the assertion in version_set.cc, lines 747 to 750. The level stays in order exactly when no
  flushed file meets the range of an output (NextLevelArranges, InstallIsSorted). Before the outputs are
  known, a flushed file is safe exactly when the compaction does not keep entries around it (SafeForAnyCut),
  and keeping clear of the range of all inputs is enough (ClearOfSpan, ClearFlushesKeepGaps).
  FlushInGapIsLost and FilledGapIsMissed are the cases; they take inputs that leave such a gap, as those of a
  manual compaction may.
- Withdrawing a manual compaction while it runs makes its end dereference a null pointer (NullRequest,
  NullRequestHappens).
- Reading a log from an offset inside a record that crosses the end of a block can report a corruption,
  although the comment in log_reader.h, lines 103 to 107, says such fragments are skipped silently
  (InitialOffsetReads, SpuriousReport).
- A string that fills its buffer is encoded, but decoding it into the same field fails (StringNeedsRoom).
- The 32-bit varint decoder takes some 64-bit numbers for sign extensions that are none (Varint32Decodes,
  FalselyAccepted).
- It also reads numbers of any length if they are padded, and takes bits behind 36 bytes of padding for low ones
  (PaddedIsItself, BitsWrapAround).
- LastSequence advances even when the log write of a group fails, so numbers can be skipped, but never
  reused (SequencesInOrder).

## Model

| member | source | states |
|---|---|---|
| StoreTheorems.RunKeeps | Smart Photo Kit/Pods/leveldb-library/db/db_impl.cc:535-566 | Every state of every run, whatever compactions chose and wherever flushes went, satisfies the engine's invariant: age order of memtables and levels, what each reader has pinned, what the logs and the disk hold, what a compaction in progress may still rely on. |
| StoreTheorems.StepKeeps | Smart Photo Kit/Pods/leveldb-library/db/db_impl.cc:878-1036 | Each of the 22 events (group write steps, rotation, snapshots, reads, flush steps, compaction steps, trivial move, failures) keeps the invariant from any state in which it can happen. |
| StoreTheorems.RunKeepsComplete | Smart Photo Kit/Pods/leveldb-library/db/db_impl.cc:946-962 | As long as no compaction begins that drops a deletion marker lying over an older entry left in the next level, every reader and every later read can still be answered from what is live, at the horizon of installed compactions or above, and below it at every number above which nothing up to the horizon has left the memtables. |
| StoreTheorems.RunKeepsRight | Smart Photo Kit/Pods/leveldb-library/db/db_impl.cc:937-962 | As long as no compaction, when it is installed, uncovers a value, every read under way and every read that may begin gives the value the history has: on the running engine at the horizon of installed compactions or above, and where a crash may bring it back to, at every number above which nothing up to the horizon has left the memtables. |
| StoreTheorems.ReadsAreRightExactly | Smart Photo Kit/Pods/leveldb-library/db/db_impl.cc:937-962 | Over any run that condition is exact, for either kind of reads: they are right in every state if and only if no compaction of the run uncovers a value when it is installed. |
| StoreTheorems.KeptUncoversNothing | Smart Photo Kit/Pods/leveldb-library/db/db_impl.cc:946-962 | Runs whose compactions drop no marker over an older entry left in the next level uncover nothing, for either kind of reads. |
| StoreTheorems.RunKeepsSorted | Smart Photo Kit/Pods/leveldb-library/db/version_set.cc:723-738 | As long as no compaction is installed over a file flushed into a gap of its inputs, the files of each deeper level stay apart in every version in use. |
| StoreTheorems.GetReturnsHistory | Smart Photo Kit/Pods/leveldb-library/db/db_impl.cc:1100-1145 | In a run whose compactions uncover no value and close over no flushed file, a read begun at a live snapshot or at LastSequence and ended any number of events later, looking into one file for each deeper level, returns what the history of all writes said at its snapshot, whatever was rotated, flushed or compacted meanwhile. |
| StoreSnapshots.SnapshotCuts | Smart Photo Kit/Pods/leveldb-library/db/db_impl.cc:1166-1168 | The snapshot taken at any moment of any run stands between the groups that have ended, which are in the history and numbered at or below it, and the group under way, which is numbered above it. |
| StoreSnapshots.SnapshotReadsItsMoment | Smart Photo Kit/Pods/leveldb-library/db/db_impl.cc:1166-1168 | A read begun at it, however much later, returns what the history said when it was taken, in a run whose compactions uncover no value and close over no flushed file. |
| StoreSnapshots.SnapshotStays | Smart Photo Kit/Pods/leveldb-library/db/db_impl.cc:1166-1174 | Until it is released a snapshot may be read at, whatever happens in between. |
| StoreSnapshots.OthersStay | Smart Photo Kit/Pods/leveldb-library/db/db_impl.cc:1171-1174 | Releasing a snapshot takes away one with its number, and all the others stay. |
| StoreSnapshots.GoesByOldest | Smart Photo Kit/Pods/leveldb-library/db/db_impl.cc:890-894 | From its begin to its end a compaction goes by the largest number that is at or below every snapshot live at its begin and LastSequence, with the inputs and base keys it began with. |
| StoreWitness.DroppedMarkerIsMissed | Smart Photo Kit/Pods/leveldb-library/db/db_impl.cc:946-962 | Without the first condition it is false: a run, closing over no flushed file, in which a compaction uncovers a deleted value and a read returns it. Its flushes go where PickLevelForMemTableOutput puts them. |
| StoreWitness.FilledGapIsMissed | Smart Photo Kit/Pods/leveldb-library/db/db_impl.cc:906-918 | Without the second condition it is false: a run in which a write that was acknowledged is not found, because the binary search over the level's list leads to the compaction's output. Its flushes, the nested one included, go where PickLevelForMemTableOutput puts them. |
| StoreTheorems.HistoryIsFixed | Smart Photo Kit/Pods/leveldb-library/db/db_impl.cc:1185-1256 | What the history says at or below LastSequence never changes afterwards, and LastSequence never goes back. |
| StoreTheorems.GroupIsAtomic | Smart Photo Kit/Pods/leveldb-library/db/db_impl.cc:1205-1237 | No read in progress sees part of a group, the history up to the old LastSequence is untouched by it, and beyond it the history is exactly the group. |
| StoreTheorems.WritesAreDurable | Smart Photo Kit/Pods/leveldb-library/db/db_impl.cc:491-566 | In a run whose compactions uncover no value, at every moment the current version together with the logs numbered from LogNumber on answers every key as the history does, from the horizon of installed compactions up to LastSequence and below the horizon at every number above which nothing up to it has left the memtables, as long as no sync has failed up to there. |
| StoreTheorems.LostOnlyAfterFailedSync | Smart Photo Kit/Pods/leveldb-library/db/db_impl.cc:1215-1232 | Entries a failed sync may have left behind exist only once the background error is set, and then no write is under way. |
| StoreTheorems.NothingNeededIsDeleted | Smart Photo Kit/Pods/leveldb-library/db/db_impl.cc:223-278 | DeleteObsoleteFiles, also when a flush nested in a compaction calls it, never removes a file of a version in use, a finished output of an uninstalled compaction, or the log of either memtable. |
| StoreUpkeep.ObsoleteIsDeleted | Smart Photo Kit/Pods/leveldb-library/db/db_impl.cc:223-278 | And it removes all the rest: when a flush or a compaction has been installed and no error is pending, only files of versions in use and of work in progress are left on disk, and only the logs of the two memtables. |
| StoreUpkeep.OnlyWorkIsPending | Smart Photo Kit/Pods/leveldb-library/db/db_impl.cc:491-533 | In every reachable state a file number is protected from deletion only for the table a flush or a compaction is writing. |
| StoreUpkeep.ErrorsStick | Smart Photo Kit/Pods/leveldb-library/db/db_impl.cc:640-646 | After a failed sync, flush or compaction no write is accepted, no memtable rotated and no compaction begun any more. |
| StoreUpkeep.ErrorsKeepFiles | Smart Photo Kit/Pods/leveldb-library/db/db_impl.cc:226-230 | And from then on no file and no log is deleted. |
| StoreUpkeep.InstalledIsNeeded | Smart Photo Kit/Pods/leveldb-library/db/db_impl.cc:937-962 | The files a compaction adds are at the output level and hold exactly the entries that are needed: those above the smallest snapshot, and of each key the one a read at the smallest snapshot finds in the inputs, unless it is a deletion marker at its base level. None of the inputs is left. |
| StoreUpkeep.InstalledIsLean | Smart Photo Kit/Pods/leveldb-library/db/db_impl.cc:937-962 | So no two entries of a key at or below the smallest snapshot are left in them, and a deletion marker only for a key that may have something deeper down. |
| StoreUpkeep.MovedIsBelow | Smart Photo Kit/Pods/leveldb-library/db/db_impl.cc:718-728 | A trivial move takes the file one level down and leaves all others alone. |
| StoreTheorems.SnapshotFloor | Smart Photo Kit/Pods/leveldb-library/db/db_impl.cc:890-894 | A sequence number at or below all live snapshots and LastSequence stays so over every continuation of the run, so the smallest snapshot captured once at the start of a compaction is valid to its end. |
| StoreCrash.CrashKeepsHistory | Smart Photo Kit/Pods/leveldb-library/db/db_impl.cc:314-367 | After a crash at any moment of a run whose compactions uncover no value, whatever byte prefix of each log survives, replaying the logs from LogNumber on succeeds, and read over the current version the result answers every key as the history does, at every number up to which the logged groups survive whole: at the horizon of installed compactions or above, and below it where nothing numbered above has left the memtables. |
| StoreCrash.ReplaySucceeds | Smart Photo Kit/Pods/leveldb-library/db/db_impl.cc:388-488 | Whatever byte prefix of a log survives a crash at any moment, its replay ends without an error. |
| StoreCrash.LastRecoveredIsRead | Smart Photo Kit/Pods/leveldb-library/db/db_impl.cc:314-367 | In such a run, whatever byte prefix of each log survives, the engine comes back with the history up to the last entry recovered from the first log that is torn, or, if nothing of that log is recovered, up to the number before its first group; and with the history at every number back to that one. How far compactions have come does not matter. |
| StoreCrash.RecoveredIsPrefix | Smart Photo Kit/Pods/leveldb-library/db/db_impl.cc:364-366 | When only the log being written is torn, nothing else comes back: from the last entry recovered up to the old LastSequence every read gives the history at that entry, whichever of these numbers the manifest has as LastSequence. |
| StoreCrash.LoggedIsSettled | Smart Photo Kit/Pods/leveldb-library/db/db_impl.cc:1346-1366 | Everything numbered from the first group of a log that recovery would replay is still in a memtable, in every reachable state, so no compaction has come across it. |
| StoreCrash.LogsInTurn | Smart Photo Kit/Pods/leveldb-library/db/db_impl.cc:1346-1366 | At every moment the groups in a later log are numbered after all those in an earlier one. |
| StoreCrash.LogsAreGroups | Smart Photo Kit/Pods/leveldb-library/db/db_impl.cc:1215-1215 | At every moment a log holds just the groups written to it, each numbered after those before it. |
| StoreIterators.CursorShowsSnapshot | Smart Photo Kit/Pods/leveldb-library/db/db_impl.cc:1062-1085 | Any number of events after a read began, the merged entries of the memtables and files it pinned show a cursor exactly the pairs the history had at the snapshot, in increasing key order. |
| StoreIterators.NoKeyTwice | Smart Photo Kit/Pods/leveldb-library/db/db_impl.cc:1067-1078 | No two of those sources hold the same internal key while levels are sorted, so merging them meets each entry once. |
| StoreIterators.MergedExists | Smart Photo Kit/Pods/leveldb-library/db/db_impl.cc:1067-1078 | There is such a merged list for any sources that agree with the history. |
| WritersStore.ThreadsWrite | Smart Photo Kit/Pods/leveldb-library/db/db_impl.cc:1185-1256 | Whatever the writers' threads do, there is a run of the engine whose writes are the groups they log: same LastSequence, and a history of exactly the operations of the groups whose records reached the log, under the records' numbers. |
| StoreComplete.InstallComplete | Smart Photo Kit/Pods/leveldb-library/db/db_impl.cc:860-876 | Replacing the inputs by the outputs keeps every read at or above the smallest snapshot answerable from the files that remain, and every read below it for which the inputs have no entry in between, including reads that fall through a dropped deletion marker, when no dropped marker lies over an older entry left in the next level. |
| StoreReads.InstallReadsRight | Smart Photo Kit/Pods/leveldb-library/db/db_impl.cc:937-962 | In any state in which every read is right, every read is right after the replacement if and only if no read finds a deletion marker that is dropped and leaves a value of its key in a file behind; for the reads of the running engine and for those at the numbers a crash may bring it back to. |
| StoreReads.AtSmallestSnapshot | Smart Photo Kit/Pods/leveldb-library/db/db_impl.cc:948-950 | For the running engine it is enough to look at reads at the smallest snapshot. |
| StoreReads.MarkersUncoverNothing | Smart Photo Kit/Pods/leveldb-library/db/db_impl.cc:946-962 | A compaction that began with no marker to drop over an older entry left in the next level meets that condition when it is installed, for either kind of reads. |
| StoreReads.StepKeepsRight | Smart Photo Kit/Pods/leveldb-library/db/db_impl.cc:878-1036 | Every event keeps all reads right, the installation of a compaction if it uncovers no value. |
| StoreComplete.StepKeepsComplete | Smart Photo Kit/Pods/leveldb-library/db/db_impl.cc:878-1036 | Every event keeps what reads need, the begin of a compaction under that condition. |
| StoreCompactions.InstallSound | Smart Photo Kit/Pods/leveldb-library/db/db_impl.cc:860-876 | After the replacement the files are still ordered by age and hold nothing the history does not say. |
| StoreComplete.OnlyLeftUnderMarker | Smart Photo Kit/Pods/leveldb-library/db/db_impl.cc:946-960 | What is older than a dropped deletion marker of its key can only be in the files of the next level that were not taken as inputs. |
| StoreFlushes.InstallFlushSound | Smart Photo Kit/Pods/leveldb-library/db/db_impl.cc:491-566 | A flushed memtable, put at the level chosen for it, is older than the memtable and newer than what lies at or below that level. |
| StoreSorted.InstallIsSorted | Smart Photo Kit/Pods/leveldb-library/db/version_set.cc:695-739 | After a compaction the levels are sorted if and only if no file flushed to the output level meanwhile meets the range of an output. |
| StoreSorted.StepKeepsSorted | Smart Photo Kit/Pods/leveldb-library/db/db_impl.cc:878-1036 | Every other event keeps the levels sorted, the flush that picks its level and the trivial move among them. |
| StoreGaps.ClearFlushesKeepGaps | Smart Photo Kit/Pods/leveldb-library/db/db_impl.cc:491-516 | A check before the flush is enough: a run in which every flush placed in the output level of the running compaction keeps clear of the range from its smallest to its largest input key fills no gap. |
| StoreGaps.SafeForAnyCut | Smart Photo Kit/Pods/leveldb-library/db/db_impl.cc:906-990 | A flushed table meets no output that any way of cutting the kept entries, each output being those from one key to another, can produce, if and only if the compaction does not keep entries on both sides of it. |
| StoreWrites.InsertSound | Smart Photo Kit/Pods/leveldb-library/db/db_impl.cc:1223-1225 | Inserting the next operation of a group with the next sequence number keeps the memtable the newest source for every key. |
| Stores.ProbeFinds | Smart Photo Kit/Pods/leveldb-library/db/version_set.cc:365-383 | On a sorted level the one file the binary search finds in the level's list holds the newest visible entry of the key, if any file of the level does. |
| Stores.SearchFindsNewest | Smart Photo Kit/Pods/leveldb-library/db/db_impl.cc:1113-1135 | Looking through memtable, immutable memtable, level 0 from the newest file down and then one file of each deeper level, and stopping at the first hit, finds the newest visible entry of all of them when they are ordered by age and the levels are sorted. |
| Stores.GetIsHistory | Smart Photo Kit/Pods/leveldb-library/db/db_impl.cc:1113-1135 | Such a search over sources that are complete at the snapshot returns the value or the absence the history records. |
| StoreLevels.ChosenMayBegin | Smart Photo Kit/Pods/leveldb-library/db/version_set.cc:1403-1462 | The files SetupOtherInputs chooses, at any level, are inputs with which the state machine lets a compaction begin: what they leave at their level or above is newer, and at the next level they take everything in reach. |
| StoreLevels.LoopKeepsTheRest | Smart Photo Kit/Pods/leveldb-library/db/db_impl.cc:937-990 | For the merged entries of the inputs the loop of DoCompactionWork keeps exactly the entries the state machine does not drop. |
| StoreLevels.BaseKeysAreBase | Smart Photo Kit/Pods/leveldb-library/db/version_set.cc:1533-1552 | A key for which IsBaseLevelForKey answers true is in no file below the output level. |
| StoreLevels.FileIsFound | Smart Photo Kit/Pods/leveldb-library/db/version_set.cc:88-106 | On any level, sorted or not, the file a lookup of the state machine reads is the one the binary search over recorded bounds returns. |
| StoreLevels.PlacedAsPicked | Smart Photo Kit/Pods/leveldb-library/db/version_set.cc:491-516 | The levels at which the state machine lets a flush be installed are exactly those PickLevelForMemTableOutput can return, a level being crowded only by files that overlap. |
| StoreLevels.SavedAsListed | Smart Photo Kit/Pods/leveldb-library/db/version_set.cc:695-739 | The list of files the state machine searches is the one a version keeps. |
| VersionBuilder.SaveTo | Smart Photo Kit/Pods/leveldb-library/db/version_set.cc:695-739 | Merging the added files into the old list gives every file that was not deleted, once, in the order of the smallest keys, whether or not their ranges overlap; a file is in it as often as in both together, and a deleted one never. |
| Compaction.DoCompactionWork | Smart Photo Kit/Pods/leveldb-library/db/db_impl.cc:902-999 | The loop over the merged inputs writes, cut into files at any points, exactly the entries the drop rule keeps, in order, and records each file's exact smallest and largest key. For sorted input an entry is written if and only if it is above the smallest snapshot, or is what a read there finds and no deletion marker at its base level. |
| Compaction.KeptAreNeeded | Smart Photo Kit/Pods/leveldb-library/db/db_impl.cc:937-962 | The drop rule keeps an entry if and only if it is above the smallest snapshot, or is the newest of its key at it and no deletion marker whose key no deeper file covers. |
| Compaction.KeptAreFew | Smart Photo Kit/Pods/leveldb-library/db/db_impl.cc:937-962 | At or below the smallest snapshot a key keeps one entry at most, and a deletion marker only if a deeper file covers the key. |
| Compaction.BaseLevelCursor.IsBaseLevelForKey | Smart Photo Kit/Pods/leveldb-library/db/version_set.cc:1533-1552 | Advancing the per-level cursors answers true exactly when no file of a deeper level has the key in its range, for keys asked in increasing order. |
| Compaction.CompactionPreservesReads | Smart Photo Kit/Pods/leveldb-library/db/db_impl.cc:937-962 | For sorted inputs over older tables, a read at or above the smallest snapshot is unchanged for all keys and snapshots if and only if no dropped deletion marker covers a value in the tables left alone. |
| Compaction.KeptSorted | Smart Photo Kit/Pods/leveldb-library/db/db_impl.cc:902-999 | The kept entries are again sorted with distinct keys and sequence numbers. |
| CompactionInputs.GetOverlappingInputs | Smart Photo Kit/Pods/leveldb-library/db/version_set.cc:519-559 | The loop returns exactly the files that overlap the range; at level 0 the range has grown until no file sticks out, and every range with that property contains it. |
| CompactionInputs.FindSmallestBoundaryFile | Smart Photo Kit/Pods/leveldb-library/db/version_set.cc:1344-1362 | The file found starts after the given key with the same user key, and no such file starts earlier; none is found when there is none. |
| CompactionInputs.AddBoundaryInputs | Smart Photo Kit/Pods/leveldb-library/db/version_set.cc:1378-1401 | A run of files of a sorted level is extended exactly to the first file that starts with a new user key; inputs that no other file of the level shares a user key with, as the overlapping files of level 0, are left as they are. |
| CompactionInputs.GetRange | Smart Photo Kit/Pods/leveldb-library/db/version_set.cc:1205-1224 | The bounds returned are bounds of some file each, and no file reaches beyond them. |
| CompactionInputs.SetupOtherInputs | Smart Photo Kit/Pods/leveldb-library/db/version_set.cc:1403-1462 | At every level the inputs end so that no kept file shares a user key with them except as the source cuts them: at level 0 all files of a range nothing sticks out of, at a deeper level a run that ends with its user key; and of the next level exactly the files overlapping their user keys, whether or not the first inputs were expanded. They are expanded only when the limit allows it and the next level has no more files to give than it gave the inputs that were asked for. |
| CompactionInputs.CompleteChoice | Smart Photo Kit/Pods/leveldb-library/db/version_set.cc:1378-1401 | Completing a choice of PickCompaction or CompactRange makes it one from which nothing that is kept shares a boundary key. |
| CompactionInputs.KeptAboveIsNewer | Smart Photo Kit/Pods/leveldb-library/db/version_set.cc:1364-1401 | What the level keeps of a user key is newer than what the compaction takes of it, and at level 0 it keeps nothing of it. |
| CompactionInputs.KeptRightIsBoundary | Smart Photo Kit/Pods/leveldb-library/db/version_set.cc:1403-1411 | Whatever the next level keeps of a user key of the inputs is older than them, and it is the key at which the next level's inputs were cut; from every level, 0 included. |
| CompactionInputs.ChosenInputsPreserveReads | Smart Photo Kit/Pods/leveldb-library/db/version_set.cc:1403-1411 | With the inputs the source chooses at any level, reads at or above the smallest snapshot are preserved if and only if the compaction does not drop, at the cut in the next level, a deletion marker covering a value in the files that follow. |
| CompactionInputs.DeletedValueReturns | Smart Photo Kit/Pods/leveldb-library/db/version_set.cc:1403-1411 | A concrete level state in which it does: a deleted value is read again after the compaction. |
| FlushPlacement.FindFile | Smart Photo Kit/Pods/leveldb-library/db/version_set.cc:88-106 | The binary search returns the first file of a sorted level that does not end before the key. |
| FlushPlacement.SomeFileOverlapsRange | Smart Photo Kit/Pods/leveldb-library/db/version_set.cc:122-157 | Answers whether some file overlaps the range, by a scan of level 0 or by one search of a sorted level. |
| FlushPlacement.PickLevelForMemTableOutput | Smart Photo Kit/Pods/leveldb-library/db/version_set.cc:491-516 | The level is at most 2, nothing from level 0 down to it overlaps unless it is 0, and a deeper level was refused only for an overlap or for crowding two levels down. |
| FlushPlacement.PickIsUnique | Smart Photo Kit/Pods/leveldb-library/db/version_set.cc:491-516 | These conditions leave a single level. |
| FlushPlacement.PlacedFileKeepsOrder | Smart Photo Kit/Pods/leveldb-library/db/version_set.cc:491-516 | A file that overlaps none of a sorted level can be added to it and leaves it sorted. |
| FlushPlacement.FoundFileHolds | Smart Photo Kit/Pods/leveldb-library/db/version_set.cc:88-106 | In a sorted level the first entry at or after a key is in the file the search returns, or in none. |
| FlushPlacement.FlushInGapIsLost | Smart Photo Kit/Pods/leveldb-library/db/db_impl.cc:906-918 | A concrete case of a flush nested in a compaction of level 1: its level is picked as 2, between two inputs of the compaction; after the compaction its output spans the gap, the level is no longer sorted, and the search misses the flushed entry. |
| LevelOrder.LookupIsNewest | Smart Photo Kit/Pods/leveldb-library/db/version_set.cc:365-383 | On a sorted level the newest visible entry of a key is in the one file the binary search returns, or nowhere in the level. |
| LevelOrder.NextLevelArranges | Smart Photo Kit/Pods/leveldb-library/db/version_set.cc:695-739 | The next level as a compaction leaves it, files not taken, outputs cut anywhere and files flushed meanwhile, can be put in sorted order if and only if no flushed file's range meets an output's. |
| LevelOrder.ClearOfSpan | Smart Photo Kit/Pods/leveldb-library/db/version_set.cc:491-516 | A memtable whose range is clear of the compaction's smallest and largest key meets none of its outputs. |
| LevelOrder.ArrangeIsOrder | Smart Photo Kit/Pods/leveldb-library/db/version_set.cc:741-754 | Files can be arranged as a sorted level if and only if every two of them lie wholly one before the other. |
| WriterQueue.FinishInOrder | Smart Photo Kit/Pods/leveldb-library/db/db_impl.cc:1185-1256 | Over all interleavings writers finish in the order they arrived, each exactly once. |
| WriterQueue.GroupStatus | Smart Photo Kit/Pods/leveldb-library/db/db_impl.cc:1239-1248 | Every writer that finished in a group has the status of that group's log record, and a writer that asked for a sync was in a group that synced. |
| WriterAcks.AcknowledgedIsLogged | Smart Photo Kit/Pods/leveldb-library/db/db_impl.cc:1205-1256 | Over all interleavings, a write that returns ok has its operations together in a record that reached the log, synced if it asked for that. |
| WriterQueue.SequencesInOrder | Smart Photo Kit/Pods/leveldb-library/db/db_impl.cc:1202-1237 | Operations handed to the log are numbered consecutively from 1 in arrival order, no number is used twice, and LastSequence counts them, even when a record failed to reach the log. |
| WriterThreads.OnlyTheHeadLogs | Smart Photo Kit/Pods/leveldb-library/db/db_impl.cc:1185-1256 | With a state for each writer's thread, under any interleaving and spurious wake-ups, at most one writer is past its wait, and it is the head of the queue. |
| WriterThreads.NoLostWakeup | Smart Photo Kit/Pods/leveldb-library/db/db_impl.cc:1239-1253 | The head of a queue is past its wait or has been signalled and will pass its test, a finished writer has returned or has been signalled and told so, and any other writer waits behind the head. |
| WriterThreads.ThreadsRunTheQueue | Smart Photo Kit/Pods/leveldb-library/db/db_impl.cc:1185-1256 | Whatever the threads do is a run of the queue, so order, status and numbering hold of them. |
| GroupCommit.BuildBatchGroup | Smart Photo Kit/Pods/leveldb-library/db/db_impl.cc:1260-1306 | The batch returned holds exactly the operations of a maximal group at the head of the queue, and the head's own batch is left unchanged. |
| GroupCommit.GroupIsUnique | Smart Photo Kit/Pods/leveldb-library/db/db_impl.cc:1260-1306 | The queue alone decides which writers form the group. |
| GroupCommit.GroupLimits | Smart Photo Kit/Pods/leveldb-library/db/db_impl.cc:1265-1291 | A sync write is never led by one that does not sync, and the group exceeds its size limit only if the first batch alone does. |
| GroupCommit.AllJoin | Smart Photo Kit/Pods/leveldb-library/db/db_impl.cc:1265-1302 | All writers that wait go together when a sync write leads if any of them wants a sync, and they add no more than 128 KB to the first one, or come to no more than 1 MB when that is a big one. |
| GroupCommit.GroupEndsFor | Smart Photo Kit/Pods/leveldb-library/db/db_impl.cc:1280-1293 | A group ends before the end of the queue only for a sync write behind one that does not sync, or for a write that would exceed the limit. |
| Scheduler.NobodyIsStranded | Smart Photo Kit/Pods/leveldb-library/db/db_impl.cc:648-686 | In every reachable state with the mutex free, no error and no shutdown, an immutable memtable, a manual request or a needed compaction implies that background work is scheduled; there is never a second background call; has_imm_ tells the truth. |
| Scheduler.FlushIsAhead | Smart Photo Kit/Pods/leveldb-library/db/db_impl.cc:1310-1368 | Over every run: by the third event of the background thread after any moment, by the second if none of its compactions was running then, the immutable memtable has once been flushed, or an error or the shutdown has come. |
| Scheduler.ErrorsStay | Smart Photo Kit/Pods/leveldb-library/db/db_impl.cc:640-646 | Over every run the background error is set exactly from the first failed sync, flush or compaction on, and the shutdown from its event on. |
| Scheduler.NoWorkAfterError | Smart Photo Kit/Pods/leveldb-library/db/db_impl.cc:648-686 | After an error or at shutdown the background call that is under way ends, and no other is queued. |
| Scheduler.ManualIsServed | Smart Photo Kit/Pods/leveldb-library/db/db_impl.cc:688-766 | The background call that finds no memtable to flush serves the manual request: when it has ended the request is gone, or its end has met the null pointer. |
| Scheduler.NullRequest | Smart Photo Kit/Pods/leveldb-library/db/db_impl.cc:688-766 | The end of a manual compaction meets a null manual_compaction_ exactly when the request was withdrawn, after an error or at shutdown, while that compaction ran; a request with nothing to compact ends at once and never does. |
| Scheduler.NullRequestHappens | Smart Photo Kit/Pods/leveldb-library/db/db_impl.cc:609-622 | A run in which that happens: a sync fails while a manual compaction is under way. |
| DbIter.VisibleListIsSnapshot | Smart Photo Kit/Pods/leveldb-library/db/db_iter.cc:168-198 | The list the iterator is compared with has strictly increasing keys and holds a pair exactly when a point read at the snapshot returns it: no deleted, hidden or too new entry. |
| DbIter.DBIter.Next | Smart Photo Kit/Pods/leveldb-library/db/db_iter.cc:141-166 | Moves to the next pair of that list, also straight after moving in reverse. |
| DbIter.DBIter.Prev | Smart Photo Kit/Pods/leveldb-library/db/db_iter.cc:200-225 | Moves to the previous pair of that list, also straight after moving forward. |
| DbIter.DBIter.Seek | Smart Photo Kit/Pods/leveldb-library/db/db_iter.cc:269-281 | Moves to the first pair at or after the target. |
| DbIter.DBIter.SeekToFirst | Smart Photo Kit/Pods/leveldb-library/db/db_iter.cc:283-292 | Moves to the first pair. |
| DbIter.DBIter.SeekToLast | Smart Photo Kit/Pods/leveldb-library/db/db_iter.cc:294-299 | Moves to the last pair. |
| DbIter.DBIter.FindNextUserEntry | Smart Photo Kit/Pods/leveldb-library/db/db_iter.cc:168-198 | The forward scan stops at the first entry to show that is not to be skipped, or proves there is none. |
| DbIter.DBIter.FindPrevUserEntry | Smart Photo Kit/Pods/leveldb-library/db/db_iter.cc:227-267 | The reverse scan leaves the last entry to show in the saved key and value and the inner iterator before it, possibly further back over entries too new to see. |
| DbIter.DBIter.Key | Smart Photo Kit/Pods/leveldb-library/db/db_iter.cc:64-67 | The key at the list cursor, in either direction. |
| DbIter.DBIter.ReadValue | Smart Photo Kit/Pods/leveldb-library/db/db_iter.cc:68-71 | The value at the list cursor, in either direction. |
| InternalKeys.NewestIsLargest | Smart Photo Kit/Pods/leveldb-library/db/dbformat.cc:51-67 | The first entry of a key in the comparator's order that is not too new is the one with the largest visible sequence number. |
| InternalKeys.ComparatorAgrees | Smart Photo Kit/Pods/leveldb-library/db/dbformat.cc:51-67 | Comparing packed tags is ordering by decreasing sequence number. |
| DbFormat.InternalKeyRoundTrip | Smart Photo Kit/Pods/leveldb-library/db/dbformat.h:165-175 | Parsing an encoded internal key gives it back, and a byte string parses only if it is the encoding of what it parses to. |
| DbFormat.KeyLayout | Smart Photo Kit/Pods/leveldb-library/db/dbformat.cc:14-23 | The bytes of an internal key: the user key, then 1 for a value or 0 for a deletion, then seven bytes of sequence number, the least significant first. |
| DbFormat.RanksCompareAlike | Smart Photo Kit/Pods/leveldb-library/db/dbformat.cc:51-67 | On encoded keys the comparator orders by the user key's rank among any finite set of user keys and then by decreasing tag, and tells two keys apart unless they are equal. |
| DbFormat.FindShortestSeparator | Smart Photo Kit/Pods/leveldb-library/db/dbformat.cc:69-86 | The start key is left alone or replaced by a shorter key strictly between it and the limit; when it is replaced, and with what, is stated exactly. |
| DbFormat.FindShortSuccessor | Smart Photo Kit/Pods/leveldb-library/db/dbformat.cc:88-101 | The key is left alone or replaced by a shorter key after it; when, and by which, is stated exactly. |
| DbFormat.ShortestSeparator | Smart Photo Kit/Pods/leveldb-library/util/comparator.cc:29-50 | The bytewise shortcut yields the start itself or a string no longer that lies strictly between it and the limit: the common prefix and the next byte raised by one, exactly when that byte can be raised and stays below the limit. |
| DbFormat.ShortSuccessor | Smart Photo Kit/Pods/leveldb-library/util/comparator.cc:52-64 | The bytewise shortcut yields a later string no longer than the key, or the key itself only when it is a run of 0xff: everything up to the first byte that can be raised, with that byte raised by one. |
| DbFormat.CompareIsTotal | Smart Photo Kit/Pods/leveldb-library/util/comparator.cc:25-27 | The bytewise order is antisymmetric and tells all different strings apart. |
| DbFormat.CompareIsTransitive | Smart Photo Kit/Pods/leveldb-library/util/comparator.cc:25-27 | The bytewise order is transitive. |
| DbFormat.LookupKeyReads | Smart Photo Kit/Pods/leveldb-library/db/dbformat.cc:121-138 | The three views of a lookup key are the user key, an internal key and a memtable key that reads as that internal key, and against entries of its user key it stands exactly after those too new for it. |
| DbFormat.EntryRoundTrip | Smart Photo Kit/Pods/leveldb-library/db/memtable.cc:75-98 | Whatever follows it in the arena, an entry written by Add is read back as the same key and value. |
| MemTables.MemTable.Add | Smart Photo Kit/Pods/leveldb-library/db/memtable.cc:75-98 | The memtable then holds its old entries and the new one, sorted. |
| MemTables.MemTable.Get | Smart Photo Kit/Pods/leveldb-library/db/memtable.cc:100-136 | Answers with the newest entry of the key at or below the snapshot: its value, a deletion, or nothing found, which it says exactly when there is no such entry. |
| MemTables.SeekFindsNewest | Smart Photo Kit/Pods/leveldb-library/db/memtable.cc:100-136 | Seeking with the lookup key lands on the newest visible entry of the key if there is one. |
| SkipLists.WalkIsSorted | Smart Photo Kit/Pods/leveldb-library/db/skiplist.h:153-164 | Following the links of any level from the head gives the nodes of that level, strictly sorted. |
| SkipLists.LinkStores | Smart Photo Kit/Pods/leveldb-library/db/skiplist.h:361-367 | The two link stores at one level each leave a list in which every level is strictly sorted and contained in the level below. |
| SkipLists.SkipList.Insert | Smart Photo Kit/Pods/leveldb-library/db/skiplist.h:337-368 | Every instant between two stores of an insert satisfies the list's invariant and only grows; at the end the key set is the old one plus the key, and the node is in exactly the levels below its height. |
| SkipLists.SkipList.RaiseHeight | Smart Photo Kit/Pods/leveldb-library/db/skiplist.h:346-359 | Raising the height before linking keeps the invariant and makes the head the predecessor at the new levels. |
| SkipLists.ReaderFindsLeast | Smart Photo Kit/Pods/leveldb-library/db/skiplist.h:261-281 | A search whose reads fall between the stores of any number of inserts ends on the least node not before its target in the bottom list as it was at its last read, and it ends. |
| SkipLists.StoresAreHistory | Smart Photo Kit/Pods/leveldb-library/db/skiplist.h:337-368 | The instants of inserts only ever grow, so any of them may follow any earlier one in a reader's eyes. |
| SkipLists.SkipList.FindGreaterOrEqual | Smart Photo Kit/Pods/leveldb-library/db/skiplist.h:261-281 | The least node not before the target, and for every level the last node before it. |
| SkipLists.SkipList.FindLessThan | Smart Photo Kit/Pods/leveldb-library/db/skiplist.h:284-302 | The last node before the target. |
| SkipLists.SkipList.FindLast | Smart Photo Kit/Pods/leveldb-library/db/skiplist.h:305-323 | The last node. |
| SkipLists.SkipList.Contains | Smart Photo Kit/Pods/leveldb-library/db/skiplist.h:371-378 | Whether the key is in the set. |
| SkipLists.Iterator.Next | Smart Photo Kit/Pods/leveldb-library/db/skiplist.h:207-210 | Moves to the next node of the sorted order. |
| SkipLists.Iterator.Prev | Smart Photo Kit/Pods/leveldb-library/db/skiplist.h:213-221 | Moves to the last node before the current one, or to none. |
| SkipLists.Iterator.Seek | Smart Photo Kit/Pods/leveldb-library/db/skiplist.h:224-226 | Moves to the least node not before the target. |
| SkipLists.Iterator.SeekToLast | Smart Photo Kit/Pods/leveldb-library/db/skiplist.h:234-239 | Moves to the last node, or to none in an empty list. |
| Snapshots.SnapshotList.constructor | Smart Photo Kit/Pods/leveldb-library/db/snapshot.h:41-44 | An empty ring. |
| Snapshots.SnapshotList.New | Smart Photo Kit/Pods/leveldb-library/db/snapshot.h:57-71 | Appends a snapshot to the list of live ones, which stays a circular list with non-decreasing numbers. |
| Snapshots.SnapshotList.Delete | Smart Photo Kit/Pods/leveldb-library/db/snapshot.h:79-87 | Takes exactly that snapshot out of the list, wherever it stands, and closes the ring. |
| Snapshots.SnapshotList.Oldest | Smart Photo Kit/Pods/leveldb-library/db/snapshot.h:47-50 | The first live snapshot, whose number no other is below. |
| Snapshots.SnapshotList.Newest | Smart Photo Kit/Pods/leveldb-library/db/snapshot.h:51-54 | The last live snapshot, whose number no other is above. |
| Snapshots.SnapshotList.Empty | Smart Photo Kit/Pods/leveldb-library/db/snapshot.h:46-46 | Whether no snapshot is live. |
| Coding.FixedRoundTrip | Smart Photo Kit/Pods/leveldb-library/util/coding.cc:9-33 | Little-endian encoding is undone by decoding for every value that fits. |
| Coding.FixedIsLittleEndian | Smart Photo Kit/Pods/leveldb-library/util/coding.cc:9-33 | Byte i of a fixed-width number is its digit i in base 256. |
| Coding.VarintRoundTrip | Smart Photo Kit/Pods/leveldb-library/util/coding.cc:47-90 | A varint takes no more bytes than its size needs and is read back whatever follows it. |
| Coding.VarintPrefixFree | Smart Photo Kit/Pods/leveldb-library/util/coding.cc:112-128 | No proper prefix of a varint is read as a varint. |
| Coding.VarintIsSevenBits | Smart Photo Kit/Pods/leveldb-library/util/coding.cc:47-90 | Each byte of a varint has seven bits, the least significant first, with the top bit on all but the last, and no more bytes than needed. |
| Coding.VarintEnds | Smart Photo Kit/Pods/leveldb-library/util/coding.cc:112-128 | On any bytes, a varint ends with the first byte below 128, and there is none exactly if that is not among the bytes that may be read. |
| Coding.VarintDigits | Smart Photo Kit/Pods/leveldb-library/util/coding.cc:112-128 | And its value has the low seven bits of each byte, in order. |
| Coding.FiveAtMost | Smart Photo Kit/Pods/leveldb-library/util/coding.cc:112-128 | A 32-bit varint is refused exactly if none of the first five bytes ends it. |
| Coding.LengthPrefixedRoundTrip | Smart Photo Kit/Pods/leveldb-library/util/coding.cc:98-101 | A length-prefixed string is read back whatever follows it. |
| Coding.UnmaskMask | Smart Photo Kit/Pods/leveldb-library/util/crc32c.h:29-38 | Unmasking a masked checksum gives it back. |
| Coding.MaskIs | Smart Photo Kit/Pods/leveldb-library/util/crc32c.h:29-32 | Masking brings the low fifteen bits to the top and adds 0xa282ead8. |
| Coding.ExtendConcat | Smart Photo Kit/Pods/leveldb-library/util/crc32c.h:14-20 | Extending a checksum over two strings in turn is extending it over their concatenation. |
| LogIo.Writer.AddRecord | Smart Photo Kit/Pods/leveldb-library/db/log_writer.cc:34-80 | Appends exactly the fragments of the record, filling up block ends too short for a header, and keeps the block offset. |
| LogIo.Writer.EmitPhysicalRecord | Smart Photo Kit/Pods/leveldb-library/db/log_writer.cc:82-108 | Appends one header and payload, with the checksum computed from the precomputed one of the type. |
| LogFormat.ShortLayout | Smart Photo Kit/Pods/leveldb-library/db/log_writer.cc:82-108 | The bytes of a record that fits the rest of a fresh block: the masked checksum of type and data in four bytes, the length in two, the type 1, the data. |
| LogFormat.LongLayout | Smart Photo Kit/Pods/leveldb-library/db/log_writer.cc:34-80 | A longer record fills its blocks: block by block its fragments have the types 2, then 3, and 4 at the end. |
| LogFormat.BlockEndsInZeros | Smart Photo Kit/Pods/leveldb-library/db/log_writer.cc:45-54 | Six bytes or fewer at the end of a block are filled with zeros, and the record begins the next block. |
| LogFormat.HeaderAlone | Smart Photo Kit/Pods/leveldb-library/db/log_writer.cc:45-60 | In the last seven bytes of a block a header is put, with none of the data. |
| LogIo.Writer.constructor | Smart Photo Kit/Pods/leveldb-library/db/log_writer.cc:23-30 | A writer may start on an empty file or on any length already written. |
| LogIo.Reader.ReadRecord | Smart Photo Kit/Pods/leveldb-library/db/log_reader.cc:56-174 | From any position of any file, damaged or not, returns what the specification reads there: the record, its offset, the position after it, the resynchronization state and every reported drop; asked again at the end, it finds nothing more. |
| LogIo.Reader.ReadPhysicalRecord | Smart Photo Kit/Pods/leveldb-library/db/log_reader.cc:189-271 | Reading block by block through the buffer agrees with parsing the file at a position. |
| LogDamage.ReturnedIfWritten | Smart Photo Kit/Pods/leveldb-library/db/log_reader.cc:216-270 | In any file, where a block has room for a header, a fragment comes back if and only if the bytes the writer emits for it, its checksum among them, stand there and fit the block, and are not the zeros of space never written. |
| LogDamage.ReturnedIsWritten | Smart Photo Kit/Pods/leveldb-library/db/log_reader.cc:189-271 | From any position of any file, a fragment that comes back stands in the file as the writer emits it, just before the position after it. |
| LogDamage.DamageIsReported | Smart Photo Kit/Pods/leveldb-library/db/log_reader.cc:243-256 | A fragment whose length is still within its block, but which is not what the writer emits, gives no record from that block, and the rest of the block is reported. |
| LogDamage.DamageCostsTheBlock | Smart Photo Kit/Pods/leveldb-library/db/log_reader.cc:56-174 | Reading goes on at the next block with that report. |
| LogDamage.OverlongIsReported | Smart Photo Kit/Pods/leveldb-library/db/log_reader.cc:222-233 | A fragment that would reach beyond its block is reported with the rest of the block, unless the file ends in that block. |
| LogDamage.ZerosAreSkipped | Smart Photo Kit/Pods/leveldb-library/db/log_reader.cc:235-241 | Space never written is passed over to the end of the block without a report. |
| LogDamage.RecordIsWritten | Smart Photo Kit/Pods/leveldb-library/db/log_reader.cc:56-174 | Every record ReadRecord returns, from whatever file, is the concatenation of fragments that stand in it as the writer emits them: one whole, or a first one, any number in the middle and a last one, each the next the reader meets, the first at the record's offset and the last ending at the position after it. |
| LogDamage.NothingGoesMissing | Smart Photo Kit/Pods/leveldb-library/db/log_reader.cc:56-174 | Reading a record from the start of a file, or from where another ended, every byte that was met on the way is in the record or in a report. |
| LogDamage.MaskUnmask | Smart Photo Kit/Pods/leveldb-library/util/crc32c.h:29-38 | Masking an unmasked sum gives it back, so a stored sum fits one checksum only. |
| LogIo.Reader.SkipToInitialBlock | Smart Photo Kit/Pods/leveldb-library/db/log_reader.cc:33-54 | The reader starts at the block that could hold the first header at or after the initial offset. |
| LogRoundTrip.LogRoundTrip | Smart Photo Kit/Pods/leveldb-library/db/log_reader.cc:56-174 | Records of any number and any length, written and read from the start, come back unchanged and nothing is reported. |
| LogRoundTrip.TornLog | Smart Photo Kit/Pods/leveldb-library/db/log_reader.cc:189-271 | For every byte prefix of a written log the reader returns exactly the records wholly inside it, in order, and reports nothing. |
| LogRoundTrip.ResumeIsSeamless | Smart Photo Kit/Pods/leveldb-library/db/log_writer.cc:27-30 | Stopping after any record and resuming with a writer opened on the file's length gives the bytes one writer would have written. |
| LogInitialOffset.InitialOffsetReads | Smart Photo Kit/Pods/leveldb-library/db/log_reader.cc:80-89 | Reading from an initial offset returns exactly the records whose first header is at or after it; a drop is reported if and only if a record straddles the offset and the reader has to pass over one of its earlier fragments. |
| LogInitialOffset.SpuriousReport | Smart Photo Kit/Pods/leveldb-library/db/log_reader.cc:259-266 | A healthy log read from offset 1 that reports a drop, although the reader's header says fragments are skipped silently while resynchronizing. |
| WriteBatches.BatchRoundTrip | Smart Photo Kit/Pods/leveldb-library/db/write_batch.cc:42-80 | Iterating over the bytes of a batch yields its operations in order, its sequence number and its count, and succeeds. |
| WriteBatches.BatchLayout | Smart Photo Kit/Pods/leveldb-library/db/write_batch.cc:5-14 | The bytes of a batch of a put and a deletion: the number in eight bytes, the count in four, least significant first, then 1, key and value, then 0 and key, each string after its length. |
| WriteBatches.IterationIs | Smart Photo Kit/Pods/leveldb-library/db/write_batch.cc:42-80 | On any bytes, iterating yields the operations they begin with, up to the first place where none stands, and succeeds exactly if that is the end and the stored count is theirs; otherwise the error names what is wrong there. |
| WriteBatches.WriteBatch.Put | Smart Photo Kit/Pods/leveldb-library/db/write_batch.cc:98-103 | Appends one operation to what the bytes stand for and raises the count. |
| WriteBatches.WriteBatch.Delete | Smart Photo Kit/Pods/leveldb-library/db/write_batch.cc:105-109 | Appends one deletion and raises the count. |
| WriteBatches.WriteBatch.Append | Smart Photo Kit/Pods/leveldb-library/db/write_batch.cc:144-148 | Appends all operations of a batch, which may be the same one, and adds up the counts. |
| WriteBatches.WriteBatch.SetSequence | Smart Photo Kit/Pods/leveldb-library/db/write_batch.cc:94-96 | Changes the sequence number and nothing else. |
| WriteBatches.WriteBatch.Count | Smart Photo Kit/Pods/leveldb-library/db/write_batch.cc:82-84 | The number of operations. |
| WriteBatches.WriteBatch.Sequence | Smart Photo Kit/Pods/leveldb-library/db/write_batch.cc:90-92 | The number the batch has. |
| WriteBatches.Iterate | Smart Photo Kit/Pods/leveldb-library/db/write_batch.cc:42-80 | On any bytes, well formed or not, hands over the operations before the first malformed one and ends in the status they deserve. |
| WriteBatches.InsertInto | Smart Photo Kit/Pods/leveldb-library/db/write_batch.cc:132-137 | The operations reach the memtable with consecutive sequence numbers from the batch's own. |
| Recovery.RecoverLogFile | Smart Photo Kit/Pods/leveldb-library/db/db_impl.cc:412-453 | The replay loop over any file, with or without paranoid checks, inserts exactly the entries of the records read, in order, split over any number of memtables, and tracks the largest sequence number. |
| Recovery.ReplayIs | Smart Photo Kit/Pods/leveldb-library/db/db_impl.cc:412-453 | For any file: without paranoid checks a replay succeeds with all operations that can be read from its records; with them it succeeds exactly if nothing was dropped and every record is a batch, with the same result. |
| Recovery.NumbersAreCovered | Smart Photo Kit/Pods/leveldb-library/db/db_impl.cc:434-439 | The number a replay ends with is at least that of every entry it has inserted from complete batches. |
| Recovery.CrashRecovery | Smart Photo Kit/Pods/leveldb-library/db/db_impl.cc:412-453 | Whatever byte prefix of the log survived, the replay succeeds and rebuilds exactly the entries of the longest prefix of committed groups wholly in it, and max_sequence is LastSequence just after the last of them; numbers may have been skipped between groups. |
| PbWire.ZigZagRoundTrip | Smart Photo Kit/Pods/nanopb/pb_encode.c:630-639 | Zigzag coding is a bijection between signed and unsigned 64-bit numbers. |
| PbWire.ZigZagIsSmall | Smart Photo Kit/Pods/nanopb/pb_encode.c:630-639 | Which one: numbers of small magnitude get small codes, negative and positive ones in turn. |
| PbWire.SignExtension | Smart Photo Kit/Pods/nanopb/pb_decode.c:1339-1374 | A negative 32-bit value sent as a 64-bit one is received as itself. |
| PbWire.Varint64RoundTrip | Smart Photo Kit/Pods/nanopb/pb_decode.c:255-275 | Every 64-bit number takes at most ten bytes, and the decoder consumes exactly those and returns it. |
| PbWire.Varint32Decodes | Smart Photo Kit/Pods/nanopb/pb_decode.c:187-247 | On what the encoder writes for any 64-bit number, the 32-bit decoder succeeds exactly on the accepted numbers, with the low word, and fails on all others. |
| PbWire.Accepts32Is | Smart Photo Kit/Pods/nanopb/pb_decode.c:187-247 | Numbers below 2^32 and sign-extended negative ones are accepted, numbers from 2^32 to 2^63 are not. |
| PbWire.FalselyAccepted | Smart Photo Kit/Pods/nanopb/pb_decode.c:221-229 | One number that is no sign extension and is accepted all the same. |
| PbWire.TenAtMost | Smart Photo Kit/Pods/nanopb/pb_decode.c:255-275 | On any bytes, a 64-bit number is refused exactly if none of the first ten bytes ends it. |
| PbWire.PaddedIsItself | Smart Photo Kit/Pods/nanopb/pb_decode.c:187-247 | A 32-bit number padded with zeros to any length is read as itself. |
| PbWire.BitsWrapAround | Smart Photo Kit/Pods/nanopb/pb_decode.c:213-236 | But bits that follow 36 bytes of padding are taken for bits from the third on, where the bit position has wrapped around. |
| PbMessage.DepthOfField | Smart Photo Kit/Pods/nanopb/pb_decode.c:1519-1541 | The descriptors of a field's submessage are nested less deeply than the message's, so coding ends. |
| PbRecords.ReadsRecords | Smart Photo Kit/Pods/nanopb/pb_encode.c:669-673 | The reader of the guide that states the wire format by its numbers, 0 for a varint, 1 for eight bytes, 2 for a length and bytes, 5 for four bytes, reads any sequence of records back. |
| PbRecords.FieldIsRecords | Smart Photo Kit/Pods/nanopb/pb_encode.c:675-707 | The bytes of a field are its records, each with the field's number and the kind that describes its payload. |
| PbRecords.EncodedIsReadable | Smart Photo Kit/Pods/nanopb/pb_encode.c:528-550 | What Encode emits is read by that reader as the records of the message: for each field in the order of the descriptor that is not left out, its number, the kind of its payload and the payload itself. |
| PbDefaults.SentExactly | Smart Photo Kit/Pods/nanopb/pb_encode.c:341-426 | A required field is always sent, one with a flag when it is set, a member of a union when it is the active one, any other single field exactly unless its number is zero, its text empty or its type without bytes. |
| PbDefaults.NothingInside | Smart Photo Kit/Pods/nanopb/pb_encode.c:289-308 | A submessage without a flag is not sent only if nothing in it would be. |
| PbFits.DefaultsTakeNothing | Smart Photo Kit/Pods/nanopb/pb_encode.c:238-337 | A message in which nothing has been set is encoded as no bytes. |
| PbEncode.OStream.Write | Smart Photo Kit/Pods/nanopb/pb_encode.c:103-124 | Appends and counts the bytes, or fails exactly when there is no room for them; a sizing stream only counts. |
| PbEncode.OStream.EncodeVarint | Smart Photo Kit/Pods/nanopb/pb_encode.c:608-628 | Emits the varint of the value. |
| PbEncode.OStream.EncodeString | Smart Photo Kit/Pods/nanopb/pb_encode.c:709-715 | Emits the length and the bytes. |
| PbEncode.Encode | Smart Photo Kit/Pods/nanopb/pb_encode.c:528-550 | Emits the bytes of the message: on a writing stream it succeeds exactly when the message can be encoded and they fit, and then has appended them; on a sizing stream it counts the same number. EncodedIsReadable says what these bytes are. |
| PbEncode.EncodeSubmessage | Smart Photo Kit/Pods/nanopb/pb_encode.c:717-765 | Emits length and bytes of the submessage in two passes that always agree, so the size has never changed in between. |
| PbEncode.EncodeBasicField | Smart Photo Kit/Pods/nanopb/pb_encode.c:341-426 | Emits what the field contributes: nothing when absent or at its default, the tagged value, or the array. |
| PbEncode.EncodeArray | Smart Photo Kit/Pods/nanopb/pb_encode.c:147-236 | Emits each item with its tag, or the packed form, and nothing for a count of zero; a count above the array's size is an error. |
| PbEncode.EncodePacked | Smart Photo Kit/Pods/nanopb/pb_encode.c:162-205 | The size computed first, by multiplication or by a counting pass, is the size of what is then written. |
| PbEncode.GetEncodedSize | Smart Photo Kit/Pods/nanopb/pb_encode.c:567-576 | Succeeds exactly when the message can be encoded, with the length of its bytes. |
| PbRefusals.OverfullIsRefused | Smart Photo Kit/Pods/nanopb/pb_encode.c:159-160 | A message whose array claims more items, or whose required bytes field claims more bytes, than there is room for is not encoded. |
| PbDecode.IStream.DecodeVarint | Smart Photo Kit/Pods/nanopb/pb_decode.c:255-275 | Reads the varint at the stream's position, dropping bits beyond the 64th, and moves past it. |
| PbDecode.IStream.DecodeVarint32 | Smart Photo Kit/Pods/nanopb/pb_decode.c:187-247 | Reads a 32-bit varint of any length, tolerating a sign extension and with a bit position that starts over after 36 bytes, and tells an empty stream from a malformed number. |
| PbDecode.IStream.SkipField | Smart Photo Kit/Pods/nanopb/pb_decode.c:321-331 | Moves past a value of any known wire type and fails on the others; SkipsValue says how far it moves. |
| PbRecords.SkipsValue | Smart Photo Kit/Pods/nanopb/pb_decode.c:321-331 | Skipping by the wire type written before a value of any field moves past exactly that value, whatever follows. |
| PbRecords.SkipsPacked | Smart Photo Kit/Pods/nanopb/pb_decode.c:321-331 | The same for a packed array. |
| PbRecords.UnknownAreSkipped | Smart Photo Kit/Pods/nanopb/pb_decode.c:960-989 | Fields the descriptor does not know, in whatever number and kind, change nothing about the message that follows them. |
| PbCompat.OlderReaderReads | Smart Photo Kit/Pods/nanopb/pb_decode.c:928-1076 | A program whose descriptor has only some of the fields reads those as they were written, wherever the others stand. |
| PbCompat.RequiredIsMissed | Smart Photo Kit/Pods/nanopb/pb_decode.c:1033-1073 | A message that ends before one of its first 64 required fields is refused, at the end of the bytes or at a zero key. |
| PbCompat.LastValueCounts | Smart Photo Kit/Pods/nanopb/pb_decode.c:406-483 | Of two values of one field the last one counts. |
| PbCompat.PartsAreMerged | Smart Photo Kit/Pods/nanopb/pb_decode.c:928-1076 | Two encodings one after the other are decoded as the first merged with the second. |
| PbCompat.SubmessageInParts | Smart Photo Kit/Pods/nanopb/pb_decode.c:1519-1541 | A submessage that comes twice is what its two parts are together. |
| PbDefaults.ZeroEnds | Smart Photo Kit/Pods/nanopb/pb_decode.c:310-314 | Bytes that parse parse to the same message when a zero key and anything else follow them. |
| PbDefaults.ZeroEndsInside | Smart Photo Kit/Pods/nanopb/pb_decode.c:387-400 | In a submessage it ends that only: the message around it goes on behind all of the submessage's bytes. |
| PbDefaults.AbsentIsUnset | Smart Photo Kit/Pods/nanopb/pb_decode.c:838-922 | A field the sender has not set is afterwards not there and holds the descriptor's default or else zero, no bytes, or a submessage of defaults; an array is empty, and a member of a union is not the active one. |
| PbFits.MessageFits | Smart Photo Kit/Pods/nanopb/pb_decode.c:928-1076 | Whatever the bytes, what is decoded into a message that fits its descriptor fits it again: numbers in range, texts within their buffers with room for the terminator, arrays within their capacity. |
| PbFits.DecodedIsEncodable | Smart Photo Kit/Pods/nanopb/pb_decode.c:1078-1090 | So every message that was decoded, from whatever bytes, can be encoded again, and decodes to itself. |
| PbRefusals.UnsignedInRange | Smart Photo Kit/Pods/nanopb/pb_decode.c:1376-1398 | An unsigned number is accepted exactly if the field can hold it. |
| PbRefusals.PlainInRange | Smart Photo Kit/Pods/nanopb/pb_decode.c:1339-1374 | So is a signed one, a 32-bit or smaller field looking at the low 32 bits only. |
| PbRefusals.SignedInRange | Smart Photo Kit/Pods/nanopb/pb_decode.c:1400-1422 | So is a zigzag number. |
| PbRefusals.TextNeedsRoom | Smart Photo Kit/Pods/nanopb/pb_decode.c:1441-1517 | Bytes, strings and byte fields of a fixed length are accepted exactly if they fit, the string with its terminator. |
| PbRefusals.CutShortIsRefused | Smart Photo Kit/Pods/nanopb/pb_decode.c:406-483 | A proper prefix of an encoded value is not taken for a value of its field. |
| PbRefusals.FullArrayRefuses | Smart Photo Kit/Pods/nanopb/pb_decode.c:424-464 | An array at its capacity takes no further item, packed or not. |
| PbRefusals.UnionStartsAnew | Smart Photo Kit/Pods/nanopb/pb_decode.c:466-478 | A submessage in a union whose active member is another one is decoded from its defaults, whatever was there. |
| PbDecode.IStream.MakeSubstream | Smart Photo Kit/Pods/nanopb/pb_decode.c:372-385 | Splits off exactly the announced bytes, or fails when they are not all there. |
| PbDecode.IStream.CloseSubstream | Smart Photo Kit/Pods/nanopb/pb_decode.c:387-400 | The parent goes on behind the substream however much of it was read. |
| PbDecode.DecodeStaticField | Smart Photo Kit/Pods/nanopb/pb_decode.c:406-483 | Decodes one field into its slot as the specification parses it: required, optional, repeated packed or not, or oneof. |
| PbDecode.DecodeNoinit | Smart Photo Kit/Pods/nanopb/pb_decode.c:928-1076 | On any bytes, succeeds exactly when they parse, with the message they parse to, merged into the one given. Fields are found by the iterator from where it stands, and the required ones counted by walking it to the end. |
| PbParse.AnyPlaceWillDo | Smart Photo Kit/Pods/nanopb/pb_common.c:78-95 | When no two fields share a tag it does not matter where the iterator stands. |
| PbDecode.Decode | Smart Photo Kit/Pods/nanopb/pb_decode.c:1078-1090 | The same, merged into the defaults. |
| PbRequired.MarkSeen | Smart Photo Kit/Pods/nanopb/pb_decode.c:1015-1020 | Setting a bit adds exactly one field to those seen. |
| PbRequired.CheckRequired | Smart Photo Kit/Pods/nanopb/pb_decode.c:1051-1072 | The test on words and remaining bits passes exactly when the first 64 required fields have all been seen. |
| PbRequired.TestMeansSeen | Smart Photo Kit/Pods/nanopb/pb_decode.c:1033-1073 | Testing the indexes is testing the fields: every index below the count belongs to a required field and every required field has one. |
| PbIter.FieldIter.Next | Smart Photo Kit/Pods/nanopb/pb_common.c:20-76 | Moves to the next field or back to the first, and keeps addresses and required index those of the position, also between members of a union. |
| PbIter.PointsAtMembers | Smart Photo Kit/Pods/nanopb/pb_common.c:8-76 | On a table made from a structure as the macros of pb.h do, the pointers the iterator keeps are those of the structure's members, wherever it stands. |
| PbIter.FieldIter.Find | Smart Photo Kit/Pods/nanopb/pb_common.c:78-95 | Ends, and succeeds exactly when some field that is no extension has the tag; it then stands on the first one going round from where it stood. |
| PbIter.FieldIter.Begin | Smart Photo Kit/Pods/nanopb/pb_common.c:8-18 | Starts at the first field. |
| PbIter.RequiredCount | Smart Photo Kit/Pods/nanopb/pb_decode.c:1039-1049 | Walking on from wherever decoding left the iterator counts all required fields of the table. |
| PbRequired.IndexesDiffer | Smart Photo Kit/Pods/nanopb/pb_common.c:65-70 | Two required fields never share an index. |
| PbRoundTrip.MessageRoundTrip | Smart Photo Kit/Pods/nanopb/pb_decode.c:911-1090 | For descriptors with unique valid tags, what the encoder accepts decodes to the same message up to the contents of absent fields, if its strings leave room for their terminators: required, optional, repeated, packed, oneof and nested fields of every scalar type. |
| PbRoundTrip.ParsesNumber | Smart Photo Kit/Pods/nanopb/pb_decode.c:1339-1439 | A numeric value of any type and size, encoded and followed by anything, is parsed back from exactly its bytes. |
| PbRoundTrip.StringNeedsRoom | Smart Photo Kit/Pods/nanopb/pb_decode.c:1481-1517 | An encoded string decodes into its own field if and only if it is shorter than the field: one that fills its buffer is encoded but not decoded. |
| Transpose.Advance | Smart Photo Kit/Smart Photo Kit/CoreMLHelpers/MLMultiArray+Helpers.swift:85-92 | The carry loop turns the digits of a position into those of the next. |
| Transpose.Transposed | Smart Photo Kit/Smart Photo Kit/CoreMLHelpers/MLMultiArray+Helpers.swift:59-95 | The new array is the transposed data, for any shape and any permutation of its dimensions. |
| Transpose.DestinationBijective | Smart Photo Kit/Smart Photo Kit/CoreMLHelpers/MLMultiArray+Helpers.swift:75-93 | Every element gets a place within the new array, and transposing by the inverse permutation leads from there back. |
| Transpose.DestinationOnto | Smart Photo Kit/Smart Photo Kit/CoreMLHelpers/MLMultiArray+Helpers.swift:75-93 | Every place of the new array is reached. |
| Transpose.ElementsLand | Smart Photo Kit/Smart Photo Kit/CoreMLHelpers/MLMultiArray+Helpers.swift:75-93 | The element at an index lands at the permuted index. |
| Transpose.TransposeBack | Smart Photo Kit/Smart Photo Kit/CoreMLHelpers/MLMultiArray+Helpers.swift:59-95 | Transposing by the inverse permutation restores the array. |
| Transpose.Strides | Smart Photo Kit/Smart Photo Kit/CoreMLHelpers/MLMultiArray+Helpers.swift:37-41 | The strides are the products of the later dimensions. |
| Transpose.DestinationIndex | Smart Photo Kit/Smart Photo Kit/CoreMLHelpers/MLMultiArray+Helpers.swift:77-80 | The destination is the offset of the permuted index in the permuted shape. |
| Nms.IouIsShare | Smart Photo Kit/Smart Photo Kit/CoreMLHelpers/NonMaxSuppression.swift:46-60 | The overlap of two rectangles lies between 0 and 1, is symmetric, and is 1 for a rectangle with itself. |
| Nms.IouByCounting | Smart Photo Kit/Smart Photo Kit/CoreMLHelpers/NonMaxSuppression.swift:46-60 | On a grid it is the number of squares both have over the number either has. |
| Nms.NonMaxSuppression | Smart Photo Kit/Smart Photo Kit/CoreMLHelpers/NonMaxSuppression.swift:94-130 | The selection is sorted by score, within the cap and pairwise separated, no two overlapping by more than the threshold, and every candidate is selected, overlaps a selected box of no lower score too much, or came after the cap was reached with no selected box scoring lower. |
| Nms.Selectable | Smart Photo Kit/Smart Photo Kit/CoreMLHelpers/NonMaxSuppression.swift:109-120 | Whether the box overlaps none of the selected ones too much. |
| Nms.NonMaxSuppressionMultiClass | Smart Photo Kit/Smart Photo Kit/CoreMLHelpers/NonMaxSuppression.swift:154-191 | The result is sorted by score and within both caps, same-class boxes are separated, all scores exceed the threshold; each class's group accounts for all its candidates, and a group member is missing only if the total cap is full of boxes scoring no lower. |
| Nms.CandidatesOf | Smart Photo Kit/Smart Photo Kit/CoreMLHelpers/NonMaxSuppression.swift:164-176 | Exactly the boxes of the class above the score threshold. |

## Left out

- DoCompactionWork: the smallest snapshot is below the largest sequence number, since at the largest the
  rule would hide the first entry of every key; entries whose internal key does not parse are not part of
  the input; write errors end the loop and are an event of StoreRuns.
- SetupOtherInputs: the byte limit on expanding the inputs is an unknown answer, so the result holds for
  either; grandparents and the compaction pointer do not affect which entries are read.
- PickLevelForMemTableOutput: the overlap in bytes two levels down is an unknown answer for each level.
- RecoverLogFile: opening the file, reusing the last log (reuse_logs), and the writing of full memtables
  to level 0, which the method reports as a list; when that fails the replay stops.
- CrashRecovery: one log; CrashKeepsHistory is about all of them.
- ReadRecord: a reader with an initial offset that has found no record yet is not asked again after a stored
  type byte of 5 with a matching checksum, which it takes for the end of the file; a read error of the file
  in the middle of a record.
- AddRecord: a failing file; the bytes appended are those of a file that takes them all.
- WritesAreDurable: a log record is in the log as a whole once it is written, and a write that fails leaves
  nothing of its record in the log. What a crash leaves of a log being written is the subject of TornLog,
  CrashRecovery and CrashKeepsHistory; the last shares what is left out here about a write that fails.
- GetReturnsHistory: the search inside a table, its index and its filter; tables are finite maps here, and
  sorted sequences in Compaction and DbIter.
- CursorShowsSnapshot: the merging and concatenating iterators, whose result is the merged list.
- CrashKeepsHistory: tables and the manifest survive a crash as they were last written; the memtables a replay
  fills are read with the version, whether or not they are already written to level 0. The same goes for
  LastRecoveredIsRead and RecoveredIsPrefix.
- ThreadsWrite: a group whose record failed is a failed log write of the engine, whatever the cause.
- Insert: a key with a sequence number that is already in the list, which the source rules out.
- ReaderFindsLeast: reads and stores take effect one at a time and in program order; the weaker orders
  the atomic operations allow are not modelled.
- NoLostWakeup: that a signalled thread is scheduled in the end; MakeRoomForWrite is the time between two
  events here, its branches are events of StoreRuns.
- MessageRoundTrip: messages of four gigabytes and more, and a tag of zero. Messages are compared as values
  of their fields, not as the bytes of the structure.
- DecodeNoinit: callbacks, extensions, pointer fields and dynamic memory, fixed-count arrays,
  PB_WITHOUT_64BIT; an empty message type with a zero tag on the wire. The same goes for Decode.
- Encode: callbacks, extensions and pointer fields; a size_t that wraps around.
- Transposed: the source array's memory is contiguous and in row-major order, as the copying loop assumes.
- Strides: the check of the element count before it.
- NonMaxSuppression: scores and coordinates are exact numbers without rounding or NaN; the library's sort is
  an insertion sort, of which only the order by score is used. NonMaxSuppressionMultiClass shares this.
- User keys are integers outside DbFormat, which shows that any finite set of byte strings is ordered as
  their ranks are; a user-supplied comparator is assumed to be such a total order.
- The checksum of the log is any function that consumes a string byte by byte; that CRC32C detects damage
  is not used, and tables of it are not part of the model.
- DbIter: an internal key that does not parse, and the sampling of reads, which changes no result. The
  check for the end in Next after turning round cannot fail and has no counterpart.
- Snapshots outside the list (a sequence number passed as a snapshot that was never taken).
- Store: opening and closing a database, writing the manifest, statistics, the wait for a slower writer,
  and the order of events within one hold of the mutex.
- Version edits, table building, table and block caches, file names, the environment: none of them is
  part of this model.
- All user interface code of the app, its image and model helpers, and the other bundled libraries.
