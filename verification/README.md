# Verified models of the storage and codec code in Gallery

The application links two C/C++ libraries whose correctness everything it
stores or sends rests on, and has one algorithm of its own that is worth
proving. This project models them in Dafny and proves what they promise.

* **LevelDB** (`Gallery/Pods/leveldb-library/db`).
  * `Storage*.dfy`, `WriteQueue.dfy`, `Database*.dfy`: `db_impl.cc` as one
    transition system whose steps are the stretches of code between two
    releases of the mutex. Writers queue up and commit in groups; a background
    thread flushes `imm_` and merges tables; readers pin what they read; the
    process may die before, during or after any step, also while it is opening
    the database; files are collected. `VersionSet` is a persistent record
    (live tables, log number, last sequence, next file number), and
    `LogAndApply` writes it atomically or fails without saying whether it did.
    Two fields of that record are history: everything flushed so far, and the
    smallest snapshot compactions promised to keep. A write to a log file may
    fail half-way and leave a tear; the code goes on behind it, and so does the
    model. `StorageReplay.dfy`, `StorageBatches.dfy` and `DatabaseContents.dfy`
    say what the whole amounts to: a map from keys to values, changed by
    operations in the order of their numbers, a batch at a time;
    `StorageErrors.dfy` says which failures stop writing.
  * `DbImpl.dfy`, `DbCompaction.dfy`: the methods of `DBImpl` as the code runs
    them, in a class with the code's fields. Each is shown to take steps of that
    system, so what holds of all runs holds of them.
  * `DbFormat.dfy`, `InternalKeys.dfy`, `Entries.dfy`: internal keys, and the
    one-line meaning of a read: of the versions of a key that the snapshot may
    see, the newest decides, and a deletion hides.
  * `DbIter.dfy`, `Compaction.dfy`: the iterator over multi-version entries
    and the rule by which a compaction drops entries, both against that meaning.
  * `Log*.dfy`: the log writer and reader, for every block size that leaves
    room for a header and whose payloads fit two length bytes, for every
    checksum function, and for every way the calls of the file may fail.
    `LogTears.dfy`: what a write that fails half-way does to the records around
    it. `LogBehind.dfy`: what a reader finds behind the tear.
    `LogBytes.dfy`: the file format in plain numbers, for writer and reader.
    `LogDamage.dfy`, `LogReports.dfy`, `LogOffsets.dfy`, `LogBalance.dfy`: what is
    read of a damaged log or from an offset, and every byte that is reported.
    `LogStorage.dfy` ties the log of bytes to the log of batches in
    `Storage.dfy`: each write keeps the two in step, and what a crash leaves of
    the bytes reads back as what the store lets remain.
* **nanopb** (`Gallery/Pods/nanopb`).
  * `Varint.dfy`: varints and ZigZag, including the checks of the 32-bit decoder.
  * `FieldIterator.dfy`: the circular field iterator over raw offsets, and the
    bitmap of required fields.
  * `Messages.dfy`, `MessageDecoding.dfy`: descriptors, typed values, and the
    wire format as functions; `MessageEncoder.dfy`, `MessageDecoder.dfy`: the
    streams and recursive loops as they run, proved equal to those functions;
    `MessageFormat.dfy`: the wire format in plain numbers, as a relation between
    messages and bytes; `MessageSizes.dfy`: what is not sent;
    `MessageChecks.dfy`, `MessageSafety.dfy`: what is accepted and refused, and
    that whatever is accepted fits the receiver's struct;
    `MessageTheorems.dfy`, `MessageRoundTrip.dfy`, `MessageMerging.dfy`,
    `MessageExchange.dfy`: round trip, forward compatibility and messages merged
    into one another. `pb_size_t` is 32 bits wide.
* **Gallery** (`Gallery/Gallery/Helpers.swift`): greedy non-maximum suppression
  in `NonMaxSuppression.dfy`, over real numbers.

Conventions. Input and output, time and failures of the environment are
parameters. A comparator is any total order in which only equal keys compare
equal. `Inv` is the invariant of the store and `DbInv` that of store, queue and
history together; `Reachable` and `Happens` range over all runs from a new
database in which no crash makes up a record (below). A crash keeps of each log
all that was synced and any prefix of the rest; statements about plain acknowledgements therefore name the crashes that
keep what was appended (`LosesNothing`), while statements about synced writes
hold for every crash. Behind a tear a reader may find anything. Acknowledgements
from there are counted apart (`exposed`), and the guarantee of a write names two
conditions: that its log was not torn (`Exposed`), and that on the way no crash
makes up a record behind the tear of some log (`NothingForged`, of a crash;
`ForgesNothing` and `CrashesForgeNothing`, of a run), that is, that what is found
there was sent there, in that order. Both are needed (`TornWriteCanBeLost`,
`ForgedWriteWins`), and both hold in every run in which no write to a log file
fails half-way (`NothingIsExposed`, `UntornRun`, `UntornWriteSurvives`). In the
bytes, the second holds of a file in which nothing behind the tear parses as a
physical record but what was written as one (`NoStray`,
`NoStrayNothingForged`).

Where the code differs from what its comments or names suggest, the models
follow the code:

* A compaction goes on after a nested flush has failed, and tries that flush
  again although a background error is recorded; only file collection and new
  background work stop (`db_impl.cc:908-917, 227-231`).
* `SkipToInitialBlock` treats only the last five bytes of a block as its
  trailer (`log_reader.cc:38`); since no header fits the last six either, the
  records returned are the same (`SameRecordsFrom`).
* A failed `AddRecord` does not stop later writes to the same log, although its
  block offset has moved on without the bytes; only a failed sync does
  (`log_writer.cc:99-107`, `db_impl.cc:1216-1232`). The status of a block's
  trailer is not looked at either, so even an OK can come from a torn log
  (`log_writer.cc:48`). A later write can then be acknowledged, with a sync, and
  be gone after a crash (`TornWriteCanBeLost`, `OkIsNoPromise`).
* Behind a tear the reader's blocks are not the writer's: one may begin inside a
  payload, and the payload may hold a physical record, checksum and all. The
  checksum does not tell it from a real one, so the reader returns a record that
  nobody wrote (`ReadsWhatNobodyWrote`; `log_writer.cc:82-108`,
  `log_reader.cc:189-271`), and recovery replays it, even over a key whose own
  write was synced to an intact log (`ForgedWriteWins`; `db_impl.cc:414-453`).
* A record of type 5 or 6 is taken for the reader's own codes: the first ends the
  log in silence, the payload of the second is neither returned nor reported
  (`ReadingBalances`; `log_reader.cc:144-162`).
* A reader that starts inside the file forgets that it is resynchronising at the
  first physical record below its offset, and then reports what is left of the
  record around the offset as corruption (`OffsetReports`;
  `log_reader.cc:80-89, 260-266`).
* The shift counter of the 32-bit varint decoder has eight bits and wraps after
  37 bytes (`CounterWraps`), and in varints of more than five bytes the bits of
  the fifth past the 32nd are ignored (`Decode32Accepts`).
* A string that fills its array is encoded but cannot be decoded into the same
  array (`StringNeedsRoom`).
* An empty descriptor list takes tag zero for a field (`Iterator.Find`,
  `DecodeNoinit`).
* A limit below one still selects one box (`LimitHolds`).

## Model

| member | source | states |
|---|---|---|
| DatabaseTheorems.OkWriteSurvives | Gallery/Pods/leveldb-library/db/db_impl.cc:1185-1256 | Once Write has returned OK from a log that was not torn, each of its operations is acknowledged under the number its own turn gave it, and durable with sync; after any further run, with any writes, flushes, compactions, crashes and any number of openings that fail or succeed, an open database answers for every key like the map that a sequence of begun operations in ascending order makes of the empty one, with this operation among them under its number, so that a Get of its key gives the value of a Put and nothing after a Delete, of this or a later committed operation; with sync for any crashes, else for crashes that keep what was appended, as long as none makes up a record behind a tear |
| DatabaseTheorems.UntornWriteSurvives | Gallery/Pods/leveldb-library/db/db_impl.cc:1185-1256 | In a run without a half-failed write to a log file the same holds of every write that returned OK, with nothing else to assume but, without sync, that crashes keep what was appended |
| DatabaseContents.AnswersFollowTheQueue | Gallery/Pods/leveldb-library/db/db_impl.cc:1185-1256 | Between two moments without a crash the database changes, as a map, exactly by the operations of the writers that were told OK, applied in the order in which the writers queued up, whoever led their group; failed ones leave no trace |
| DatabaseContents.NewHoldsNothing | Gallery/Pods/leveldb-library/db/db_impl.cc:182-212 | A new database opens as the empty map, so that from there on it is the map those operations make |
| DatabaseTheorems.NothingIsExposed | Gallery/Pods/leveldb-library/db/log_writer.cc:82-108 | As long as no write to a log file fails half-way no log is torn, no write is exposed and no crash can make up a record: both conditions of the guarantee hold |
| DatabaseTheorems.OkMeansAcknowledged | Gallery/Pods/leveldb-library/db/db_impl.cc:1202-1245 | A write that returned OK was written by exactly one turn, though a different writer may have led it; the batch of that turn holds its operations in one piece, under the numbers that follow those of the members before it; all of them are acknowledged under these numbers, and durable if it asked for sync, or exposed if and only if the turn's log was torn |
| DatabaseTheorems.EveryWriterOnce | Gallery/Pods/leveldb-library/db/db_impl.cc:1238-1256 | Each writer that left the queue belongs to exactly one turn, is told that turn's status, and the turn wrote its writers' batches in arrival order |
| DatabaseTheorems.LogsFollowTheQueue | Gallery/Pods/leveldb-library/db/db_impl.cc:1205-1217 | What was sent to the logs is the batches of the turns in queue order, none twice, none left out, plus at most the group in flight; the logs were sent consecutive stretches of it, and each log file on disk exactly its stretch |
| DatabaseTheorems.SequencesAreGapFree | Gallery/Pods/leveldb-library/db/db_impl.cc:1202-1236 | Groups take consecutive, disjoint ranges starting after LastSequence, failed groups included, and LastSequence counts exactly the operations |
| DatabaseTheorems.GroupsAppearAtOnce | Gallery/Pods/leveldb-library/db/db_impl.cc:1100-1135 | At any moment a Get sees every finished group and nothing of the one in flight, whose numbers all lie past LastSequence |
| DatabaseTheorems.WaitersAreServed | Gallery/Pods/leveldb-library/db/db_impl.cc:1193-1256 | No wakeup is lost, no sync request rides behind a leader that does not sync, and tmp_batch_ is empty unless it is the batch of the group in flight, so that whoever builds a group next finds it empty |
| DatabaseTheorems.StoreIsReachable | Gallery/Pods/leveldb-library/db/db_impl.cc:1185-1256 | Every run of queue and store together is, seen from the store, a run of the store |
| DatabaseTheorems.TurnOf | Gallery/Pods/leveldb-library/db/db_impl.cc:1238-1248 | Turns tile the finished writers: exactly one turn holds each |
| DatabaseTheorems.NumbersUsed | Gallery/Pods/leveldb-library/db/db_impl.cc:1202-1236 | LastSequence is the opening value plus the operations of all turns |
| DatabaseTheorems.FirstNumber | Gallery/Pods/leveldb-library/db/db_impl.cc:1206-1207 | A group's first number follows directly on the operations of the turns before it |
| DatabaseTheorems.MergedHolds | Gallery/Pods/leveldb-library/db/db_impl.cc:1287-1301 | Each member's operations stand together, in order, in the merged batch, right behind those of the members before it |
| Database.ActsKeep | Gallery/Pods/leveldb-library/db/db_impl.cc:1185-1256 | The joint invariant of queue, store, log and history survives every interleaving of writers, readers, background work, recoveries and crashes that make up no record |
| Database.ActKeeps | Gallery/Pods/leveldb-library/db/db_impl.cc:1185-1370 | Each single step keeps the joint invariant, a crash if it makes up no record |
| Database.FinishesKeeps | Gallery/Pods/leveldb-library/db/db_impl.cc:1220-1254 | Ending a group keeps it: statuses, sequence numbers, journal and acknowledgements stay in step |
| Database.IdleTurnKeeps | Gallery/Pods/leveldb-library/db/db_impl.cc:1201-1254 | So does a turn that writes nothing: an error from MakeRoomForWrite, or a null batch |
| Database.LeadsKeeps | Gallery/Pods/leveldb-library/db/db_impl.cc:1201-1208 | Building a group links the queue's prefix to the store's group |
| Database.GroupIsPrefix | Gallery/Pods/leveldb-library/db/db_impl.cc:1274-1304 | A group is the first writers of the queue, and none asked for a sync unless the leader did |
| Database.AsideKeepsWriting | Gallery/Pods/leveldb-library/db/db_impl.cc:535-566 | Flushes, compactions, file collection and readers leave the group in flight, LastSequence, the current log's records and the acknowledgements alone |
| Database.AppendsKeeps | Gallery/Pods/leveldb-library/db/db_impl.cc:1216-1217 | Sending a group's record puts exactly it into the journal and the current log's stretch, whether or not it reports success and whether or not it tears the log |
| Database.SwitchesKeeps | Gallery/Pods/leveldb-library/db/db_impl.cc:1346-1366 | Switching logs starts a new stretch of the journal and keeps the joint invariant |
| Database.DiesKeeps | Gallery/Pods/leveldb-library/db/db_impl.cc:280-369 | A crash keeps it, for any loss of unsynced records and of what lies behind a tear, if no record is made up there |
| Database.OpensKeeps | Gallery/Pods/leveldb-library/db/db_impl.cc:1474-1518 | Opening starts a fresh queue and history on a store that meets the invariant |
| StorageRuns.CrashSafety | Gallery/Pods/leveldb-library/db/db_impl.cc:280-369 | In every reachable state and for every crash, whatever is found behind a tear, what the disk lets Recover rebuild includes every write acknowledged with sync from an intact log, and every one acknowledged from an intact log if appended bytes survive; it includes nothing that was never issued if the crash makes up no record |
| StorageReplay.AnswersAreReplay | Gallery/Pods/leveldb-library/db/write_batch.cc:118-143 | In every reachable open state a Get answers like the map that the committed operations, each begun on the run, make of the empty one in the order of their numbers: a Put sets a key and a Delete removes it; so does a read at every permitted snapshot, of the operations up to it |
| StorageBatches.BatchesAreAtomic | Gallery/Pods/leveldb-library/db/db_impl.cc:394-453 | The operations that a reachable open database answers by are those of some of the batches begun, each of them in full and under its own numbers: no crash, however torn the log, no flush and no recovery leaves a part of a batch |
| StorageBatches.StepWhole | Gallery/Pods/leveldb-library/db/db_impl.cc:535-566 | What memtables, logs and flushed tables hold stays a union of whole batches along every step, but for the group going into the memtable |
| StorageReplay.AcknowledgedIsHeld | Gallery/Pods/leveldb-library/db/db_impl.cc:280-369 | Through any run as in AcknowledgedWriteSurvives an acknowledged operation stays among those that make the map, under its number |
| StorageReplay.ReadersSeeReplay | Gallery/Pods/leveldb-library/db/db_impl.cc:1062-1145 | A reader sees, in what it pinned, the map of the operations up to its snapshot, however long it takes |
| StorageReplay.ReadIsReplay | Gallery/Pods/leveldb-library/db/db_impl.cc:1100-1135 | Reading the newest visible version of a key is looking it up in the map of the operations up to the snapshot |
| StorageReplay.ReadAfterBatch | Gallery/Pods/leveldb-library/db/write_batch.cc:118-143 | Inserting a batch under the numbers after all others does to the map what its operations do |
| StorageReplay.LastDecides | Gallery/Pods/leveldb-library/db/memtable.cc:125-132 | The last operation on a key decides: a Put by its value, a Delete by nothing being there |
| StorageReplay.OpIsSpelled | Gallery/Pods/leveldb-library/db/write_batch.cc:123-130 | The internal key of an operation is its key, then the byte 1 for a Put or 0 for a Delete, then its number in seven bytes from the lowest up |
| StorageErrors.HaltsExactly | Gallery/Pods/leveldb-library/db/db_impl.cc:640-646 | Without a crash the store stops taking writes exactly when it had stopped before or a sync of the log, a table, a manifest write or a compaction has failed on the way |
| StorageErrors.FailuresStopWrites | Gallery/Pods/leveldb-library/db/db_impl.cc:1227-1233 | After such a failure no group begins and no memtable is switched for as long as the process lives |
| StorageErrors.HealthyTakesWrites | Gallery/Pods/leveldb-library/db/db_impl.cc:1315-1319 | And without one an idle database takes a write |
| StorageRuns.SurvivesExactly | Gallery/Pods/leveldb-library/db/db_impl.cc:280-369 | An entry is recovered after every crash that keeps appended bytes if and only if it was flushed into the version on disk or is at its place in a log that version needs; acknowledged entries of intact logs are |
| StorageRuns.TornWriteCanBeLost | Gallery/Pods/leveldb-library/db/db_impl.cc:1213-1232 | Behind a tear the guarantee fails: a reachable state in which a synced, acknowledged write is gone after such a crash |
| StorageRuns.ForgedWriteWins | Gallery/Pods/leveldb-library/db/db_impl.cc:414-453 | So it does if a record is made up behind a tear: a reachable state, a crash that loses nothing and an opening after which a Get answers with a value nobody wrote, although the key's own write was synced to the log before it was torn |
| StorageRuns.UntornRun | Gallery/Pods/leveldb-library/db/log_writer.cc:82-108 | In a run in which no write to a log file fails half-way no log is torn and no crash makes up a record |
| StorageRuns.EntriesWereBegun | Gallery/Pods/leveldb-library/db/db_impl.cc:1201-1236 | Nothing comes from nowhere: along every run without made-up records, whatever is committed, failed or being written was there at the start or belongs to a group that began on the way |
| StorageRuns.CommittedWasBegun | Gallery/Pods/leveldb-library/db/db_impl.cc:280-369 | In a reachable state every committed entry is of a group that some writer began on the run from the new database to it |
| StorageRuns.AcknowledgedWriteSurvives | Gallery/Pods/leveldb-library/db/db_impl.cc:280-369 | Through any run to an open store, with any crashes for synced entries and with crashes that keep appended bytes for others, none of which makes up a record, a Get of an acknowledged entry's key answers with exactly it or with a committed one issued later |
| StorageRuns.AcknowledgedStaysThroughout | Gallery/Pods/leveldb-library/db/db_impl.cc:280-369 | No step takes an acknowledgement back: what was durable is still counted so after every run without made-up records, and what was acknowledged if crashes keep what was appended |
| StorageRuns.ReopenedAnswers | Gallery/Pods/leveldb-library/db/db_impl.cc:1474-1515 | However a closed database is opened, with or without a manifest record and with any tables written on the way, it answers every permitted read like the recoverable entries, and LastSequence is at or above all of them |
| StorageRuns.ReadersSeeTheirSnapshot | Gallery/Pods/leveldb-library/db/db_impl.cc:1062-1145 | However long a reader takes and whatever is written, flushed, merged or deleted meanwhile, it reads what was committed at its snapshot when it began, and its files stay |
| StorageRuns.FilesInUseStay | Gallery/Pods/leveldb-library/db/db_impl.cc:223-278 | In every reachable state the files of the current version, of the version on disk, of readers and of unfinished outputs exist |
| StorageRuns.LogsHoldMemory | Gallery/Pods/leveldb-library/db/db_impl.cc:535-566 | Logs from the version's number up to the current one hold exactly imm_, the current one mem_, but for failed groups and the one in flight |
| StorageRuns.SnapshotsArePermitted | Gallery/Pods/leveldb-library/db/db_impl.cc:890-894 | No snapshot is older than what a running or installed compaction may have dropped |
| StorageRuns.WriteSucceeds | Gallery/Pods/leveldb-library/db/db_impl.cc:1201-1236 | From any reachable state in which a group may be written, a write that meets no error is acknowledged under the next numbers, and durable if it asked for sync, unless the log is torn |
| StorageRuns.NewDatabaseOpens | Gallery/Pods/leveldb-library/db/db_impl.cc:182-212 | A new database opens and can be written to |
| StorageRuns.RunKeeps | Gallery/Pods/leveldb-library/db/db_impl.cc:535-566 | The store's invariant survives every run in which no crash makes up a record |
| StorageRuns.StepKeeps | Gallery/Pods/leveldb-library/db/db_impl.cc:535-566 | The store's invariant survives each kind of step, a crash if it makes up no record |
| StorageRuns.ReaderStaysThroughout | Gallery/Pods/leveldb-library/db/db_impl.cc:1112-1143 | What a reader pinned is not exchanged under it |
| StorageWrites.AppendKeeps | Gallery/Pods/leveldb-library/db/db_impl.cc:1216-1217 | Sending a record keeps the invariant, also when it fails with the record whole, and when it tears the log with or without an error |
| StorageWrites.SyncKeeps | Gallery/Pods/leveldb-library/db/db_impl.cc:1218-1223 | So does a sync that succeeds or fails |
| StorageWrites.InsertKeeps | Gallery/Pods/leveldb-library/db/db_impl.cc:1224-1226 | So does each entry entering the memtable while readers hold it |
| StorageWrites.InsertUnderPin | Gallery/Pods/leveldb-library/db/db_impl.cc:1123-1135 | An entry inserted under a reader lies past its snapshot and changes none of its reads |
| StorageWrites.FinishKeeps | Gallery/Pods/leveldb-library/db/db_impl.cc:1227-1236 | So does moving LastSequence and acknowledging |
| StorageWrites.FinishCovered | Gallery/Pods/leveldb-library/db/db_impl.cc:1216-1236 | What is acknowledged is at its place in the current log, which every version that may be recovered still needs, or is counted as exposed |
| StorageWrites.SwitchKeeps | Gallery/Pods/leveldb-library/db/db_impl.cc:1346-1366 | So does a new log with mem_ becoming imm_, which is possible only when there is no imm_ |
| StorageWrites.SwitchKeepsOldLogs | Gallery/Pods/leveldb-library/db/db_impl.cc:1346-1366 | After the switch the old logs hold exactly the new imm_ |
| StorageWrites.SnapshotKeeps | Gallery/Pods/leveldb-library/db/db_impl.cc:1166-1169 | Taking a snapshot keeps the invariant |
| StorageWrites.ReleaseKeeps | Gallery/Pods/leveldb-library/db/db_impl.cc:1171-1174 | So does releasing any of them |
| StorageBackground.FlushStartKeeps | Gallery/Pods/leveldb-library/db/db_impl.cc:491-498 | A fresh number for imm_'s table is used by no version and no reader |
| StorageBackground.FlushBuiltKeeps | Gallery/Pods/leveldb-library/db/db_impl.cc:500-532 | The version LogAndApply is to write could be recovered from, and the old one still can |
| StorageBackground.FlushedTables | Gallery/Pods/leveldb-library/db/db_impl.cc:513-525 | Its tables answer like everything flushed into it |
| StorageBackground.FlushedLogs | Gallery/Pods/leveldb-library/db/db_impl.cc:551-555 | From the new log number on the logs cover every acknowledged write the tables do not |
| StorageBackground.CommitKeeps | Gallery/Pods/leveldb-library/db/db_impl.cc:551-555 | The manifest may be written at any moment of LogAndApply, or never |
| StorageBackground.FlushInstalledKeeps | Gallery/Pods/leveldb-library/db/db_impl.cc:557-565 | Installing the flush, or noting its ambiguous failure, keeps the invariant, also inside a running compaction |
| StorageBackground.InstallFlushKeepsMerge | Gallery/Pods/leveldb-library/db/db_impl.cc:908-917 | A table flushed during a compaction holds only entries newer than the compaction's inputs |
| StorageBackground.GarbageKeeps | Gallery/Pods/leveldb-library/db/db_impl.cc:223-278 | Deleting obsolete files removes nothing a version, a reader, a log to be replayed or an unfinished output needs |
| StorageBackground.CompactStartKeeps | Gallery/Pods/leveldb-library/db/db_impl.cc:878-897 | Choosing the smallest snapshot leaves no snapshot below it |
| StorageBackground.OpenOutputKeeps | Gallery/Pods/leveldb-library/db/db_impl.cc:786-809 | A new output gets a number nobody uses and is protected from collection |
| StorageBackground.WriteOutputKeeps | Gallery/Pods/leveldb-library/db/db_impl.cc:964-990 | Outputs hold only entries the drop rule keeps |
| StorageBackground.CompactedTables | Gallery/Pods/leveldb-library/db/db_impl.cc:860-876 | With outputs in place of inputs every read at or above the smallest snapshot is unchanged |
| StorageBackground.MergedOutputsInstall | Gallery/Pods/leveldb-library/db/db_impl.cc:920-1034 | Output files that hold what the merge loop computes meet the condition under which the results may be installed |
| StorageBackground.CompactInstallKeeps | Gallery/Pods/leveldb-library/db/db_impl.cc:860-876 | The version with the outputs could be recovered from |
| StorageBackground.CompactInstalledKeeps | Gallery/Pods/leveldb-library/db/db_impl.cc:735-742 | Installing or failing, with cleanup and collection, keeps the invariant |
| StorageBackground.CompactAbortKeeps | Gallery/Pods/leveldb-library/db/db_impl.cc:735-784 | So does giving up before installing |
| StorageBackground.ReadsCommitted | Gallery/Pods/leveldb-library/db/db_impl.cc:1100-1135 | Tables, imm_ and mem_ together answer every permitted read like the committed entries, whatever part of a group is already in mem_ |
| StorageBackground.BeginReadKeeps | Gallery/Pods/leveldb-library/db/db_impl.cc:1104-1117 | A reader starts out seeing exactly the committed entries |
| StorageRecovery.CrashKeeps | Gallery/Pods/leveldb-library/db/db_impl.cc:280-369 | A crash at any step that makes up no record leaves a disk that meets the invariant of a closed database |
| StorageRecovery.OpenStartKeeps | Gallery/Pods/leveldb-library/db/db_impl.cc:1484-1505 | The version written at opening holds all that was recovered; a crash before or after it is written loses nothing |
| StorageRecovery.OpenedVersion | Gallery/Pods/leveldb-library/db/db_impl.cc:1501-1505 | Its tables answer like the old tables and the replayed logs together |
| StorageRecovery.CommitOpenKeeps | Gallery/Pods/leveldb-library/db/db_impl.cc:1501-1505 | Writing that version keeps the disk recoverable |
| StorageRecovery.FinishOpenKeeps | Gallery/Pods/leveldb-library/db/db_impl.cc:1506-1518 | The opened store meets the full invariant after collecting files |
| StorageRecovery.OpenUnsavedKeeps | Gallery/Pods/leveldb-library/db/db_impl.cc:1484-1510 | So does one opened without writing the manifest, when there was nothing to replay |
| StorageRecovery.RecoverTableKeeps | Gallery/Pods/leveldb-library/db/db_impl.cc:445-480 | Tables written by a recovery that dies do no harm |
| StorageInvariant.FutureIsInvisible | Gallery/Pods/leveldb-library/db/db_impl.cc:1106-1110 | Entries past the snapshot do not change a read |
| StorageInvariant.NewerLayer | Gallery/Pods/leveldb-library/db/db_impl.cc:1123-1135 | Under a newer layer, stores that answer alike still do; the layer decides where it has a version |
| StorageInvariant.CompactionAgrees | Gallery/Pods/leveldb-library/db/db_impl.cc:902-996 | Kept entries beside the untouched tables answer like inputs beside them, from the smallest snapshot on |
| StorageFrames.SoundStays | Gallery/Pods/leveldb-library/db/db_impl.cc:223-278 | A version stays recoverable while its tables stay, its logs keep what they hold and no more needs covering |
| StorageFrames.GrownLog | Gallery/Pods/leveldb-library/db/db_impl.cc:1216-1223 | A longer or synced log adds exactly its new entries to what can be recovered |
| WriteQueue.BuildBatchGroup | Gallery/Pods/leveldb-library/db/db_impl.cc:1258-1306 | The group is the longest prefix of the queue whose members may ride: no sync behind a non-sync leader, null batches absorbed, and all batches together at most 1 MiB, or for a first batch of at most 128 KiB that and 128 KiB more; the result merges their batches in order, and is the scratch batch exactly when a second batch joined, which the code asserts to find empty |
| WriteQueue.GroupOpsAreMerged | Gallery/Pods/leveldb-library/db/db_impl.cc:1294-1301 | In every state in which a group may be built the scratch batch is empty, so what goes out is what the group asked for and nothing left over |
| WriteQueue.GroupIsUnique | Gallery/Pods/leveldb-library/db/db_impl.cc:1260-1306 | That description determines the group |
| WriteQueue.NoSyncRides | Gallery/Pods/leveldb-library/db/db_impl.cc:1280-1283 | No member of a non-sync leader's group asked for a sync |
| WriteQueue.CompleteGroup | Gallery/Pods/leveldb-library/db/db_impl.cc:1234-1254 | The scratch batch is cleared if it was used; the pop loop tells every member the status, signals each, and wakes the new front, touching nobody else |
| WriteQueue.CompleteKeeps | Gallery/Pods/leveldb-library/db/db_impl.cc:1238-1254 | Afterwards no front sleeps without a pending signal |
| WriteQueue.CheckKeeps | Gallery/Pods/leveldb-library/db/db_impl.cc:1192-1198 | A writer returns, leads or sleeps; only the front leads, and only one leads |
| WriteQueue.NoLostWakeup | Gallery/Pods/leveldb-library/db/db_impl.cc:1192-1254 | A sleeping writer is undone and in the queue, and without a leader the front is about to check its turn |
| DbImpl.DBImpl.DeleteObsoleteFiles | Gallery/Pods/leveldb-library/db/db_impl.cc:223-278 | Without a background error exactly those tables stay that are pending, in the current version or pinned by a reader, and exactly the logs from the version's number on, with their contents; after a background error everything stays |
| DbImpl.DBImpl.LiveFiles | Gallery/Pods/leveldb-library/db/db_impl.cc:232-234 | The live set is pending outputs, the current version and every pinned one |
| DbImpl.DBImpl.MakeRoom | Gallery/Pods/leveldb-library/db/db_impl.cc:1308-1370 | The whole loop, with the flushes it waits for, is a run of the transition system: it ends with room only if a turn found the memtable not full, a forced call that finds room has switched memtables, a write is delayed at most once and a forced one never, it waits on only while the memtable is full or level 0 has eight files, an error is a recorded background error or a log file that could not be created |
| DbImpl.DBImpl.MakeRoomForWrite | Gallery/Pods/leveldb-library/db/db_impl.cc:1315-1369 | Which branch a turn takes: an error first, then one delay from eight level-0 files on, room unless forced or full, waiting for imm_ or from twelve level-0 files on, and only then a switch |
| DbImpl.DBImpl.StartNewLog | Gallery/Pods/leveldb-library/db/db_impl.cc:1346-1366 | The switch of log and memtable, or a file number given back |
| DbImpl.DBImpl.WriteGroup | Gallery/Pods/leveldb-library/db/db_impl.cc:1201-1256 | The leader's write is a run of the transition system: the queue loses exactly its group, the scratch batch ends empty, LastSequence advances by the group even on failure, a failed sync stops later writes, success acknowledges all of it |
| DbImpl.DBImpl.StartGroup | Gallery/Pods/leveldb-library/db/db_impl.cc:1205-1206 | The group built goes out under the number after LastSequence, as what its members asked for |
| DbImpl.DBImpl.LogAndInsert | Gallery/Pods/leveldb-library/db/db_impl.cc:1214-1227 | Append, sync and insertion with the mutex released reach the end of the group for every combination of failures and tears |
| DbImpl.DBImpl.InsertInto | Gallery/Pods/leveldb-library/db/db_impl.cc:1224-1226 | Entries enter the memtable one by one, each a step readers may see between; a memtable that read like a map then reads like the map after the batch's Puts and Deletes |
| DbImpl.DBImpl.FinishWrite | Gallery/Pods/leveldb-library/db/db_impl.cc:1227-1236 | LastSequence moves by the group's size and a sync error is recorded |
| DbImpl.DBImpl.WriteLevel0Table | Gallery/Pods/leveldb-library/db/db_impl.cc:491-533 | The memtable becomes a table under a fresh number, or leaves none when empty |
| DbImpl.DBImpl.InstallFlush | Gallery/Pods/leveldb-library/db/db_impl.cc:551-565 | imm_ is dropped only when LogAndApply succeeded; otherwise the error is recorded and nothing is deleted |
| DbImpl.DBImpl.CompactMemTable | Gallery/Pods/leveldb-library/db/db_impl.cc:535-566 | The whole flush is a run of the transition system for every outcome of its file operations |
| DbImpl.DBImpl.Get | Gallery/Pods/leveldb-library/db/db_impl.cc:1100-1145 | Searching mem_, imm_, tables and stopping at the first that knows the key answers like a read of everything committed at the snapshot |
| DbImpl.DBImpl.LayeredRead | Gallery/Pods/leveldb-library/db/db_impl.cc:1123-1135 | Stopping at the first of three layers that knows a key is reading their union |
| DbImpl.DBImpl.RecoverLogFile | Gallery/Pods/leveldb-library/db/db_impl.cc:371-489 | The tables written while replaying a log hold exactly its entries, wherever the memtable filled up; the largest sequence is tracked exactly; the manifest is to be saved if and only if there were records; a table that cannot be written ends it with an error |
| DbImpl.DBImpl.Recover | Gallery/Pods/leveldb-library/db/db_impl.cc:280-369 | Every log from the manifest's number on is replayed; files are never reported missing; unless a table cannot be written, tables and file counter end up as opening needs them, LastSequence is the larger of the manifest's and the last number of any batch replayed, and the manifest is to be saved if and only if there was a record |
| DbImpl.DBImpl.RecoverNext | Gallery/Pods/leveldb-library/db/db_impl.cc:348-361 | One log, after which the file counter is past its number |
| DbImpl.DBImpl.LogsToReplay | Gallery/Pods/leveldb-library/db/db_impl.cc:330-348 | The logs to replay are exactly those at or above the manifest's number, in ascending order |
| DbImpl.DBImpl.OpenSaved | Gallery/Pods/leveldb-library/db/db_impl.cc:1484-1510 | A new log and a manifest record that names it, as a run of the transition system |
| DbImpl.DBImpl.OpenUnchanged | Gallery/Pods/leveldb-library/db/db_impl.cc:1484-1510 | With nothing replayed the manifest stays as it is |
| DbImpl.DBImpl.Open | Gallery/Pods/leveldb-library/db/db_impl.cc:1474-1515 | Opening after any crash is a run: it ends in a store meeting the invariant, with everything recoverable committed and LastSequence at or above it, or fails because a table, the log file or the manifest could not be written and leaves a database that can be opened again |
| DbCompaction.DoCompactionWork | Gallery/Pods/leveldb-library/db/db_impl.cc:878-1036 | The merge loop with the writer switching memtables and the flushes nested in it, and the installation of its results, is a run of the transition system; on success the version holds the outputs in place of the inputs, and they hold exactly the input entries that someone needs: an entry goes if the present and every snapshot taken see a newer version among the inputs, or if it is a deletion that all of them see and that hides nothing below; without snapshots one version of each key is left and no such deletion; on failure the error is recorded, and without failures it succeeds |
| DbCompaction.KeptIsNeeded | Gallery/Pods/leveldb-library/db/db_impl.cc:890-893 | With the smallest snapshot chosen as it is the drop rule drops exactly what nobody needs |
| DbCompaction.OneEntry | Gallery/Pods/leveldb-library/db/db_impl.cc:920-998 | Each input entry is dropped by the rule or added to an output, opening and closing files as the environment asks, or the compaction is given up |
| DbCompaction.BetweenEntries | Gallery/Pods/leveldb-library/db/db_impl.cc:906-918 | A memtable switched and flushed between two entries leaves the merge where it was |
| DbCompaction.FlushLeavesMerge | Gallery/Pods/leveldb-library/db/db_impl.cc:908-917 | A nested flush, with its garbage collection, touches neither inputs nor outputs of the merge |
| DbCompaction.InstallResults | Gallery/Pods/leveldb-library/db/db_impl.cc:860-876 | The outputs replace the inputs and survive the collection that follows |
| DbIter.TableIsReads | Gallery/Pods/leveldb-library/db/db_iter.cc:168-198 | The rows an iterator shows are exactly the keys with a value at the snapshot and that value, one row a key |
| DbIter.TableAscends | Gallery/Pods/leveldb-library/db/db_iter.cc:141-198 | Rows come in ascending key order |
| DbIter.ShownIsNewest | Gallery/Pods/leveldb-library/db/db_iter.cc:168-198 | A shown entry is the newest visible version of its key |
| DbIter.SeekSplitsRows | Gallery/Pods/leveldb-library/db/db_iter.cc:269-281 | The rows past the seek position are those with keys at or above the target |
| DbIter.DBIter.Next | Gallery/Pods/leveldb-library/db/db_iter.cc:141-166 | Moves the cursor one row on, from either direction, or off the end |
| DbIter.DBIter.SwitchForward | Gallery/Pods/leveldb-library/db/db_iter.cc:144-158 | Turning from reverse to forward keeps the current row |
| DbIter.DBIter.FindNextUserEntry | Gallery/Pods/leveldb-library/db/db_iter.cc:168-198 | Stops at the next shown entry past what is skipped |
| DbIter.DBIter.Prev | Gallery/Pods/leveldb-library/db/db_iter.cc:200-225 | Moves the cursor one row back, from either direction, or off the front |
| DbIter.DBIter.SwitchReverse | Gallery/Pods/leveldb-library/db/db_iter.cc:203-222 | Turning from forward to reverse passes every version of the current key |
| DbIter.DBIter.FindPrevUserEntry | Gallery/Pods/leveldb-library/db/db_iter.cc:227-267 | Settles on the row before, leaving only invisible entries between iter_ and its first version |
| DbIter.DBIter.Seek | Gallery/Pods/leveldb-library/db/db_iter.cc:269-281 | The cursor stands on the first row at or above the target |
| DbIter.DBIter.SeekToFirst | Gallery/Pods/leveldb-library/db/db_iter.cc:283-292 | The cursor stands on the first row |
| DbIter.DBIter.SeekToLast | Gallery/Pods/leveldb-library/db/db_iter.cc:294-299 | The cursor stands on the last row |
| DbIter.DBIter.GetKey | Gallery/Pods/leveldb-library/db/db_iter.cc:64-67 | The key shown is the current row's, in both directions |
| DbIter.DBIter.GetValue | Gallery/Pods/leveldb-library/db/db_iter.cc:68-71 | The value shown is the current row's, in both directions |
| Compaction.CompactionPreservesRead | Gallery/Pods/leveldb-library/db/db_impl.cc:890-999 | For every key and every snapshot at or above the smallest, newer layers, kept entries and deeper levels answer like newer layers, inputs and deeper levels |
| Compaction.SurvivorsMeetRule | Gallery/Pods/leveldb-library/db/db_impl.cc:929-962 | What the loop keeps, tracking only the entry before, is exactly what no newer version below the smallest snapshot supersedes, less removable deletions |
| Compaction.DropsIsObsolete | Gallery/Pods/leveldb-library/db/db_impl.cc:929-962 | Entry by entry: dropped if and only if obsolete |
| Compaction.DoCompactionWork | Gallery/Pods/leveldb-library/db/db_impl.cc:878-1034 | The output files concatenate to the survivors in order, each nonempty with bounds equal to its first and last key, wherever cuts fall; without failures it succeeds |
| Compaction.OutputsAreDisjoint | Gallery/Pods/leveldb-library/db/db_impl.cc:920-996 | Output ranges are pairwise disjoint and ascending in internal-key order |
| DbFormat.ParseInvertsEncode | Gallery/Pods/leveldb-library/db/dbformat.cc:14-23 | Parsing inverts encoding for every sequence below 2^56, exactly for the valid type bytes |
| DbFormat.EncodeInvertsParse | Gallery/Pods/leveldb-library/db/dbformat.h:165-176 | Whatever parses is the encoding of what it parses to |
| DbFormat.KeyIsSpelled | Gallery/Pods/leveldb-library/db/dbformat.cc:14-23 | An internal key is the user key, the type byte and the sequence number in seven bytes from the lowest up |
| DbFormat.CompareIsBefore | Gallery/Pods/leveldb-library/db/dbformat.cc:51-67 | Encoded keys compare by user key ascending, then sequence descending, then type descending |
| DbFormat.BeforeTransitive | Gallery/Pods/leveldb-library/db/dbformat.cc:51-67 | That order is transitive |
| DbFormat.SeekKeySplitsVersions | Gallery/Pods/leveldb-library/db/dbformat.h:53-59 | A seek key sorts at or before exactly the versions of its key the snapshot may see, and later keys |
| InternalKeys.LookupKey.constructor | Gallery/Pods/leveldb-library/db/dbformat.cc:121-138 | The allocated estimate is enough, and the three views of the buffer are the memtable key, the internal key and the user key |
| InternalKeys.FindShortestSeparator | Gallery/Pods/leveldb-library/db/dbformat.cc:69-86 | The key returned lies from start up to limit in internal order and is start when start is not below limit; it is the shortened user key with the bytes 1 and seven times 255 whenever that user key is shorter and larger, and start otherwise |
| Entries.ReadIs | Gallery/Pods/leveldb-library/db/db_impl.cc:1100-1135 | A read is decided by the newest visible version |
| Entries.NewestExists | Gallery/Pods/leveldb-library/db/db_impl.cc:1100-1135 | Whenever some version is visible there is a newest one |
| LogWriter.Writer.AddRecord | Gallery/Pods/leveldb-library/db/log_writer.cc:34-80 | For every way the file's calls may fail: OK exactly when no call for the record itself failed; from an aligned offset, unless a trailer failed, the file gets the fragments of the record's layout up to the first error, all of them with OK, and the offset stays aligned exactly as long as all bytes are there; from any offset the fragments that reach the file in full are the record's first ones, in order and without a gap, all of them with OK |
| LogBytes.AddSpelled | Gallery/Pods/leveldb-library/db/log_writer.cc:64-108 | After an OK from an aligned offset, unless a trailer failed, the file has zeros up to the first header and then the record byte for byte: each header holds the checksum, the payload's length in two bytes, low byte first, and the type byte 1 for a whole record, else 2, 3 for those between, 4; without a failing call the status is OK |
| LogBytes.WholeIsSpelled | Gallery/Pods/leveldb-library/db/log_format.h:17-30 | The same of any file to which a record has been written whole |
| LogWriter.Writer.EmitPhysicalRecord | Gallery/Pods/leveldb-library/db/log_writer.cc:82-108 | Header and payload are appended as far as the file takes them; the block offset moves on in any case |
| LogWriter.Writer.constructor | Gallery/Pods/leveldb-library/db/log_writer.cc:23-25 | A new writer's file is the log of no records |
| LogWriter.Writer.Reopen | Gallery/Pods/leveldb-library/db/log_writer.cc:27-30 | A writer on an existing file of any length knows its place in the block |
| LogFormat.CutIsRecord | Gallery/Pods/leveldb-library/db/log_writer.cc:34-80 | The fragments of a record carry its bytes, are typed full or first, middle, last, and never cross a block |
| LogFormat.AppendExtendsLog | Gallery/Pods/leveldb-library/db/log_writer.cc:34-80 | Appending to a log of records makes the log of one more, and breaking off leaves the beginning of it |
| LogReader.Reader.ReadRecord | Gallery/Pods/leveldb-library/db/log_reader.cc:56-174 | Returns the record, its offset and the reports that the events ahead assemble to, terminates, and never returns a record below the initial offset |
| LogBytes.ReadSpelled | Gallery/Pods/leveldb-library/db/log_reader.cc:56-271 | From a file given by those bytes the running reader returns exactly the payloads, in order, and reports nothing |
| LogBytes.SpelledReadsBack | Gallery/Pods/leveldb-library/db/log_reader.cc:189-271 | So do the events of such a file |
| LogReader.Reader.AssembleRecord | Gallery/Pods/leveldb-library/db/log_reader.cc:65-174 | The loop over physical records computes that step by step |
| LogReader.Reader.ReadPhysicalRecord | Gallery/Pods/leveldb-library/db/log_reader.cc:189-271 | Yields the next event of the file and consumes exactly it |
| LogReader.Reader.SkipToInitialBlock | Gallery/Pods/leveldb-library/db/log_reader.cc:33-54 | Reading goes on at the block of the initial offset |
| LogReader.Reader.constructor | Gallery/Pods/leveldb-library/db/log_reader.cc:18-29 | A reader with an initial offset starts out resynchronising |
| LogEvents.ScanAboveInitial | Gallery/Pods/leveldb-library/db/log_reader.cc:261-266 | No physical record below the initial offset is handed on, and no damage below it reported |
| LogTheorems.TruncatedLogReadsBack | Gallery/Pods/leveldb-library/db/log_reader.cc:56-271 | Any byte prefix of a written log reads back as exactly the records complete in it, in order, with their offsets, and no corruption is reported |
| LogTheorems.BrokenAppendLosesNothing | Gallery/Pods/leveldb-library/db/log_writer.cc:34-108 | An append that breaks off with nothing after it loses nothing: the earlier records read back, the new one if and only if all its bytes are there, and nothing is reported |
| LogTheorems.RecordsComeFirst | Gallery/Pods/leveldb-library/db/log_reader.cc:56-271 | Whatever bytes stand behind a log of records, a reader finds those records first |
| LogTears.NextRecordIsLost | Gallery/Pods/leveldb-library/db/log_reader.cc:215-257 | A record written right behind a header whose payload failed is not found, though the ones before are, unless the checksums collide |
| LogTears.OkIsNoPromise | Gallery/Pods/leveldb-library/db/log_writer.cc:82-108 | The running writer reports OK for a record that the running reader then does not find |
| LogTears.ReadsWhatNobodyWrote | Gallery/Pods/leveldb-library/db/log_reader.cc:189-271 | The running writer reports an error and twice OK, and the running reader returns one record that is none of the three, whatever the checksum function, as long as the lost payload's checksum does not collide |
| LogBehind.NothingIsForged | Gallery/Pods/leveldb-library/db/log_reader.cc:56-271 | If behind a log of records nothing parses as a physical record but what was written as one, the reader finds the records and then some of those sent behind them, in order: never a mixture of two and none that was not sent |
| LogBehind.FindsSent | Gallery/Pods/leveldb-library/db/log_reader.cc:65-174 | The same from wherever the reader stands, with a record half assembled or not and its blocks shifted against the writer's |
| LogBehind.GoesOn | Gallery/Pods/leveldb-library/db/log_reader.cc:119-139 | A later fragment continues the record being assembled only if it is that record's next one; otherwise nothing is made of it |
| LogBehind.TraceMore | Gallery/Pods/leveldb-library/db/log_writer.cc:34-80 | Sending one more record, from any offset and however it fails, leaves the file holding parts of the records sent, in order, each later part right behind the one before it |
| LogStorage.SendBatch | Gallery/Pods/leveldb-library/db/log_writer.cc:34-108 | AddRecord keeps file and log of batches in step: the file stands for the log with the batch added, torn exactly when the record did not get to its place whole, and the parts behind a tear can be traced to what was sent there |
| LogStorage.SendAll | Gallery/Pods/leveldb-library/db/log_writer.cc:23-108 | So does a new log to which any list of batches is sent, whatever its calls come to: the log holds them all, at their place or behind the tear, and without a failing call it is intact and every status is OK |
| LogStorage.CutLogRemains | Gallery/Pods/leveldb-library/db/log_reader.cc:56-271 | What reads back from any surviving prefix with the synced bytes and none from behind a tear is the log cut short as the store allows, and no other list of batches encodes to it |
| LogStorage.TornLogRemains | Gallery/Pods/leveldb-library/db/log_reader.cc:56-271 | From what survives of a torn log all records before the tear read back first, and whatever batches are read behind it, the whole is what the store lets remain |
| LogStorage.NoStrayNothingForged | Gallery/Pods/leveldb-library/db/log_reader.cc:189-271 | If nothing that survives behind the tear parses as a record but what was written as one, the batches read there are some of those sent there, in order: the crash makes up no record |
| LogTheorems.RecoveredIsPrefix | Gallery/Pods/leveldb-library/db/log_reader.cc:56-174 | What a truncated log gives back is a prefix of its records |
| LogTheorems.SyncedRecordsSurvive | Gallery/Pods/leveldb-library/db/log_writer.cc:34-80 | It has at least the records whose bytes lie in the surviving part |
| LogTheorems.OffsetReadsSuffix | Gallery/Pods/leveldb-library/db/log_reader.cc:33-54 | A reader opened at an offset of an intact log returns exactly the records whose first header is at or past it, with those offsets |
| LogOffsets.OffsetReports | Gallery/Pods/leveldb-library/db/log_reader.cc:80-89 | Of an intact log it reports nothing if the first physical record it comes to lies past the offset; otherwise it reports one by one the fragments past the offset of the record that began before |
| LogOffsets.ResyncSkips | Gallery/Pods/leveldb-library/db/log_reader.cc:80-89 | Resynchronising passes over middle fragments and one last one in silence, and reading is then as if begun there, whatever comes |
| LogOffsets.EmptyFirstIsForgiven | Gallery/Pods/leveldb-library/db/log_reader.cc:92-117 | An empty first fragment before a whole or first one changes neither records nor reports |
| LogTheorems.SameRecordsFrom | Gallery/Pods/leveldb-library/db/log_reader.cc:33-40 | No header starts in a block's trailer |
| LogTheorems.ScanIntact | Gallery/Pods/leveldb-library/db/log_reader.cc:189-271 | Reading a written layout, cut anywhere, yields its complete fragments and then the end |
| LogTheorems.AllRecovered | Gallery/Pods/leveldb-library/db/log_reader.cc:56-174 | With nothing cut off every record comes back |
| LogDamage.DamageIsContained | Gallery/Pods/leveldb-library/db/log_reader.cc:123-257 | With one physical record damaged so that its length or checksum test fails, exactly the records with no fragment from it to the end of its block are returned, in order |
| LogReports.DamageIsReported | Gallery/Pods/leveldb-library/db/log_reader.cc:119-271 | The reports are exactly: the bytes from the damaged record to the end of its block or of the file, the bytes already read of a record it breaks off, and one by one the fragments in later blocks of a record begun before them; a length past the end of the file is the end of the log without a report, and a record of type and length 0 is not reported itself |
| LogBalance.ReadingBalances | Gallery/Pods/leveldb-library/db/log_reader.cc:56-271 | Whatever bytes a file holds, the sizes of the records returned and of all reports add up to the payload found and the bytes given up, less a record that the end of the log cuts short: nothing is passed over in silence |
| LogDamage.ScanDamaged | Gallery/Pods/leveldb-library/db/log_reader.cc:222-257 | The rest of the block is dropped and reported, and reading resumes at the next |
| LogRecovery.ReadToEnd | Gallery/Pods/leveldb-library/db/db_impl.cc:414-453 | Reading until the end terminates with all the records and reports the events call for |
| LogRecovery.ReplayAfterCrash | Gallery/Pods/leveldb-library/db/db_impl.cc:394-453 | Replaying any surviving prefix of a log yields exactly the complete records and reports nothing |
| Varint.EncodeVarint | Gallery/Pods/nanopb/pb_encode.c:608-628 | The loop produces the canonical varint, in at most ten bytes for 64-bit values |
| Varint.VarintRoundTrip64 | Gallery/Pods/nanopb/pb_decode.c:255-275 | The 64-bit decoder inverts the encoder, in one to ten bytes, and leaves the rest alone |
| Varint.VarintRoundTrip32 | Gallery/Pods/nanopb/pb_decode.c:187-247 | So does the 32-bit decoder below 2^32 |
| Varint.SignExtendedRoundTrip32 | Gallery/Pods/nanopb/pb_decode.c:215-231 | Ten-byte encodings of negative 32-bit numbers pass its checks and yield the low 32 bits |
| Varint.DecodersAgree | Gallery/Pods/nanopb/pb_decode.c:187-275 | Whatever the 32-bit decoder accepts in ten bytes the 64-bit one accepts too, with equal length and equal value modulo 2^32 |
| Varint.Decode32Reads | Gallery/Pods/nanopb/pb_decode.c:187-247 | Whatever its checks let through, the 32-bit decoder takes one whole varint, and in up to 37 bytes yields it modulo 2^32 |
| Varint.Decode32Accepts | Gallery/Pods/nanopb/pb_decode.c:187-247 | In up to 37 bytes it takes exactly the varints of up to four bytes, those of five whose last has no bit past the 32nd, and longer ones in which every byte from the sixth on is padding or extends the sign of a negative number |
| Varint.CounterWraps | Gallery/Pods/nanopb/pb_decode.c:213-235 | With 38 bytes it does not: the counter of eight bits has wrapped, and 8 comes out for a multiple of 2^32 |
| Varint.ZigZagInverts | Gallery/Pods/nanopb/pb_encode.c:630-639 | Decoding ZigZag inverts encoding on all 64-bit signed numbers |
| Varint.UnZigZagInverts | Gallery/Pods/nanopb/pb_decode.c:1269-1281 | And encoding inverts decoding on all 64-bit patterns |
| FieldIterator.Iterator.Next | Gallery/Pods/nanopb/pb_common.c:20-76 | Advances or wraps round; pointers and required index depend on the position alone |
| FieldIterator.Iterator.Begin | Gallery/Pods/nanopb/pb_common.c:8-18 | Starts over at the first field |
| FieldIterator.Iterator.Find | Gallery/Pods/nanopb/pb_common.c:78-95 | Terminates from any position, succeeds if and only if a field that is not an extension has the tag, stops at the first on the way, and on failure ends where it began |
| FieldIterator.FindsMembers | Gallery/Pods/nanopb/pb_common.c:20-76 | For offsets made by the generator's macros the walk finds every member, also in unions, at its place in the struct |
| FieldIterator.CheckRequired | Gallery/Pods/nanopb/pb_decode.c:1030-1070 | The final test passes if and only if each of the first 64 required fields was seen, wherever the iterator stands |
| FieldIterator.CheckWords | Gallery/Pods/nanopb/pb_decode.c:1048-1070 | The comparison of whole and partial words is that test |
| FieldIterator.MarkSeen | Gallery/Pods/nanopb/pb_decode.c:1012-1017 | A required field sets exactly its own bit, if there is one |
| Messages.ZeroIsDefault | Gallery/Pods/nanopb/pb_encode.c:240-337 | A proto3 value that is not sent is the one the receiver starts from, at every depth |
| MessageSizes.ZeroExactly | Gallery/Pods/nanopb/pb_encode.c:240-337 | A value is found not worth sending exactly when it is the default of its type and nothing in the type, a required field or bytes of fixed length, has to be sent |
| MessageSizes.SilentExactly | Gallery/Pods/nanopb/pb_encode.c:341-426 | A field adds no byte exactly when its slot is such a default |
| MessageSizes.MessageIsSilent | Gallery/Pods/nanopb/pb_encode.c:528-550 | A message has the empty encoding exactly when all its slots are |
| MessageSizes.SilentFieldAddsNothing | Gallery/Pods/nanopb/pb_encode.c:341-426 | Taking such a field out of descriptors and message changes no byte |
| MessageFormat.FieldsSpelledOnce | Gallery/Pods/nanopb/pb_encode.c:528-765 | The encoder's bytes are the one spelling of a message in the wire format: tags of number and wire type 0, 1, 2 or 5, minimal varints of seven bits a byte, ZigZag, little-endian words, lengths before bytes, strings, packed arrays and messages, items and fields in order, and nothing for what is not sent; what the encoder refuses has no spelling |
| MessageFormat.SlotSpelledOnce | Gallery/Pods/nanopb/pb_encode.c:341-426 | So for one field, by its rule |
| MessageFormat.VarintSpelledOnce | Gallery/Pods/nanopb/pb_encode.c:608-628 | A varint is the one minimal spelling of its number |
| MessageEncoder.OutputStream.Encode | Gallery/Pods/nanopb/pb_encode.c:528-550 | Succeeds exactly when the message has an encoding and it fits; then exactly its bytes are counted and written, none at all exactly for a message of defaults that need not be sent; the pointer keeps step with the count and never passes the limit |
| MessageEncoder.OutputStream.WriteSubmessage | Gallery/Pods/nanopb/pb_encode.c:717-765 | The two passes over a submessage agree, so its size never changes between them |
| MessageEncoder.OutputStream.WritePackedArray | Gallery/Pods/nanopb/pb_encode.c:163-205 | The size written before a packed array is the number of bytes that follow |
| MessageEncoder.OutputStream.WriteField | Gallery/Pods/nanopb/pb_encode.c:341-426 | A field is sent by its rule: always, when present, when not zero, item by item or packed, or when its union names it; nothing is written exactly when its slot is a default that need not be sent |
| MessageEncoder.OutputStream.Write | Gallery/Pods/nanopb/pb_encode.c:103-124 | A write happens entirely or not at all |
| MessageEncoder.OutputStream.WriteString | Gallery/Pods/nanopb/pb_encode.c:709-715 | A length and its bytes |
| MessageEncoder.OutputStream.WriteValue | Gallery/Pods/nanopb/pb_encode.c:769-913 | Each type's encoder writes the value's encoding, or fails where there is none |
| MessageEncoder.SizeThenWrite | Gallery/Pods/nanopb/pb_encode.c:567-576 | If counting gives a size, writing succeeds exactly when there is that much room, writes that many bytes, and they spell the message; if not, no bytes do |
| MessageDecoder.InputStream.ReadVarint32 | Gallery/Pods/nanopb/pb_decode.c:187-247 | Computes the 32-bit decoding and consumes exactly its bytes |
| MessageDecoder.InputStream.ReadVarint64 | Gallery/Pods/nanopb/pb_decode.c:255-275 | Computes the 64-bit decoding and consumes exactly its bytes |
| MessageDecoder.InputStream.SkipField | Gallery/Pods/nanopb/pb_decode.c:321-331 | Passes over exactly one encoded value of the wire type |
| MessageDecoder.InputStream.MakeSubstream | Gallery/Pods/nanopb/pb_decode.c:372-385 | A substream sees exactly the length-delimited value, and the parent exactly what follows |
| MessageDecoder.InputStream.CloseSubstream | Gallery/Pods/nanopb/pb_decode.c:387-401 | The parent goes on after the value, read to its end or not |
| MessageDecoder.InputStream.ReadScalar | Gallery/Pods/nanopb/pb_decode.c:1318-1424 | Casts, sign extension and overflow checks accept exactly the values that fit |
| MessageDecoder.InputStream.ReadPlain | Gallery/Pods/nanopb/pb_decode.c:1431-1548 | Bytes, strings and fixed arrays are read exactly when there is room for them |
| MessageDecoder.InputStream.ReadSubmessage | Gallery/Pods/nanopb/pb_decode.c:1503-1525 | A submessage is read from its own substream into what its slot already holds |
| MessageDecoder.InputStream.ReadPackedArray | Gallery/Pods/nanopb/pb_decode.c:421-452 | A packed array is read item by item and fails when it overflows |
| MessageDecoder.InputStream.ReadField | Gallery/Pods/nanopb/pb_decode.c:406-480 | Where the value goes depends on the field's rule |
| MessageDecoder.InputStream.ReadTag | Gallery/Pods/nanopb/pb_decode.c:298-319 | Tag and wire type, or the end of the message |
| MessageDecoder.InputStream.DecodeNoinit | Gallery/Pods/nanopb/pb_decode.c:925-1073 | The loop over the field iterator's circular search, with skipping and bitmap, computes the decoding of the whole input, succeeding exactly when it does; read into slots that fit the struct it leaves slots that do: of the right types, within their sizes, and with at most one member of each union set |
| MessageDecoder.InputStream.CheckSeen | Gallery/Pods/nanopb/pb_decode.c:1030-1070 | Seeking the end of the list from wherever the iterator stands and testing the bitmap is the test that every required field it has room for was seen |
| MessageDecoder.InputStream.Decode | Gallery/Pods/nanopb/pb_decode.c:1075-1087 | Decoding starts from the defaults, and whatever bytes it accepts, what it leaves fits the struct: every value has its type and size, and at most one member of each union is set |
| MessageSafety.FieldsFit | Gallery/Pods/nanopb/pb_decode.c:406-480 | For every byte string: decoding into slots that fit leaves slots that fit, at every depth |
| MessageSafety.PutFits | Gallery/Pods/nanopb/pb_decode.c:466-475 | Setting a member of a union unsets the others |
| MessageChecks.NumberExactly | Gallery/Pods/nanopb/pb_decode.c:1329-1412 | A number is accepted if and only if it is a varint of at most ten bytes whose value modulo 2^64, of narrow signed fields modulo 2^32, stands for it in its range, ZigZag for signed varints |
| MessageChecks.BoolExactly | Gallery/Pods/nanopb/pb_decode.c:1318-1327 | A flag is set by every number but a multiple of 2^32, of up to 37 bytes |
| MessageChecks.WordExactly | Gallery/Pods/nanopb/pb_decode.c:1414-1429 | A fixed word is exactly four or eight bytes, from the lowest up |
| MessageChecks.BytesExactly | Gallery/Pods/nanopb/pb_decode.c:1431-1548 | Bytes and strings are accepted if and only if all of the length announced is there and fits: a string leaves room for its NUL and ends at the first, fixed bytes have their size or are empty |
| MessageChecks.PackedExactly | Gallery/Pods/nanopb/pb_decode.c:421-452 | A packed array is stored whole behind the items there, or refused when there is no room for all of it |
| MessageChecks.ArrayGrows | Gallery/Pods/nanopb/pb_decode.c:454-464 | Any other item of an array is stored behind the others within its room; none is dropped |
| MessageChecks.RequiredIsThere | Gallery/Pods/nanopb/pb_decode.c:1030-1070 | A message is accepted only if, going from tag to tag, one comes to each of its first 64 required fields |
| MessageChecks.UnknownIsPassed | Gallery/Pods/nanopb/pb_decode.c:321-331 | A field nobody knows is passed over with exactly one value of its wire type |
| MessageChecks.UnknownIsRefused | Gallery/Pods/nanopb/pb_decode.c:321-331 | Without one, as for any wire type but 0, 1, 2 and 5, the message is refused |
| MessageRoundTrip.RoundTrip | Gallery/Pods/nanopb/pb_decode.c:925-1073 | Round trip and forward compatibility: a receiver that knows all or some of the sender's fields, at every level, decodes exactly the part of the message it can hold, with all bytes consumed and required fields accounted for |
| MessageRoundTrip.MessageRoundTrips | Gallery/Pods/nanopb/pb_encode.c:528-550 | With the sender's own descriptors the message itself comes back |
| MessageRoundTrip.ZeroEndsMessage | Gallery/Pods/nanopb/pb_decode.c:298-319 | A zero after a message ends it, and what follows is left alone |
| MessageMerging.ConcatenationMerges | Gallery/Pods/nanopb/pb_decode.c:406-480 | The bytes of two messages in a row decode to the first with the second merged into it: arrays appended, submessages merged, other fields and unions replaced where the second sends them |
| MessageMerging.MessageMerges | Gallery/Pods/nanopb/pb_decode.c:925-1073 | Decoding without initialisation merges a message into what is there |
| MessageMerging.LastMemberWins | Gallery/Pods/nanopb/pb_decode.c:466-475 | Of a union the member that came last is set and no other |
| MessageRoundTrip.RestRoundTrip | Gallery/Pods/nanopb/pb_decode.c:950-1026 | The same from the middle of a message, whatever fields were read before |
| MessageRoundTrip.StringNeedsRoom | Gallery/Pods/nanopb/pb_decode.c:1468-1500 | A string is decoded into the array it came from if and only if it leaves room for its NUL |
| MessageRoundTrip.ScalarRoundTrip | Gallery/Pods/nanopb/pb_decode.c:1318-1424 | Every in-range scalar of every width comes back |
| MessageRoundTrip.SkipsValue | Gallery/Pods/nanopb/pb_decode.c:278-331 | Skipping passes over exactly one encoded value of any type |
| MessageRoundTrip.SkipSlot | Gallery/Pods/nanopb/pb_decode.c:957-986 | A field the receiver does not know leaves no trace |
| MessageRoundTrip.TakeSlot | Gallery/Pods/nanopb/pb_decode.c:406-480 | A field the receiver knows ends up, projected, in its slot, and nothing else changes |
| MessageRoundTrip.PackedRoundTrip | Gallery/Pods/nanopb/pb_decode.c:421-452 | Packed items come back in order as long as there is room |
| MessageRoundTrip.ValueRoundTrip | Gallery/Pods/nanopb/pb_decode.c:1318-1548 | Every value comes back from its encoding, followed by anything |
| MessageTheorems.ProjectAll | Gallery/Pods/nanopb/pb_decode.c:925-1073 | Knowing all fields, the projection is the message |
| MessageTheorems.ProjectDefaults | Gallery/Pods/nanopb/pb_decode.c:836-920 | Projected defaults are the receiver's defaults |
| MessageExchange.SendAndReceive | Gallery/Pods/nanopb/pb_encode.c:528-550 | The running encoder and the running decoder together deliver exactly the receiver's part of the message |
| MessageExchange.SendTwice | Gallery/Pods/nanopb/pb_decode.c:466-475 | Two messages written to one stream are read as the second merged into the first; it fits the struct, and where the second sets a member of a union that one alone is set |
| MessageExchange.ReadSpelled | Gallery/Pods/nanopb/pb_decode.c:925-1073 | Bytes that spell a message in the wire format are read by the running decoder as the receiver's part of it |
| MessageExchange.KnownIsGood | Gallery/Pods/nanopb/pb_common.c:78-95 | A receiver that lists some of a sender's fields has distinct tags too |
| NonMaxSuppression.NonMaxSuppression | Gallery/Gallery/Helpers.swift:19-48 | The boxes returned follow score order and are the greedy choice up to the limit |
| NonMaxSuppression.Suppress | Gallery/Gallery/Helpers.swift:34-43 | The inner loop puts out exactly the later boxes that overlap the new pick above the threshold, and at least one box stays active, so the early exit on numActive is never taken |
| NonMaxSuppression.LimitHolds | Gallery/Gallery/Helpers.swift:29-32 | At most limit boxes, at least one if there are any, and below the limit every rejected box overlaps an earlier pick |
| NonMaxSuppression.GreedyIsUnique | Gallery/Gallery/Helpers.swift:19-48 | The greedy description determines the picks, whether or not the limit cuts them off |
| NonMaxSuppression.GreedyMeans | Gallery/Gallery/Helpers.swift:19-48 | No two boxes returned overlap by more than the threshold, and below the limit each box left out does with a returned one before it |
| NonMaxSuppression.IouIsRatio | Gallery/Gallery/Helpers.swift:50-64 | Of boxes of positive area the points in common are a box, and the overlap times the area of the two together is the area of that box; without a common point it is zero |
| NonMaxSuppression.IouOfItself | Gallery/Gallery/Helpers.swift:50-64 | A box overlaps itself by one, and a box without area overlaps nothing |
| NonMaxSuppression.IouIsAMeasure | Gallery/Gallery/Helpers.swift:50-64 | Intersection over union is symmetric and between 0 and 1 |

## Left out

- Levels of tables: a read takes the newest version over all tables of the version, and picking a compaction is a guard saying what its choice guarantees; how VersionSet places files in levels is not part of this model.
- The manifest as a log of edits: LogAndApply writes a whole record, so the order of edits after an ambiguous failure is not modelled.
- Trivial moves, manual compactions and their ranges: with levels left out a move changes nothing, and a manual compaction is a compaction with other inputs.
- reuse_logs (off by default): appending to a log whose end was torn by a crash is not modelled.
- LogStorage.NoStrayNothingForged: goes one way, because a stray physical record need not end up in a record that is returned; when one does, ReadsWhatNobodyWrote and ForgedWriteWins say what comes of it.
- StorageRuns.StepKeeps: the invariants speak of runs without made-up records; what else may go wrong after a crash that makes one up, such as two entries under one sequence number, is not followed further than ForgedWriteWins.
- Shutting down, waiting in the destructor and paranoid_checks: they only remove behaviour.
- Sequence numbers are unbounded in the database model; packing them below 2^56 is treated in DbFormat.
- A batch's bytes: a batch is a list of operations and its encoded size a parameter; LogStorage takes any injective encoding.
- DbImpl.DBImpl.RecoverLogFile: does not model log records too short for a batch header, batches that cannot be decoded, or a log file that cannot be opened, which the code skips unless paranoid_checks is on, because no write makes them; a log that exists can be read.
- LogReader.Reader.ReadRecord: requires a reader that has yet to skip to its initial offset not to be stopped inside a block, which only a record of type 5 can bring about, the reader's own code for the end of the file; there the code would skip a second time.
- LogReader.Reader.ReadPhysicalRecord: does not model a read of the file that fails and the drop it reports; the file is read as it is.
- LogReader.Reader.SkipToInitialBlock: does not model a failing Skip and the drop it reports.
- Compaction.CompactionPreservesRead: does not cover inputs with malformed keys, because the loop forgets its state at such a key and may keep or drop by other rules after it.
- DbIter.DBIter.Next: does not cover malformed internal keys, which the code skips with a corruption status; entries are well formed. The pseudo-random read sampling has no effect on results.
- nanopb callbacks, extensions and pointer fields: calls into foreign code and allocation.
- MessageDecoder.InputStream.DecodeNoinit: does not model extension ranges and fixed-count fields, which descriptors here do not have.
- Fixed-count arrays (repeated fields without a count): their elements are not initialised before decoding.
- Default values other than zero: an absent optional field has no value here, and a required one is always sent.
- Descriptors with an integer size other than 1, 2, 4 or 8 bytes: the generator makes none.
- The shift counters of the varint decoders have eight bits, the least uint_fast8_t may have.
- MessageRoundTrip.RoundTrip: requires an encoding below 2^32 bytes, because lengths are decoded as 32-bit numbers.
- Lengths and addresses are unbounded: wrap-around of size_t in the streams is not modelled, and the output buffer is the bytes before the write pointer.
- NonMaxSuppression.NonMaxSuppression: does not model rounding and NaN, because scores and rectangles are real numbers; the library's sort is any order by falling score.
- FindShortSuccessor, filter policies, file names, statistics and the C interface: only easy members would result.
