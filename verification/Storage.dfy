// The state DBImpl keeps in memory and on disk (db/db_impl.cc), and every
// atomic step between two releases of its mutex that touches that state.
module Storage {
  import opened Bytes
  import opened DbFormat
  import opened Entries
  import opened Compaction

  // ---- batches and logs ---------------------------------------------------

  datatype Op = Put(key: Key, value: Value) | Delete(key: Key)
  {
    function At(seqno: nat): Entry
    {
      match this
      case Put(k, v) => Entry(k, seqno, TYPE_VALUE, v)
      case Delete(k) => Entry(k, seqno, TYPE_DELETION, [])
    }
  }

  // A write batch with its sequence number: operation i has number first + i.
  datatype Batch = Batch(first: nat, ops: seq<Op>)
  {
    // One past the last number used.
    function Next(): nat { first + |ops| }

    function Prefix(n: nat): set<Entry>
      requires n <= |ops|
    {
      set i | 0 <= i < n :: ops[i].At(first + i)
    }

    function All(): set<Entry> { Prefix(|ops|) }
  }

  // A log file: the records every reader finds, how many of them are known
  // synced, and, once an append went wrong and left a tear in the file, what was
  // sent there from then on. Behind a tear a reader finds some of it or nothing.
  datatype Log = Log(records: seq<Batch>, synced: nat, behind: Option<seq<Batch>>)
  {
    predicate Torn() { behind.Some? }

    function Behind(): seq<Batch> { if Torn() then behind.value else [] }

    // Everything sent to the file, in order.
    function Sent(): seq<Batch> { records + Behind() }

    function All(): set<Entry> { RecordEntries(Sent()) }

    ghost function Intact(): set<Entry> { RecordEntries(records) }

    ghost function Safe(): set<Entry> { RecordEntries(records[..Min(synced, |records|)]) }

    // One more record, at its place unless the file is or gets torn.
    function Add(b: Batch, tears: bool): Log
    {
      if Torn() || tears then this.(behind := Some(Behind() + [b])) else this.(records := records + [b])
    }
  }

  const NEW_LOG: Log := Log([], 0, None)

  function RecordEntries(records: seq<Batch>): set<Entry>
  {
    set r, e | r in records && e in r.All() :: e
  }

  // ---- versions and files ---------------------------------------------------

  // What VersionSet keeps and the manifest records. The last two fields are
  // history: every entry flushed into this version so far, and the smallest
  // snapshot its compactions promised to preserve.
  datatype Version = Version(tables: set<nat>, log: nat, last: nat, next: nat,
                             flushed: set<Entry>, floor: nat)

  datatype Disk = Disk(manifest: Version, tables: map<nat, set<Entry>>, logs: map<nat, Log>)

  function Contents(tables: map<nat, set<Entry>>, live: set<nat>): set<Entry>
  {
    set n, e | n in live && n in tables && e in tables[n] :: e
  }

  ghost function LogsFrom(logs: map<nat, Log>, from: nat): set<Entry>
  {
    set n, e | n in logs && n >= from && e in logs[n].All() :: e
  }

  ghost function IntactFrom(logs: map<nat, Log>, from: nat): set<Entry>
  {
    set n, e | n in logs && n >= from && e in logs[n].Intact() :: e
  }

  ghost function SafeFrom(logs: map<nat, Log>, from: nat): set<Entry>
  {
    set n, e | n in logs && n >= from && e in logs[n].Safe() :: e
  }

  // ---- the state --------------------------------------------------------------

  datatype Stage = ToAppend | ToSync | Inserting(done: nat) | Broken(syncError: bool)

  // The group whose leader has the log and the memtable to itself.
  datatype Group = Group(batch: Batch, sync: bool, stage: Stage)

  datatype Flush = NoFlush | Building(table: nat) | Installing(next: Version)

  datatype Compact = NoCompact
                   | Merging(inputs: set<nat>, smallest: nat, isBase: Key -> bool, outputs: set<nat>)
                   | InstallingOutputs(files: set<nat>, next: Version)

  // What a Get or an iterator holds on to; `seen` is history.
  datatype Pin = Pin(mem: nat, imm: Option<nat>, tables: set<nat>, snapshot: nat, seen: set<Entry>)

  datatype Mode = Down | Opening(next: Version) | Up

  // History: entries of finished groups and of failed ones; of those acknowledged
  // to their writers, the ones written to an intact log, the ones among these
  // whose writers asked for a sync, and the ones written behind a tear.
  datatype History = History(committed: set<Entry>, failed: set<Entry>, acked: set<Entry>, durable: set<Entry>,
                             exposed: set<Entry>)

  // A memtable is named by the number of the log that was opened with it.
  datatype Store = Store(disk: Disk, mode: Mode, v: Version,
                         mems: map<nat, set<Entry>>, logfile: nat, imm: Option<nat>,
                         bgError: bool, pending: set<nat>, snapshots: seq<nat>, pins: map<nat, Pin>,
                         group: Option<Group>, flush: Flush, compact: Compact, hist: History)
  {
    ghost function Mem(): set<Entry> { if logfile in mems then mems[logfile] else {} }

    ghost function Imm(): set<Entry>
    {
      if imm.Some? && imm.value in mems then mems[imm.value] else {}
    }

    // What the group has put into the log, and into the memtable, so far.
    ghost function InFlight(): set<Entry>
    {
      if group.Some? && group.value.stage != ToAppend then group.value.batch.All() else {}
    }

    ghost function Inserted(): set<Entry>
    {
      if group.Some? && group.value.stage.Inserting? && group.value.stage.done <= |group.value.batch.ops|
      then group.value.batch.Prefix(group.value.stage.done) else {}
    }

    // The current log has a tear.
    ghost predicate Torn() { logfile in disk.logs && disk.logs[logfile].Torn() }

    ghost function Issued(): set<Entry> { hist.committed + hist.failed + InFlight() }

    // The version LogAndApply is writing to the manifest.
    function InManifestWrite(): Option<Version>
    {
      if mode.Opening? then Some(mode.next)
      else if mode.Up? && flush.Installing? then Some(flush.next)
      else if mode.Up? && compact.InstallingOutputs? then Some(compact.next)
      else None
    }

    ghost function Live(): set<nat>
    {
      pending + v.tables + (set id, n | id in pins && n in pins[id].tables :: n)
    }

    ghost function PinContents(p: Pin): set<Entry>
    {
      (if p.mem in mems then mems[p.mem] else {}) +
      (if p.imm.Some? && p.imm.value in mems then mems[p.imm.value] else {}) +
      Contents(disk.tables, p.tables)
    }
  }

  const NEW_DB: Version := Version({}, 0, 0, 2, {}, 0)

  // Right after NewDB: a manifest and nothing else.
  ghost function Initial(): Store
  {
    Closed(Disk(NEW_DB, map[], map[]), History({}, {}, {}, {}, {}))
  }

  ghost function Closed(disk: Disk, hist: History): Store
  {
    Store(disk, Down, disk.manifest, map[], 0, None, false, {}, [], map[], None, NoFlush, NoCompact, hist)
  }

  // ---- writing a group (Write, between BuildBatchGroup and SetLastSequence) --

  ghost predicate CanBegin(s: Store)
  {
    s.mode.Up? && s.group.None? && !s.bgError
  }

  ghost function BeginGroup(s: Store, ops: seq<Op>, sync: bool): Store
  {
    s.(group := Some(Group(Batch(s.v.last + 1, ops), sync, ToAppend)))
  }

  ghost predicate AtStage(s: Store, stage: Stage)
  {
    s.mode.Up? && s.group.Some? && s.group.value.stage == stage
  }

  ghost predicate CanAppend(s: Store) { AtStage(s, ToAppend) && s.logfile in s.disk.logs }

  // AddRecord. When a write to the file fails, the writer's place in its block
  // no longer fits the file: the log is torn, whether or not the error is
  // reported. Only a failed flush after the last byte leaves the record whole.
  ghost function Append(s: Store, ok: bool, tears: bool): Store
    requires CanAppend(s)
  {
    var g := s.group.value;
    var stage := if !ok then Broken(false) else if g.sync then ToSync else Inserting(0);
    s.(group := Some(g.(stage := stage)),
       disk := s.disk.(logs := s.disk.logs[s.logfile := s.disk.logs[s.logfile].Add(g.batch, tears)]))
  }

  ghost predicate CanSync(s: Store) { AtStage(s, ToSync) && s.logfile in s.disk.logs }

  ghost function Sync(s: Store, ok: bool): Store
    requires CanSync(s)
  {
    var g := s.group.value;
    var log := s.disk.logs[s.logfile];
    if ok then
      s.(group := Some(g.(stage := Inserting(0))),
         disk := s.disk.(logs := s.disk.logs[s.logfile := log.(synced := |log.records|)]))
    else
      s.(group := Some(g.(stage := Broken(true))))
  }

  ghost predicate CanInsert(s: Store)
  {
    s.mode.Up? && s.group.Some? && s.group.value.stage.Inserting? &&
    s.group.value.stage.done < |s.group.value.batch.ops| && s.logfile in s.mems
  }

  // One entry of the group enters the memtable; readers may look at any time.
  ghost function InsertOne(s: Store): Store
    requires CanInsert(s)
  {
    var g := s.group.value;
    var i := g.stage.done;
    s.(group := Some(g.(stage := Inserting(i + 1))),
       mems := s.mems[s.logfile := s.mems[s.logfile] + {g.batch.ops[i].At(g.batch.first + i)}])
  }

  ghost predicate CanFinish(s: Store)
  {
    s.mode.Up? && s.group.Some? &&
    match s.group.value.stage
    case Inserting(done) => done == |s.group.value.batch.ops|
    case Broken(_) => true
    case _ => false
  }

  // LastSequence moves past the group whether or not it succeeded.
  ghost function FinishGroup(s: Store): Store
    requires CanFinish(s)
  {
    var g := s.group.value;
    var all := g.batch.All();
    var hist :=
      if g.stage.Broken? then s.hist.(failed := s.hist.failed + all)
      else if s.Torn() then s.hist.(committed := s.hist.committed + all, exposed := s.hist.exposed + all)
      else s.hist.(committed := s.hist.committed + all, acked := s.hist.acked + all,
                   durable := s.hist.durable + if g.sync then all else {});
    s.(group := None, v := s.v.(last := s.v.last + |g.batch.ops|),
       bgError := s.bgError || g.stage == Broken(true), hist := hist)
  }

  // MakeRoomForWrite's last branch: a new log, and the memtable becomes imm_.
  ghost predicate CanSwitch(s: Store)
  {
    s.mode.Up? && s.group.None? && !s.bgError && s.imm.None?
  }

  ghost function SwitchMemTable(s: Store): Store
  {
    var n := s.v.next;
    s.(v := s.v.(next := n + 1), disk := s.disk.(logs := s.disk.logs[n := NEW_LOG]),
       mems := s.mems[n := {}], imm := Some(s.logfile), logfile := n)
  }

  // ---- CompactMemTable -------------------------------------------------------

  // The background thread is not waiting for the manifest. A flush nested in
  // a running compaction is tried even after a background error.
  ghost predicate CanFlush(s: Store)
  {
    && s.mode.Up? && s.imm.Some? && s.flush.NoFlush? && !s.compact.InstallingOutputs?
    && (s.bgError ==> s.compact.Merging?)
  }

  ghost function FlushStart(s: Store): Store
  {
    var n := s.v.next;
    s.(v := s.v.(next := n + 1), pending := s.pending + {n}, flush := Building(n),
       disk := s.disk.(tables := s.disk.tables[n := {}]))
  }

  ghost predicate CanFlushBuilt(s: Store)
  {
    s.mode.Up? && s.imm.Some? && s.flush.Building?
  }

  // WriteLevel0Table returns; on success LogAndApply begins at once. An empty
  // memtable leaves no table behind.
  ghost function FlushBuilt(s: Store, ok: bool): Store
    requires CanFlushBuilt(s)
  {
    var n := s.flush.table;
    var pending := s.pending - {n};
    if !ok then s.(pending := pending, flush := NoFlush, bgError := true)
    else
      var empty := s.Imm() == {};
      var tables := if empty then s.disk.tables - {n} else s.disk.tables[n := s.Imm()];
      var next := s.v.(tables := if empty then s.v.tables else s.v.tables + {n},
                       log := s.logfile, flushed := s.v.flushed + s.Imm());
      s.(pending := pending, flush := Installing(next), disk := s.disk.(tables := tables))
  }

  // The manifest record reaches the disk at some moment of LogAndApply, or never.
  ghost predicate CanCommit(s: Store)
  {
    s.InManifestWrite().Some?
  }

  ghost function CommitManifest(s: Store): Store
    requires CanCommit(s)
  {
    s.(disk := s.disk.(manifest := s.InManifestWrite().value))
  }

  // LogAndApply returns OK only once the record is there; its other answer
  // says nothing about that.
  ghost predicate CanInstallFlush(s: Store, ok: bool)
  {
    s.mode.Up? && s.flush.Installing? && (ok ==> s.disk.manifest == s.flush.next)
  }

  ghost function FlushInstalled(s: Store, ok: bool): Store
    requires CanInstallFlush(s, ok)
  {
    if ok then
      CollectGarbage(s.(v := Installed(s.v, s.flush.next), imm := None, flush := NoFlush))
    else s.(flush := NoFlush, bgError := true)
  }

  // LastSequence and the file counter may have moved on while the manifest was written.
  function Installed(v: Version, next: Version): Version
  {
    v.(tables := next.tables, log := next.log, flushed := next.flushed, floor := next.floor)
  }

  // DeleteObsoleteFiles.
  ghost function CollectGarbage(s: Store): Store
  {
    if s.bgError then s
    else
      s.(disk := s.disk.(
         tables := (map n | n in s.disk.tables && n in s.Live() :: s.disk.tables[n]),
         logs := (map n | n in s.disk.logs && n >= s.v.log :: s.disk.logs[n])))
  }

  // ---- DoCompactionWork --------------------------------------------------------

  // What picking a compaction guarantees: an entry of a table that is left
  // out is newer than every entry of its key in the inputs, unless the key is
  // reported as present below them.
  ghost predicate Pickable(s: Store, inputs: set<nat>, isBase: Key -> bool)
  {
    && inputs <= s.v.tables
    && Above(Contents(s.disk.tables, s.v.tables - inputs), Contents(s.disk.tables, inputs), isBase)
  }

  ghost predicate Above(rest: set<Entry>, input: set<Entry>, isBase: Key -> bool)
  {
    forall e, f | e in rest && f in input && e.user == f.user && isBase(e.user) :: e.seqno > f.seqno
  }

  ghost predicate CanCompact(s: Store, inputs: set<nat>, isBase: Key -> bool)
  {
    && s.mode.Up? && !s.bgError && s.imm.None? && s.flush.NoFlush? && s.compact.NoCompact?
    && Pickable(s, inputs, isBase)
  }

  // The oldest snapshot, or the last sequence when there is none.
  function SmallestSnapshot(s: Store): nat
  {
    if s.snapshots == [] then s.v.last else s.snapshots[0]
  }

  ghost function CompactStart(s: Store, inputs: set<nat>, isBase: Key -> bool): Store
  {
    s.(compact := Merging(inputs, SmallestSnapshot(s), isBase, {}))
  }

  ghost predicate CanMerge(s: Store)
  {
    s.mode.Up? && s.compact.Merging? && s.flush.NoFlush?
  }

  ghost function OpenOutput(s: Store): Store
    requires CanMerge(s)
  {
    var n := s.v.next;
    s.(v := s.v.(next := n + 1), pending := s.pending + {n},
       compact := s.compact.(outputs := s.compact.outputs + {n}),
       disk := s.disk.(tables := s.disk.tables[n := {}]))
  }

  ghost predicate CanWriteOutput(s: Store, n: nat, e: Entry)
  {
    && CanMerge(s) && n in s.compact.outputs && n in s.disk.tables
    && e in Kept(Contents(s.disk.tables, s.compact.inputs), s.compact.smallest, s.compact.isBase)
  }

  ghost function WriteOutput(s: Store, n: nat, e: Entry): Store
    requires CanWriteOutput(s, n, e)
  {
    s.(disk := s.disk.(tables := s.disk.tables[n := s.disk.tables[n] + {e}]))
  }

  // The merge is over: every entry that is kept is in some output.
  ghost predicate CanCompactInstall(s: Store)
  {
    && CanMerge(s)
    && Contents(s.disk.tables, s.compact.outputs) ==
       Kept(Contents(s.disk.tables, s.compact.inputs), s.compact.smallest, s.compact.isBase)
  }

  ghost function CompactInstall(s: Store): Store
    requires CanCompactInstall(s)
  {
    var c := s.compact;
    s.(compact := InstallingOutputs(c.outputs,
         s.v.(tables := s.v.tables - c.inputs + c.outputs, floor := Max(s.v.floor, c.smallest))))
  }

  ghost predicate CanCompactInstalled(s: Store, ok: bool)
  {
    s.mode.Up? && s.compact.InstallingOutputs? && (ok ==> s.disk.manifest == s.compact.next)
  }

  ghost function CompactInstalled(s: Store, ok: bool): Store
    requires CanCompactInstalled(s, ok)
  {
    var t := s.(pending := s.pending - s.compact.files, compact := NoCompact);
    if ok then CollectGarbage(t.(v := Installed(s.v, s.compact.next))) else t.(bgError := true)
  }

  // An error before the results are installed.
  ghost function CompactAbort(s: Store): Store
    requires CanMerge(s)
  {
    s.(pending := s.pending - s.compact.outputs, compact := NoCompact, bgError := true)
  }

  // ---- readers ------------------------------------------------------------------

  ghost function TakeSnapshot(s: Store): Store
  {
    s.(snapshots := s.snapshots + [s.v.last])
  }

  ghost predicate CanRelease(s: Store, i: nat)
  {
    s.mode.Up? && i < |s.snapshots|
  }

  ghost function ReleaseSnapshot(s: Store, i: nat): Store
    requires CanRelease(s, i)
  {
    s.(snapshots := s.snapshots[..i] + s.snapshots[i + 1..])
  }

  // Get and NewInternalIterator pin what they read and pick the snapshot under
  // the mutex; the reading itself happens after it is released.
  ghost predicate CanRead(s: Store, id: nat, snapshot: nat)
  {
    s.mode.Up? && id !in s.pins && (snapshot == s.v.last || snapshot in s.snapshots)
  }

  ghost function BeginRead(s: Store, id: nat, snapshot: nat): Store
  {
    s.(pins := s.pins[id := Pin(s.logfile, s.imm, s.v.tables, snapshot, s.hist.committed)])
  }

  ghost function EndRead(s: Store, id: nat): Store
  {
    s.(pins := s.pins - {id})
  }

  // ---- crash and recovery ---------------------------------------------------------

  // What a reader may find in a log file after a crash: the synced records and
  // some prefix of the rest, and behind a tear anything at all: its blocks are no
  // longer the writer's, and what it takes for a record may never have been sent.
  ghost predicate Remains(left: Log, log: Log)
  {
    && Min(log.synced, |log.records|) <= |left.records| && left.records <= log.records
    && left.synced == Min(log.synced, |log.records|)
    && (left.Torn() <==> log.Torn())
    && (left.records != log.records ==> left.Behind() == [])
  }

  // The process dies; `left` is what remains of the log files.
  ghost predicate CanCrash(s: Store, left: map<nat, Log>)
  {
    left.Keys == s.disk.logs.Keys && forall n | n in left :: Remains(left[n], s.disk.logs[n])
  }

  // What is found behind a tear was sent there, in that order.
  ghost predicate NothingForged(s: Store, left: map<nat, Log>)
  {
    forall n | n in left && n in s.disk.logs :: PartOf(left[n].Behind(), s.disk.logs[n].Behind())
  }

  ghost function Recoverable(disk: Disk): set<Entry>
  {
    disk.manifest.flushed + LogsFrom(disk.logs, disk.manifest.log)
  }

  // What is sure to be recovered, however often recovery dies on the way.
  ghost function Certain(disk: Disk): set<Entry>
  {
    disk.manifest.flushed + IntactFrom(disk.logs, disk.manifest.log)
  }

  ghost function Crash(s: Store, left: map<nat, Log>): Store
  {
    var disk := s.disk.(logs := left);
    var found := Recoverable(disk);
    Closed(disk, History(found, {}, s.hist.acked * Certain(disk), s.hist.durable, s.hist.exposed * found))
  }

  // RecoverLogFile writes level-0 tables, under numbers the manifest does not use.
  ghost predicate CanRecoverTable(s: Store, n: nat)
  {
    s.mode.Down? && n !in s.disk.manifest.tables
  }

  ghost function RecoverTable(s: Store, n: nat, es: set<Entry>): Store
  {
    s.(disk := s.disk.(tables := s.disk.tables[n := es]))
  }

  // The new log's number is past every log that was replayed and every file
  // number in use.
  ghost predicate NewLogNumber(disk: Disk, added: set<nat>, n: nat)
  {
    && n >= disk.manifest.next
    && (forall k | k in disk.logs :: k < n)
    && (forall k | k in added :: k < n)
  }

  // Recover is through: the added tables hold exactly what the logs held, and
  // the last sequence is at or above everything replayed.
  ghost predicate CanOpen(s: Store, added: set<nat>, newLog: nat, last: nat)
  {
    && s.mode.Down? && added <= s.disk.tables.Keys && added !! s.disk.manifest.tables
    && NewLogNumber(s.disk, added, newLog)
    && Contents(s.disk.tables, added) == LogsFrom(s.disk.logs, s.disk.manifest.log)
    && last >= s.disk.manifest.last
    && (forall e | e in LogsFrom(s.disk.logs, s.disk.manifest.log) :: e.seqno <= last)
  }

  ghost function OpenStart(s: Store, added: set<nat>, newLog: nat, last: nat): Store
  {
    var m := s.disk.manifest;
    var next := Version(m.tables + added, newLog, last, newLog + 1, Recoverable(s.disk), m.floor);
    s.(mode := Opening(next), logfile := newLog, disk := s.disk.(logs := s.disk.logs[newLog := NEW_LOG]))
  }

  ghost predicate CanFinishOpen(s: Store)
  {
    s.mode.Opening? && s.disk.manifest == s.mode.next
  }

  ghost function FinishOpen(s: Store): Store
    requires CanFinishOpen(s)
  {
    CollectGarbage(s.(mode := Up, v := s.mode.next, mems := map[s.logfile := {}]))
  }

  // Nothing was replayed and the manifest is left as it is.
  ghost predicate CanOpenUnsaved(s: Store, newLog: nat)
  {
    && s.mode.Down? && NewLogNumber(s.disk, {}, newLog)
    && (forall n | n in s.disk.logs && n >= s.disk.manifest.log :: s.disk.logs[n].Sent() == [])
  }

  ghost function OpenUnsaved(s: Store, newLog: nat): Store
  {
    CollectGarbage(s.(mode := Up, v := s.disk.manifest.(next := newLog + 1), logfile := newLog,
                      mems := map[newLog := {}],
                      disk := s.disk.(logs := s.disk.logs[newLog := NEW_LOG])))
  }
}
