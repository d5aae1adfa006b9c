// Whole runs of the store: writes, flushes, compactions, reads, crashes and
// recoveries in any order. What is acknowledged is recovered; readers see one
// snapshot; files in use stay.
module StorageRuns {
  import opened Bytes
  import opened DbFormat
  import opened Entries
  import opened Compaction
  import opened Storage
  import opened StorageInvariant
  import opened StorageFrames
  import opened StorageWrites
  import opened StorageBackground
  import opened StorageRecovery

  datatype Step =
    | Begin(ops: seq<Op>, sync: bool)
    | AppendRecord(ok: bool, tears: bool)
    | SyncLog(ok: bool)
    | Insert
    | Finish
    | Switch
    | StartFlush
    | BuiltFlush(ok: bool)
    | Commit
    | InstalledFlush(ok: bool)
    | StartCompact(inputs: set<nat>, isBase: Key -> bool)
    | NewOutput
    | WriteEntry(table: nat, entry: Entry)
    | InstallCompact
    | InstalledCompact(ok: bool)
    | AbortCompact
    | Snapshot
    | Release(index: nat)
    | StartRead(id: nat, snapshot: nat)
    | StopRead(id: nat)
    | Die(left: map<nat, Log>)
    | WriteTable(table: nat, entries: set<Entry>)
    | Open(added: set<nat>, newLog: nat, last: nat)
    | OpenDone
    | OpenQuietly(newLog: nat)

  ghost predicate Enabled(s: Store, step: Step)
  {
    match step
    case Begin(_, _) => CanBegin(s)
    case AppendRecord(_, _) => CanAppend(s)
    case SyncLog(_) => CanSync(s)
    case Insert => CanInsert(s)
    case Finish => CanFinish(s)
    case Switch => CanSwitch(s)
    case StartFlush => CanFlush(s)
    case BuiltFlush(_) => CanFlushBuilt(s)
    case Commit => CanCommit(s)
    case InstalledFlush(ok) => CanInstallFlush(s, ok)
    case StartCompact(inputs, isBase) => CanCompact(s, inputs, isBase)
    case NewOutput => CanMerge(s)
    case WriteEntry(n, e) => CanWriteOutput(s, n, e)
    case InstallCompact => CanCompactInstall(s)
    case InstalledCompact(ok) => CanCompactInstalled(s, ok)
    case AbortCompact => CanMerge(s)
    case Snapshot => s.mode.Up?
    case Release(i) => CanRelease(s, i)
    case StartRead(id, snapshot) => CanRead(s, id, snapshot)
    case StopRead(_) => s.mode.Up?
    case Die(left) => CanCrash(s, left)
    case WriteTable(n, _) => CanRecoverTable(s, n)
    case Open(added, newLog, last) => CanOpen(s, added, newLog, last)
    case OpenDone => CanFinishOpen(s)
    case OpenQuietly(newLog) => CanOpenUnsaved(s, newLog)
  }

  ghost function Apply(s: Store, step: Step): Store
    requires Enabled(s, step)
  {
    match step
    case Begin(ops, sync) => BeginGroup(s, ops, sync)
    case AppendRecord(ok, tears) => Append(s, ok, tears)
    case SyncLog(ok) => Sync(s, ok)
    case Insert => InsertOne(s)
    case Finish => FinishGroup(s)
    case Switch => SwitchMemTable(s)
    case StartFlush => FlushStart(s)
    case BuiltFlush(ok) => FlushBuilt(s, ok)
    case Commit => CommitManifest(s)
    case InstalledFlush(ok) => FlushInstalled(s, ok)
    case StartCompact(inputs, isBase) => CompactStart(s, inputs, isBase)
    case NewOutput => OpenOutput(s)
    case WriteEntry(n, e) => WriteOutput(s, n, e)
    case InstallCompact => CompactInstall(s)
    case InstalledCompact(ok) => CompactInstalled(s, ok)
    case AbortCompact => CompactAbort(s)
    case Snapshot => TakeSnapshot(s)
    case Release(i) => ReleaseSnapshot(s, i)
    case StartRead(id, snapshot) => BeginRead(s, id, snapshot)
    case StopRead(id) => EndRead(s, id)
    case Die(left) => Crash(s, left)
    case WriteTable(n, es) => RecoverTable(s, n, es)
    case Open(added, newLog, last) => OpenStart(s, added, newLog, last)
    case OpenDone => FinishOpen(s)
    case OpenQuietly(newLog) => OpenUnsaved(s, newLog)
  }

  lemma StepKeeps(s: Store, step: Step)
    requires Inv(s) && Enabled(s, step) && (step.Die? ==> NothingForged(s, step.left))
    ensures Inv(Apply(s, step))
  {
    hide Inv;
    match step
    case Begin(ops, sync) => BeginKeeps(s, ops, sync);
    case AppendRecord(ok, tears) => AppendKeeps(s, ok, tears);
    case SyncLog(ok) => SyncKeeps(s, ok);
    case Insert => InsertKeeps(s);
    case Finish => FinishKeeps(s);
    case Switch => SwitchKeeps(s);
    case StartFlush => FlushStartKeeps(s);
    case BuiltFlush(ok) => FlushBuiltKeeps(s, ok);
    case Commit => if s.mode.Up? { CommitKeeps(s); } else { CommitOpenKeeps(s); }
    case InstalledFlush(ok) => FlushInstalledKeeps(s, ok);
    case StartCompact(inputs, isBase) => CompactStartKeeps(s, inputs, isBase);
    case NewOutput => OpenOutputKeeps(s);
    case WriteEntry(n, e) => WriteOutputKeeps(s, n, e);
    case InstallCompact => CompactInstallKeeps(s);
    case InstalledCompact(ok) => CompactInstalledKeeps(s, ok);
    case AbortCompact => CompactAbortKeeps(s);
    case Snapshot => SnapshotKeeps(s);
    case Release(i) => ReleaseKeeps(s, i);
    case StartRead(id, snapshot) => BeginReadKeeps(s, id, snapshot);
    case StopRead(id) => EndReadKeeps(s, id);
    case Die(left) => CrashKeeps(s, left);
    case WriteTable(n, es) => RecoverTableKeeps(s, n, es);
    case Open(added, newLog, last) => OpenStartKeeps(s, added, newLog, last);
    case OpenDone => FinishOpenKeeps(s);
    case OpenQuietly(newLog) => OpenUnsavedKeeps(s, newLog);
  }

  // The steps can be taken one after the other from s, and lead to t.
  ghost predicate Run(s: Store, steps: seq<Step>, t: Store)
    decreases |steps|
  {
    if steps == [] then s == t
    else Enabled(s, steps[0]) && Run(Apply(s, steps[0]), steps[1..], t)
  }

  // No crash on the way makes up a record.
  ghost predicate ForgesNothing(s: Store, steps: seq<Step>)
    decreases |steps|
  {
    steps != [] && Enabled(s, steps[0]) ==>
      && (steps[0].Die? ==> NothingForged(s, steps[0].left))
      && ForgesNothing(Apply(s, steps[0]), steps[1..])
  }

  lemma {:induction false} RunKeeps(s: Store, steps: seq<Step>, t: Store)
    requires Inv(s) && Run(s, steps, t) && ForgesNothing(s, steps)
    ensures Inv(t)
    decreases |steps|
  {
    hide Inv, Enabled, Apply, NothingForged;
    if steps != [] {
      StepKeeps(s, steps[0]);
      RunKeeps(Apply(s, steps[0]), steps[1..], t);
    }
  }

  // A run during which the process lives.
  ghost predicate Lives(s: Store, steps: seq<Step>, t: Store)
  {
    Run(s, steps, t) && forall step | step in steps :: !step.Die?
  }

  lemma {:induction false} LivingForgesNothing(s: Store, steps: seq<Step>)
    requires forall step | step in steps :: !step.Die?
    ensures ForgesNothing(s, steps)
    decreases |steps|
  {
    hide Enabled, Apply;
    if steps != [] && Enabled(s, steps[0]) {
      assert steps[0] in steps;
      LivingForgesNothing(Apply(s, steps[0]), steps[1..]);
    }
  }

  lemma LivesKeeps(s: Store, steps: seq<Step>, t: Store)
    requires Inv(s) && Lives(s, steps, t)
    ensures Inv(t)
  {
    hide Inv, Run, ForgesNothing;
    LivingForgesNothing(s, steps);
    RunKeeps(s, steps, t);
  }

  // The states of all runs from a new database in which no crash makes up a record.
  ghost predicate Reachable(s: Store)
  {
    exists steps :: Run(Initial(), steps, s) && ForgesNothing(Initial(), steps)
  }

  lemma ReachableInv(s: Store)
    requires Reachable(s)
    ensures Inv(s)
  {
    hide Inv, Run, ForgesNothing;
    var steps :| Run(Initial(), steps, s) && ForgesNothing(Initial(), steps);
    InitialInv();
    RunKeeps(Initial(), steps, s);
  }

  // ---- crash safety --------------------------------------------------------------

  // The crash takes nothing that reached a log file at its place.
  ghost predicate LosesNothing(s: Store, left: map<nat, Log>)
  {
    forall n | n in left && n in s.disk.logs :: left[n].records == s.disk.logs[n].records
  }

  // Whenever the process dies, what can be recovered from the disk includes
  // every write acknowledged after a sync of an intact log, and, if the bytes
  // already appended survive, every write acknowledged from an intact log. It
  // includes nothing that was never issued, unless a record was made up behind
  // a tear.
  lemma CrashSafety(s: Store, left: map<nat, Log>)
    requires Reachable(s) && CanCrash(s, left)
    ensures var disk := Crash(s, left).disk;
            && s.hist.durable <= Certain(disk) <= Recoverable(disk)
            && (LosesNothing(s, left) ==> s.hist.acked <= Certain(disk))
            && (NothingForged(s, left) ==> Recoverable(disk) <= s.hist.committed + s.hist.failed + s.InFlight())
  {
    hide Inv, TablesOk, LogsFrom, IntactFrom, SafeFrom, Unique, AllParse, Remains, PartOf;
    ReachableInv(s);
    ManifestIsSound(s);
    var m := s.disk.manifest;
    RemainingLogs(s.disk.logs, left, m.log);
    SafeIsAll(left, m.log);
    if LosesNothing(s, left) {
      IntactLogsStay(s.disk.logs, left, m.log);
    }
  }

  lemma IntactLogsStay(logs: map<nat, Log>, left: map<nat, Log>, from: nat)
    requires left.Keys == logs.Keys && forall n | n in left :: left[n].records == logs[n].records
    ensures IntactFrom(left, from) == IntactFrom(logs, from)
  {
    hide RecordEntries;
    forall e ensures e in IntactFrom(left, from) <==> e in IntactFrom(logs, from) {
      if n :| n in left && n >= from && e in left[n].Intact() { assert n in logs && e in logs[n].Intact(); }
      if n :| n in logs && n >= from && e in logs[n].Intact() { assert n in left && e in left[n].Intact(); }
    }
  }

  // The limit of this guarantee: an entry survives every crash that keeps the
  // appended bytes if and only if it was flushed into the version on disk or is
  // at its place in a log that version needs. Behind a tear it may be gone.
  lemma SurvivesExactly(s: Store, e: Entry)
    requires Reachable(s)
    ensures (forall left | CanCrash(s, left) && LosesNothing(s, left) :: e in Recoverable(Crash(s, left).disk)) <==>
            e in Certain(s.disk)
    ensures e in s.hist.acked ==> e in Certain(s.disk)
  {
    hide Inv, TablesOk, LogsFrom, IntactFrom, SafeFrom, Unique, AllParse, Remains, PartOf;
    ReachableInv(s);
    ManifestIsSound(s);
    var m := s.disk.manifest;
    forall left | CanCrash(s, left) && LosesNothing(s, left)
      ensures Certain(s.disk) <= Recoverable(Crash(s, left).disk)
    {
      IntactLogsStay(s.disk.logs, left, m.log);
      SafeIsAll(left, m.log);
    }
    var worst := OnlyIntact(s.disk.logs);
    WorstCrash(s);
    assert LosesNothing(s, worst);
  }

  // All that lies behind a tear is gone.
  ghost function OnlyIntact(logs: map<nat, Log>): map<nat, Log>
  {
    map n | n in logs :: Log(logs[n].records, Min(logs[n].synced, |logs[n].records|), if logs[n].Torn() then Some([]) else None)
  }

  lemma WorstCrash(s: Store)
    ensures var worst := OnlyIntact(s.disk.logs);
            CanCrash(s, worst) && NothingForged(s, worst) && Recoverable(Crash(s, worst).disk) == Certain(s.disk)
  {
    hide RecordEntries;
    var logs, worst, from := s.disk.logs, OnlyIntact(s.disk.logs), s.disk.manifest.log;
    assert forall n | n in worst :: worst[n].Sent() == logs[n].records;
    forall e ensures e in LogsFrom(worst, from) <==> e in IntactFrom(logs, from) {
      if n :| n in worst && n >= from && e in worst[n].All() { assert n in logs && e in logs[n].Intact(); }
      if n :| n in logs && n >= from && e in logs[n].Intact() { assert n in worst && e in worst[n].All(); }
    }
  }

  // What a Get without a snapshot looks up.
  ghost function Answer(s: Store, k: Key): Option<Value>
  {
    Read(Contents(s.disk.tables, s.v.tables) + s.Imm() + s.Mem(), k, s.v.last)
  }

  // What an opening of the database is made of.
  predicate Opens(step: Step)
  {
    step.WriteTable? || step.Open? || step.Commit? || step.OpenDone? || step.OpenQuietly?
  }

  // Recovery restores: however the closed database is opened, with or without
  // a new manifest record, and whatever tables are written on the way, it then
  // answers exactly like the entries that could be recovered, and the last
  // sequence is at or above all of them.
  lemma ReopenedAnswers(s: Store, steps: seq<Step>, t: Store, k: Key, snapshot: nat)
    requires Reachable(s) && s.mode.Down? && Run(s, steps, t) && (forall step | step in steps :: Opens(step))
    requires t.mode.Up? && t.v.floor <= snapshot <= t.v.last
    ensures Read(Contents(t.disk.tables, t.v.tables) + t.Imm() + t.Mem(), k, snapshot) ==
            Read(Recoverable(s.disk), k, snapshot)
    ensures UpTo(Recoverable(s.disk), t.v.last) && t.v.floor <= t.v.last
  {
    hide Inv, Run, Contents, LogsFrom, Read;
    ReachableInv(s);
    assert Lives(s, steps, t);
    LivesKeeps(s, steps, t);
    OpeningKeepsHistory(s, steps, t);
    StoppedHolds(s);
    RunningReads(t, k, snapshot);
  }

  lemma OpenStepKeepsHistory(s: Store, step: Step)
    requires Enabled(s, step) && Opens(step)
    ensures Apply(s, step).hist == s.hist
  {
    hide Contents, LogsFrom, Recoverable, Store.Live, Store.Imm;
  }

  lemma {:induction false} OpeningKeepsHistory(s: Store, steps: seq<Step>, t: Store)
    requires Run(s, steps, t) && forall step | step in steps :: Opens(step)
    ensures t.hist == s.hist
    decreases |steps|
  {
    hide Enabled, Apply;
    if steps != [] {
      assert steps[0] in steps;
      OpenStepKeepsHistory(s, steps[0]);
      OpeningKeepsHistory(Apply(s, steps[0]), steps[1..], t);
    }
  }

  lemma StoppedHolds(s: Store)
    requires Inv(s) && s.mode.Down?
    ensures s.hist.committed == Recoverable(s.disk)
  {
    hide Sound, Recoverable, Unique, AllParse;
  }

  lemma RunningReads(s: Store, k: Key, snapshot: nat)
    requires Inv(s) && s.mode.Up? && s.v.floor <= snapshot <= s.v.last
    ensures Read(Contents(s.disk.tables, s.v.tables) + s.Imm() + s.Mem(), k, snapshot) == Read(s.hist.committed, k, snapshot)
    ensures UpTo(s.hist.committed, s.v.last)
  {
    hide Contents, Read, VersionsOk, SequencesOk, GroupOk, MemoryOk, OldLogsOk, NumbersOk, FlushOk, CompactOk, SnapshotsOk, PinsOk;
    ReadsCommitted(s, k, snapshot);
    CommittedUpTo(s);
  }

  lemma CommittedUpTo(s: Store)
    requires SequencesOk(s)
    ensures UpTo(s.hist.committed, s.v.last) && UniqueVersions(s.hist.committed) && AllParse(s.hist.committed)
    ensures s.hist.durable <= s.hist.acked <= s.hist.committed
  {
    UniqueIsUniqueVersions(s.Issued(), s.hist.committed);
  }

  // Every crash on the way keeps the bytes already appended.
  ghost predicate CrashesLoseNothing(s: Store, steps: seq<Step>)
    decreases |steps|
  {
    steps != [] && Enabled(s, steps[0]) ==>
      && (steps[0].Die? ==> LosesNothing(s, steps[0].left))
      && CrashesLoseNothing(Apply(s, steps[0]), steps[1..])
  }

  lemma AcknowledgedStays(s: Store, step: Step)
    requires Reachable(s) && Enabled(s, step)
    ensures s.hist.durable <= Apply(s, step).hist.durable
    ensures (step.Die? ==> LosesNothing(s, step.left)) ==> s.hist.acked <= Apply(s, step).hist.acked
  {
    hide Reachable, Contents, LogsFrom, IntactFrom, Recoverable, Certain, Store.Live, Store.Imm, CanCrash, LosesNothing, CanOpen, Kept;
    if step.Die? {
      CrashSafety(s, step.left);
    }
  }

  lemma {:induction false} AcknowledgedStaysThroughout(s: Store, steps: seq<Step>, t: Store)
    requires Reachable(s) && Run(s, steps, t) && ForgesNothing(s, steps)
    ensures Reachable(t) && s.hist.durable <= t.hist.durable
    ensures CrashesLoseNothing(s, steps) ==> s.hist.acked <= t.hist.acked
    decreases |steps|
  {
    hide Reachable, Enabled, Apply, NothingForged, LosesNothing;
    if steps != [] {
      AcknowledgedStays(s, steps[0]);
      ReachesNext(s, steps[0]);
      AcknowledgedStaysThroughout(Apply(s, steps[0]), steps[1..], t);
    }
  }

  // A write acknowledged from an intact log is never lost. Whatever follows it,
  // writes, flushes, compactions, collections, crashes, recoveries that die and
  // recoveries that succeed, once the store is open a Get of its key answers
  // with that write or with a committed one issued after it. With a sync this
  // holds of any crashes, without, of crashes that keep what was appended, as
  // long as none makes up a record behind a tear.
  lemma AcknowledgedWriteSurvives(s: Store, e: Entry, steps: seq<Step>, t: Store)
    requires Reachable(s) && Run(s, steps, t) && ForgesNothing(s, steps) && t.mode.Up?
    requires e in s.hist.durable || (e in s.hist.acked && CrashesLoseNothing(s, steps))
    ensures exists f :: f in t.hist.committed && f.user == e.user && (f == e || f.seqno > e.seqno) && Answer(t, e.user) == Outcome(f)
  {
    hide Inv, Run, Reachable, CrashesLoseNothing, ForgesNothing;
    AcknowledgedStaysThroughout(s, steps, t);
    ReachableInv(t);
    AnswersWithIt(t, e);
  }

  lemma AnswersWithIt(t: Store, e: Entry)
    requires Inv(t) && t.mode.Up? && e in t.hist.acked + t.hist.durable
    ensures exists f :: f in t.hist.committed && f.user == e.user && (f == e || f.seqno > e.seqno) && Answer(t, e.user) == Outcome(f)
  {
    hide VersionsOk, SequencesOk, GroupOk, MemoryOk, OldLogsOk, NumbersOk, FlushOk, CompactOk, SnapshotsOk, PinsOk;
    hide Contents, Read, UniqueVersions;
    FloorsBelow(t);
    CommittedUpTo(t);
    var last := t.v.last;
    RunningReads(t, e.user, last);
    assert e in t.hist.committed && e.VisibleAt(last);
    NewestExists(t.hist.committed, e.user, last);
    var f :| Newest(t.hist.committed, e.user, last, f);
    ReadIs(t.hist.committed, e.user, last, f);
    TagOrder(e, f);
    CommittedOnce(t, e, f);
  }

  lemma CommittedOnce(t: Store, e: Entry, f: Entry)
    requires SequencesOk(t) && e in t.hist.committed && f in t.hist.committed
    ensures e.seqno == f.seqno ==> e == f
  {
    assert e in t.Issued() && f in t.Issued();
  }

  lemma TagOrder(e: Entry, f: Entry)
    requires e.Tag() <= f.Tag()
    ensures e.seqno <= f.seqno
  {
  }

  lemma {:induction false} RunThen(s: Store, steps: seq<Step>, t: Store, step: Step)
    requires Run(s, steps, t) && Enabled(t, step)
    ensures Run(s, steps + [step], Apply(t, step))
    ensures ForgesNothing(s, steps) && (step.Die? ==> NothingForged(t, step.left)) ==> ForgesNothing(s, steps + [step])
    decreases |steps|
  {
    hide Enabled, Apply, NothingForged;
    if steps == [] {
      assert [step][1..] == [];
      assert steps + [step] == [step];
    } else {
      RunThen(Apply(s, steps[0]), steps[1..], t, step);
      assert (steps + [step])[1..] == steps[1..] + [step];
    }
  }

  // ---- logs without tears ----------------------------------------------------------

  ghost predicate NoneTorn(logs: map<nat, Log>)
  {
    forall n | n in logs :: !logs[n].Torn()
  }

  lemma StepTearsNothing(s: Store, step: Step)
    requires Enabled(s, step) && NoneTorn(s.disk.logs)
    requires !(step.AppendRecord? && step.tears)
    ensures NoneTorn(Apply(s, step).disk.logs)
    ensures !step.Die? ==> Apply(s, step).hist.exposed == s.hist.exposed
  {
    if step.InstalledFlush? || step.InstalledCompact? || step.OpenDone? || step.OpenQuietly? {
      CollectingTearsNothing(s, step);
    } else if step.Die? || step.Switch? || step.Open? || step.AppendRecord? || step.SyncLog? || step.Finish? {
      hide Contents, LogsFrom, IntactFrom, Recoverable, Certain, CanOpen, CanSwitch, Batch.All;
    } else {
      hide NoneTorn;
      LogsStay(s, step);
    }
  }

  lemma LogsStay(s: Store, step: Step)
    requires Enabled(s, step)
    requires !(step.InstalledFlush? || step.InstalledCompact? || step.OpenDone? || step.OpenQuietly?)
    requires !(step.Die? || step.Switch? || step.Open? || step.AppendRecord? || step.SyncLog? || step.Finish?)
    ensures Apply(s, step).disk.logs == s.disk.logs && Apply(s, step).hist == s.hist
  {
    hide CanCompact, CanFlush, CanCompactInstall, CanWriteOutput, CanRead, CanMerge, Store.Imm, Batch.All, Kept;
    hide FlushInstalled, CompactInstalled, FinishOpen, OpenUnsaved, Crash, SwitchMemTable, OpenStart, Append, Sync, FinishGroup;
  }

  lemma CollectingTearsNothing(s: Store, step: Step)
    requires Enabled(s, step) && NoneTorn(s.disk.logs)
    requires step.InstalledFlush? || step.InstalledCompact? || step.OpenDone? || step.OpenQuietly?
    ensures NoneTorn(Apply(s, step).disk.logs) && Apply(s, step).hist.exposed == s.hist.exposed
  {
    hide Contents, LogsFrom, Store.Live, Store.Imm, CanOpenUnsaved, CollectGarbage;
    match step
    case InstalledFlush(ok) =>
      if ok { CollectsOnly(s.(v := Installed(s.v, s.flush.next), imm := None, flush := NoFlush)); }
    case InstalledCompact(ok) =>
      if ok { CollectsOnly(s.(pending := s.pending - s.compact.files, compact := NoCompact, v := Installed(s.v, s.compact.next))); }
    case OpenDone => CollectsOnly(s.(mode := Up, v := s.mode.next, mems := map[s.logfile := {}]));
    case OpenQuietly(n) =>
      CollectsOnly(s.(mode := Up, v := s.disk.manifest.(next := n + 1), logfile := n, mems := map[n := {}],
                      disk := s.disk.(logs := s.disk.logs[n := NEW_LOG])));
  }

  // Collecting garbage takes logs away and changes none.
  lemma CollectsOnly(s: Store)
    ensures var t := CollectGarbage(s);
            t.hist == s.hist && forall n | n in t.disk.logs :: n in s.disk.logs && t.disk.logs[n] == s.disk.logs[n]
  {
    hide Store.Live;
  }

  // Without a tear no crash can make up a record.
  lemma UntornForgesNothing(s: Store, left: map<nat, Log>)
    requires CanCrash(s, left) && NoneTorn(s.disk.logs)
    ensures NothingForged(s, left)
  {
  }

  // A run in which no write to a log file fails half-way.
  lemma {:induction false} UntornRun(s: Store, steps: seq<Step>, t: Store)
    requires Run(s, steps, t) && NoneTorn(s.disk.logs) && forall step | step in steps :: !(step.AppendRecord? && step.tears)
    ensures ForgesNothing(s, steps) && NoneTorn(t.disk.logs)
    decreases |steps|
  {
    hide Enabled, Apply, NoneTorn, NothingForged;
    if steps != [] {
      assert steps[0] in steps;
      StepTearsNothing(s, steps[0]);
      if steps[0].Die? { DeathForgesNothing(s, steps[0]); }
      UntornRun(Apply(s, steps[0]), steps[1..], t);
    }
  }

  lemma DeathForgesNothing(s: Store, step: Step)
    requires Enabled(s, step) && step.Die? && NoneTorn(s.disk.logs)
    ensures NothingForged(s, step.left)
  {
    UntornForgesNothing(s, step.left);
  }

  // ---- where entries come from -------------------------------------------------------

  // Entries of the group being written, sent to the log or not.
  ghost function Pending(s: Store): set<Entry>
  {
    if s.mode.Up? && s.group.Some? then s.group.value.batch.All() else {}
  }

  ghost function Known(s: Store): set<Entry>
  {
    s.hist.committed + s.hist.failed + Pending(s)
  }

  // A group with this entry begins during the run.
  ghost predicate Begun(s: Store, steps: seq<Step>, e: Entry)
    decreases |steps|
  {
    steps != [] && Enabled(s, steps[0]) &&
    ((steps[0].Begin? && e in Batch(s.v.last + 1, steps[0].ops).All()) || Begun(Apply(s, steps[0]), steps[1..], e))
  }

  lemma StepAddsGroups(s: Store, step: Step)
    requires Inv(s) && Enabled(s, step) && (step.Die? ==> NothingForged(s, step.left))
    ensures Known(Apply(s, step)) <= Known(s) + if step.Begin? then Batch(s.v.last + 1, step.ops).All() else {}
  {
    hide Inv, Batch.All, Enabled;
    if !s.mode.Up? { NoGroupWhenClosed(s); }
    if step.Die? {
      DeathForgetsGroup(s, step);
      DeathKeepsKnown(s, step.left);
    } else if step.InstalledFlush? || step.InstalledCompact? || step.OpenDone? || step.OpenQuietly? {
      hide Apply;
      CollectingKeepsGroup(s, step);
    } else if step.Begin? || step.AppendRecord? || step.SyncLog? || step.Insert? || step.Finish? {
      WritingAddsGroups(s, step);
    } else {
      hide Apply;
      AsideKeepsGroup(s, step);
    }
  }

  lemma DeathForgetsGroup(s: Store, step: Step)
    requires Enabled(s, step) && step.Die?
    ensures CanCrash(s, step.left) && Known(Apply(s, step)) == Recoverable(s.disk.(logs := step.left))
  {
    hide CanCrash, Recoverable, Certain;
  }

  lemma WritingAddsGroups(s: Store, step: Step)
    requires Enabled(s, step) && (step.Begin? || step.AppendRecord? || step.SyncLog? || step.Insert? || step.Finish?)
    ensures Known(Apply(s, step)) <= Known(s) + if step.Begin? then Batch(s.v.last + 1, step.ops).All() else {}
  {
    hide Batch.All, Store.Torn;
  }

  lemma AsideKeepsGroup(s: Store, step: Step)
    requires Enabled(s, step) && !step.Die?
    requires !(step.InstalledFlush? || step.InstalledCompact? || step.OpenDone? || step.OpenQuietly?)
    requires !(step.Begin? || step.AppendRecord? || step.SyncLog? || step.Insert? || step.Finish?)
    ensures Apply(s, step).hist == s.hist && Apply(s, step).group == s.group
  {
    hide CanCompact, CanFlush, CanCompactInstall, CanWriteOutput, CanOpen, CanSwitch, CanRead, Recoverable, Store.Imm, Batch.All, Kept;
    hide FlushInstalled, CompactInstalled, FinishOpen, OpenUnsaved, Crash, BeginGroup, Append, Sync, InsertOne, FinishGroup;
  }

  lemma CollectingKeepsGroup(s: Store, step: Step)
    requires Enabled(s, step) && (step.InstalledFlush? || step.InstalledCompact? || step.OpenDone? || step.OpenQuietly?)
    ensures Apply(s, step).hist == s.hist && Apply(s, step).group == s.group
  {
    hide Contents, LogsFrom, Store.Live, Store.Imm, CanOpenUnsaved, CanInstallFlush;
  }

  lemma DeathKeepsKnown(s: Store, left: map<nat, Log>)
    requires Inv(s) && CanCrash(s, left) && NothingForged(s, left)
    ensures Recoverable(s.disk.(logs := left)) <= Known(s)
  {
    hide Inv, TablesOk, LogsFrom, IntactFrom, SafeFrom, Unique, AllParse, Remains, PartOf, Batch.All;
    ManifestIsSound(s);
    RemainingLogs(s.disk.logs, left, s.disk.manifest.log);
    if !s.mode.Up? { NoGroupWhenClosed(s); }
  }

  lemma NoGroupWhenClosed(s: Store)
    requires Inv(s) && !s.mode.Up?
    ensures s.group.None?
  {
    hide Sound, Recoverable, Unique, AllParse;
  }

  // Nothing comes from nowhere: whatever is committed was there at the start of
  // the run or belongs to a group that began on the way.
  lemma {:induction false} EntriesWereBegun(s: Store, steps: seq<Step>, t: Store, e: Entry)
    requires Inv(s) && Run(s, steps, t) && ForgesNothing(s, steps) && e in Known(t)
    ensures e in Known(s) || Begun(s, steps, e)
    decreases |steps|
  {
    hide Inv, Enabled, Apply, NothingForged, Known;
    if steps != [] {
      StepAddsGroups(s, steps[0]);
      StepKeeps(s, steps[0]);
      EntriesWereBegun(Apply(s, steps[0]), steps[1..], t, e);
    }
  }

  lemma CommittedWasBegun(s: Store, e: Entry) returns (steps: seq<Step>)
    requires Reachable(s) && e in s.hist.committed
    ensures Run(Initial(), steps, s) && ForgesNothing(Initial(), steps) && Begun(Initial(), steps, e)
  {
    hide Run, ForgesNothing, Begun, Inv;
    steps :| Run(Initial(), steps, s) && ForgesNothing(Initial(), steps);
    InitialInv();
    assert Known(Initial()) == {};
    EntriesWereBegun(Initial(), steps, s, e);
  }

  // ---- readers ------------------------------------------------------------------------

  // Steps a reader can survive.
  predicate LeavesReader(step: Step, id: nat)
  {
    !step.Die? && step != StopRead(id)
  }

  lemma ReaderStays(s: Store, step: Step, id: nat)
    requires Enabled(s, step) && LeavesReader(step, id) && s.mode.Up? && id in s.pins
    ensures Apply(s, step).mode.Up? && id in Apply(s, step).pins && Apply(s, step).pins[id] == s.pins[id]
  {
    hide CanCompact, CanFlush, CanCompactInstall, CanWriteOutput, CanSwitch, CanBegin, CanAppend, CanSync, CanInsert, CanFinish;
    if step.InstalledFlush? || step.InstalledCompact? {
      InstallingKeepsReader(s, step, id);
    } else {
      hide Contents, Kept, Above, Store.Imm, FlushInstalled, CompactInstalled, FinishOpen, OpenUnsaved, CollectGarbage, CanCrash;
    }
  }

  lemma InstallingKeepsReader(s: Store, step: Step, id: nat)
    requires Enabled(s, step) && (step.InstalledFlush? || step.InstalledCompact?) && s.mode.Up? && id in s.pins
    ensures Apply(s, step).mode.Up? && id in Apply(s, step).pins && Apply(s, step).pins[id] == s.pins[id]
  {
    hide Store.Live, Store.Imm, Contents, CanCompactInstall;
  }

  lemma {:induction false} ReaderStaysThroughout(s: Store, steps: seq<Step>, t: Store, id: nat)
    requires Run(s, steps, t) && (forall step | step in steps :: LeavesReader(step, id))
    requires s.mode.Up? && id in s.pins
    ensures t.mode.Up? && id in t.pins && t.pins[id] == s.pins[id]
    decreases |steps|
  {
    hide Enabled, Apply;
    if steps != [] {
      assert steps[0] in steps;
      ReaderStays(s, steps[0], id);
      ReaderStaysThroughout(Apply(s, steps[0]), steps[1..], t, id);
    }
  }

  // Snapshot isolation: however long a reader takes, and whatever is written,
  // flushed, compacted or deleted meanwhile, it reads what was committed when
  // it began, as of its snapshot. No part of a group in flight shows, even
  // while its entries enter the memtable the reader holds.
  lemma ReadersSeeTheirSnapshot(s: Store, id: nat, snapshot: nat, steps: seq<Step>, t: Store, k: Key)
    requires Reachable(s) && CanRead(s, id, snapshot)
    requires Run(BeginRead(s, id, snapshot), steps, t) && forall step | step in steps :: LeavesReader(step, id)
    ensures id in t.pins && t.pins[id].tables <= t.disk.tables.Keys
    ensures Read(t.PinContents(t.pins[id]), k, snapshot) == Read(s.hist.committed, k, snapshot)
  {
    hide Run, Running, Read, Store.PinContents;
    ReachableInv(s);
    BeginReadKeeps(s, id, snapshot);
    var u := BeginRead(s, id, snapshot);
    assert Lives(u, steps, t);
    LivesKeeps(u, steps, t);
    ReaderStaysThroughout(u, steps, t, id);
    assert PinOk(t, t.pins[id]) by { PinsAreOk(t, id); }
  }

  lemma PinsAreOk(s: Store, id: nat)
    requires Inv(s) && s.mode.Up? && id in s.pins
    ensures PinOk(s, s.pins[id])
  {
    hide PinOk;
  }

  // ---- files in use ---------------------------------------------------------------------

  // In every reachable state the files of the current version, of the version
  // on disk, of every reader and of every file being written are still there.
  lemma FilesInUseStay(s: Store)
    requires Reachable(s)
    ensures s.disk.manifest.tables <= s.disk.tables.Keys
    ensures s.mode.Up? ==>
              && s.v.tables <= s.disk.tables.Keys
              && s.logfile in s.disk.logs
              && (forall id | id in s.pins :: s.pins[id].tables <= s.disk.tables.Keys)
              && (s.flush.Building? ==> s.flush.table in s.disk.tables)
              && (s.compact.Merging? ==> s.compact.inputs + s.compact.outputs <= s.disk.tables.Keys)
  {
    ReachableInv(s);
    hide SequencesOk, GroupOk, OldLogsOk, NumbersOk, SnapshotsOk, LogsOk, Covers, Contents, Read, Agree;
    if s.mode.Up? {
      assert VersionOk(s, s.v) && VersionOk(s, s.disk.manifest);
      forall id | id in s.pins ensures s.pins[id].tables <= s.disk.tables.Keys {
        assert PinOk(s, s.pins[id]);
      }
      if s.compact.Merging? {
        assert forall n | n in s.compact.outputs :: Private(s, n);
      }
    }
  }

  // The logs from the version's number up to the current one hold exactly
  // imm_'s entries, and the current one mem_'s, but for groups whose append
  // failed and the group in flight.
  lemma LogsHoldMemory(s: Store)
    requires Reachable(s) && s.mode.Up?
    ensures s.logfile in s.disk.logs
    ensures var older, current := LogsBetween(s.disk.logs, s.v.log, s.logfile), s.disk.logs[s.logfile].All();
            && s.Imm() <= older <= s.Imm() + s.hist.failed
            && s.Mem() <= current <= s.Mem() + s.hist.failed + s.InFlight()
  {
    ReachableInv(s);
    hide VersionsOk, SequencesOk, GroupOk, NumbersOk, FlushOk, CompactOk, SnapshotsOk, PinsOk, LogsBetween, Log.All, Log.Safe, Log.Intact, Newer;
  }

  // Snapshots are never older than what a compaction, running or installed,
  // may have thrown away.
  lemma SnapshotsArePermitted(s: Store)
    requires Reachable(s) && s.mode.Up?
    ensures forall i | 0 <= i < |s.snapshots| ::
              && s.v.floor <= s.snapshots[i] <= s.v.last
              && (s.compact.Merging? ==> s.compact.smallest <= s.snapshots[i])
  {
    ReachableInv(s);
    hide VersionsOk, SequencesOk, GroupOk, MemoryOk, OldLogsOk, NumbersOk, FlushOk, PinsOk, Pickable, Private, Contents, Kept;
  }

  // ---- progress ------------------------------------------------------------------------

  lemma ReachesNext(s: Store, step: Step)
    requires Reachable(s) && Enabled(s, step) && (step.Die? ==> NothingForged(s, step.left))
    ensures Reachable(Apply(s, step))
  {
    hide Inv, Run, Enabled, Apply, ForgesNothing, NothingForged;
    var steps :| Run(Initial(), steps, s) && ForgesNothing(Initial(), steps);
    RunThen(Initial(), steps, s, step);
  }

  // A new database can be opened and written to.
  lemma NewDatabaseOpens() returns (s: Store)
    ensures Reachable(s) && CanBegin(s)
    ensures s.v.last == 0 && s.logfile == 2 && s.disk.manifest == NEW_DB && s.disk.logs == map[2 := NEW_LOG]
  {
    hide Reachable, Contents, Store.Live;
    NothingYet();
    ReachesNext(Initial(), OpenQuietly(2));
    s := OpenUnsaved(Initial(), 2);
  }

  lemma {:induction false} InsertsTheRest(s: Store) returns (t: Store)
    requires Reachable(s) && s.mode.Up? && s.group.Some? && s.group.value.stage.Inserting? && s.logfile in s.mems
    requires s.group.value.stage.done <= |s.group.value.batch.ops|
    ensures Reachable(t) && CanFinish(t) && t.group.value.batch == s.group.value.batch && t.group.value.sync == s.group.value.sync
    ensures t.group.value.stage.Inserting? && t == s.(group := t.group, mems := t.mems)
    decreases |s.group.value.batch.ops| - s.group.value.stage.done
  {
    hide Reachable;
    if s.group.value.stage.done == |s.group.value.batch.ops| {
      t := s;
    } else {
      ReachesNext(s, Insert);
      t := InsertsTheRest(InsertOne(s));
    }
  }

  // From any state in which a group may be written, a write that meets no error
  // is acknowledged, and durable if a sync was asked for, unless the log is
  // already torn.
  lemma WriteSucceeds(s: Store, ops: seq<Op>, sync: bool) returns (t: Store)
    requires Reachable(s) && CanBegin(s)
    ensures Reachable(t) && t.v == s.v.(last := s.v.last + |ops|) && t.logfile == s.logfile && t.mode.Up?
    ensures t.Torn() == s.Torn() && t.disk.manifest == s.disk.manifest && t.disk.logs.Keys == s.disk.logs.Keys
    ensures s.Torn() ==> forall n | n in s.disk.logs :: t.disk.logs[n].records == s.disk.logs[n].records
    ensures s.logfile in s.disk.logs && t.group.None? && t.bgError == s.bgError
    ensures !s.Torn() ==> t.disk.logs[s.logfile].records == s.disk.logs[s.logfile].records + [Batch(s.v.last + 1, ops)]
    ensures Batch(s.v.last + 1, ops).All() <= if s.Torn() then t.hist.exposed else if sync then t.hist.durable else t.hist.acked
  {
    hide Reachable, Inv, Batch.All, Batch.Prefix;
    ReachableInv(s);
    LogIsOpen(s);
    ReachesNext(s, Begin(ops, sync));
    var a := BeginGroup(s, ops, sync);
    ReachesNext(a, AppendRecord(true, false));
    var b := Append(a, true, false);
    if sync {
      ReachesNext(b, SyncLog(true));
      b := Sync(b, true);
    }
    var c := InsertsTheRest(b);
    ReachesNext(c, Finish);
    t := FinishGroup(c);
  }

  // Behind a tear the guarantee fails: a write is synced and acknowledged after
  // another one failed half-way, the process dies losing nothing that stands at
  // its place, and the write is gone.
  lemma TornWriteCanBeLost(k: Key, v: Value) returns (s: Store, left: map<nat, Log>, t: Store)
    ensures Reachable(s) && Put(k, v).At(2) in s.hist.exposed
    ensures CanCrash(s, left) && LosesNothing(s, left) && NothingForged(s, left)
    ensures CanOpenUnsaved(Crash(s, left), 3) && t == OpenUnsaved(Crash(s, left), 3) && Answer(t, k) == None
  {
    hide Reachable, Inv, Contents, Read, Run, Store.Live, Recoverable, Certain, PartOf, IntactFrom, LogsFrom;
    s := TornDatabase(k, v);
    s := WriteSucceeds(s, [Put(k, v)], true);
    OneEntry(2, Put(k, v));
    left := OnlyIntact(s.disk.logs);
    WorstCrash(s);
    t := NothingFound(s, left, k);
  }

  // Nothing of the log is left: the database comes back empty.
  lemma NothingFound(s: Store, left: map<nat, Log>, k: Key) returns (t: Store)
    requires Reachable(s) && s.disk.manifest == NEW_DB && s.disk.logs.Keys == {2} && s.disk.logs[2].records == []
    requires left == OnlyIntact(s.disk.logs) && CanCrash(s, left) && NothingForged(s, left)
    requires Recoverable(Crash(s, left).disk) == Certain(s.disk)
    ensures CanOpenUnsaved(Crash(s, left), 3) && t == OpenUnsaved(Crash(s, left), 3) && Answer(t, k) == None
  {
    hide Reachable, Inv, Contents, Read, Run, Store.Live, Recoverable, Certain, PartOf, IntactFrom, LogsFrom, Remains;
    var d := Crash(s, left);
    ReachesNext(s, Die(left));
    assert CanOpenUnsaved(d, 3);
    ReachesNext(d, OpenQuietly(3));
    t := OpenUnsaved(d, 3);
    NothingCertain(s);
    ReachableInv(t);
    FloorIsBelow(t);
    RunningReads(t, k, t.v.last);
    assert t.hist.committed == {};
    ReadMiss({}, k, t.v.last);
  }

  // The hypothesis that no crash makes up a record is needed, too: the log is
  // torn, a reader takes bytes behind the tear for a batch with a large number,
  // and a Get answers with a value nobody wrote, although the key's own write was
  // synced to an intact log.
  lemma ForgedWriteWins(k: Key, v: Value, forged: Value, n: nat) returns (s: Store, left: map<nat, Log>, steps: seq<Step>, t: Store)
    requires n > 2
    ensures Reachable(s) && Put(k, v).At(1) in s.hist.durable
    ensures CanCrash(s, left) && LosesNothing(s, left) && !NothingForged(s, left)
    ensures Run(Crash(s, left), steps, t) && (forall step | step in steps :: Opens(step)) && t.mode.Up?
    ensures Answer(t, k) == Some(forged)
  {
    hide Reachable, Run, Read, Contents, PartOf, Recoverable, Certain, Store.Mem, Store.Imm, RecordEntries, Batch.All;
    s := TornAfterSync(k, v);
    var log, sent, fake := s.disk.logs[2], Batch(2, [Put(k, v)]), Batch(n, [Put(k, forged)]);
    left := map[2 := Log(log.records, Min(log.synced, |log.records|), Some([fake]))];
    NotSent(fake, sent);
    TwoEntries(Batch(1, [Put(k, v)]), fake, Put(k, v), Put(k, forged));
    steps, t := OpensWithTable(Crash(s, left), n);
    ForgedIsNewest(left[2].All(), k, v, forged, n);
    assert Contents(t.disk.tables, t.v.tables) + t.Imm() + t.Mem() == left[2].All();
  }

  // A write was synced to the log of a new database; the next failed half-way.
  lemma TornAfterSync(k: Key, v: Value) returns (s: Store)
    ensures Reachable(s) && Put(k, v).At(1) in s.hist.durable
    ensures s.disk.manifest == NEW_DB && s.disk.logs.Keys == {2}
    ensures s.disk.logs[2].records == [Batch(1, [Put(k, v)])] && s.disk.logs[2].behind == Some([Batch(2, [Put(k, v)])])
  {
    hide Reachable, Contents, RecordEntries, Batch.All;
    s := NewDatabaseOpens();
    s := WriteSucceeds(s, [Put(k, v)], true);
    OneEntry(1, Put(k, v));
    ReachesNext(s, Begin([Put(k, v)], false));
    s := BeginGroup(s, [Put(k, v)], false);
    ReachesNext(s, AppendRecord(false, true));
    assert s.disk.logs[2].Behind() + [s.group.value.batch] == [Batch(2, [Put(k, v)])];
    s := Append(s, false, true);
    ReachesNext(s, Finish);
    s := FinishGroup(s);
  }

  lemma NotSent(fake: Batch, sent: Batch)
    requires fake != sent
    ensures !PartOf([fake], [sent])
  {
    assert [sent][1..] == [];
  }

  // Recovery of a database whose manifest is still that of a new one.
  lemma OpensWithTable(d: Store, last: nat) returns (steps: seq<Step>, t: Store)
    requires d == Closed(d.disk, d.hist) && d.disk.manifest == NEW_DB && d.disk.logs.Keys == {2}
    requires forall e | e in d.disk.logs[2].All() :: e.seqno <= last
    ensures Run(d, steps, t) && (forall step | step in steps :: Opens(step)) && t.mode.Up? && t.v.last == last
    ensures Contents(t.disk.tables, t.v.tables) == d.disk.logs[2].All() && t.Imm() == {} && t.Mem() == {}
  {
    hide Contents, Store.Live, Log.All, LogsFrom, Run, Enabled, Apply, CanOpen, OpenStart, FinishOpen, RecoverTable, CanFinishOpen, CanCommit, Closed, CommitManifest;
    var es := d.disk.logs[2].All();
    NoSteps(d);
    var a := RecoverTable(d, 3, es);
    TableIsReady(d, es, last);
    RunThen(d, [], d, WriteTable(3, es));
    var b := OpenStart(a, {3}, 4, last);
    RunThen(d, [] + [WriteTable(3, es)], a, Step.Open({3}, 4, last));
    OpeningIsReady(a, es, last);
    var c := CommitManifest(b);
    RunThen(d, [] + [WriteTable(3, es)] + [Step.Open({3}, 4, last)], b, Commit);
    t := FinishOpen(c);
    RunThen(d, [] + [WriteTable(3, es)] + [Step.Open({3}, 4, last)] + [Commit], c, OpenDone);
    steps := [] + [WriteTable(3, es)] + [Step.Open({3}, 4, last)] + [Commit] + [OpenDone];
  }

  lemma NoSteps(s: Store)
    ensures Run(s, [], s)
  {
  }

  // The table written, the database can be opened with it.
  lemma TableIsReady(d: Store, es: set<Entry>, last: nat)
    requires d == Closed(d.disk, d.hist) && d.disk.manifest == NEW_DB && d.disk.logs.Keys == {2}
    requires es == d.disk.logs[2].All() && forall e | e in es :: e.seqno <= last
    ensures var a := RecoverTable(d, 3, es);
            && a == Closed(a.disk, a.hist) && a.disk.manifest == NEW_DB && 3 in a.disk.tables && a.disk.tables[3] == es
            && Enabled(d, WriteTable(3, es)) && Apply(d, WriteTable(3, es)) == a
            && Enabled(a, Step.Open({3}, 4, last)) && Apply(a, Step.Open({3}, 4, last)) == OpenStart(a, {3}, 4, last)
  {
    hide Contents, LogsFrom, Log.All, OpenStart;
    OnlyLog(d.disk.logs);
    ContentsOfOne(RecoverTable(d, 3, es).disk.tables, 3);
  }

  lemma OpeningIsReady(a: Store, es: set<Entry>, last: nat)
    requires a == Closed(a.disk, a.hist) && a.disk.manifest == NEW_DB && 3 in a.disk.tables && a.disk.tables[3] == es
    ensures CanCommit(OpenStart(a, {3}, 4, last)) && CanFinishOpen(CommitManifest(OpenStart(a, {3}, 4, last)))
    ensures var b := OpenStart(a, {3}, 4, last);
            var c := CommitManifest(b);
            var t := FinishOpen(c);
            && Enabled(b, Commit) && Apply(b, Commit) == c && Enabled(c, OpenDone) && Apply(c, OpenDone) == t
            && Contents(t.disk.tables, t.v.tables) == es && t.v.last == last && t.mode.Up? && t.Imm() == {} && t.Mem() == {}
  {
    hide Contents, Recoverable;
    var t := FinishOpen(CommitManifest(OpenStart(a, {3}, 4, last)));
    assert t.v.tables == {3};
    ContentsOfOne(t.disk.tables, 3);
  }

  lemma OnlyLog(logs: map<nat, Log>)
    requires logs.Keys == {2}
    ensures LogsFrom(logs, 0) == logs[2].All()
  {
    hide Log.All;
  }

  lemma TwoEntries(a: Batch, b: Batch, x: Op, y: Op)
    requires a.ops == [x] && b.ops == [y]
    ensures RecordEntries([a] + [b]) == {x.At(a.first), y.At(b.first)}
  {
    assert a.All() == {x.At(a.first)} by { assert a.ops[0].At(a.first + 0) == x.At(a.first); }
    assert b.All() == {y.At(b.first)} by { assert b.ops[0].At(b.first + 0) == y.At(b.first); }
    hide Batch.All;
    AppendedEntries([a], b);
    AppendedEntries([], a);
    assert [] + [a] == [a] && RecordEntries([]) == {};
  }

  lemma ForgedIsNewest(es: set<Entry>, k: Key, v: Value, forged: Value, n: nat)
    requires n > 1 && es == {Put(k, v).At(1), Put(k, forged).At(n)}
    ensures Read(es, k, n) == Some(forged)
  {
    assert Newest(es, k, n, Put(k, forged).At(n));
    ReadIs(es, k, n, Put(k, forged).At(n));
  }

  // The first write to a new database failed half-way.
  lemma TornDatabase(k: Key, v: Value) returns (s: Store)
    ensures Reachable(s) && CanBegin(s) && s.Torn() && s.v.last == 1 && s.logfile == 2
    ensures s.disk.manifest == NEW_DB && s.disk.logs.Keys == {2} && s.disk.logs[2].records == []
  {
    hide Reachable, Contents, RecordEntries, Batch.All;
    s := NewDatabaseOpens();
    ReachesNext(s, Begin([Put(k, v)], false));
    s := BeginGroup(s, [Put(k, v)], false);
    ReachesNext(s, AppendRecord(false, true));
    s := Append(s, false, true);
    ReachesNext(s, Finish);
    s := FinishGroup(s);
  }

  lemma NothingYet()
    ensures Reachable(Initial())
  {
    assert Run(Initial(), [], Initial()) && ForgesNothing(Initial(), []);
  }

  lemma OneEntry(n: nat, op: Op)
    ensures op.At(n) in Batch(n, [op]).All()
  {
    assert Batch(n, [op]).ops[0].At(n + 0) == op.At(n);
  }

  lemma NothingCertain(s: Store)
    requires s.disk.manifest == NEW_DB && forall n | n in s.disk.logs :: s.disk.logs[n].records == []
    ensures Certain(s.disk) == {}
  {
  }

  lemma FloorIsBelow(s: Store)
    requires Inv(s) && s.mode.Up?
    ensures s.v.floor <= s.v.last
  {
    hide SequencesOk, GroupOk, MemoryOk, OldLogsOk, NumbersOk, FlushOk, CompactOk, SnapshotsOk, PinsOk;
    FloorsBelow(s);
  }

  lemma LogIsOpen(s: Store)
    requires Inv(s) && s.mode.Up?
    ensures s.logfile in s.disk.logs && s.logfile in s.mems
  {
    hide VersionsOk, SequencesOk, GroupOk, OldLogsOk, NumbersOk, FlushOk, CompactOk, SnapshotsOk, PinsOk, Newer, Log.All, Log.Safe, Log.Intact;
  }
}
