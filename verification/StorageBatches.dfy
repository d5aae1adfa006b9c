// Batches are atomic: whatever crashes, flushes and recoveries a run goes
// through, the database never holds a part of a batch.
module StorageBatches {
  import opened Bytes
  import opened DbFormat
  import opened Entries
  import opened Compaction
  import opened Storage
  import opened StorageInvariant
  import opened StorageRecovery
  import opened StorageRuns
  import opened StorageReplay

  // The entries are those of some of the batches, each there in full.
  ghost predicate MadeOf(es: set<Entry>, bs: set<Batch>)
  {
    forall e | e in es :: exists b :: b in bs && e in b.All() && b.All() <= es
  }

  // So is everything the store keeps, but for the group going into the memtable.
  ghost predicate WholeBatches(s: Store, bs: set<Batch>)
  {
    && MadeOf(s.hist.committed, bs) && MadeOf(s.v.flushed, bs) && MadeOf(s.disk.manifest.flushed, bs)
    && (s.mode.Opening? ==> MadeOf(s.mode.next.flushed, bs))
    && (s.flush.Installing? ==> MadeOf(s.flush.next.flushed, bs))
    && (s.compact.InstallingOutputs? ==> MadeOf(s.compact.next.flushed, bs))
    && MadeOf(s.Imm(), bs) && MemWhole(s, bs)
    && (s.group.Some? ==> s.group.value.batch in bs)
    && LogsWhole(s.disk.logs, bs)
  }

  ghost predicate MemWhole(s: Store, bs: set<Batch>)
  {
    forall e | e in s.Mem() :: e in s.Inserted() || exists b :: b in bs && e in b.All() && b.All() <= s.Mem()
  }

  ghost predicate LogsWhole(logs: map<nat, Log>, bs: set<Batch>)
  {
    forall n, b | n in logs && b in logs[n].Sent() :: b in bs
  }

  // The batches of the groups that begin on the run.
  ghost function BatchesOf(s: Store, steps: seq<Step>): set<Batch>
    decreases |steps|
  {
    if steps == [] || !Enabled(s, steps[0]) then {}
    else NewBatch(s, steps[0]) + BatchesOf(Apply(s, steps[0]), steps[1..])
  }

  ghost function NewBatch(s: Store, step: Step): set<Batch>
  {
    if step.Begin? then {Batch(s.v.last + 1, step.ops)} else {}
  }

  // ---- what is made of batches ---------------------------------------------------------

  lemma MadeOfMore(es: set<Entry>, bs: set<Batch>, more: set<Batch>)
    requires MadeOf(es, bs) && bs <= more
    ensures MadeOf(es, more)
  {
    hide Batch.All;
    forall e | e in es ensures exists b :: b in more && e in b.All() && b.All() <= es {
      var b :| b in bs && e in b.All() && b.All() <= es;
      assert b in more;
    }
  }

  lemma MadeOfBoth(a: set<Entry>, b: set<Entry>, bs: set<Batch>)
    requires MadeOf(a, bs) && MadeOf(b, bs)
    ensures MadeOf(a + b, bs)
  {
    hide Batch.All;
    forall e | e in a + b ensures exists x :: x in bs && e in x.All() && x.All() <= a + b {
      if e in a {
        var x :| x in bs && e in x.All() && x.All() <= a;
        assert x.All() <= a + b;
      } else {
        var x :| x in bs && e in x.All() && x.All() <= b;
        assert x.All() <= a + b;
      }
    }
  }

  lemma MadeOfOne(b: Batch, bs: set<Batch>)
    requires b in bs
    ensures MadeOf(b.All(), bs)
  {
    hide Batch.All;
  }

  lemma MadeOfLogs(logs: map<nat, Log>, from: nat, bs: set<Batch>)
    requires LogsWhole(logs, bs)
    ensures MadeOf(LogsFrom(logs, from), bs)
  {
    hide Batch.All, Log.Sent;
    forall e | e in LogsFrom(logs, from) ensures exists b :: b in bs && e in b.All() && b.All() <= LogsFrom(logs, from) {
      var n :| n in logs && n >= from && e in logs[n].All();
      var b :| b in logs[n].Sent() && e in b.All();
      forall f | f in b.All() ensures f in LogsFrom(logs, from) {
        assert f in logs[n].All();
      }
    }
  }

  lemma RecoverableIsWhole(disk: Disk, bs: set<Batch>)
    requires MadeOf(disk.manifest.flushed, bs) && LogsWhole(disk.logs, bs)
    ensures MadeOf(Recoverable(disk), bs)
  {
    hide MadeOf, LogsFrom, LogsWhole;
    MadeOfLogs(disk.logs, disk.manifest.log, bs);
    MadeOfBoth(disk.manifest.flushed, LogsFrom(disk.logs, disk.manifest.log), bs);
  }

  // ---- every step keeps it ---------------------------------------------------------------

  lemma WholeMore(s: Store, bs: set<Batch>, more: set<Batch>)
    requires WholeBatches(s, bs) && bs <= more
    ensures WholeBatches(s, more)
  {
    hide MadeOf, MemWhole, LogsWhole, Store.Imm;
    forall es: set<Entry> | MadeOf(es, bs) ensures MadeOf(es, more) {
      MadeOfMore(es, bs, more);
    }
    MemWholeMore(s, bs, more);
    assert LogsWhole(s.disk.logs, more) by { LogsWholeMore(s.disk.logs, bs, more); }
  }

  lemma MemWholeMore(s: Store, bs: set<Batch>, more: set<Batch>)
    requires MemWhole(s, bs) && bs <= more
    ensures MemWhole(s, more)
  {
    hide Batch.All, Store.Mem, Store.Inserted;
    forall e | e in s.Mem() && e !in s.Inserted() ensures exists b :: b in more && e in b.All() && b.All() <= s.Mem() {
      var b :| b in bs && e in b.All() && b.All() <= s.Mem();
      assert b in more;
    }
  }

  lemma LogsWholeMore(logs: map<nat, Log>, bs: set<Batch>, more: set<Batch>)
    requires LogsWhole(logs, bs) && bs <= more
    ensures LogsWhole(logs, more)
  {
    hide Log.Sent;
  }

  // A step that leaves memory, logs and versions alone.
  ghost predicate Alike(s: Store, t: Store)
  {
    && t.hist.committed == s.hist.committed && t.v.flushed == s.v.flushed
    && t.disk.manifest.flushed == s.disk.manifest.flushed && t.mode == s.mode
    && t.Imm() == s.Imm() && t.Mem() == s.Mem() && t.Inserted() == s.Inserted()
    && (t.group.Some? ==> s.group.Some? && t.group.value.batch == s.group.value.batch)
    && (forall n | n in t.disk.logs :: n in s.disk.logs && t.disk.logs[n].Sent() == s.disk.logs[n].Sent())
    && (t.flush.Installing? ==> s.flush == t.flush)
    && (t.compact.InstallingOutputs? ==> s.compact == t.compact)
  }

  lemma AlikeKeeps(s: Store, t: Store, bs: set<Batch>)
    requires WholeBatches(s, bs) && Alike(s, t)
    ensures WholeBatches(t, bs)
  {
    hide MadeOf, Store.Imm, Store.Mem, Store.Inserted, Log.Sent, Batch.All;
  }

  // Steps that only move files, pins, snapshots and numbers.
  predicate Quiet(step: Step)
  {
    match step
    case SyncLog(_) => true
    case StartFlush => true
    case BuiltFlush(ok) => !ok
    case InstalledFlush(ok) => !ok
    case StartCompact(_, _) => true
    case NewOutput => true
    case WriteEntry(_, _) => true
    case InstalledCompact(ok) => !ok
    case AbortCompact => true
    case Snapshot => true
    case Release(_) => true
    case StartRead(_, _) => true
    case StopRead(_) => true
    case WriteTable(_, _) => true
    case _ => false
  }

  predicate Flushes(step: Step)
  {
    step.StartFlush? || step.BuiltFlush? || step.InstalledFlush? || step.InstalledCompact? || step.NewOutput? || step.WriteEntry?
  }

  lemma QuietIsAlike(s: Store, step: Step)
    requires Enabled(s, step) && Quiet(step)
    ensures Alike(s, Apply(s, step))
  {
    if Flushes(step) {
      QuietFlush(s, step);
    } else if step.SyncLog? {
      QuietSync(s, step.ok);
    } else {
      QuietRest(s, step);
    }
  }

  lemma QuietFlush(s: Store, step: Step)
    requires Enabled(s, step) && Quiet(step) && Flushes(step)
    ensures Alike(s, Apply(s, step))
  {
    hide Kept, Contents, CanFlush, Log.Sent;
  }

  lemma QuietSync(s: Store, ok: bool)
    requires CanSync(s)
    ensures Alike(s, Sync(s, ok))
  {
    hide Batch.All;
  }

  lemma QuietRest(s: Store, step: Step)
    requires Enabled(s, step) && Quiet(step) && !Flushes(step) && !step.SyncLog?
    ensures Alike(s, Apply(s, step))
  {
    hide Kept, Contents, CanCompact, CanRead, SmallestSnapshot;
  }

  lemma BeginWhole(s: Store, step: Step, bs: set<Batch>)
    requires step.Begin? && Enabled(s, step) && WholeBatches(s, bs)
    ensures WholeBatches(Apply(s, step), bs + NewBatch(s, step))
  {
    var t, more := Apply(s, step), bs + NewBatch(s, step);
    WholeMore(s, bs, more);
    hide MadeOf, LogsWhole, Batch.All;
    assert t.Imm() == s.Imm() && t.Mem() == s.Mem();
    assert MemWhole(t, more) by { assert s.Inserted() == {} == t.Inserted(); }
  }

  lemma AppendWhole(s: Store, ok: bool, tears: bool, bs: set<Batch>)
    requires CanAppend(s) && WholeBatches(s, bs)
    ensures WholeBatches(Append(s, ok, tears), bs)
  {
    hide MadeOf, Batch.All;
    var t := Append(s, ok, tears);
    assert t.Imm() == s.Imm() && t.Mem() == s.Mem() && s.Inserted() == {} == t.Inserted();
    hide Store.Imm, Store.Mem, Store.Inserted;
    assert MemWhole(t, bs);
    assert LogsWhole(t.disk.logs, bs) by { hide MemWhole; }
  }

  lemma InsertWhole(s: Store, bs: set<Batch>)
    requires CanInsert(s) && WholeBatches(s, bs) && s.imm != Some(s.logfile)
    ensures WholeBatches(InsertOne(s), bs)
  {
    hide MadeOf, Batch.All, LogsWhole;
    var t := InsertOne(s);
    assert t.Imm() == s.Imm();
    var g := s.group.value;
    var e := g.batch.ops[g.stage.done].At(g.batch.first + g.stage.done);
    assert t.Mem() == s.Mem() + {e} && t.Inserted() == s.Inserted() + {e};
    hide Store.Imm, Store.Mem, Store.Inserted, InsertOne;
    forall f | f in t.Mem() && f !in t.Inserted() ensures exists b :: b in bs && f in b.All() && b.All() <= t.Mem() {
      var b :| b in bs && f in b.All() && b.All() <= s.Mem();
      assert b.All() <= t.Mem();
    }
  }

  lemma FinishWhole(s: Store, bs: set<Batch>)
    requires CanFinish(s) && WholeBatches(s, bs) && s.Inserted() <= s.Mem()
    ensures WholeBatches(FinishGroup(s), bs)
  {
    var t, b := FinishGroup(s), s.group.value.batch;
    assert t.Imm() == s.Imm() && t.Mem() == s.Mem() && t.Inserted() == {};
    assert s.Inserted() == if s.group.value.stage.Inserting? then b.All() else {};
    hide MadeOf, LogsWhole, Batch.All, Store.Imm, Store.Mem, Store.Inserted;
    MadeOfOne(b, bs);
    MadeOfBoth(s.hist.committed, b.All(), bs);
    forall e | e in t.Mem() ensures exists x :: x in bs && e in x.All() && x.All() <= t.Mem() {
      if e in s.Inserted() { assert b in bs && e in b.All() && b.All() <= t.Mem(); }
    }
  }

  lemma SwitchWhole(s: Store, bs: set<Batch>)
    requires CanSwitch(s) && WholeBatches(s, bs) && s.logfile in s.mems && s.v.next != s.logfile
    ensures WholeBatches(SwitchMemTable(s), bs)
  {
    hide Batch.All;
    var t := SwitchMemTable(s);
    assert t.Imm() == s.Mem() && t.Mem() == {} && s.Inserted() == {};
    hide Store.Imm, Store.Mem, Store.Inserted;
    assert MadeOf(s.Mem(), bs);
    hide MadeOf;
    assert NEW_LOG.Sent() == [];
    hide Log.Sent;
    assert LogsWhole(t.disk.logs, bs);
  }

  lemma FlushWhole(s: Store, bs: set<Batch>)
    requires CanFlushBuilt(s) && WholeBatches(s, bs)
    ensures WholeBatches(FlushBuilt(s, true), bs)
  {
    var t := FlushBuilt(s, true);
    assert t.Imm() == s.Imm() && t.Mem() == s.Mem() && t.Inserted() == s.Inserted();
    hide MadeOf, LogsWhole, Batch.All, Store.Imm, Store.Mem, Store.Inserted;
    MadeOfBoth(s.v.flushed, s.Imm(), bs);
  }

  lemma CommitWhole(s: Store, bs: set<Batch>)
    requires CanCommit(s) && WholeBatches(s, bs)
    ensures WholeBatches(CommitManifest(s), bs)
  {
    var t := CommitManifest(s);
    assert t.Imm() == s.Imm() && t.Mem() == s.Mem() && t.Inserted() == s.Inserted();
    hide MadeOf, LogsWhole, Batch.All, Store.Imm, Store.Mem, Store.Inserted;
  }

  lemma InstalledWhole(s: Store, step: Step, bs: set<Batch>)
    requires Enabled(s, step) && (step == InstalledFlush(true) || step == InstalledCompact(true)) && WholeBatches(s, bs)
    ensures WholeBatches(Apply(s, step), bs)
  {
    var t := Apply(s, step);
    assert t.Imm() == (if step.InstalledFlush? then {} else s.Imm()) && t.Mem() == s.Mem() && t.Inserted() == s.Inserted();
    hide Batch.All, Store.Imm, Store.Mem, Store.Inserted, Log.Sent, Store.Live;
    assert MadeOf({}, bs);
    hide MadeOf;
  }

  lemma InstallWhole(s: Store, bs: set<Batch>)
    requires CanCompactInstall(s) && WholeBatches(s, bs)
    ensures WholeBatches(CompactInstall(s), bs)
  {
    var t := CompactInstall(s);
    assert t.Imm() == s.Imm() && t.Mem() == s.Mem() && t.Inserted() == s.Inserted();
    hide MadeOf, LogsWhole, Batch.All, Store.Imm, Store.Mem, Store.Inserted, Contents, Kept;
  }

  // What a crash leaves of the logs was in them.
  lemma LeftWhole(s: Store, left: map<nat, Log>, bs: set<Batch>)
    requires CanCrash(s, left) && NothingForged(s, left) && LogsWhole(s.disk.logs, bs)
    ensures LogsWhole(left, bs)
  {
    forall n, b | n in left && b in left[n].Sent() ensures b in bs {
      var log := s.disk.logs[n];
      assert Remains(left[n], log);
      if b in left[n].records {
        assert b in log.Sent();
      } else {
        PartsAreIn(left[n].Behind(), log.Behind(), b);
        assert b in log.Sent();
      }
    }
  }

  lemma {:induction false} PartsAreIn<T>(a: seq<T>, b: seq<T>, x: T)
    requires PartOf(a, b) && x in a
    ensures x in b
    decreases |b|
  {
    if a[0] == b[0] && PartOf(a[1..], b[1..]) {
      if x != a[0] { PartsAreIn(a[1..], b[1..], x); }
    } else {
      PartsAreIn(a, b[1..], x);
    }
  }

  lemma DieWhole(s: Store, left: map<nat, Log>, bs: set<Batch>)
    requires CanCrash(s, left) && NothingForged(s, left) && WholeBatches(s, bs)
    ensures WholeBatches(Crash(s, left), bs)
  {
    LeftWhole(s, left, bs);
    var t := Crash(s, left);
    assert t.Imm() == {} && t.Mem() == {};
    hide Batch.All, LogsWhole, Recoverable, CanCrash, NothingForged;
    RecoverableIsWhole(t.disk, bs);
    assert MadeOf({}, bs);
    hide MadeOf;
  }

  lemma OpenWhole(s: Store, step: Step, bs: set<Batch>)
    requires Enabled(s, step) && (step.Open? || step.OpenDone? || step.OpenQuietly?) && WholeBatches(s, bs)
    requires s.imm.None? && s.group.None? && s.flush.NoFlush? && s.compact.NoCompact? && (!step.OpenDone? ==> s.mems == map[])
    ensures WholeBatches(Apply(s, step), bs)
  {
    var t := Apply(s, step);
    assert t.Imm() == {} && t.Mem() == {};
    assert NEW_LOG.Sent() == [];
    hide Batch.All, Log.Sent, Recoverable, CanOpen, CanOpenUnsaved, Store.Live, Store.Imm, Store.Mem;
    RecoverableIsWhole(s.disk, bs);
    assert MadeOf({}, bs);
    hide MadeOf;
    assert LogsWhole(t.disk.logs, bs);
  }

  predicate Writes(step: Step)
  {
    step.Begin? || step.AppendRecord? || step.Insert? || step.Finish? || step.Switch?
  }

  lemma WriteWhole(s: Store, step: Step, bs: set<Batch>)
    requires Enabled(s, step) && Writes(step) && WholeBatches(s, bs)
    requires s.mode.Up? ==> s.logfile in s.mems && s.imm != Some(s.logfile) && s.Inserted() <= s.Mem() && s.v.next != s.logfile
    ensures WholeBatches(Apply(s, step), bs + NewBatch(s, step))
  {
    hide WholeBatches, Store.Imm, Store.Mem, Store.Inserted, Append, InsertOne, FinishGroup, SwitchMemTable;
    assert !step.Begin? ==> bs + NewBatch(s, step) == bs;
    match step
    case Begin(_, _) => BeginWhole(s, step, bs);
    case AppendRecord(ok, tears) => AppendWhole(s, ok, tears, bs);
    case Insert => InsertWhole(s, bs);
    case Finish => FinishWhole(s, bs);
    case Switch => SwitchWhole(s, bs);
  }

  lemma StepWhole(s: Store, step: Step, bs: set<Batch>)
    requires Inv(s) && Enabled(s, step) && (step.Die? ==> NothingForged(s, step.left)) && WholeBatches(s, bs)
    ensures WholeBatches(Apply(s, step), bs + NewBatch(s, step))
  {
    MemoryFacts(s);
    hide Inv, WholeBatches, NothingForged, Store.Imm, Store.Mem, Store.Inserted;
    if Writes(step) {
      hide Enabled, Apply;
      WriteWhole(s, step, bs);
    } else {
      assert bs + NewBatch(s, step) == bs;
      if Quiet(step) {
        hide Enabled, Apply;
        QuietIsAlike(s, step);
        AlikeKeeps(s, Apply(s, step), bs);
      } else {
        RestWhole(s, step, bs);
      }
    }
  }

  lemma RestWhole(s: Store, step: Step, bs: set<Batch>)
    requires Enabled(s, step) && !Writes(step) && !Quiet(step) && WholeBatches(s, bs) && (step.Die? ==> NothingForged(s, step.left))
    requires !s.mode.Up? ==> s.imm.None? && s.group.None? && s.flush.NoFlush? && s.compact.NoCompact? && s.mems == map[]
    ensures WholeBatches(Apply(s, step), bs)
  {
    hide WholeBatches, NothingForged, FlushBuilt, CommitManifest, FlushInstalled, CompactInstall, CompactInstalled;
    hide CanCommit, CanCompactInstall, CanCrash, Crash, OpenStart, FinishOpen, OpenUnsaved;
    match step
    case BuiltFlush(_) => FlushWhole(s, bs);
    case Commit => CommitWhole(s, bs);
    case InstalledFlush(_) => InstalledWhole(s, step, bs);
    case InstallCompact => InstallWhole(s, bs);
    case InstalledCompact(_) => InstalledWhole(s, step, bs);
    case Die(left) => DieWhole(s, left, bs);
    case _ => OpenWhole(s, step, bs);
  }

  lemma MemoryFacts(s: Store)
    requires Inv(s)
    ensures s.mode.Up? ==> s.logfile in s.mems && s.imm != Some(s.logfile) && s.Inserted() <= s.Mem() && s.v.next != s.logfile
    ensures !s.mode.Up? ==> s.imm.None? && s.group.None? && s.flush.NoFlush? && s.compact.NoCompact? && s.mems == map[]
  {
    hide VersionsOk, SequencesOk, GroupOk, OldLogsOk, FlushOk, CompactOk, SnapshotsOk, PinsOk, Sound, Recoverable;
  }

  lemma {:induction false} RunWhole(s: Store, steps: seq<Step>, t: Store, bs: set<Batch>)
    requires Inv(s) && Run(s, steps, t) && ForgesNothing(s, steps) && WholeBatches(s, bs)
    ensures WholeBatches(t, bs + BatchesOf(s, steps))
    decreases |steps|
  {
    hide Inv, WholeBatches, Enabled, Apply, NothingForged, NewBatch;
    if steps == [] {
      assert bs + BatchesOf(s, steps) == bs;
    } else {
      var next, rest := Apply(s, steps[0]), steps[1..];
      StepWhole(s, steps[0], bs);
      StepKeeps(s, steps[0]);
      RunWhole(next, rest, t, bs + NewBatch(s, steps[0]));
      assert bs + NewBatch(s, steps[0]) + BatchesOf(next, rest) == bs + BatchesOf(s, steps);
    }
  }

  lemma InitialWhole()
    ensures WholeBatches(Initial(), {})
  {
  }

  // ---- the theorem -----------------------------------------------------------------------

  // In every reachable state the operations that the database answers by are
  // those of some of the batches that were begun, each of them in full and under
  // its own numbers: no crash, however torn the log, leaves a part of a batch.
  lemma BatchesAreAtomic(s: Store) returns (steps: seq<Step>, h: seq<Numbered>)
    requires Reachable(s) && s.mode.Up?
    ensures Holds(s, steps, h) && forall k :: Answer(s, k) == Lookup(Applied(map[], Ops(h)), k)
    ensures forall x | x in h :: exists b :: b in BatchesOf(Initial(), steps) && HoldsAll(h, b) && InBatch(x, b)
  {
    hide Run, Inv, ForgesNothing, Holds, Answer, Lookup, Applied, BatchesOf;
    steps, h := AnswersAreReplay(s);
    assert Run(Initial(), steps, s) && ForgesNothing(Initial(), steps) by { HoldsRun(s, steps, h); }
    InitialInv();
    InitialWhole();
    RunWhole(Initial(), steps, s, {});
    var bs := BatchesOf(Initial(), steps);
    assert {} + bs == bs;
    hide WholeBatches;
    assert MadeOf(EntriesOf(h), bs) by { CommittedIsWhole(s, bs); }
    forall x | x in h ensures exists b :: b in bs && HoldsAll(h, b) && InBatch(x, b) {
      var b := BatchAround(h, bs, x);
    }
  }

  lemma HoldsRun(s: Store, steps: seq<Step>, h: seq<Numbered>)
    requires Holds(s, steps, h)
    ensures Run(Initial(), steps, s) && ForgesNothing(Initial(), steps)
  {
    hide Run, ForgesNothing, Read, BegunOp;
  }

  lemma CommittedIsWhole(s: Store, bs: set<Batch>)
    requires WholeBatches(s, bs)
    ensures MadeOf(s.hist.committed, bs)
  {
    hide MadeOf, MemWhole, LogsWhole;
  }

  predicate InBatch(x: Numbered, b: Batch)
  {
    exists i :: 0 <= i < |b.ops| && x == Numbered(b.first + i, b.ops[i])
  }

  predicate HoldsAll(h: seq<Numbered>, b: Batch)
  {
    forall i | 0 <= i < |b.ops| :: Numbered(b.first + i, b.ops[i]) in h
  }

  lemma BatchAround(h: seq<Numbered>, bs: set<Batch>, x: Numbered) returns (b: Batch)
    requires MadeOf(EntriesOf(h), bs) && x in h
    ensures b in bs && HoldsAll(h, b) && InBatch(x, b)
  {
    var e := x.op.At(x.seqno);
    assert e in EntriesOf(h) by { var j :| 0 <= j < |h| && h[j] == x; assert h[j].op.At(h[j].seqno) == e; }
    b :| b in bs && e in b.All() && b.All() <= EntriesOf(h);
    forall i | 0 <= i < |b.ops| ensures Numbered(b.first + i, b.ops[i]) in h {
      var f := b.ops[i].At(b.first + i);
      assert f in b.All();
      var j :| 0 <= j < |h| && f == h[j].op.At(h[j].seqno);
      OpComesBack(b.ops[i], b.first + i);
      OpComesBack(h[j].op, h[j].seqno);
      assert h[j] == Numbered(b.first + i, b.ops[i]);
    }
    var i :| 0 <= i < |b.ops| && e == b.ops[i].At(b.first + i);
    OpComesBack(b.ops[i], b.first + i);
    OpComesBack(x.op, x.seqno);
  }
}
