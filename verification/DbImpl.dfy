// DBImpl's methods as the code runs them (db/db_impl.cc), each shown to take
// the steps of the store's transition system that it stands for.
module DbImpl {
  import opened Bytes
  import opened DbFormat
  import opened Entries
  import opened Compaction
  import opened Storage
  import opened StorageInvariant
  import opened StorageFrames
  import opened StorageBackground
  import opened StorageRuns
  import opened StorageReplay
  import opened WriteQueue

  const SLOWDOWN_TRIGGER: nat := 8
  const STOP_TRIGGER: nat := 12

  // What one turn of MakeRoomForWrite's loop comes to.
  datatype Room = Ready | Failed | Slept | Waited | Switched

  // How a flush ends: building the table, the manifest record, and LogAndApply's
  // answer, which is OK only with the record on disk.
  datatype Ending = Ending(built: bool, recorded: bool, applied: bool)

  predicate Possible(end: Ending)
  {
    end.applied ==> end.recorded
  }

  // What a turn of MakeRoomForWrite meets: how full the memtable and level 0
  // are, whether a log file can be created, and how the flush ends it waits for.
  datatype Circumstance = Circumstance(full: bool, level0: nat, fileOk: bool, flush: Ending)

  // Which level-0 tables a recovery can write, and what a failure leaves there.
  datatype Files = Files(written: nat -> bool, leftover: nat -> set<Entry>)

  class DBImpl {
    var mode: Mode
    var disk: Disk
    var versions: Version
    // mem_, imm_ and the memtables readers still hold.
    var mems: map<nat, set<Entry>>
    var logfileNumber: nat
    var imm: Option<nat>
    var bgError: bool
    var pendingOutputs: set<nat>
    var snapshots: seq<nat>
    var pins: map<nat, Pin>
    var writers: Queue
    // The group the leader is writing, kept on its stack in the source.
    var group: Option<Group>
    // How far the background thread has got with imm_.
    var flush: Flush
    // How far with a compaction, and history.
    ghost var compact: Compact
    ghost var hist: History

    ghost function State(): Store
      reads this
    {
      Store(disk, mode, versions, mems, logfileNumber, imm, bgError, pendingOutputs, snapshots, pins,
            group, flush, compact, hist)
    }

    // ---- DeleteObsoleteFiles -------------------------------------------------

    method LiveFiles() returns (live: set<nat>)
      ensures live == State().Live()
    {
      live := pendingOutputs + versions.tables;
      var ids := pins.Keys;
      while ids != {}
        invariant ids <= pins.Keys
        invariant live == pendingOutputs + versions.tables +
                  (set id, n | id in pins && id !in ids && n in pins[id].tables :: n)
        decreases |ids|
      {
        var id :| id in ids;
        live := live + pins[id].tables;
        ids := ids - {id};
      }
    }

    static method SweepTables(tables: map<nat, set<Entry>>, live: set<nat>) returns (left: map<nat, set<Entry>>)
      ensures left == map n | n in tables && n in live :: tables[n]
    {
      var names := tables.Keys;
      left := tables;
      while names != {}
        invariant names <= tables.Keys
        invariant forall n :: n in left <==> n in tables && (n in names || n in live)
        invariant forall n | n in left :: left[n] == tables[n]
        decreases |names|
      {
        var n :| n in names;
        names := names - {n};
        if n !in live {
          left := left - {n};
        }
      }
    }

    static method SweepLogs(logs: map<nat, Log>, from: nat) returns (left: map<nat, Log>)
      ensures left == map n | n in logs && n >= from :: logs[n]
    {
      var names := logs.Keys;
      left := logs;
      while names != {}
        invariant names <= logs.Keys
        invariant forall n :: n in left <==> n in logs && (n in names || n >= from)
        invariant forall n | n in left :: left[n] == logs[n]
        decreases |names|
      {
        var n :| n in names;
        names := names - {n};
        if n < from {
          left := left - {n};
        }
      }
    }

    method DeleteObsoleteFiles()
      modifies this`disk
      ensures State() == CollectGarbage(old(State()))
      ensures bgError ==> disk == old(disk)
      ensures !bgError ==>
                && (forall n :: n in disk.tables <==>
                      n in old(disk).tables && (n in pendingOutputs || n in versions.tables || exists id :: id in pins && n in pins[id].tables))
                && (forall n :: n in disk.logs <==> n in old(disk).logs && n >= versions.log)
                && (forall n | n in disk.tables :: disk.tables[n] == old(disk).tables[n])
                && (forall n | n in disk.logs :: disk.logs[n] == old(disk).logs[n])
    {
      if bgError {
        // The last version may or may not have been committed.
        return;
      }
      var live := LiveFiles();
      var tables := SweepTables(disk.tables, live);
      var logs := SweepLogs(disk.logs, versions.log);
      disk := disk.(tables := tables, logs := logs);
    }

    // ---- MakeRoomForWrite -------------------------------------------------------

    // One turn of the loop, given how full the memtable and level 0 are and
    // whether a log file can be created. Only the last branch changes anything,
    // and never while there is an immutable memtable.
    method MakeRoomForWrite(force: bool, allowDelay: bool, full: bool, level0: nat, fileOk: bool)
        returns (room: Room, stillForce: bool, mayDelay: bool)
      modifies this`disk, this`versions, this`mems, this`imm, this`logfileNumber
      requires mode.Up? && group.None?
      ensures bgError == old(bgError)
      ensures room == Slept <==> !bgError && allowDelay && level0 >= 8
      ensures room == Ready <==> !bgError && !(allowDelay && level0 >= 8) && !force && !full
      ensures room == Waited <==> !bgError && !(allowDelay && level0 >= 8) && (force || full) && (old(imm).Some? || level0 >= 12)
      ensures room == Switched ==> fileOk
      ensures room == Failed ==> old(bgError) || !fileOk
      ensures State() == if room == Switched then SwitchMemTable(old(State())) else old(State())
      ensures room == Switched ==> CanSwitch(old(State()))
      ensures stillForce == (force && room != Switched)
      ensures mayDelay == (allowDelay && room != Slept)
      ensures MustSwitch(old(State()), force || full, level0) && room != Slept ==> room == if fileOk then Switched else Failed
    {
      hide SwitchMemTable;
      stillForce, mayDelay := force, allowDelay;
      if bgError {
        room := Failed;
      } else if allowDelay && level0 >= SLOWDOWN_TRIGGER {
        room, mayDelay := Slept, false;
      } else if !force && !full {
        room := Ready;
      } else if imm.Some? {
        room := Waited;
      } else if level0 >= STOP_TRIGGER {
        room := Waited;
      } else {
        var ok := StartNewLog(fileOk);
        room := if ok then Switched else Failed;
        stillForce := force && !ok;
      }
    }

    // The whole loop, for as many turns as `turns` has. Whoever waits is woken when
    // a flush has ended. A forced call that finds room has switched memtables; a
    // write is delayed at most once and a forced one never; an error means a
    // recorded background error or a log file that could not be created.
    method MakeRoom(force: bool, turns: seq<Circumstance>) returns (room: Room, sleeps: nat, ghost steps: seq<Step>)
      requires mode.Up? && group.None? && flush.NoFlush? && !compact.InstallingOutputs?
      requires forall c | c in turns :: Possible(c.flush)
      modifies this`disk, this`versions, this`mems, this`imm, this`logfileNumber, this`pendingOutputs, this`flush, this`bgError
      ensures Lives(old(State()), steps, State()) && flush.NoFlush?
      ensures room == Ready ==> !bgError && (force ==> Switch in steps)
      ensures room == Failed ==> bgError || exists c :: c in turns && !c.fileOk
      ensures room == Ready || room == Failed || room == Waited
      ensures room == Ready ==> exists c :: c in turns && !c.full
      ensures room == Waited && !force ==> forall c | c in turns :: c.full || c.level0 >= 8
      ensures sleeps <= 1 && (force ==> sleeps == 0)
    {
      hide Run, Lives, SwitchMemTable;
      ghost var start := State();
      StartRun(start);
      room, sleeps, steps := Waited, 0, [];
      var wanted, mayDelay := force, !force;
      var i := 0;
      while i < |turns|
        invariant 0 <= i <= |turns| && Lives(start, steps, State()) && flush.NoFlush?
        invariant sleeps + (if mayDelay then 1 else 0) <= 1 && (force ==> sleeps == 0 && !mayDelay)
        invariant force && !wanted ==> Switch in steps
        invariant !force ==> !wanted && forall c | c in turns[..i] :: c.full || c.level0 >= 8
      {
        var c := turns[i];
        assert turns[..i + 1] == turns[..i] + [c];
        ghost var before := State();
        room, wanted, mayDelay := MakeRoomForWrite(wanted, mayDelay, c.full, c.level0, c.fileOk);
        match room {
          case Ready => return;
          case Failed => return;
          case Slept => sleeps := sleeps + 1;
          case Switched => steps := Extend(start, steps, before, Switch, State());
          case Waited =>
            if imm.Some? {
              ghost var more := CompactMemTable(c.flush.built, c.flush.recorded, c.flush.applied);
              Then(start, steps, before, more, State());
              steps := steps + more;
            }
        }
        i := i + 1;
      }
      room := Waited;
      assert turns[..|turns|] == turns;
    }

    // A new log file; the memtable becomes imm_. The file number is given back
    // when the file cannot be created.
    method StartNewLog(fileOk: bool) returns (ok: bool)
      modifies this`disk, this`versions, this`mems, this`imm, this`logfileNumber
      ensures ok == fileOk && State() == if ok then SwitchMemTable(old(State())) else old(State())
    {
      var newLogNumber := versions.next;
      versions := versions.(next := newLogNumber + 1);
      ok := fileOk;
      if !ok {
        versions := versions.(next := newLogNumber);
        return;
      }
      disk := disk.(logs := disk.logs[newLogNumber := NEW_LOG]);
      imm := Some(logfileNumber);
      logfileNumber := newLogNumber;
      mems := mems[newLogNumber := {}];
    }

    static ghost predicate MustSwitch(s: Store, wanted: bool, level0: nat)
    {
      !s.bgError && wanted && s.imm.None? && level0 < STOP_TRIGGER
    }

    // ---- Write, from BuildBatchGroup on ----------------------------------------------

    // AddRecord: a write that fails on the way tears the log file.
    method AppendRecord(ok: bool, tears: bool)
      requires CanAppend(State())
      modifies this`disk, this`group
      ensures State() == Append(old(State()), ok, tears)
      ensures group == Some(old(group).value.(stage :=
                if !ok then Broken(false) else if old(group).value.sync then ToSync else Inserting(0)))
      ensures logfileNumber in disk.logs
    {
      var g := group.value;
      disk := disk.(logs := disk.logs[logfileNumber := disk.logs[logfileNumber].Add(g.batch, tears)]);
      group := Some(g.(stage := if !ok then Broken(false) else if g.sync then ToSync else Inserting(0)));
    }

    method SyncLogFile(ok: bool)
      requires CanSync(State())
      modifies this`disk, this`group
      ensures State() == Sync(old(State()), ok)
      ensures group == Some(old(group).value.(stage := if ok then Inserting(0) else Broken(true)))
      ensures logfileNumber in disk.logs
    {
      var g := group.value;
      if ok {
        var log := disk.logs[logfileNumber];
        disk := disk.(logs := disk.logs[logfileNumber := log.(synced := |log.records|)]);
        group := Some(g.(stage := Inserting(0)));
      } else {
        group := Some(g.(stage := Broken(true)));
      }
    }

    // The entries, up to number n, read like the map.
    static ghost predicate ReadsAs(es: set<Entry>, n: int, m: map<Key, Value>)
    {
      n >= 0 && Unique(es) && UpTo(es, n) && forall k :: Read(es, k, n) == Lookup(m, k)
    }

    static lemma BatchReads(es: set<Entry>, b: Batch)
      ensures forall m | ReadsAs(es, b.first - 1, m) :: ReadsAs(es + b.All(), b.first + |b.ops| - 1, Applied(m, b.ops))
    {
      hide Unique, UpTo, Applied, Lookup, Read, Batch.Prefix;
      forall m | ReadsAs(es, b.first - 1, m) ensures ReadsAs(es + b.All(), b.first + |b.ops| - 1, Applied(m, b.ops)) {
        assert b.ops[..|b.ops|] == b.ops;
        forall k ensures Read(es + b.All(), k, b.first + |b.ops| - 1) == Lookup(Applied(m, b.ops), k)
                 ensures Unique(es + b.All()) && UpTo(es + b.All(), b.first + |b.ops| - 1)
        {
          ReadAfterBatch(es, b.first - 1, b, |b.ops|, m, k);
        }
        var k: Key := [];
        ReadAfterBatch(es, b.first - 1, b, |b.ops|, m, k);
      }
    }

    static lemma NextInserted(es: set<Entry>, b: Batch, i: nat)
      requires i < |b.ops|
      ensures es + b.Prefix(i) + {b.ops[i].At(b.first + i)} == es + b.Prefix(i + 1)
    {
    }

    static lemma NoneInserted(es: set<Entry>, b: Batch)
      ensures es + b.Prefix(0) == es
    {
    }

    // WriteBatchInternal::InsertInto: one entry after the other. A memtable that
    // reads like a map then reads like the map after the batch's operations.
    method InsertInto() returns (ghost steps: seq<Step>)
      requires mode.Up? && group.Some? && group.value.stage == Inserting(0) && logfileNumber in mems
      modifies this`mems, this`group
      ensures Lives(old(State()), steps, State())
      ensures group == Some(old(group).value.(stage := Inserting(|old(group).value.batch.ops|)))
      ensures var b := old(group).value.batch;
              && logfileNumber in mems
              && forall m | ReadsAs(old(mems)[logfileNumber], b.first - 1, m) ::
                   ReadsAs(mems[logfileNumber], b.first + |b.ops| - 1, Applied(m, b.ops))
    {
      hide Run, Lives, Enabled, Apply, InsertOne, ReadsAs, Applied, Batch.Prefix;
      ghost var start, es := State(), mems[logfileNumber];
      StartRun(start);
      var g := group.value;
      BatchReads(es, g.batch);
      NoneInserted(es, g.batch);
      steps := [];
      var i := 0;
      while i < |g.batch.ops|
        invariant 0 <= i <= |g.batch.ops| && group == Some(g.(stage := Inserting(i)))
        invariant Lives(start, steps, State()) && logfileNumber in mems
        invariant mems[logfileNumber] == es + g.batch.Prefix(i)
      {
        ghost var before := State();
        NextInserted(es, g.batch, i);
        InsertEntry(g, i);
        steps := InsertStep(start, steps, before);
        i := i + 1;
      }
    }

    method InsertEntry(g: Group, i: nat)
      requires mode.Up? && group == Some(g.(stage := Inserting(i))) && i < |g.batch.ops| && logfileNumber in mems
      modifies this`mems, this`group
      ensures State() == InsertOne(old(State()))
      ensures group == Some(g.(stage := Inserting(i + 1))) && logfileNumber in mems
      ensures mems[logfileNumber] == old(mems)[logfileNumber] + {g.batch.ops[i].At(g.batch.first + i)}
    {
      mems := mems[logfileNumber := mems[logfileNumber] + {g.batch.ops[i].At(g.batch.first + i)}];
      group := Some(g.(stage := Inserting(i + 1)));
    }

    static lemma InsertStep(start: Store, steps: seq<Step>, s: Store) returns (more: seq<Step>)
      requires Lives(start, steps, s) && CanInsert(s)
      ensures Lives(start, more, InsertOne(s))
    {
      hide Run, Lives;
      more := Extend(start, steps, s, Insert, InsertOne(s));
    }

    // Back under the mutex: a failed sync stops all further writes, and
    // LastSequence moves past the group in any case.
    method FinishWrite() returns (status: bool)
      requires CanFinish(State())
      modifies this`bgError, this`versions, this`group, this`hist
      ensures State() == FinishGroup(old(State()))
      ensures status == !old(group).value.stage.Broken? && group == None
      ensures bgError == (old(bgError) || old(group).value.stage == Broken(true))
      ensures versions.last == old(versions).last + |old(group).value.batch.ops|
      ensures status ==> old(group).value.batch.All() <= if old(State().Torn()) then hist.exposed else hist.acked
    {
      var g := group.value;
      ghost var all, torn := g.batch.All(), State().Torn();
      status := !g.stage.Broken?;
      if g.stage == Broken(true) {
        bgError := true;
      }
      versions := versions.(last := versions.last + |g.batch.ops|);
      group := None;
      hist := if status && torn then hist.(committed := hist.committed + all, exposed := hist.exposed + all)
              else if status then hist.(committed := hist.committed + all, acked := hist.acked + all,
                                   durable := hist.durable + if g.sync then all else {})
              else hist.(failed := hist.failed + all);
    }

    // The part of Write that runs with the mutex released.
    method LogAndInsert(appendOk: bool, tears: bool, syncOk: bool) returns (ghost steps: seq<Step>)
      requires CanAppend(State()) && logfileNumber in mems
      modifies this`disk, this`mems, this`group
      ensures Lives(old(State()), steps, State()) && CanFinish(State())
      ensures var g := old(group).value;
              group == Some(g.(stage :=
                if !appendOk then Broken(false)
                else if g.sync && !syncOk then Broken(true)
                else Inserting(|g.batch.ops|)))
    {
      hide Run, Lives, Append, Sync, InsertOne, Enabled, Apply;
      ghost var start := State();
      AppendRecord(appendOk, tears);
      StartRun(start);
      steps := AppendStep(start, [], start, appendOk, tears);
      if appendOk && group.value.sync {
        ghost var before := State();
        SyncLogFile(syncOk);
        steps := SyncStep(start, steps, before, syncOk);
      }
      if group.value.stage.Inserting? {
        ghost var before := State();
        ghost var inserts := InsertInto();
        Then(start, steps, before, inserts, State());
        steps := steps + inserts;
      }
    }

    static lemma StartRun(s: Store)
      ensures Lives(s, [], s)
    {
    }

    // The leader's part of Write once there is room: build the group, append,
    // sync if asked, insert, move LastSequence past the group even on failure,
    // tell the writers. Every state on the way is one the transition system
    // reaches, by the steps returned.
    method WriteGroup(appendOk: bool, tears: bool, syncOk: bool) returns (status: bool, ghost steps: seq<Step>)
      requires Inv(State()) && mode.Up? && group.None? && !bgError
      requires QueueInv(writers) && MakesRoom(writers) && writers.writers[writers.head].request.ops.Some?
      modifies this
      ensures Lives(old(State()), steps, State()) && group.None?
      ensures LedGroup(old(writers), writers, old(versions).last, versions.last, status, State().Torn(), hist)
      ensures var sync := old(writers).writers[old(writers).head].request.sync;
              status == (appendOk && (sync ==> syncOk)) && bgError == (appendOk && sync && !syncOk)
    {
      hide Inv, IsGroup, Merged, Run, Lives, FinishGroup, Complete, Build, QueueInv, CanLead, CanAppend, CanFinish, Batch.All;
      ghost var start, q := State(), writers;
      StepReady(start);
      var n, built := StartGroup();
      steps := built;
      ghost var before := State();
      ReadyToAppend(before);
      ghost var more := LogAndInsert(appendOk, tears, syncOk);
      Then(start, steps, before, more, State());
      steps := steps + more;
      before := State();
      status := FinishWrite();
      assert State().Torn() == before.Torn();
      steps := FinishStep(start, steps, before);
      writers := CompleteGroup(writers, writers.head + n, status);
      HasLed(q, n, writers, start.v.last, versions.last, status, State().Torn(), hist);
    }

    // BuildBatchGroup and the group's sequence number.
    method StartGroup() returns (n: nat, ghost steps: seq<Step>)
      requires mode.Up? && group.None? && !bgError
      requires QueueInv(writers) && MakesRoom(writers) && writers.writers[writers.head].request.ops.Some?
      modifies this`writers, this`group
      ensures CanLead(old(writers), n) && old(writers).head + n <= |old(writers).writers| && n > 0
      ensures writers == Build(old(writers), n) && QueueInv(writers) && writers.lead.Some? && writers.head == old(writers).head
      ensures |writers.writers| == |old(writers).writers|
      ensures group == Some(Group(Batch(versions.last + 1, Merged(Waiting(old(writers))[..n])),
                                  old(writers).writers[old(writers).head].request.sync, ToAppend))
      ensures Lives(old(State()), steps, State())
    {
      hide IsGroup, Merged, Run, Lives, QueueInv, BeginGroup, CanLead, MakesRoom, Build, Waiting;
      ghost var start, q := State(), writers;
      FrontLeads(q);
      var sync := writers.writers[writers.head].request.sync;
      var ops, tmp, scratch;
      n, ops, tmp, scratch := BuildBatchGroup(Waiting(writers), writers.tmp);
      GroupIsBuilt(q, n, ops, scratch);
      writers := writers.(lead := Some(Writing(writers.head + n, scratch)), tmp := if scratch then tmp else writers.tmp);
      group := Some(Group(Batch(versions.last + 1, ops), sync, ToAppend));
      GroupBegins(start, State(), ops, sync);
      steps := FirstStep(start, ops, sync);
    }

    static lemma FrontLeads(q: Queue)
      requires QueueInv(q) && MakesRoom(q) && q.writers[q.head].request.ops.Some?
      ensures q.tmp == [] && |Waiting(q)| == |q.writers| - q.head > 0 && Waiting(q)[0].ops.Some?
    {
    }

    static lemma GroupIsBuilt(q: Queue, n: nat, ops: seq<Op>, scratch: bool)
      requires QueueInv(q) && MakesRoom(q) && q.writers[q.head].request.ops.Some?
      requires IsGroup(Waiting(q), n) && ops == Merged(Waiting(q)[..n])
      requires n <= |Waiting(q)| && (scratch <==> exists i :: 0 < i < n && Waiting(q)[i].ops.Some?)
      ensures CanLead(q, n) && 0 < n <= |q.writers| - q.head && QueueInv(Build(q, n))
      ensures Build(q, n) == q.(lead := Some(Writing(q.head + n, scratch)), tmp := if scratch then ops else q.tmp)
    {
      assert scratch == UsesScratch(Waiting(q), n);
      hide IsGroup, Merged, QueueInv, UsesScratch;
      GroupFits(Waiting(q), n);
      GroupOpsAreMerged(q, n);
      BuildKeeps(q, n);
    }

    static lemma GroupBegins(s: Store, t: Store, ops: seq<Op>, sync: bool)
      requires t == s.(group := Some(Group(Batch(s.v.last + 1, ops), sync, ToAppend)))
      ensures t == BeginGroup(s, ops, sync)
    {
    }

    static lemma HasLed(q: Queue, n: nat, r: Queue, last: nat, newLast: nat, status: bool, torn: bool, h: History)
      requires QueueInv(q) && CanLead(q, n) && q.head + n <= |q.writers|
      requires r == Complete(Build(q, n), q.head + n, status)
      requires var b := Batch(last + 1, Merged(Waiting(q)[..n]));
               newLast + 1 == b.Next() && (status ==> b.All() <= if torn then h.exposed else h.acked)
      ensures LedGroup(q, r, last, newLast, status, torn, h)
    {
      hide Merged, Batch.All;
    }

    static lemma ReadyToAppend(s: Store)
      requires s.mode.Up? && s.group.Some? && s.group.value.stage == ToAppend && s.logfile in s.disk.logs
      ensures CanAppend(s)
    {
    }

    // The queue lost exactly its group, which took its share of numbers and was
    // acknowledged if all went well.
    static ghost predicate LedGroup(q: Queue, r: Queue, last: nat, newLast: nat, status: bool, torn: bool, h: History)
      requires q.head < |q.writers| && q.writers[q.head].request.ops.Some?
    {
      exists n: nat | IsGroup(Waiting(q), n) ::
        var b := Batch(last + 1, Merged(Waiting(q)[..n]));
        r == Complete(Build(q, n), q.head + n, status) && r.tmp == [] && newLast + 1 == b.Next() && (status ==> b.All() <= if torn then h.exposed else h.acked)
    }

    static lemma FirstStep(s: Store, ops: seq<Op>, sync: bool) returns (steps: seq<Step>)
      requires CanBegin(s)
      ensures Lives(s, steps, BeginGroup(s, ops, sync))
    {
      steps := Extend(s, [], s, Begin(ops, sync), BeginGroup(s, ops, sync));
    }

    static lemma AppendStep(start: Store, steps: seq<Step>, s: Store, ok: bool, tears: bool) returns (more: seq<Step>)
      requires Lives(start, steps, s) && CanAppend(s)
      ensures Lives(start, more, Append(s, ok, tears))
    {
      hide Run, Lives;
      more := Extend(start, steps, s, Step.AppendRecord(ok, tears), Append(s, ok, tears));
    }

    static lemma SyncStep(start: Store, steps: seq<Step>, s: Store, ok: bool) returns (more: seq<Step>)
      requires Lives(start, steps, s) && CanSync(s)
      ensures Lives(start, more, Sync(s, ok))
    {
      hide Run, Lives;
      more := Extend(start, steps, s, SyncLog(ok), Sync(s, ok));
    }

    static lemma FinishStep(start: Store, steps: seq<Step>, s: Store) returns (more: seq<Step>)
      requires Lives(start, steps, s) && CanFinish(s)
      ensures Lives(start, more, FinishGroup(s))
    {
      hide Run, Lives;
      more := Extend(start, steps, s, Finish, FinishGroup(s));
    }

    static lemma {:induction false} Then(a: Store, steps: seq<Step>, b: Store, more: seq<Step>, c: Store)
      requires Lives(a, steps, b) && Lives(b, more, c)
      ensures Lives(a, steps + more, c)
      decreases |steps|
    {
      hide Enabled, Apply;
      if steps == [] {
        assert steps + more == more;
      } else {
        Then(Apply(a, steps[0]), steps[1..], b, more, c);
        assert (steps + more)[1..] == steps[1..] + more;
      }
    }

    static lemma GroupFits(rs: seq<Request>, n: nat)
      requires IsGroup(rs, n)
      ensures 0 < n <= |rs|
    {
    }

    static lemma StepReady(s: Store)
      requires Inv(s) && s.mode.Up?
      ensures s.logfile in s.disk.logs && s.logfile in s.mems
    {
      hide VersionsOk, SequencesOk, GroupOk, OldLogsOk, NumbersOk, FlushOk, CompactOk, SnapshotsOk, PinsOk, Newer, Log.All, Log.Safe, Log.Intact;
    }

    // One more step of a run of the living process.
    static lemma Extend(start: Store, steps: seq<Step>, before: Store, step: Step, after: Store) returns (more: seq<Step>)
      requires Lives(start, steps, before) && Enabled(before, step) && !step.Die? && Apply(before, step) == after
      ensures more == steps + [step] && Lives(start, more, after)
    {
      RunThen(start, steps, before, step);
      more := steps + [step];
    }

    // ---- CompactMemTable --------------------------------------------------------------

    // WriteLevel0Table, up to the version LogAndApply is to write.
    method WriteLevel0Table(ok: bool) returns (ghost steps: seq<Step>)
      requires CanFlush(State())
      modifies this`versions, this`pendingOutputs, this`disk, this`flush, this`bgError
      ensures Lives(old(State()), steps, State())
      ensures State() == FlushBuilt(FlushStart(old(State())), ok)
    {
      hide Run, Lives, Store.Imm, CanFlush, FlushBuilt;
      ghost var start := State();
      FlushIsReady(start);
      var number := versions.next;
      versions := versions.(next := number + 1);
      pendingOutputs := pendingOutputs + {number};
      disk := disk.(tables := disk.tables[number := {}]);
      flush := Building(number);
      BuildTable(number, ok);
      steps := FlushSteps(start, ok);
    }

    // The table of imm_'s entries and the edit that names it; no table for an
    // empty memtable.
    method BuildTable(number: nat, ok: bool)
      requires CanFlushBuilt(State()) && flush == Building(number) && number in disk.tables
      modifies this`pendingOutputs, this`disk, this`flush, this`bgError
      ensures State() == FlushBuilt(old(State()), ok)
    {
      hide Store.Imm;
      pendingOutputs := pendingOutputs - {number};
      if !ok {
        flush := NoFlush;
        bgError := true;
        return;
      }
      var content := if imm.Some? && imm.value in mems then mems[imm.value] else {};
      ImmIs(old(State()), content);
      var next := versions.(log := logfileNumber, flushed := versions.flushed + content);
      if content == {} {
        disk := disk.(tables := disk.tables - {number});
      } else {
        disk := disk.(tables := disk.tables[number := content]);
        next := next.(tables := versions.tables + {number});
      }
      flush := Installing(next);
    }

    static lemma ImmIs(s: Store, content: set<Entry>)
      requires content == if s.imm.Some? && s.imm.value in s.mems then s.mems[s.imm.value] else {}
      ensures s.Imm() == content
    {
    }

    static lemma FlushSteps(s: Store, ok: bool) returns (steps: seq<Step>)
      requires CanFlush(s)
      ensures CanFlushBuilt(FlushStart(s)) && Lives(s, steps, FlushBuilt(FlushStart(s), ok))
    {
      hide Run, Lives, FlushBuilt;
      StartRun(s);
      steps := Extend(s, [], s, StartFlush, FlushStart(s));
      steps := Extend(s, steps, FlushStart(s), BuiltFlush(ok), FlushBuilt(FlushStart(s), ok));
    }

    // LogAndApply and what follows it. It may fail with its record on disk.
    method InstallFlush(recorded: bool, applied: bool)
      requires mode.Up? && flush.Installing? && (applied ==> recorded)
      modifies this`disk, this`versions, this`imm, this`flush, this`bgError
      ensures var written := if recorded then CommitManifest(old(State())) else old(State());
              CanInstallFlush(written, applied) && State() == FlushInstalled(written, applied)
      ensures imm == (if applied then None else old(imm)) && bgError == (old(bgError) || !applied) && flush.NoFlush?
    {
      hide Store.Imm, CollectGarbage;
      var next := flush.next;
      if recorded {
        disk := disk.(manifest := next);
      }
      flush := NoFlush;
      if applied {
        versions := Installed(versions, next);
        imm := None;
        DeleteObsoleteFiles();
      } else {
        bgError := true;
      }
    }

    static lemma InstallSteps(s: Store, recorded: bool, applied: bool) returns (steps: seq<Step>)
      requires s.mode.Up? && s.flush.Installing? && (applied ==> recorded)
      ensures var written := if recorded then CommitManifest(s) else s;
              CanInstallFlush(written, applied) && Lives(s, steps, FlushInstalled(written, applied))
    {
      hide Run, Lives, FlushInstalled;
      StartRun(s);
      steps := [];
      if recorded {
        steps := Extend(s, steps, s, Commit, CommitManifest(s));
      }
      var written := if recorded then CommitManifest(s) else s;
      steps := Extend(s, steps, written, InstalledFlush(applied), FlushInstalled(written, applied));
    }

    // The whole flush: build the table, write the manifest record if it gets
    // that far, install the version and collect garbage; or note the error.
    method CompactMemTable(buildOk: bool, recorded: bool, applied: bool) returns (ghost steps: seq<Step>)
      requires CanFlush(State()) && (applied ==> recorded)
      modifies this`disk, this`versions, this`imm, this`pendingOutputs, this`flush, this`bgError
      ensures Lives(old(State()), steps, State()) && flush.NoFlush?
      ensures State() == Flushed(old(State()), buildOk, recorded, applied)
      ensures imm == (if buildOk && applied then None else old(imm))
      ensures bgError == (old(bgError) || !buildOk || !applied)
    {
      hide Run, Lives, Store.Imm, FlushInstalled;
      ghost var start := State();
      steps := WriteLevel0Table(buildOk);
      if buildOk {
        ghost var before := State();
        InstallFlush(recorded, applied);
        ghost var more := InstallSteps(before, recorded, applied);
        Then(start, steps, before, more, State());
        steps := steps + more;
      }
    }

    // The state after a flush.
    static ghost function Flushed(s: Store, buildOk: bool, recorded: bool, applied: bool): Store
      requires CanFlush(s) && (applied ==> recorded)
    {
      var built := FlushBuilt(FlushStart(s), buildOk);
      if !buildOk then built
      else FlushInstalled(if recorded then CommitManifest(built) else built, applied)
    }

    static lemma FlushIsReady(s: Store)
      requires CanFlush(s)
      ensures s.mode.Up? && s.imm.Some?
    {
    }

    // ---- readers -------------------------------------------------------------------------

    method GetSnapshot() returns (snapshot: nat)
      modifies this`snapshots
      ensures snapshot == versions.last && State() == TakeSnapshot(old(State()))
    {
      snapshot := versions.last;
      snapshots := snapshots + [snapshot];
    }

    // What a memtable or a table answers: the newest entry the snapshot may see.
    static method LookUp(s: set<Entry>, k: Key, snapshot: nat) returns (found: Option<Entry>)
      ensures found.Some? <==> HasVersion(s, k, snapshot)
      ensures found.Some? ==> Newest(s, k, snapshot, found.value)
    {
      if HasVersion(s, k, snapshot) {
        NewestExists(s, k, snapshot);
        var e :| e in s && Newest(s, k, snapshot, e);
        found := Some(e);
      } else {
        found := None;
      }
    }

    // The memtable first, then imm_, then the tables; the first that knows the
    // key decides. The answer is what is committed as of the snapshot, even if
    // a group is going into the memtable meanwhile.
    method Get(k: Key, at: Option<nat>) returns (value: Option<Value>)
      requires Inv(State()) && mode.Up? && (at.Some? ==> at.value in snapshots)
      ensures value == Read(hist.committed, k, if at.Some? then at.value else versions.last)
    {
      hide Inv, Read, Newest, HasVersion, Contents;
      var snapshot := if at.Some? then at.value else versions.last;
      GetIsRead(State(), k, snapshot);
      NothingThere(k, snapshot);
      var found := LookUp(mems[logfileNumber], k, snapshot);
      if found.Some? {
        return Outcome(found.value);
      }
      if imm.Some? {
        found := LookUp(mems[imm.value], k, snapshot);
        if found.Some? {
          return Outcome(found.value);
        }
      }
      found := LookUp(Contents(disk.tables, versions.tables), k, snapshot);
      value := if found.Some? then Outcome(found.value) else None;
    }

    static lemma NothingThere(k: Key, snapshot: nat)
      ensures !HasVersion({}, k, snapshot)
    {
    }

    // Searching the layers newest first is reading them all.
    static lemma GetIsRead(s: Store, k: Key, snapshot: nat)
      requires Inv(s) && s.mode.Up? && (snapshot == s.v.last || snapshot in s.snapshots)
      ensures s.logfile in s.mems && (s.imm.Some? ==> s.imm.value in s.mems)
      ensures var mem, imm, tables := s.Mem(), s.Imm(), Contents(s.disk.tables, s.v.tables);
              && (forall e | Newest(mem, k, snapshot, e) :: Outcome(e) == Read(s.hist.committed, k, snapshot))
              && (!HasVersion(mem, k, snapshot) ==>
                    && (forall e | Newest(imm, k, snapshot, e) :: Outcome(e) == Read(s.hist.committed, k, snapshot))
                    && (!HasVersion(imm, k, snapshot) ==>
                          && (forall e | Newest(tables, k, snapshot, e) :: Outcome(e) == Read(s.hist.committed, k, snapshot))
                          && (!HasVersion(tables, k, snapshot) ==> Read(s.hist.committed, k, snapshot) == None)))
    {
      hide Read, Newest, HasVersion, Contents, CompactOk, FlushOk, OldLogsOk, NumbersOk, PinsOk, Sound, LogsBetween, Log.All, Log.Safe, Log.Intact;
      var mem, imm, tables := s.Mem(), s.Imm(), Contents(s.disk.tables, s.v.tables);
      assert s.v.floor <= snapshot <= s.v.last by { FloorsBelow(s); }
      ReadsCommitted(s, k, snapshot);
      LayersAreOrdered(s);
      LayeredRead(tables, imm, mem, k, snapshot);
    }

    static lemma LayersAreOrdered(s: Store)
      requires VersionsOk(s) && SequencesOk(s) && GroupOk(s) && MemoryOk(s)
      ensures var mem, imm, tables := s.Mem(), s.Imm(), Contents(s.disk.tables, s.v.tables);
              Unique(tables + imm + mem) && Newer(imm, tables) && Newer(mem, tables + imm)
    {
      hide Contents, Sound, Log.All, Log.Safe, Log.Intact, AllParse, VersionsOk, Unique, Newer, Store.Issued;
      VersionTables(s);
      MemoryIsIssued(s);
      var mem, imm, tables := s.Mem(), s.Imm(), Contents(s.disk.tables, s.v.tables);
      PartIsUnique(s.Issued(), tables + imm + mem);
      NewerParts(imm, s.v.flushed, imm, tables);
      NewerParts(s.disk.logs[s.logfile].All(), s.v.flushed + imm, mem, tables + imm);
    }

    static lemma MemoryIsIssued(s: Store)
      requires SequencesOk(s) && GroupOk(s) && MemoryOk(s)
      ensures s.v.flushed + s.Imm() + s.Mem() <= s.Issued() && Unique(s.Issued())
    {
      hide Log.All, Log.Safe, Log.Intact, AllParse, Unique, Newer;
      assert s.Inserted() <= s.InFlight();
    }

    static lemma PartIsUnique(a: set<Entry>, b: set<Entry>)
      requires Unique(a) && b <= a
      ensures Unique(b)
    {
    }

    static lemma NewerParts(a: set<Entry>, b: set<Entry>, a': set<Entry>, b': set<Entry>)
      requires Newer(a, b) && a' <= a && b' <= b
      ensures Newer(a', b')
    {
    }

    static lemma LayeredRead(tables: set<Entry>, imm: set<Entry>, mem: set<Entry>, k: Key, s: nat)
      requires Unique(tables + imm + mem) && Newer(imm, tables) && Newer(mem, tables + imm)
      ensures var all := Read(tables + imm + mem, k, s);
              && (forall e | Newest(mem, k, s, e) :: Outcome(e) == all)
              && (!HasVersion(mem, k, s) ==>
                    && (forall e | Newest(imm, k, s, e) :: Outcome(e) == all)
                    && (!HasVersion(imm, k, s) ==>
                          && (forall e | Newest(tables, k, s, e) :: Outcome(e) == all)
                          && (!HasVersion(tables, k, s) ==> all == None)))
    {
      hide Read, Newest;
      UniqueIsUniqueVersions(tables + imm + mem, tables);
      UniqueIsUniqueVersions(tables + imm + mem, imm);
      UniqueIsUniqueVersions(tables + imm + mem, mem);
      NewerLayer(tables + imm, tables + imm, mem, k, s);
      NewerLayer(tables, tables, imm, k, s);
      forall e ensures Newest(mem, k, s, e) ==> HasVersion(mem, k, s) && Outcome(e) == Read(mem, k, s)
               ensures Newest(imm, k, s, e) ==> HasVersion(imm, k, s) && Outcome(e) == Read(imm, k, s)
               ensures Newest(tables, k, s, e) ==> Outcome(e) == Read(tables, k, s)
      {
        if Newest(mem, k, s, e) { NewestIsVersion(mem, k, s, e); ReadIs(mem, k, s, e); }
        if Newest(imm, k, s, e) { NewestIsVersion(imm, k, s, e); ReadIs(imm, k, s, e); }
        if Newest(tables, k, s, e) { ReadIs(tables, k, s, e); }
      }
      if !HasVersion(tables, k, s) { ReadMiss(tables, k, s); }
    }

    static lemma NewestIsVersion(s: set<Entry>, k: Key, snapshot: nat, e: Entry)
      requires Newest(s, k, snapshot, e)
      ensures HasVersion(s, k, snapshot)
    {
    }

    // ---- recovery --------------------------------------------------------------------------

    // Writes a level-0 table under a fresh number while the database is closed;
    // an empty memtable leaves no file, a failure whatever it leaves.
    method WriteRecovered(content: set<Entry>, number: nat, added: set<nat>, files: Files)
        returns (ok: bool, more: set<nat>, ghost steps: seq<Step>)
      requires mode.Down? && number !in disk.manifest.tables && number !in added
      requires added <= disk.tables.Keys
      modifies this`disk
      ensures OnlyTables(old(disk), disk, added) && more <= added + {number} && added <= more <= disk.tables.Keys
      ensures ok ==> Contents(disk.tables, more) == Contents(old(disk).tables, added) + content
      ensures files.written(number) ==> ok
      ensures Lives(old(State()), steps, State())
    {
      hide Run, Lives;
      ghost var start := State();
      StartRun(start);
      ok, more, steps := true, added, [];
      if content != {} {
        ok := files.written(number);
        var left := if ok then content else files.leftover(number);
        disk := disk.(tables := disk.tables[number := left]);
        steps := Extend(start, [], start, WriteTable(number, left), State());
        if ok {
          more := added + {number};
          ContentsOfUnion(disk.tables, added, {number});
          ContentsOfOne(disk.tables, number);
          SameContents(start.disk.tables, disk.tables, added);
        }
      }
    }

    // Everything but tables outside `fixed` and the manifest is as it was.
    static ghost predicate OnlyTables(d: Disk, d': Disk, fixed: set<nat>)
    {
      && d'.logs == d.logs && d'.manifest == d.manifest
      && (forall n | n in fixed && n in d.tables :: n in d'.tables && d'.tables[n] == d.tables[n])
    }

    static ghost predicate Below(s: set<nat>, n: nat)
    {
      forall k | k in s :: k < n
    }

    // Between two states of a replay: the logs and the manifest are as they
    // were, and the tables added since, with `content` still in memory, hold `es`.
    static ghost predicate Replayed(d: Disk, d': Disk, added: set<nat>, more: set<nat>, next: nat, content: set<Entry>, es: set<Entry>)
    {
      && d'.logs == d.logs && d'.manifest == d.manifest && added <= more <= d'.tables.Keys
      && Below(d.manifest.tables, next) && Below(more, next) && (more - added) !! d.manifest.tables
      && Contents(d'.tables, more) + content == Contents(d.tables, added) + es
    }

    // Writes what is in memory and counts the table.
    method FlushReplayed(ghost d: Disk, ghost before: set<nat>, added: set<nat>, next: nat, content: set<Entry>, ghost es: set<Entry>,
                         files: Files, ghost start: Store, ghost soFar: seq<Step>)
        returns (ok: bool, more: set<nat>, newNext: nat, ghost steps: seq<Step>)
      requires mode.Down? && Replayed(d, disk, before, added, next, content, es) && Lives(start, soFar, State())
      modifies this`disk
      ensures newNext == next + 1 && (ok ==> Replayed(d, disk, before, more, newNext, {}, es))
      ensures files.written(next) ==> ok
      ensures disk.logs == old(disk).logs && disk.manifest == old(disk).manifest
      ensures Lives(start, steps, State())
    {
      hide Run, Lives, Contents;
      ghost var was, last := State(), [];
      ok, more, last := WriteRecovered(content, next, added, files);
      Then(start, soFar, was, last, State());
      steps := soFar + last;
      newNext := next + 1;
      assert Contents(disk.tables, more) + {} == Contents(disk.tables, more);
    }

    // Replays one log into level-0 tables, a new one whenever the memtable is
    // full: together they hold exactly the log's entries. A table that cannot be
    // written ends it.
    method RecoverLogFile(records: seq<Batch>, full: set<Entry> -> bool, files: Files, added: set<nat>, next: nat, maxSequence: nat)
        returns (ok: bool, more: set<nat>, newNext: nat, newMax: nat, saveManifest: bool, ghost steps: seq<Step>)
      requires mode.Down? && Replayed(disk, disk, added, added, next, {}, {})
      modifies this`disk
      ensures ok ==> Replayed(old(disk), disk, added, more, newNext, {}, RecordEntries(records)) && next <= newNext
      ensures disk.logs == old(disk).logs && disk.manifest == old(disk).manifest
      ensures ok ==> Largest(records, maxSequence, newMax) && UpTo(RecordEntries(records), newMax)
      ensures ok ==> (saveManifest <==> records != [])
      ensures (forall n: nat :: files.written(n)) ==> ok
      ensures Lives(old(State()), steps, State())
    {
      hide Run, Lives, Contents, RecordEntries, Batch.All, Replayed, UpTo, Largest;
      ghost var start, d, es := State(), disk, {};
      StartRun(start);
      NoRecordEntries(maxSequence);
      ok, more, newNext, newMax, saveManifest, steps := true, added, next, maxSequence, false, [];
      var mem: Option<set<Entry>> := None;
      var i := 0;
      while i < |records|
        invariant ok && 0 <= i <= |records| && mode.Down? && es == RecordEntries(records[..i])
        invariant Replayed(d, disk, added, more, newNext, InMemory(mem), es) && next <= newNext
        invariant disk.logs == d.logs && disk.manifest == d.manifest
        invariant Largest(records[..i], maxSequence, newMax) && UpTo(es, newMax)
        invariant (saveManifest || mem.Some?) == (i > 0)
        invariant Lives(start, steps, State())
      {
        var b := records[i];
        assert records[..i + 1] == records[..i] + [b];
        AppendedEntries(records[..i], b);
        var content := InMemory(mem) + b.All();
        OneMoreBatch(d, disk, added, more, newNext, InMemory(mem), es, b);
        MaxSequence(es, b, newMax);
        LargestNext(records[..i], b, maxSequence, newMax);
        es := es + b.All();
        mem := Some(content);
        if b.Next() > newMax + 1 {
          newMax := b.Next() - 1;
        }
        if full(content) {
          saveManifest := true;
          ok, more, newNext, steps := FlushReplayed(d, added, more, newNext, content, es, files, start, steps);
          if !ok { return; }
          mem := None;
        }
        i := i + 1;
      }
      assert records[..|records|] == records;
      if mem.Some? {
        saveManifest := true;
        ok, more, newNext, steps := FlushReplayed(d, added, more, newNext, mem.value, es, files, start, steps);
      }
    }

    static lemma OneMoreBatch(d: Disk, d': Disk, added: set<nat>, more: set<nat>, next: nat, content: set<Entry>, es: set<Entry>, b: Batch)
      requires Replayed(d, d', added, more, next, content, es)
      ensures Replayed(d, d', added, more, next, content + b.All(), es + b.All())
    {
      hide Contents, Batch.All;
      assert Contents(d'.tables, more) + (content + b.All()) == Contents(d'.tables, more) + content + b.All();
    }

    // The last number of a batch among the records, or `low` when that is larger.
    static ghost predicate Largest(records: seq<Batch>, low: nat, max: nat)
    {
      && max >= low
      && (forall b | b in records :: b.first + |b.ops| <= max + 1)
      && (max == low || exists b :: b in records && b.first + |b.ops| == max + 1)
    }

    static lemma LargestNext(records: seq<Batch>, b: Batch, low: nat, max: nat)
      requires Largest(records, low, max)
      ensures Largest(records + [b], low, if b.Next() > max + 1 then b.Next() - 1 else max)
    {
      assert b in records + [b];
      if c :| c in records && c.first + |c.ops| == max + 1 { assert c in records + [b]; }
    }

    // The same of several logs.
    static ghost predicate LargestLogged(logs: map<nat, Log>, numbers: seq<nat>, low: nat, max: nat)
    {
      && max >= low
      && (forall n, b | n in numbers && n in logs && b in logs[n].Sent() :: b.first + |b.ops| <= max + 1)
      && (max == low || exists n, b :: n in numbers && n in logs && b in logs[n].Sent() && b.first + |b.ops| == max + 1)
    }

    static lemma LargestOneMore(logs: map<nat, Log>, numbers: seq<nat>, i: nat, low: nat, soFar: nat, max: nat)
      requires i < |numbers| && numbers[i] in logs
      requires LargestLogged(logs, numbers[..i], low, soFar) && Largest(logs[numbers[i]].Sent(), soFar, max)
      ensures LargestLogged(logs, numbers[..i + 1], low, max)
    {
      hide Log.Sent;
      var some := numbers[..i + 1];
      assert some == numbers[..i] + [numbers[i]];
      if max == soFar {
        if n, b :| n in numbers[..i] && n in logs && b in logs[n].Sent() && b.first + |b.ops| == max + 1 { assert n in some; }
      } else {
        assert numbers[i] in some;
      }
    }

    // In terms of the files.
    static lemma LargestRecovered(logs: map<nat, Log>, numbers: seq<nat>, from: nat, base: nat, max: nat)
      requires Lists(numbers, logs, from) && LargestLogged(logs, numbers, 0, max)
      ensures var last := if base < max then max else base;
              && (forall n, b | n in logs && n >= from && b in logs[n].Sent() :: b.first + |b.ops| <= last + 1)
              && (last == base || exists n, b :: n in logs && n >= from && b in logs[n].Sent() && b.first + |b.ops| == last + 1)
    {
      hide Log.Sent;
    }

    // The largest number seen bounds the batch just replayed too.
    static lemma MaxSequence(es: set<Entry>, b: Batch, last: nat)
      requires UpTo(es, last)
      ensures UpTo(es + b.All(), if b.Next() > last + 1 then b.Next() - 1 else last)
    {
      BatchUpTo(b);
    }

    static function InMemory(mem: Option<set<Entry>>): set<Entry>
    {
      if mem.Some? then mem.value else {}
    }

    static lemma NoRecordEntries(n: nat)
      ensures RecordEntries([]) == {} && UpTo({}, n) && Largest([], n, n)
    {
    }

    static lemma BatchUpTo(b: Batch)
      ensures forall e | e in b.All() :: e.seqno + 1 <= b.Next()
    {
    }

    // ---- Recover ------------------------------------------------------------------------------

    static ghost predicate Ascending(s: seq<nat>)
    {
      forall i, j | 0 <= i < j < |s| :: s[i] < s[j]
    }

    static ghost predicate Lists(numbers: seq<nat>, logs: map<nat, Log>, from: nat)
    {
      forall n :: n in numbers <==> n in logs && n >= from
    }

    // The logs to replay, oldest first.
    static method LogsToReplay(listing: seq<nat>, minLog: nat, ghost logs: map<nat, Log>) returns (numbers: seq<nat>)
      requires Lists(listing, logs, 0)
      ensures Ascending(numbers) && Lists(numbers, logs, minLog)
    {
      numbers := [];
      var i := 0;
      while i < |listing|
        invariant 0 <= i <= |listing| && Ascending(numbers)
        invariant forall n :: n in numbers <==> n in listing[..i] && n >= minLog
      {
        if listing[i] >= minLog && listing[i] !in numbers {
          numbers := InOrder(numbers, listing[i]);
        }
        i := i + 1;
      }
      assert listing[..|listing|] == listing;
    }

    static method InOrder(s: seq<nat>, n: nat) returns (r: seq<nat>)
      requires Ascending(s) && n !in s
      ensures Ascending(r) && forall k :: k in r <==> k in s || k == n
    {
      var i := 0;
      while i < |s| && s[i] < n
        invariant 0 <= i <= |s| && forall j | 0 <= j < i :: s[j] < n
      {
        i := i + 1;
      }
      r := s[..i] + [n] + s[i..];
      InsertedAt(s, n, i);
    }

    static lemma InsertedAt(s: seq<nat>, n: nat, i: nat)
      requires i <= |s| && Ascending(s) && n !in s
      requires (forall j | 0 <= j < i :: s[j] < n) && (i < |s| ==> s[i] >= n)
      ensures var r := s[..i] + [n] + s[i..]; Ascending(r) && forall k :: k in r <==> k in s || k == n
    {
      var r := s[..i] + [n] + s[i..];
      forall j | i <= j < |s| ensures s[j] > n {
        assert s[i] in s;
      }
      forall a, b | 0 <= a < b < |r| ensures r[a] < r[b] {
        Shifted(s, n, i, a);
        Shifted(s, n, i, b);
      }
      assert forall k :: k in s <==> k in s[..i] || k in s[i..] by {
        assert s == s[..i] + s[i..];
      }
    }

    static lemma Shifted(s: seq<nat>, n: nat, i: nat, a: nat)
      requires i <= |s| && a <= |s|
      ensures (s[..i] + [n] + s[i..])[a] == if a < i then s[a] else if a == i then n else s[a - 1]
    {
    }

    // The entries of the listed logs.
    static ghost function Listed(logs: map<nat, Log>, numbers: seq<nat>): set<Entry>
    {
      set n, e | n in numbers && n in logs && e in logs[n].All() :: e
    }

    static lemma ListedOneMore(logs: map<nat, Log>, numbers: seq<nat>, n: nat)
      requires n in logs
      ensures Listed(logs, numbers + [n]) == Listed(logs, numbers) + RecordEntries(logs[n].Sent())
    {
      hide RecordEntries;
      var more := Listed(logs, numbers + [n]);
      forall e ensures e in more <==> e in Listed(logs, numbers) || e in logs[n].All() {
        if e in logs[n].All() { assert n in numbers + [n]; }
        if k :| k in numbers && k in logs && e in logs[k].All() { assert k in numbers + [n]; }
      }
    }

    static lemma NextListed(logs: map<nat, Log>, numbers: seq<nat>, i: nat)
      requires i < |numbers| && numbers[i] in logs
      ensures Listed(logs, numbers[..i + 1]) == Listed(logs, numbers[..i]) + RecordEntries(logs[numbers[i]].Sent())
      ensures Unrecorded(logs, numbers[..i + 1]) <==> Unrecorded(logs, numbers[..i]) && logs[numbers[i]].Sent() == []
    {
      hide RecordEntries, Log.Sent, Listed;
      assert numbers[..i + 1] == numbers[..i] + [numbers[i]];
      ListedOneMore(logs, numbers[..i], numbers[i]);
    }

    static lemma AllListed(logs: map<nat, Log>, numbers: seq<nat>, from: nat)
      requires Lists(numbers, logs, from)
      ensures Listed(logs, numbers) == LogsFrom(logs, from)
    {
      hide Log.All;
    }

    static ghost predicate Unrecorded(logs: map<nat, Log>, numbers: seq<nat>)
    {
      forall n | n in numbers && n in logs :: logs[n].Sent() == []
    }

    // Recover: every log from the manifest's number on is replayed in order. It
    // never reports missing files, and unless a table cannot be written, what it
    // leaves is all that opening needs: the added tables hold exactly the logs' entries, the last sequence
    // is the larger of the manifest's and of the largest that the logs give, and
    // the file counter is past every log.
    method Recover(listing: seq<nat>, full: set<Entry> -> bool, files: Files)
        returns (ok: bool, added: set<nat>, next: nat, last: nat, saveManifest: bool, ghost steps: seq<Step>)
      requires Inv(State()) && mode.Down? && Lists(listing, disk.logs, 0)
      modifies this`disk
      ensures Lives(old(State()), steps, State()) && ((forall n: nat :: files.written(n)) ==> ok)
      ensures ok ==> CanOpen(State(), added, next, last)
      ensures ok && !saveManifest ==> CanOpenUnsaved(State(), next) && last == disk.manifest.last
      ensures ok ==> (saveManifest <==> exists n :: n in disk.logs && n >= disk.manifest.log && disk.logs[n].Sent() != [])
      ensures ok ==>
                && last >= disk.manifest.last
                && (forall n, b | n in disk.logs && n >= disk.manifest.log && b in disk.logs[n].Sent() :: b.first + |b.ops| <= last + 1)
                && (last == disk.manifest.last ||
                    exists n, b :: n in disk.logs && n >= disk.manifest.log && b in disk.logs[n].Sent() && b.first + |b.ops| == last + 1)
    {
      hide LargestLogged, Log.Sent;
      hide Run, Lives, Contents, LogsFrom, IntactFrom, SafeFrom, Log.All, Agree, Newer, UpTo, RecordEntries, Replayed, Listed, Inv, CanOpen, CanOpenUnsaved;
      ghost var start, d := State(), disk;
      StartRun(start);
      ok, added, next, last, saveManifest, steps := true, {}, disk.manifest.next, disk.manifest.last, false, [];
      ManifestFiles(start);
      var expected := disk.manifest.tables - disk.tables.Keys;
      if expected != {} {
        return false, added, next, last, saveManifest, steps;
      }
      var numbers := LogsToReplay(listing, disk.manifest.log, disk.logs);
      var maxSequence;
      ok, added, next, maxSequence, saveManifest, steps := ReplayLogs(numbers, full, files);
      if !ok { return; }
      AllListed(disk.logs, numbers, disk.manifest.log);
      LargestRecovered(disk.logs, numbers, disk.manifest.log, last, maxSequence);
      if last < maxSequence {
        last := maxSequence;
      }
      ReadyToOpen(d, State(), numbers, added, next, last, maxSequence);
    }

    // All the logs listed, one after the other.
    method ReplayLogs(numbers: seq<nat>, full: set<Entry> -> bool, files: Files)
        returns (ok: bool, added: set<nat>, next: nat, maxSequence: nat, saveManifest: bool, ghost steps: seq<Step>)
      requires mode.Down? && Below(disk.manifest.tables, disk.manifest.next) && forall n | n in numbers :: n in disk.logs
      modifies this`disk
      ensures Lives(old(State()), steps, State()) && ((forall n: nat :: files.written(n)) ==> ok)
      ensures disk.logs == old(disk).logs && disk.manifest == old(disk).manifest
      ensures ok ==>
                && Replayed(old(disk), disk, {}, added, next, {}, Listed(disk.logs, numbers)) && next >= disk.manifest.next
                && UpTo(Listed(disk.logs, numbers), maxSequence) && LargestLogged(disk.logs, numbers, 0, maxSequence) && (forall j | 0 <= j < |numbers| :: numbers[j] < next)
                && (saveManifest <==> !Unrecorded(disk.logs, numbers)) && (!saveManifest ==> maxSequence == 0)
    {
      hide Run, Lives, Contents, UpTo, RecordEntries, Replayed, Listed, Below, Unrecorded, Largest, LargestLogged;
      ghost var start, d, es := State(), disk, {};
      StartRun(start);
      ok, added, next, maxSequence, saveManifest, steps := true, {}, disk.manifest.next, 0, false, [];
      NothingReplayed(disk, next);
      var i := 0;
      while i < |numbers|
        invariant ok && 0 <= i <= |numbers| && mode.Down? && es == Listed(d.logs, numbers[..i])
        invariant Replayed(d, disk, {}, added, next, {}, es) && disk.logs == d.logs && disk.manifest == d.manifest
        invariant UpTo(es, maxSequence) && next >= d.manifest.next && LargestLogged(d.logs, numbers[..i], 0, maxSequence)
        invariant forall j | 0 <= j < i :: numbers[j] < next
        invariant (saveManifest <==> !Unrecorded(d.logs, numbers[..i])) && (!saveManifest ==> maxSequence == 0)
        invariant Lives(start, steps, State())
      {
        var n := numbers[i];
        NextListed(d.logs, numbers, i);
        ghost var was, more := State(), [];
        ghost var soFar := maxSequence;
        var save;
        ok, added, next, maxSequence, save, more := RecoverNext(d, n, full, files, added, next, maxSequence, es);
        Then(start, steps, was, more, State());
        steps := steps + more;
        if !ok { return; }
        LargestOneMore(d.logs, numbers, i, 0, soFar, maxSequence);
        saveManifest := saveManifest || save;
        es := Listed(d.logs, numbers[..i + 1]);
        i := i + 1;
      }
      assert numbers[..|numbers|] == numbers;
    }

    // One log, and MarkFileNumberUsed.
    method RecoverNext(ghost d: Disk, n: nat, full: set<Entry> -> bool, files: Files, added: set<nat>, next: nat, maxSequence: nat, ghost es: set<Entry>)
        returns (ok: bool, more: set<nat>, newNext: nat, newMax: nat, save: bool, ghost steps: seq<Step>)
      requires mode.Down? && n in disk.logs && disk.logs == d.logs && disk.manifest == d.manifest
      requires Replayed(d, disk, {}, added, next, {}, es) && UpTo(es, maxSequence)
      modifies this`disk
      ensures ok ==> Replayed(d, disk, {}, more, newNext, {}, es + RecordEntries(d.logs[n].Sent())) && next <= newNext && n < newNext
      ensures disk.logs == d.logs && disk.manifest == d.manifest
      ensures ok ==> Largest(d.logs[n].Sent(), maxSequence, newMax) && UpTo(es + RecordEntries(d.logs[n].Sent()), newMax)
      ensures ok ==> (save <==> d.logs[n].Sent() != []) && (!save ==> newMax == maxSequence)
      ensures (forall k: nat :: files.written(k)) ==> ok
      ensures Lives(old(State()), steps, State())
    {
      hide Run, Lives, UpTo, RecordEntries, Replayed;
      ghost var was := disk;
      RestartReplay(d, disk, added, next, es);
      ok, more, newNext, newMax, save, steps := RecoverLogFile(disk.logs[n].Sent(), full, files, added, next, maxSequence);
      if !ok { return; }
      JoinReplay(d, was, disk, added, more, newNext, es, RecordEntries(d.logs[n].Sent()));
      UpToBoth(es, RecordEntries(d.logs[n].Sent()), maxSequence, newMax);
      if newNext <= n {
        CountOn(d, disk, more, newNext, n + 1, es + RecordEntries(d.logs[n].Sent()));
        newNext := n + 1;
      }
    }

    static lemma NothingReplayed(d: Disk, next: nat)
      requires Below(d.manifest.tables, next)
      ensures Replayed(d, d, {}, {}, next, {}, {}) && Listed(d.logs, []) == {} && Unrecorded(d.logs, []) && UpTo({}, 0)
      ensures LargestLogged(d.logs, [], 0, 0)
    {
    }

    static lemma RestartReplay(d: Disk, d1: Disk, added: set<nat>, next: nat, es: set<Entry>)
      requires Replayed(d, d1, {}, added, next, {}, es)
      ensures Replayed(d1, d1, added, added, next, {}, {})
    {
      hide Contents;
    }

    static lemma JoinReplay(d: Disk, d1: Disk, d2: Disk, added: set<nat>, more: set<nat>, next: nat, es: set<Entry>, rs: set<Entry>)
      requires exists m: nat :: Replayed(d, d1, {}, added, m, {}, es)
      requires Replayed(d1, d2, added, more, next, {}, rs)
      ensures Replayed(d, d2, {}, more, next, {}, es + rs)
    {
      hide Contents;
      var m: nat :| Replayed(d, d1, {}, added, m, {}, es);
      assert Contents(d2.tables, more) + {} == Contents(d1.tables, added) + rs;
      assert Contents(d1.tables, added) + {} == Contents(d.tables, {}) + es;
      assert Contents(d.tables, {}) + (es + rs) == Contents(d.tables, {}) + es + rs;
    }

    static lemma CountOn(d: Disk, d': Disk, added: set<nat>, next: nat, later: nat, es: set<Entry>)
      requires Replayed(d, d', {}, added, next, {}, es) && next <= later
      ensures Replayed(d, d', {}, added, later, {}, es)
    {
      hide Contents;
    }

    static lemma UpToBoth(a: set<Entry>, b: set<Entry>, m: nat, n: nat)
      requires UpTo(a, m) && UpTo(b, n) && m <= n
      ensures UpTo(a + b, n)
    {
    }

    static lemma ReadyToOpen(d: Disk, s: Store, numbers: seq<nat>, added: set<nat>, next: nat, last: nat, maxSequence: nat)
      requires s.mode.Down? && s.disk.logs == d.logs && s.disk.manifest == d.manifest
      requires Replayed(d, s.disk, {}, added, next, {}, LogsFrom(d.logs, d.manifest.log))
      requires Lists(numbers, d.logs, d.manifest.log) && (forall j | 0 <= j < |numbers| :: numbers[j] < next)
      requires d.manifest.log < d.manifest.next <= next
      requires UpTo(LogsFrom(d.logs, d.manifest.log), maxSequence) && last >= maxSequence && last >= d.manifest.last
      ensures CanOpen(s, added, next, last)
      ensures Unrecorded(d.logs, numbers) ==> CanOpenUnsaved(s, next)
    {
      hide LogsFrom;
      forall k | k in d.logs ensures k < next {
        if k >= d.manifest.log { assert k in numbers; }
      }
      assert Contents(d.tables, {}) == {};
      assert Contents(s.disk.tables, added) == LogsFrom(d.logs, d.manifest.log);
    }

    static lemma ManifestFiles(s: Store)
      requires Inv(s) && s.mode.Down?
      ensures s.disk.manifest.tables <= s.disk.tables.Keys
      ensures Below(s.disk.manifest.tables, s.disk.manifest.next) && s.disk.manifest.log < s.disk.manifest.next
    {
      hide Contents, Agree, LogsOk, Covers, Recoverable;
    }

    // ---- DB::Open ---------------------------------------------------------------------------------

    // A new log and a manifest record that names it, when anything was replayed.
    method OpenSaved(ghost start: Store, ghost soFar: seq<Step>, added: set<nat>, newLog: nat, last: nat, recorded: bool, applied: bool)
        returns (ghost steps: seq<Step>)
      requires CanOpen(State(), added, newLog, last) && (applied ==> recorded) && Lives(start, soFar, State())
      requires State() == Closed(disk, hist).(v := versions, logfile := logfileNumber)
      modifies this
      ensures Lives(start, steps, State())
      ensures applied ==> mode.Up? && versions.last == last
      ensures hist == old(hist)
    {
      hide Run, Lives, CollectGarbage, CanOpen, Contents, LogsFrom, Recoverable;
      ghost var before := State();
      ghost var flushed := Recoverable(disk);
      OpensDown(before, added, newLog, last);
      var m := disk.manifest;
      var next := Version(m.tables + added, newLog, last, newLog + 1, RecoveredEntries(disk), m.floor);
      RecoveredIs(disk);
      logfileNumber := newLog;
      disk := disk.(logs := disk.logs[newLog := NEW_LOG]);
      mode := Opening(next);
      steps := Extend(start, soFar, before, Step.Open(added, newLog, last), State());
      if recorded {
        before := State();
        disk := disk.(manifest := next);
        steps := Extend(start, steps, before, Commit, State());
      }
      if applied {
        before := State();
        versions := next;
        mems := map[newLog := {}];
        mode := Up;
        DeleteObsoleteFiles();
        steps := Extend(start, steps, before, OpenDone, State());
      }
    }

    static lemma OpensDown(s: Store, added: set<nat>, newLog: nat, last: nat)
      requires CanOpen(s, added, newLog, last)
      ensures s.mode.Down? && Enabled(s, Step.Open(added, newLog, last))
    {
    }

    // The history kept with the version: what the manifest and its logs hold.
    static function RecoveredEntries(disk: Disk): set<Entry>
    {
      disk.manifest.flushed + set n, e | n in disk.logs && n >= disk.manifest.log && e in disk.logs[n].All() :: e
    }

    static lemma RecoveredIs(disk: Disk)
      ensures RecoveredEntries(disk) == Recoverable(disk)
    {
    }

    method OpenUnchanged(ghost start: Store, ghost soFar: seq<Step>, newLog: nat) returns (ghost steps: seq<Step>)
      requires CanOpenUnsaved(State(), newLog) && Lives(start, soFar, State())
      requires State() == Closed(disk, hist).(v := versions, logfile := logfileNumber)
      modifies this
      ensures Lives(start, steps, State()) && mode.Up? && versions.last == old(disk).manifest.last
      ensures hist == old(hist)
    {
      hide Run, Lives, CollectGarbage, CanOpenUnsaved;
      ghost var before := State();
      UnsavedDown(before, newLog);
      versions := disk.manifest.(next := newLog + 1);
      logfileNumber := newLog;
      disk := disk.(logs := disk.logs[newLog := NEW_LOG]);
      mems := map[newLog := {}];
      mode := Up;
      DeleteObsoleteFiles();
      steps := Extend(start, soFar, before, OpenQuietly(newLog), State());
    }

    static lemma UnsavedDown(s: Store, newLog: nat)
      requires CanOpenUnsaved(s, newLog)
      ensures s.mode.Down? && Enabled(s, OpenQuietly(newLog))
    {
    }

    // Opening a database that was left by a crash at any point, of a run or of
    // an earlier attempt to open it. It fails when a table, the new log file or
    // the manifest cannot be written, and can then be tried again.
    method Open(listing: seq<nat>, full: set<Entry> -> bool, files: Files, logOk: bool, recorded: bool, applied: bool)
        returns (ok: bool, ghost steps: seq<Step>)
      requires Inv(State()) && mode.Down? && Lists(listing, disk.logs, 0) && (applied ==> recorded)
      modifies this
      ensures Lives(old(State()), steps, State())
      ensures (forall n: nat :: files.written(n)) && logOk && applied ==> ok
      ensures Inv(State()) && (ok ==> mode.Up? && UpTo(Recoverable(old(disk)), versions.last))
      ensures hist == old(hist) && hist.committed == Recoverable(old(disk))
    {
      hide Inv, Run, Lives, CanOpen, CanOpenUnsaved, Recoverable, UpTo;
      ghost var start := State();
      StoppedShape(start);
      var added, next, last, saveManifest;
      ok, added, next, last, saveManifest, steps := Recover(listing, full, files);
      LivesKeeps(start, steps, State());
      if !ok || !logOk {
        ok := false;
        return;
      }
      LastCovers(State(), added, next, last);
      StoppedShape(State());
      ghost var before := steps;
      if saveManifest {
        steps := OpenSaved(start, before, added, next, last, recorded, applied);
        ok := applied;
      } else {
        steps := OpenUnchanged(start, before, next);
      }
      LivesKeeps(start, steps, State());
    }

    static lemma StoppedShape(s: Store)
      requires Inv(s) && s.mode.Down?
      ensures s == Closed(s.disk, s.hist).(v := s.v, logfile := s.logfile)
      ensures s.hist.committed == Recoverable(s.disk)
    {
      hide Sound, Recoverable, Unique, AllParse;
    }

    static lemma LastCovers(s: Store, added: set<nat>, next: nat, last: nat)
      requires Inv(s) && CanOpen(s, added, next, last)
      ensures UpTo(Recoverable(s.disk), last)
    {
      hide LogsFrom, IntactFrom, SafeFrom, Contents, Agree, Newer, Unique, AllParse;
    }
  }
}
