// DoCompactionWork (db/db_impl.cc) inside DBImpl: the merge loop with the
// flushes nested in it and the installation of its results, as a run of the
// store's transition system.
module DbCompaction {
  import opened Bytes
  import opened DbFormat
  import opened Entries
  import opened DbIter
  import opened Compaction
  import opened Storage
  import opened StorageInvariant
  import opened StorageFrames
  import opened StorageBackground
  import opened StorageRuns
  import opened DbImpl

  datatype Merge = Merge(inputs: set<nat>, smallest: nat, isBase: Key -> bool, input: seq<Entry>)

  // Where the merge stands after i entries: its outputs hold what it kept.
  ghost predicate Reached(s: Store, m: Merge, numbers: set<nat>, i: nat)
  {
    && i <= |m.input| && s.mode.Up? && s.flush.NoFlush?
    && s.compact == Merging(m.inputs, m.smallest, m.isBase, numbers)
    && Contents(s.disk.tables, m.inputs) == EntrySet(m.input)
    && Contents(s.disk.tables, numbers) == EntrySet(Survivors(m.input, m.smallest, m.isBase, i))
  }

  // ---- what other work leaves alone -------------------------------------------

  ghost predicate LeavesMerge(s: Store, t: Store)
    requires s.compact.Merging?
  {
    && t.mode.Up? && t.flush.NoFlush? && t.compact == s.compact
    && SameTables(s.disk.tables, t.disk.tables, s.compact.inputs + s.compact.outputs)
  }

  lemma FilesOfMerge(s: Store)
    requires Inv(s) && s.mode.Up? && s.compact.Merging?
    ensures s.compact.inputs + s.compact.outputs <= s.disk.tables.Keys
    ensures s.compact.inputs <= s.v.tables && s.compact.outputs <= s.pending
    ensures forall n | n in s.compact.inputs + s.compact.outputs :: n < s.v.next
    ensures s.flush.Building? ==> s.flush.table !in s.compact.inputs + s.compact.outputs
  {
    hide SequencesOk, GroupOk, MemoryOk, OldLogsOk, SnapshotsOk, PinsOk, Contents, Kept, Above, Sound;
    VersionTables(s);
    OutputsArePending(s);
    assert forall n | n in s.compact.outputs :: Private(s, n);
  }

  lemma MergeStays(s: Store, t: Store, m: Merge, numbers: set<nat>, i: nat)
    requires Inv(s) && Reached(s, m, numbers, i) && LeavesMerge(s, t)
    ensures Reached(t, m, numbers, i)
  {
    hide Inv, Contents, Survivors;
    FilesOfMerge(s);
    SameContents(s.disk.tables, t.disk.tables, m.inputs);
    SameContents(s.disk.tables, t.disk.tables, numbers);
  }

  lemma SwitchLeavesMerge(s: Store)
    requires s.mode.Up? && s.compact.Merging? && s.flush.NoFlush?
    ensures LeavesMerge(s, SwitchMemTable(s))
  {
  }

  // A nested flush adds a table and collects garbage; the merge's files stay.
  lemma FlushLeavesMerge(s: Store, end: Ending)
    requires Inv(s) && s.compact.Merging? && CanFlush(s) && Possible(end)
    ensures LeavesMerge(s, DBImpl.Flushed(s, end.built, end.recorded, end.applied))
  {
    hide Inv, Store.Imm, CollectGarbage;
    FilesOfMerge(s);
    var built := FlushBuilt(FlushStart(s), end.built);
    BuiltLeavesMerge(s, end.built);
    if end.built {
      var written := if end.recorded then CommitManifest(built) else built;
      if end.applied {
        GarbageLeaves(written.(v := Installed(written.v, written.flush.next), imm := None, flush := NoFlush),
                      s.compact.inputs + s.compact.outputs);
      }
    }
  }

  lemma BuiltLeavesMerge(s: Store, ok: bool)
    requires CanFlush(s) && s.compact.Merging?
    requires s.compact.inputs <= s.v.tables && s.compact.outputs <= s.pending
    requires forall n | n in s.compact.inputs + s.compact.outputs :: n < s.v.next
    ensures var built := FlushBuilt(FlushStart(s), ok);
            && built.mode.Up? && built.compact == s.compact && s.compact.outputs <= built.pending
            && SameTables(s.disk.tables, built.disk.tables, s.compact.inputs + s.compact.outputs)
            && (if ok then built.flush.Installing? && s.compact.inputs <= built.flush.next.tables else built.flush.NoFlush?)
  {
    hide Store.Imm;
    assert s.v.next !in s.compact.inputs + s.compact.outputs;
  }

  lemma GarbageLeaves(s: Store, files: set<nat>)
    requires files <= s.pending + s.v.tables
    ensures SameTables(s.disk.tables, CollectGarbage(s).disk.tables, files)
    ensures CollectGarbage(s) == s.(disk := CollectGarbage(s).disk)
  {
  }

  // ---- the merge's own steps -------------------------------------------------------

  lemma OutputOpens(s: Store, m: Merge, numbers: set<nat>, i: nat)
    requires Inv(s) && Reached(s, m, numbers, i)
    ensures Reached(OpenOutput(s), m, numbers + {s.v.next}, i) && s.v.next !in numbers
  {
    hide Inv, Contents, Survivors;
    FilesOfMerge(s);
    var t, n := OpenOutput(s), s.v.next;
    SameContents(s.disk.tables, t.disk.tables, m.inputs);
    SameContents(s.disk.tables, t.disk.tables, numbers);
    ContentsOfUnion(t.disk.tables, numbers, {n});
    ContentsOfOne(t.disk.tables, n);
    assert Contents(t.disk.tables, numbers) + {} == Contents(t.disk.tables, numbers);
  }

  lemma EntryGoesOut(s: Store, cmp: Comparator, m: Merge, numbers: set<nat>, n: nat, i: nat)
    requires Inv(s) && Reached(s, m, numbers, i) && i < |m.input| && n in numbers
    requires TotalOrder(cmp) && Sorted(cmp, m.input) && m.smallest < MAX_SEQUENCE
    requires !Drops(m.input, m.smallest, m.isBase, i)
    ensures CanWriteOutput(s, n, m.input[i]) && Reached(WriteOutput(s, n, m.input[i]), m, numbers, i + 1)
  {
    hide Inv, Contents, Drops, Obsolete, TotalOrder, Sorted;
    var e := m.input[i];
    FilesOfMerge(s);
    assert e in EntrySet(m.input);
    InputParses(s, m);
    DropsIsObsolete(cmp, m.input, m.smallest, m.isBase, i);
    var t := WriteOutput(s, n, e);
    OneMoreEntry(s.disk.tables, numbers, n, e);
    NotAnInput(s, n);
    SameContents(s.disk.tables, t.disk.tables, m.inputs);
    assert EntrySet(Survivors(m.input, m.smallest, m.isBase, i) + [e]) == EntrySet(Survivors(m.input, m.smallest, m.isBase, i)) + {e};
  }

  lemma EntryIsDropped(s: Store, m: Merge, numbers: set<nat>, i: nat)
    requires Reached(s, m, numbers, i) && i < |m.input| && Drops(m.input, m.smallest, m.isBase, i)
    ensures Reached(s, m, numbers, i + 1)
  {
    hide Contents, Drops;
  }

  lemma InputParses(s: Store, m: Merge)
    requires Inv(s) && s.mode.Up? && s.compact.Merging? && s.compact.inputs == m.inputs
    requires Contents(s.disk.tables, m.inputs) == EntrySet(m.input)
    ensures AllParse(EntrySet(m.input))
  {
    hide GroupOk, MemoryOk, OldLogsOk, NumbersOk, FlushOk, SnapshotsOk, PinsOk, Sound, Kept, Above, Unique, EntrySet;
    FlushedIsIssued(s);
    VersionTables(s);
    OutputsArePending(s);
    assert Contents(s.disk.tables, m.inputs) <= Contents(s.disk.tables, s.v.tables);
  }

  lemma NotAnInput(s: Store, n: nat)
    requires Inv(s) && s.mode.Up? && s.compact.Merging? && n in s.compact.outputs
    ensures n !in s.compact.inputs
  {
    hide VersionsOk, SequencesOk, GroupOk, MemoryOk, OldLogsOk, NumbersOk, FlushOk, SnapshotsOk, PinsOk, Contents, Kept, Above;
    assert Private(s, n);
  }

  lemma OneMoreEntry(tables: map<nat, set<Entry>>, numbers: set<nat>, n: nat, e: Entry)
    requires n in numbers && n in tables
    ensures Contents(tables[n := tables[n] + {e}], numbers) == Contents(tables, numbers) + {e}
  {
    var more := tables[n := tables[n] + {e}];
    forall f ensures f in Contents(more, numbers) <==> f in Contents(tables, numbers) || f == e {
      if k :| k in numbers && k in tables && f in tables[k] { assert k in more && f in more[k]; }
      if f == e { assert n in more && f in more[n]; }
    }
  }

  lemma MergeIsDone(s: Store, cmp: Comparator, m: Merge, numbers: set<nat>)
    requires Inv(s) && Reached(s, m, numbers, |m.input|)
    requires TotalOrder(cmp) && Sorted(cmp, m.input) && m.smallest < MAX_SEQUENCE
    ensures CanCompactInstall(s)
  {
    hide Inv, Contents, Survivors, Kept, TotalOrder, Sorted;
    InputParses(s, m);
    SurvivorsMeetRule(cmp, m.input, m.smallest, m.isBase);
  }

  // ---- what a compaction is for -----------------------------------------------------

  // The present and every snapshot see number n.
  ghost predicate SeenByAll(snapshots: seq<nat>, n: nat)
  {
    forall i | 0 <= i < |snapshots| :: n <= snapshots[i]
  }

  // Nobody can read the entry any more: all see a newer version among the inputs,
  // or it is a deletion that all see and that hides nothing below.
  ghost predicate Needless(input: set<Entry>, snapshots: seq<nat>, isBase: Key -> bool, e: Entry)
  {
    || (exists f :: f in input && f.user == e.user && f.seqno > e.seqno && SeenByAll(snapshots, f.seqno))
    || (e.kind == TYPE_DELETION && isBase(e.user) && SeenByAll(snapshots, e.seqno))
  }

  ghost function Needed(input: set<Entry>, snapshots: seq<nat>, isBase: Key -> bool): set<Entry>
  {
    set e | e in input && !Needless(input, snapshots, isBase, e)
  }

  // With the smallest snapshot chosen as it is, exactly the needless entries go.
  lemma KeptIsNeeded(s: Store, inputs: set<nat>, isBase: Key -> bool)
    requires Inv(s) && CanCompact(s, inputs, isBase)
    ensures var input := Contents(s.disk.tables, inputs);
            Kept(input, SmallestSnapshot(s), isBase) == Needed(input, s.snapshots, isBase)
  {
    hide Inv, Contents, CanCompact;
    var input, n := Contents(s.disk.tables, inputs), SmallestSnapshot(s);
    InputsAreIssued(s, inputs, isBase);
    forall e | e in input ensures SeenByAll(s.snapshots, e.seqno) <==> e.seqno <= n {
      SmallestDecides(s, e.seqno);
    }
    forall e | e in input ensures Obsolete(input, n, isBase, e) <==> Needless(input, s.snapshots, isBase, e) {
      SameVerdict(input, n, s.snapshots, isBase, e);
    }
  }

  lemma InputsAreIssued(s: Store, inputs: set<nat>, isBase: Key -> bool)
    requires Inv(s) && CanCompact(s, inputs, isBase)
    ensures Contents(s.disk.tables, inputs) <= s.Issued() && Unique(s.Issued()) && UpTo(Contents(s.disk.tables, inputs), s.v.last)
    ensures AllParse(Contents(s.disk.tables, inputs)) && s.mode.Up?
  {
    hide GroupOk, MemoryOk, OldLogsOk, NumbersOk, FlushOk, SnapshotsOk, PinsOk, CompactOk, Sound, Kept, Above;
    FlushedIsCommitted(s);
    VersionTables(s);
    assert s.hist.committed <= s.Issued();
    assert Contents(s.disk.tables, inputs) <= Contents(s.disk.tables, s.v.tables);
  }

  // What was flushed is older than whatever is still being inserted.
  lemma FlushedIsCommitted(s: Store)
    requires MemoryOk(s)
    ensures s.v.flushed <= s.hist.committed
  {
    hide Log.All, Log.Safe, Log.Intact, Store.Mem, Store.Imm, Store.Inserted, Newer;
    NothingNewer(s.disk.logs[s.logfile].All(), s.v.flushed + s.Imm());
    assert s.v.flushed <= s.hist.committed + s.Inserted();
  }

  lemma NothingNewer(a: set<Entry>, b: set<Entry>)
    requires Newer(a, b)
    ensures a !! b
  {
  }

  lemma SmallestDecides(s: Store, n: nat)
    requires Inv(s) && s.mode.Up? && n <= s.v.last
    ensures SeenByAll(s.snapshots, n) <==> n <= SmallestSnapshot(s)
  {
    hide VersionsOk, SequencesOk, GroupOk, MemoryOk, OldLogsOk, NumbersOk, FlushOk, CompactOk, PinsOk;
  }

  lemma SameVerdict(input: set<Entry>, n: nat, snapshots: seq<nat>, isBase: Key -> bool, e: Entry)
    requires Unique(input) && AllParse(input) && e in input
    requires forall f | f in input :: SeenByAll(snapshots, f.seqno) <==> f.seqno <= n
    ensures Obsolete(input, n, isBase, e) <==> Needless(input, snapshots, isBase, e)
  {
    hide SeenByAll;
    if f :| f in input && f.user == e.user && f.seqno > e.seqno && SeenByAll(snapshots, f.seqno) {
      assert f.Tag() > e.Tag();
    }
    if f :| f in input && f.user == e.user && f.Tag() > e.Tag() && f.seqno <= n {
      assert f.seqno > e.seqno;
    }
  }

  // Without snapshots one version of a key is left, and no deletion that hides
  // nothing below.
  lemma NeededOnce(input: set<Entry>, isBase: Key -> bool, e: Entry, f: Entry)
    requires Unique(input) && e in Needed(input, [], isBase) && f in Needed(input, [], isBase)
    ensures e.user == f.user ==> e == f
    ensures e.kind == TYPE_DELETION ==> !isBase(e.user)
  {
    assert SeenByAll([], e.seqno) && SeenByAll([], f.seqno);
    if e.user == f.user {
      assert e.seqno > f.seqno ==> Needless(input, [], isBase, f);
      assert f.seqno > e.seqno ==> Needless(input, [], isBase, e);
    }
  }

  lemma NeededWithout(s: Store, inputs: set<nat>, isBase: Key -> bool)
    requires Inv(s) && CanCompact(s, inputs, isBase) && s.snapshots == []
    ensures var out := Needed(Contents(s.disk.tables, inputs), [], isBase);
            forall e, f | e in out && f in out :: (e.user == f.user ==> e == f) && !(e.kind == TYPE_DELETION && isBase(e.user))
  {
    hide Inv, Contents, CanCompact, Needed;
    InputsAreIssued(s, inputs, isBase);
    var input := Contents(s.disk.tables, inputs);
    forall e, f | e in Needed(input, [], isBase) && f in Needed(input, [], isBase)
      ensures (e.user == f.user ==> e == f) && !(e.kind == TYPE_DELETION && isBase(e.user))
    {
      NeededOnce(input, isBase, e, f);
    }
  }

  // ---- the loop ---------------------------------------------------------------------

  // One more step of the run so far.
  lemma TakeStep(start: Store, steps: seq<Step>, before: Store, step: Step) returns (more: seq<Step>)
    requires Lives(start, steps, before) && Inv(before) && Enabled(before, step) && !step.Die?
    ensures Lives(start, more, Apply(before, step)) && Inv(Apply(before, step))
  {
    hide Run, Inv, Enabled, Apply;
    RunThen(start, steps, before, step);
    StepKeeps(before, step);
    more := steps + [step];
  }

  // What happens between two entries while the mutex is free: a writer may
  // switch memtables, and an immutable memtable is flushed first.
  method BetweenEntries(db: DBImpl, switches: bool, end: Ending, ghost m: Merge, ghost numbers: set<nat>, ghost i: nat,
                        ghost start: Store, ghost soFar: seq<Step>)
      returns (ghost steps: seq<Step>)
    requires Lives(start, soFar, db.State()) && Inv(db.State()) && Reached(db.State(), m, numbers, i) && Possible(end)
    modifies db
    ensures Lives(start, steps, db.State()) && Inv(db.State()) && Reached(db.State(), m, numbers, i)
  {
    hide Run, Lives, Inv, Enabled, Apply, Contents, Survivors, SwitchMemTable, LeavesMerge;
    steps := soFar;
    if switches && db.group.None? && !db.bgError && db.imm.None? {
      ghost var before := db.State();
      SwitchLeavesMerge(before);
      MergeStays(before, SwitchMemTable(before), m, numbers, i);
      SwitchIsStep(before);
      var _ := db.StartNewLog(true);
      steps := TakeStep(start, steps, before, Switch);
    }
    if db.imm.Some? {
      ghost var before := db.State();
      FlushLeavesMerge(before, end);
      MergeStays(before, DBImpl.Flushed(before, end.built, end.recorded, end.applied), m, numbers, i);
      ghost var flush := db.CompactMemTable(end.built, end.recorded, end.applied);
      LivesKeeps(before, flush, db.State());
      DBImpl.Then(start, steps, before, flush, db.State());
      steps := steps + flush;
    }
  }

  lemma SwitchIsStep(s: Store)
    requires CanSwitch(s)
    ensures Enabled(s, Switch) && Apply(s, Switch) == SwitchMemTable(s)
  {
  }

  // OpenCompactionOutputFile: a new number, protected from collection.
  method OpenOutputFile(db: DBImpl, ghost m: Merge, ghost numbers: set<nat>, ghost i: nat, ghost start: Store, ghost soFar: seq<Step>)
      returns (number: nat, ghost steps: seq<Step>)
    requires Lives(start, soFar, db.State()) && Inv(db.State()) && Reached(db.State(), m, numbers, i)
    modifies db
    ensures Lives(start, steps, db.State()) && Inv(db.State()) && Reached(db.State(), m, numbers + {number}, i)
  {
    hide Run, Lives, Inv, Contents, Survivors;
    ghost var before := db.State();
    OutputOpens(before, m, numbers, i);
    number := db.versions.next;
    db.versions := db.versions.(next := number + 1);
    db.pendingOutputs := db.pendingOutputs + {number};
    db.disk := db.disk.(tables := db.disk.tables[number := {}]);
    db.compact := db.compact.(outputs := db.compact.outputs + {number});
    steps := TakeStep(start, soFar, before, NewOutput);
  }

  // One entry goes into the table being built.
  method AddEntry(db: DBImpl, number: nat, e: Entry, ghost cmp: Comparator, ghost m: Merge, ghost numbers: set<nat>, ghost i: nat,
                  ghost start: Store, ghost soFar: seq<Step>)
      returns (ghost steps: seq<Step>)
    requires Lives(start, soFar, db.State()) && Inv(db.State()) && Reached(db.State(), m, numbers, i)
    requires i < |m.input| && e == m.input[i] && number in numbers && !Drops(m.input, m.smallest, m.isBase, i)
    requires TotalOrder(cmp) && Sorted(cmp, m.input) && m.smallest < MAX_SEQUENCE
    modifies db
    ensures Lives(start, steps, db.State()) && Inv(db.State()) && Reached(db.State(), m, numbers, i + 1)
  {
    hide Run, Lives, Inv, Contents, Survivors, Drops, Kept, TotalOrder, Sorted;
    ghost var before := db.State();
    EntryGoesOut(before, cmp, m, numbers, number, i);
    db.disk := db.disk.(tables := db.disk.tables[number := db.disk.tables[number] + {e}]);
    steps := TakeStep(start, soFar, before, WriteEntry(number, e));
  }

  // An error: the outputs are given up and the error recorded.
  method GiveUp(db: DBImpl, numbers: set<nat>, ghost start: Store, ghost soFar: seq<Step>) returns (ghost steps: seq<Step>)
    requires Lives(start, soFar, db.State()) && Inv(db.State()) && CanMerge(db.State()) && db.compact.outputs == numbers
    modifies db
    ensures Lives(start, steps, db.State()) && Inv(db.State()) && db.compact.NoCompact? && db.bgError
  {
    hide Run, Lives, Inv;
    ghost var before := db.State();
    db.pendingOutputs := db.pendingOutputs - numbers;
    db.compact := NoCompact;
    db.bgError := true;
    steps := TakeStep(start, soFar, before, AbortCompact);
  }

  // InstallCompactionResults, CleanupCompaction and DeleteObsoleteFiles.
  method InstallResults(db: DBImpl, numbers: set<nat>, inputs: set<nat>, smallest: nat, recorded: bool, applied: bool,
                        ghost start: Store, ghost soFar: seq<Step>)
      returns (ghost steps: seq<Step>)
    requires Lives(start, soFar, db.State()) && Inv(db.State()) && CanCompactInstall(db.State()) && (applied ==> recorded)
    requires db.compact.outputs == numbers && db.compact.inputs == inputs && db.compact.smallest == smallest
    modifies db
    ensures Lives(start, steps, db.State()) && Inv(db.State()) && db.compact.NoCompact?
    ensures applied ==>
              && db.versions.tables == old(db.versions).tables - inputs + numbers && inputs !! numbers
              && Contents(db.disk.tables, numbers) == old(Contents(db.disk.tables, numbers))
    ensures !applied ==> db.bgError
  {
    hide Run, Lives, Inv, Contents, Kept, CollectGarbage, Enabled, Apply;
    ghost var before := db.State();
    OutputsAreNotInputs(before);
    var next := db.versions.(tables := db.versions.tables - inputs + numbers, floor := Max(db.versions.floor, smallest));
    db.compact := InstallingOutputs(numbers, next);
    InstallIsStep(before, db.State());
    steps := TakeStep(start, soFar, before, InstallCompact);
    if recorded {
      before := db.State();
      db.disk := db.disk.(manifest := next);
      CommitIsStep(before, db.State());
      steps := TakeStep(start, steps, before, Commit);
    }
    steps := EndCompaction(db, numbers, next, applied, start, steps);
  }

  // LogAndApply has answered.
  method EndCompaction(db: DBImpl, numbers: set<nat>, next: Version, applied: bool, ghost start: Store, ghost soFar: seq<Step>)
      returns (ghost steps: seq<Step>)
    requires Lives(start, soFar, db.State()) && Inv(db.State()) && CanCompactInstalled(db.State(), applied) && db.flush.NoFlush?
    requires db.compact == InstallingOutputs(numbers, next) && numbers <= next.tables
    modifies db
    ensures Lives(start, steps, db.State()) && Inv(db.State()) && db.compact.NoCompact?
    ensures applied ==> db.versions.tables == next.tables && Contents(db.disk.tables, numbers) == old(Contents(db.disk.tables, numbers))
    ensures !applied ==> db.bgError
  {
    hide Run, Lives, Inv, Contents, CollectGarbage, Enabled, Apply;
    ghost var before := db.State();
    db.pendingOutputs := db.pendingOutputs - numbers;
    db.compact := NoCompact;
    if applied {
      db.versions := Installed(db.versions, next);
      GarbageLeaves(db.State(), numbers);
      FilesThere(before, numbers);
      SameContents(before.disk.tables, CollectGarbage(db.State()).disk.tables, numbers);
      db.DeleteObsoleteFiles();
    } else {
      db.bgError := true;
    }
    InstalledIsStep(before, db.State(), applied);
    steps := TakeStep(start, soFar, before, InstalledCompact(applied));
  }

  lemma OutputsAreNotInputs(s: Store)
    requires Inv(s) && CanCompactInstall(s)
    ensures s.compact.inputs !! s.compact.outputs
  {
    hide Inv, Contents, Kept;
    forall n | n in s.compact.outputs ensures n !in s.compact.inputs {
      NotAnInput(s, n);
    }
  }

  lemma InstallIsStep(s: Store, t: Store)
    requires CanCompactInstall(s) && t == CompactInstall(s)
    ensures Enabled(s, InstallCompact) && Apply(s, InstallCompact) == t
  {
  }

  lemma CommitIsStep(s: Store, t: Store)
    requires s.mode.Up? && s.compact.InstallingOutputs? && s.flush.NoFlush? && t == s.(disk := s.disk.(manifest := s.compact.next))
    ensures Enabled(s, Commit) && Apply(s, Commit) == t
  {
  }

  lemma InstalledIsStep(s: Store, t: Store, ok: bool)
    requires CanCompactInstalled(s, ok) && t == CompactInstalled(s, ok)
    ensures Enabled(s, InstalledCompact(ok)) && Apply(s, InstalledCompact(ok)) == t
  {
  }

  // The files of the version being installed are on disk.
  lemma FilesThere(s: Store, numbers: set<nat>)
    requires Inv(s) && s.mode.Up? && s.compact.InstallingOutputs? && numbers <= s.compact.next.tables && s.flush.NoFlush?
    ensures numbers <= s.disk.tables.Keys
  {
    hide SequencesOk, GroupOk, MemoryOk, OldLogsOk, NumbersOk, SnapshotsOk, PinsOk, LogsOk, Covers, Contents, Agree, Store.Issued;
    assert VersionOk(s, s.compact.next);
  }

  // The merge goes over the inputs in key order; the state at the end is one the
  // transition system reaches. If all went well the version holds the outputs in
  // place of the inputs, and of their entries exactly those gone that nobody can
  // read any more: without snapshots one version of each key is left, and no
  // deletion that hides nothing below. Otherwise the error is recorded.
  method DoCompactionWork(db: DBImpl, ghost cmp: Comparator, inputs: set<nat>, isBase: Key -> bool, input: seq<Entry>,
                          env: Environment, switches: nat -> bool, flushes: nat -> Ending, recorded: bool, applied: bool)
      returns (ok: bool, files: set<nat>, ghost steps: seq<Step>)
    requires Inv(db.State()) && CanCompact(db.State(), inputs, isBase) && (applied ==> recorded)
    requires TotalOrder(cmp) && Sorted(cmp, input) && EntrySet(input) == Contents(db.disk.tables, inputs)
    requires db.versions.last < MAX_SEQUENCE && forall k: nat :: Possible(flushes(k))
    modifies db
    ensures Lives(old(db.State()), steps, db.State()) && Inv(db.State()) && db.compact.NoCompact?
    ensures ok ==>
              && files <= db.versions.tables && inputs !! db.versions.tables
              && Contents(db.disk.tables, files) == Needed(EntrySet(input), old(db.snapshots), isBase)
    ensures ok && old(db.snapshots) == [] ==>
              forall e, f | e in Contents(db.disk.tables, files) && f in Contents(db.disk.tables, files) ::
                (e.user == f.user ==> e == f) && !(e.kind == TYPE_DELETION && isBase(e.user))
    ensures !ok ==> db.bgError
    ensures env.Quiet() ==> ok == applied
  {
    hide Run, Lives, Inv, Contents, Survivors, Drops, Kept, TotalOrder, Sorted, Reached, Remembers, Possible, CanCompact, Needed;
    var smallest := if db.snapshots == [] then db.versions.last else db.snapshots[0];
    ghost var start, m := db.State(), Merge(inputs, smallest, isBase, input);
    SmallestIsPast(start, inputs, isBase);
    ghost var snapshots := db.snapshots;
    KeptIsNeeded(start, inputs, isBase);
    if snapshots == [] { NeededWithout(start, inputs, isBase); }
    files, steps := Start(db, inputs, isBase, smallest, m);
    NothingRemembered(input);
    var building: Option<nat> := None;
    var userKey: Option<Key> := None;
    var last := MAX_SEQUENCE;
    var i := 0;
    while i < |input| && !env.shutdown(i)
      invariant 0 <= i <= |input| && Lives(start, steps, db.State()) && Inv(db.State())
      invariant Reached(db.State(), m, files, i) && Remembers(input, i, userKey, last)
      invariant building.Some? ==> building.value in files
    {
      steps := BetweenEntries(db, switches(i), flushes(i), m, files, i, start, steps);
      ok, building, files, userKey, last, steps := OneEntry(db, cmp, m, smallest, isBase, i, input[i], env, building, files, userKey, last, start, steps);
      if !ok { return; }
      i := i + 1;
    }
    MergeGoesOn(db.State(), m, files, i);
    if env.shutdown(i) || (building.Some? && !env.finishOk(i)) {
      ok := false;
      steps := GiveUp(db, files, start, steps);
      return;
    }
    MergeIsDone(db.State(), cmp, m, files);
    OutputsAreKept(db.State(), m);
    steps := InstallResults(db, files, inputs, smallest, recorded, applied, start, steps);
    ok := applied;
  }

  // One entry: close the file in the level's interest, decide, open a file if
  // none is being built, add the entry, close the file when it is big enough.
  method OneEntry(db: DBImpl, ghost cmp: Comparator, ghost m: Merge, smallest: nat, isBase: Key -> bool, i: nat, e: Entry,
                  env: Environment, building: Option<nat>, files: set<nat>, userKey: Option<Key>, last: nat,
                  ghost start: Store, ghost soFar: seq<Step>)
      returns (ok: bool, current: Option<nat>, numbers: set<nat>, newKey: Option<Key>, newLast: nat, ghost steps: seq<Step>)
    requires Lives(start, soFar, db.State()) && Inv(db.State()) && Reached(db.State(), m, files, i)
    requires i < |m.input| && e == m.input[i] && Remembers(m.input, i, userKey, last) && (building.Some? ==> building.value in files)
    requires TotalOrder(cmp) && Sorted(cmp, m.input) && m.smallest == smallest < MAX_SEQUENCE && m.isBase == isBase
    modifies db
    ensures Lives(start, steps, db.State()) && Inv(db.State())
    ensures ok ==> Reached(db.State(), m, numbers, i + 1) && Remembers(m.input, i + 1, newKey, newLast)
    ensures ok && current.Some? ==> current.value in numbers
    ensures !ok ==> db.compact.NoCompact? && db.bgError && !env.Quiet()
  {
    hide Run, Lives, Inv, Contents, Survivors, Drops, Kept, TotalOrder, Sorted, Reached, Remembers;
    ok, current, numbers, newKey, newLast, steps := true, building, files, userKey, last, soFar;
    if env.stopBefore(i) && current.Some? {
      current := None;
      ok := env.finishOk(i);
    }
    ghost var at := i;
    if ok {
      var drop;
      drop, newKey, newLast := Decide(m.input, i, e, userKey, last, smallest, isBase);
      if drop {
        EntryIsDropped(db.State(), m, numbers, i);
        return;
      }
      if current.None? {
        ok := env.openOk(i);
        if ok {
          var number;
          number, steps := OpenOutputFile(db, m, numbers, i, start, steps);
          numbers := numbers + {number};
          current := Some(number);
        }
      }
      if ok {
        steps := AddEntry(db, current.value, e, cmp, m, numbers, i, start, steps);
        at := i + 1;
        if env.bigEnough(i) {
          current := None;
          ok := env.finishOk(i);
        }
      }
    }
    if !ok {
      MergeGoesOn(db.State(), m, numbers, at);
      steps := GiveUp(db, numbers, start, steps);
    }
  }

  lemma SmallestIsPast(s: Store, inputs: set<nat>, isBase: Key -> bool)
    requires Inv(s) && CanCompact(s, inputs, isBase)
    ensures SmallestSnapshot(s) <= s.v.last
  {
    hide VersionsOk, SequencesOk, GroupOk, MemoryOk, OldLogsOk, NumbersOk, FlushOk, CompactOk, PinsOk, Pickable;
  }

  lemma NothingRemembered(input: seq<Entry>)
    ensures Remembers(input, 0, None, MAX_SEQUENCE)
  {
  }

  lemma MergeGoesOn(s: Store, m: Merge, numbers: set<nat>, i: nat)
    requires Reached(s, m, numbers, i)
    ensures CanMerge(s) && s.compact == Merging(m.inputs, m.smallest, m.isBase, numbers)
    ensures Contents(s.disk.tables, m.inputs) == EntrySet(m.input)
  {
  }

  lemma OutputsAreKept(s: Store, m: Merge)
    requires CanCompactInstall(s) && Contents(s.disk.tables, s.compact.inputs) == EntrySet(m.input)
    ensures Contents(s.disk.tables, s.compact.outputs) == Kept(EntrySet(m.input), s.compact.smallest, s.compact.isBase)
  {
  }

  // The compaction is picked and its smallest snapshot chosen.
  method Start(db: DBImpl, inputs: set<nat>, isBase: Key -> bool, smallest: nat, ghost m: Merge)
      returns (files: set<nat>, ghost steps: seq<Step>)
    requires Inv(db.State()) && CanCompact(db.State(), inputs, isBase) && smallest == SmallestSnapshot(db.State())
    requires m.inputs == inputs && m.isBase == isBase && m.smallest == smallest && EntrySet(m.input) == Contents(db.disk.tables, inputs)
    modifies db`compact
    ensures Lives(old(db.State()), steps, db.State()) && Inv(db.State()) && files == {}
    ensures Reached(db.State(), m, files, 0)
  {
    hide Run, Lives, Inv, Contents, Pickable;
    ghost var before := db.State();
    files := {};
    db.compact := Merging(inputs, smallest, isBase, {});
    NoFiles(db.disk.tables);
    DBImpl.StartRun(before);
    steps := TakeStep(before, [], before, StartCompact(inputs, isBase));
  }

  lemma NoFiles(tables: map<nat, set<Entry>>)
    ensures Contents(tables, {}) == {}
  {
  }
}
