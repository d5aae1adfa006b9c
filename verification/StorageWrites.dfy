// Writing a group, switching memtables and taking snapshots keep the store's
// invariant.
module StorageWrites {
  import opened Entries
  import opened Compaction
  import opened Storage
  import opened StorageInvariant
  import opened StorageFrames

  lemma BeginKeeps(s: Store, ops: seq<Op>, sync: bool)
    requires Inv(s) && CanBegin(s)
    ensures Inv(BeginGroup(s, ops, sync))
  {
    hide VersionsOk, Unique, AllParse, UpTo, Newer, LogsBetween, Batch.All, Batch.Prefix, Log.All, Log.Safe, Log.Intact;
    hide PinsOk, FlushOk, CompactOk, Store.InManifestWrite;
    var t := BeginGroup(s, ops, sync);
    assert t.Issued() == s.Issued() && t.Inserted() == s.Inserted();
    PinsStay(s, t);
    BackgroundStays(s, t);
    VersionsStay(s, t);
  }

  lemma InsertKeeps(s: Store)
    requires Inv(s) && CanInsert(s)
    ensures Inv(InsertOne(s))
  {
    hide VersionsOk, Unique, AllParse, UpTo, LogsBetween, Log.All, Log.Safe, Log.Intact, Batch.All, Batch.Prefix;
    hide PinsOk, FlushOk, CompactOk, Store.InManifestWrite, Store.Issued, Newer, Store.Inserted, SequencesOk;
    var t := InsertOne(s);
    var e := NextEntry(s);
    SequencesStay(s, t);
    InsertKeepsPins(s, e);
    BackgroundStays(s, t);
    VersionsStay(s, t);
  }

  lemma SequencesStay(s: Store, t: Store)
    requires SequencesOk(s) && t.Issued() == s.Issued() && t.hist == s.hist && t.v.last == s.v.last
    ensures SequencesOk(t) && Unique(s.Issued())
  {
    hide Store.Issued, Unique, AllParse, UpTo;
  }

  // What InsertOne adds: an entry of the group, past the last sequence.
  lemma NextEntry(s: Store) returns (e: Entry)
    requires GroupOk(s) && CanInsert(s)
    ensures InsertOne(s).mems == s.mems[s.logfile := s.mems[s.logfile] + {e}]
    ensures InsertOne(s).Issued() == s.Issued() && e in s.Issued()
    ensures InsertOne(s).Inserted() == s.Inserted() + {e}
    ensures e in s.group.value.batch.All() && e.seqno > s.v.last
  {
    hide Log.All, Log.Safe, Log.Intact;
    var g := s.group.value;
    e := g.batch.ops[g.stage.done].At(g.batch.first + g.stage.done);
    assert e in g.batch.All();
  }

  // An entry being inserted lies past every snapshot taken so far.
  lemma InsertKeepsPins(s: Store, e: Entry)
    requires PinsOk(s) && CanInsert(s) && InsertOne(s).Issued() == s.Issued() && Unique(s.Issued())
    requires e in s.Issued() && e.seqno > s.v.last
    requires InsertOne(s).mems == s.mems[s.logfile := s.mems[s.logfile] + {e}]
    ensures PinsOk(InsertOne(s))
  {
    hide Read, Store.Issued, Store.PinContents, Unique;
    var t := InsertOne(s);
    forall id | id in t.pins ensures PinOk(t, t.pins[id]) {
      var p := t.pins[id];
      assert PinOk(s, p);
      InsertUnderPin(s, e, p);
    }
  }

  lemma InsertUnderPin(s: Store, e: Entry, p: Pin)
    requires PinOk(s, p) && CanInsert(s) && InsertOne(s).Issued() == s.Issued() && Unique(s.Issued())
    requires e in s.Issued() && e.seqno > s.v.last
    requires InsertOne(s).mems == s.mems[s.logfile := s.mems[s.logfile] + {e}]
    ensures PinOk(InsertOne(s), p)
  {
    hide Read, Store.Issued, Contents;
    var t := InsertOne(s);
    var more := if p.mem == s.logfile then {e} else {};
    assert t.PinContents(p) == s.PinContents(p) + more;
    forall k ensures Read(t.PinContents(p), k, p.snapshot) == Read(p.seen, k, p.snapshot) {
      FutureIsInvisible(s.PinContents(p), more, k, p.snapshot);
    }
  }

  lemma AppendKeeps(s: Store, ok: bool, tears: bool)
    requires Inv(s) && CanAppend(s)
    ensures Inv(Append(s, ok, tears))
  {
    hide VersionsOk, LogsBetween, AllParse, Log.All, Log.Safe, Log.Intact, Batch.All, Batch.Prefix, Unique, UpTo, Newer;
    hide PinsOk, FlushOk, CompactOk, Store.InManifestWrite, Store.Issued, Store.Inserted, SequencesOk, OldLogsOk;
    var t := Append(s, ok, tears);
    AppendIssues(s, ok, tears);
    AppendKeepsLogs(s, ok, tears);
    PinsStay(s, t);
    BackgroundStays(s, t);
    assert t.Inserted() == s.Inserted() by { EmptyPrefix(s, t); }
    AppendKeepsVersions(s, ok, tears);
  }

  lemma EmptyPrefix(s: Store, t: Store)
    requires s.group.Some? && !s.group.value.stage.Inserting?
    requires t.group.Some? && (t.group.value.stage.Inserting? ==> t.group.value.stage.done == 0)
    ensures s.Inserted() == {} && t.Inserted() == {}
  {
  }

  // The group's entries carry the numbers after the last one.
  lemma BatchNumbers(b: Batch)
    ensures forall e | e in b.All() :: b.first <= e.seqno < b.Next() && e.Parses()
    ensures Unique(b.All())
  {
  }

  lemma AppendIssues(s: Store, ok: bool, tears: bool)
    requires SequencesOk(s) && GroupOk(s) && CanAppend(s)
    ensures SequencesOk(Append(s, ok, tears))
    ensures Append(s, ok, tears).Issued() == s.Issued() + s.group.value.batch.All()
  {
    hide Log.All, Log.Safe, Log.Intact, Batch.Prefix;
    var t := Append(s, ok, tears);
    var b := s.group.value.batch;
    BatchNumbers(b);
    assert t.Issued() == s.Issued() + b.All();
  }

  lemma AppendKeepsLogs(s: Store, ok: bool, tears: bool)
    requires GroupOk(s) && MemoryOk(s) && OldLogsOk(s) && SequencesOk(s) && CanAppend(s)
    ensures var t := Append(s, ok, tears);
            && GroupOk(t) && OldLogsOk(t)
            && s.disk.logs[s.logfile].All() <= t.disk.logs[s.logfile].All() <= s.disk.logs[s.logfile].All() + s.group.value.batch.All()
            && s.disk.logs[s.logfile].Safe() <= t.disk.logs[s.logfile].Safe()
            && s.disk.logs[s.logfile].Intact() <= t.disk.logs[s.logfile].Intact()
            && Newer(t.disk.logs[s.logfile].All(), s.v.flushed + s.Imm())
  {
    hide Log.All, Log.Safe, Log.Intact, Batch.All, Unique, AllParse, Store.Issued, Store.Inserted;
    var t := Append(s, ok, tears);
    var b := s.group.value.batch;
    AppendedLog(s.disk.logs[s.logfile], b, tears);
    OlderLogs(s.disk.logs, t.disk.logs, s.v.log, s.logfile);
    BatchNumbers(b);
    assert s.v.flushed + s.Imm() <= s.hist.committed + s.Inserted();
    assert s.Inserted() == {} by { EmptyPrefix(s, t); }
  }

  lemma AppendKeepsVersions(s: Store, ok: bool, tears: bool)
    requires Inv(s) && CanAppend(s)
    ensures VersionsOk(Append(s, ok, tears))
  {
    hide Sound, Log.All, Log.Safe, Log.Intact, Batch.All, Store.Issued, Store.InManifestWrite;
    hide OldLogsOk, FlushOk, CompactOk, PinsOk, SequencesOk, Newer;
    var t := Append(s, ok, tears);
    AppendIssues(s, ok, tears);
    assert t.InManifestWrite() == s.InManifestWrite() by { BackgroundStays(s, t); }
    forall w: Version | VersionOk(s, w) ensures VersionOk(t, w) {
      AppendKeepsVersion(s, ok, tears, w);
    }
  }

  lemma AppendKeepsVersion(s: Store, ok: bool, tears: bool, w: Version)
    requires CanAppend(s) && VersionOk(s, w) && GroupOk(s)
    requires Append(s, ok, tears).Issued() == s.Issued() + s.group.value.batch.All()
    ensures VersionOk(Append(s, ok, tears), w)
  {
    hide LogsFrom, IntactFrom, SafeFrom, Log.All, Log.Safe, Log.Intact, Batch.All, Store.Issued, Contents, Agree;
    var t := Append(s, ok, tears);
    var b := s.group.value.batch;
    AppendedLog(s.disk.logs[s.logfile], b, tears);
    GrownLog(s.disk.logs, s.logfile, t.disk.logs[s.logfile], b.All(), w.log);
    BatchNumbers(b);
  }

  lemma SyncKeeps(s: Store, ok: bool)
    requires Inv(s) && CanSync(s)
    ensures Inv(Sync(s, ok))
  {
    hide VersionsOk, LogsBetween, AllParse, Log.All, Log.Safe, Log.Intact, Batch.All, Batch.Prefix, Unique, UpTo, Newer;
    hide PinsOk, FlushOk, CompactOk, Store.InManifestWrite, Store.Issued, Store.Inserted, SequencesOk;
    var t := Sync(s, ok);
    SyncedLog(s.disk.logs[s.logfile]);
    assert t.InFlight() == s.InFlight() && t.Issued() == s.Issued() by { SyncIssues(s, ok); }
    SequencesStay(s, t);
    OlderLogs(s.disk.logs, t.disk.logs, s.v.log, s.logfile);
    PinsStay(s, t);
    BackgroundStays(s, t);
    EmptyPrefix(s, t);
    forall w: Version | VersionOk(s, w) ensures VersionOk(t, w) {
      SyncKeepsVersion(s, ok, w);
    }
    SyncKeepsVersions(s, t);
  }

  lemma SyncIssues(s: Store, ok: bool)
    requires CanSync(s)
    ensures Sync(s, ok).InFlight() == s.InFlight() && Sync(s, ok).Issued() == s.Issued()
  {
  }

  // The versions at stake are the same ones.
  lemma SyncKeepsVersions(s: Store, t: Store)
    requires VersionsOk(s) && forall w: Version | VersionOk(s, w) :: VersionOk(t, w)
    requires t.v == s.v && t.disk.manifest == s.disk.manifest && t.InManifestWrite() == s.InManifestWrite()
    ensures VersionsOk(t)
  {
    hide VersionOk, Store.InManifestWrite;
  }

  lemma SyncKeepsVersion(s: Store, ok: bool, w: Version)
    requires CanSync(s) && VersionOk(s, w) && Sync(s, ok).Issued() == s.Issued()
    ensures VersionOk(Sync(s, ok), w)
  {
    hide Sound, Log.All, Log.Safe, Log.Intact, LogsFrom, IntactFrom, SafeFrom, Store.Issued;
    var t := Sync(s, ok);
    if ok {
      SyncedLog(s.disk.logs[s.logfile]);
      GrownLog(s.disk.logs, s.logfile, t.disk.logs[s.logfile], {}, w.log);
    }
    SoundStays(s.disk, t.disk, w, s.Issued(), t.Issued(), s.hist, t.hist);
  }

  lemma FinishKeeps(s: Store)
    requires Inv(s) && CanFinish(s)
    ensures Inv(FinishGroup(s))
  {
    hide VersionsOk, LogsBetween, AllParse, Log.All, Log.Safe, Log.Intact, Batch.All, Batch.Prefix, Unique, UpTo, Newer;
    hide PinsOk, FlushOk, CompactOk, Store.InManifestWrite, Store.Issued, SequencesOk;
    var t := FinishGroup(s);
    FinishIssues(s);
    PinsStay(s, t);
    BackgroundStays(s, t);
    FinishKeepsVersions(s);
    WholePrefix(s);
  }

  lemma WholePrefix(s: Store)
    requires CanFinish(s)
    ensures s.Inserted() == if s.group.value.stage.Inserting? then s.group.value.batch.All() else {}
  {
  }

  lemma FinishIssues(s: Store)
    requires SequencesOk(s) && GroupOk(s) && CanFinish(s)
    ensures SequencesOk(FinishGroup(s)) && FinishGroup(s).Issued() == s.Issued()
  {
    hide Log.All, Log.Safe, Log.Intact, Batch.All;
    BatchNumbers(s.group.value.batch);
    assert FinishGroup(s).Issued() == s.Issued();
  }

  lemma FinishKeepsVersions(s: Store)
    requires Inv(s) && CanFinish(s) && FinishGroup(s).Issued() == s.Issued()
    ensures VersionsOk(FinishGroup(s))
  {
    hide Sound, Log.All, Log.Safe, Log.Intact, Batch.All, Store.Issued, Store.InManifestWrite;
    hide OldLogsOk, FlushOk, CompactOk, PinsOk, SequencesOk, MemoryOk;
    var t := FinishGroup(s);
    assert t.InManifestWrite() == s.InManifestWrite() by { BackgroundStays(s, t); }
    forall w: Version | VersionOk(s, w) ensures Sound(s.disk, w, s.Issued(), t.hist) {
      FinishCovered(s, w);
    }
    Restamped(s.disk, s.v, t.v, s.Issued(), t.Issued(), t.hist, t.hist);
  }

  // The group's entries are in the current log, which every version still needs.
  lemma FinishCovered(s: Store, w: Version)
    requires VersionOk(s, w) && GroupOk(s) && CanFinish(s)
    ensures Sound(s.disk, w, s.Issued(), FinishGroup(s).hist)
  {
    hide TablesOk, LogsOk, Log.All, Log.Safe, Log.Intact, Batch.All, Store.Issued, LogsFrom, IntactFrom, SafeFrom;
    LogIsIn(s.disk.logs, s.logfile, w.log);
  }

  lemma SwitchKeeps(s: Store)
    requires Inv(s) && CanSwitch(s)
    ensures Inv(SwitchMemTable(s))
  {
    hide VersionsOk, LogsBetween, AllParse, Log.All, Log.Safe, Log.Intact, Unique, UpTo, MemoryOk;
    hide PinsOk, FlushOk, CompactOk, Store.InManifestWrite, SequencesOk, PinTablesBelow;
    var t := SwitchMemTable(s);
    assert s.v.next !in s.disk.logs by { NewLogIsNew(s); }
    assert t.Issued() == s.Issued();
    SequencesStay(s, t);
    assert s.v.log <= s.logfile by { FloorsBelow(s); }
    SwitchKeepsMemory(s);
    SwitchKeepsOldLogs(s);
    SwitchKeepsPins(s);
    SwitchKeepsBackground(s);
    SwitchKeepsVersions(s);
    BelowMore(s.pins, s.v.next, t.v.next);
  }

  lemma NewLogIsNew(s: Store)
    requires MemoryOk(s) && NumbersOk(s)
    ensures s.v.next !in s.disk.logs
  {
  }

  lemma BelowMore(pins: map<nat, Pin>, m: nat, n: nat)
    requires PinTablesBelow(pins, m) && m <= n
    ensures PinTablesBelow(pins, n)
  {
  }

  lemma SwitchKeepsMemory(s: Store)
    requires MemoryOk(s) && SequencesOk(s) && NumbersOk(s) && CanSwitch(s)
    ensures MemoryOk(SwitchMemTable(s))
  {
    hide AllParse, Log.All, Log.Safe, Log.Intact, Unique, UpTo, PinTablesBelow;
    var t := SwitchMemTable(s);
    NoRecords();
    assert s.Imm() == {} && s.Inserted() == {};
    assert t.Imm() == s.Mem() && t.Mem() == {} && t.Inserted() == {};
  }

  lemma SwitchKeepsOldLogs(s: Store)
    requires MemoryOk(s) && OldLogsOk(s) && NumbersOk(s) && CanSwitch(s) && s.v.log <= s.logfile
    ensures OldLogsOk(SwitchMemTable(s))
  {
    hide Log.All, Log.Safe, Log.Intact, Newer, PinTablesBelow;
    var t := SwitchMemTable(s);
    NoRecords();
    var older := LogsBetween(s.disk.logs, s.v.log, s.logfile);
    var newer := LogsBetween(t.disk.logs, t.v.log, t.logfile);
    forall e | e in newer ensures e in older || e in s.disk.logs[s.logfile].All() {
      var n :| n in t.disk.logs && t.v.log <= n < t.logfile && e in t.disk.logs[n].All();
      assert n in s.disk.logs;
    }
    forall e | e in s.disk.logs[s.logfile].All() && s.v.log <= s.logfile ensures e in newer {
      assert s.logfile in t.disk.logs;
    }
  }

  lemma SwitchKeepsPins(s: Store)
    requires PinsOk(s) && NumbersOk(s) && CanSwitch(s)
    ensures PinsOk(SwitchMemTable(s))
  {
    hide Read, Contents, Batch.All;
    var t := SwitchMemTable(s);
    assert t.Issued() == s.Issued();
    forall id | id in t.pins ensures PinOk(t, t.pins[id]) {
      var p := t.pins[id];
      assert PinOk(s, p);
      assert t.PinContents(p) == s.PinContents(p);
    }
  }

  lemma SwitchKeepsBackground(s: Store)
    requires FlushOk(s) && CompactOk(s) && CanSwitch(s)
    ensures FlushOk(SwitchMemTable(s)) && CompactOk(SwitchMemTable(s))
    ensures SwitchMemTable(s).InManifestWrite() == s.InManifestWrite()
  {
    hide Contents, Kept, Above;
    var t := SwitchMemTable(s);
    assert forall n :: Private(t, n) <==> Private(s, n);
  }

  lemma SwitchKeepsVersions(s: Store)
    requires VersionsOk(s) && NumbersOk(s) && CanSwitch(s) && s.v.next !in s.disk.logs
    requires SwitchMemTable(s).InManifestWrite() == s.InManifestWrite() && SwitchMemTable(s).Issued() == s.Issued()
    ensures VersionsOk(SwitchMemTable(s))
  {
    hide Sound, Store.Issued, Store.InManifestWrite, PinTablesBelow;
    var t := SwitchMemTable(s);
    forall w: Version | VersionOk(s, w) ensures VersionOk(t, w) {
      FreshLog(s.disk.logs, s.v.next, w.log);
      SoundStays(s.disk, t.disk, w, s.Issued(), t.Issued(), s.hist, t.hist);
    }
    Restamped(t.disk, s.v, t.v, t.Issued(), t.Issued(), t.hist, t.hist);
  }

  // ---- readers ----------------------------------------------------------------------

  lemma SnapshotKeeps(s: Store)
    requires Inv(s) && s.mode.Up?
    ensures Inv(TakeSnapshot(s))
  {
    hide VersionsOk, SequencesOk, GroupOk, MemoryOk, OldLogsOk, PinsOk;
    hide Contents, Kept, Above;
    var t := TakeSnapshot(s);
    assert forall n :: Private(t, n) <==> Private(s, n);
    FloorsBelow(s);
    SnapshotKeepsRest(s, t);
  }

  lemma SnapshotKeepsRest(s: Store, t: Store)
    requires t == s.(snapshots := t.snapshots)
    ensures VersionsOk(s) ==> VersionsOk(t)
    ensures SequencesOk(s) ==> SequencesOk(t)
    ensures GroupOk(s) ==> GroupOk(t)
    ensures MemoryOk(s) ==> MemoryOk(t)
    ensures MemoryOk(s) && OldLogsOk(s) ==> MemoryOk(t) && OldLogsOk(t)
    ensures PinsOk(s) ==> PinsOk(t)
  {
    hide Sound, Read, Contents, LogsBetween, Newer, Unique, AllParse, UpTo, Log.All, Log.Safe, Log.Intact, Batch.All, Batch.Prefix;
    assert t.Issued() == s.Issued() && t.Inserted() == s.Inserted();
    if PinsOk(s) {
      PinsStay(s, t);
    }
  }

  lemma ReleaseKeeps(s: Store, i: nat)
    requires Inv(s) && CanRelease(s, i)
    ensures Inv(ReleaseSnapshot(s, i))
  {
    hide VersionsOk, SequencesOk, GroupOk, MemoryOk, OldLogsOk, PinsOk;
    hide Contents, Kept, Above;
    var t := ReleaseSnapshot(s, i);
    assert forall n :: Private(t, n) <==> Private(s, n);
    SnapshotKeepsRest(s, t);
  }
}
