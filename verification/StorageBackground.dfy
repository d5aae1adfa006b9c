// Flushes, compactions, manifest writes and garbage collection keep the
// store's invariant.
module StorageBackground {
  import opened Bytes
  import opened DbFormat
  import opened Entries
  import opened Compaction
  import DbIter
  import opened Storage
  import opened StorageInvariant
  import opened StorageFrames

  // ---- writing a file nobody reads yet ------------------------------------------

  // No version and no reader uses table n.
  ghost predicate Unused(s: Store, n: nat)
  {
    && n !in s.v.tables && n !in s.disk.manifest.tables
    && (s.InManifestWrite().Some? ==> n !in s.InManifestWrite().value.tables)
    && (forall id | id in s.pins :: n !in s.pins[id].tables)
  }

  // Only table n changes, and the file counter.
  ghost predicate ChangesOnly(s: Store, t: Store, n: nat)
  {
    && (forall m | m != n :: (m in s.disk.tables <==> m in t.disk.tables) && (m in s.disk.tables ==> t.disk.tables[m] == s.disk.tables[m]))
    && t.disk.logs == s.disk.logs && t.disk.manifest == s.disk.manifest
    && t.v == s.v.(next := t.v.next) && s.v.next <= t.v.next
    && t.mems == s.mems && t.logfile == s.logfile && t.imm == s.imm && t.pins == s.pins
    && t.group == s.group && t.hist == s.hist && t.mode == s.mode
  }

  lemma NextIsUnused(s: Store)
    requires VersionsOk(s) && NumbersOk(s)
    ensures Unused(s, s.v.next) && s.v.next !in s.pending
  {
    hide Contents, Agree, LogsOk, Covers, Store.Issued, Store.InManifestWrite;
  }

  lemma TableKeepsVersions(s: Store, t: Store, n: nat)
    requires VersionsOk(s) && Unused(s, n) && ChangesOnly(s, t, n) && t.InManifestWrite() == s.InManifestWrite()
    ensures VersionsOk(t)
  {
    hide Sound, Store.Issued, Store.InManifestWrite;
    assert t.Issued() == s.Issued() by { SameIssued(s, t); }
    forall w: Version | VersionOk(s, w) && n !in w.tables ensures VersionOk(t, w) {
      SameSound(s.disk, t.disk, w, s.Issued(), s.hist);
    }
    SameSound(s.disk, t.disk, s.v, s.Issued(), s.hist);
    Restamped(t.disk, s.v, t.v, s.Issued(), t.Issued(), s.hist, t.hist);
  }

  lemma SameIssued(s: Store, t: Store)
    requires t.group == s.group && t.hist == s.hist
    ensures t.Issued() == s.Issued() && t.Inserted() == s.Inserted() && t.InFlight() == s.InFlight()
  {
  }

  lemma TableKeepsPins(s: Store, t: Store, n: nat)
    requires PinsOk(s) && Unused(s, n) && ChangesOnly(s, t, n)
    ensures PinsOk(t)
  {
    hide Read, Store.Issued, Contents, Store.InManifestWrite;
    SameIssued(s, t);
    forall id | id in t.pins ensures PinOk(t, t.pins[id]) {
      var p := t.pins[id];
      assert PinOk(s, p);
      SameContents(s.disk.tables, t.disk.tables, p.tables);
      assert t.PinContents(p) == s.PinContents(p);
    }
  }

  lemma TableKeepsMemory(s: Store, t: Store, n: nat)
    requires SequencesOk(s) && GroupOk(s) && MemoryOk(s) && OldLogsOk(s) && SnapshotsOk(s) && ChangesOnly(s, t, n)
    requires t.snapshots == s.snapshots
    ensures SequencesOk(t) && GroupOk(t) && MemoryOk(t) && OldLogsOk(t) && SnapshotsOk(t)
  {
    hide Newer, Unique, AllParse, UpTo, LogsBetween, Log.All, Log.Safe, Log.Intact, Batch.All, Batch.Prefix;
    SameIssued(s, t);
    assert t.Mem() == s.Mem() && t.Imm() == s.Imm();
  }

  lemma TableKeepsCompaction(s: Store, t: Store, n: nat)
    requires CompactOk(s) && ChangesOnly(s, t, n) && n !in s.v.tables && t.snapshots == s.snapshots
    requires t.compact == s.compact && (forall m | m in s.pending && m != n :: m in t.pending)
    requires t.flush == s.flush || !s.compact.InstallingOutputs?
    requires !(s.compact.Merging? && n in s.compact.outputs)
    ensures CompactOk(t)
  {
    hide Kept, Above, Contents;
    if s.compact.Merging? {
      var inputs := s.compact.inputs;
      SameContentsThroughout(s.disk.tables, t.disk.tables, inputs, n);
      SameContentsThroughout(s.disk.tables, t.disk.tables, s.v.tables - inputs, n);
      SameContentsThroughout(s.disk.tables, t.disk.tables, s.compact.outputs, n);
    }
  }

  lemma SameContentsThroughout(a: map<nat, set<Entry>>, b: map<nat, set<Entry>>, live: set<nat>, n: nat)
    requires n !in live
    requires forall m | m != n :: (m in a <==> m in b) && (m in a ==> b[m] == a[m])
    ensures Contents(a, live) == Contents(b, live)
  {
    forall e ensures e in Contents(a, live) <==> e in Contents(b, live) {
      if m :| m in live && m in a && e in a[m] { assert m in b && e in b[m]; }
      if m :| m in live && m in b && e in b[m] { assert m in a && e in a[m]; }
    }
  }

  // ---- CompactMemTable --------------------------------------------------------------

  lemma FlushStartKeeps(s: Store)
    requires Inv(s) && CanFlush(s)
    ensures Inv(FlushStart(s))
  {
    hide VersionsOk, SequencesOk, GroupOk, MemoryOk, OldLogsOk, SnapshotsOk, PinsOk, CompactOk, PinTablesBelow, Store.InManifestWrite;
    var t, n := FlushStart(s), s.v.next;
    NextIsUnused(s);
    assert t.InManifestWrite() == s.InManifestWrite() by { NoManifestWrite(s); NoManifestWrite(t); }
    TableKeepsVersions(s, t, n);
    TableKeepsPins(s, t, n);
    TableKeepsMemory(s, t, n);
    OutputsArePending(s);
    TableKeepsCompaction(s, t, n);
    BelowNext(s.pins, n);
  }

  lemma NoManifestWrite(s: Store)
    requires s.mode.Up? && !s.flush.Installing? && !s.compact.InstallingOutputs?
    ensures s.InManifestWrite() == None
  {
  }

  lemma OutputsArePending(s: Store)
    requires CompactOk(s)
    ensures s.compact.Merging? ==> s.compact.outputs <= s.pending && s.compact.outputs !! s.v.tables && s.compact.inputs <= s.v.tables
  {
  }

  lemma BelowNext(pins: map<nat, Pin>, n: nat)
    requires PinTablesBelow(pins, n)
    ensures PinTablesBelow(pins, n + 1)
  {
  }

  lemma FlushBuiltKeeps(s: Store, ok: bool)
    requires Inv(s) && CanFlushBuilt(s)
    ensures Inv(FlushBuilt(s, ok))
  {
    hide VersionsOk, SequencesOk, GroupOk, MemoryOk, OldLogsOk, SnapshotsOk, PinsOk, CompactOk, PinTablesBelow, Store.InManifestWrite, Sound;
    var t, n := FlushBuilt(s, ok), s.flush.table;
    assert s.InManifestWrite() == None by { NoManifestWrite(s); }
    TableKeepsPins(s, t, n);
    TableKeepsMemory(s, t, n);
    TableKeepsCompaction(s, t, n);
    FlushBuiltKeepsVersions(s, ok);
    if ok {
      FlushBuiltKeepsFlush(s);
    }
  }

  // The new table holds imm_'s entries, and no output is mistaken for it.
  lemma FlushBuiltKeepsFlush(s: Store)
    requires CanFlushBuilt(s) && FlushOk(s) && CompactOk(s) && CompactOk(FlushBuilt(s, true))
    ensures FlushOk(FlushBuilt(s, true))
  {
    hide Kept, Above;
    var t, n := FlushBuilt(s, true), s.flush.table;
    var added := t.flush.next.tables - t.v.tables;
    forall e | e in Contents(t.disk.tables, added) ensures e in t.Imm() {
      var m :| m in added && m in t.disk.tables && e in t.disk.tables[m];
      assert m == n;
    }
  }

  // The sequence order of memory, spelled out.
  lemma MemoryOrder(s: Store)
    requires MemoryOk(s) && SequencesOk(s)
    ensures s.v.flushed + s.Imm() <= s.hist.committed
    ensures UpTo(s.v.flushed + s.Imm(), s.v.last)
  {
    hide Log.All, Log.Safe, Log.Intact, Unique, AllParse;
    assert UpTo(s.hist.committed, s.v.last);
  }

  // The current log is all there is from its own number on.
  lemma CurrentLog(s: Store)
    requires MemoryOk(s)
    ensures LogsFrom(s.disk.logs, s.logfile) == s.disk.logs[s.logfile].All()
    ensures IntactFrom(s.disk.logs, s.logfile) == s.disk.logs[s.logfile].Intact()
    ensures SafeFrom(s.disk.logs, s.logfile) == s.disk.logs[s.logfile].Safe()
  {
    hide Log.All, Log.Safe, Log.Intact, Newer;
    assert forall n | n in s.disk.logs && n >= s.logfile :: n == s.logfile;
  }

  lemma LaterLogs(logs: map<nat, Log>, from: nat, to: nat)
    requires from <= to
    ensures LogsFrom(logs, to) <= LogsFrom(logs, from)
    ensures IntactFrom(logs, to) <= IntactFrom(logs, from) && SafeFrom(logs, to) <= SafeFrom(logs, from)
  {
    hide Log.All, Log.Safe, Log.Intact;
  }

  lemma FlushBuiltKeepsVersions(s: Store, ok: bool)
    requires Inv(s) && CanFlushBuilt(s)
    ensures VersionsOk(FlushBuilt(s, ok))
  {
    hide Sound, SequencesOk, MemoryOk, OldLogsOk, PinsOk, CompactOk, GroupOk, Store.Issued, Store.Imm;
    var t, n := FlushBuilt(s, ok), s.flush.table;
    SameIssued(s, t);
    SameSound(s.disk, t.disk, s.v, s.Issued(), s.hist);
    SameSound(s.disk, t.disk, s.disk.manifest, s.Issued(), s.hist);
    if ok {
      assert VersionOk(s, s.v);
      FlushedTables(s);
      FlushedLogs(s);
      MakeSound(t.disk, t.flush.next, t.Issued(), t.hist);
    }
  }

  lemma MakeSound(d: Disk, w: Version, issued: set<Entry>, h: History)
    requires TablesOk(d.tables, w) && LogsOk(d.logs, w, issued) && Covers(d.logs, w, h)
    ensures Sound(d, w, issued, h)
  {
  }

  // The version with imm_'s table answers like everything flushed into it.
  lemma FlushedTables(s: Store)
    requires Inv(s) && CanFlushBuilt(s)
    ensures var t := FlushBuilt(s, true); TablesOk(t.disk.tables, t.flush.next)
  {
    hide Contents, Newer, Agree, Unique, Store.Imm, PinsOk, CompactOk, OldLogsOk, LogsOk, Covers, Private, SnapshotsOk, GroupOk;
    var t, imm := FlushBuilt(s, true), s.Imm();
    assert VersionOk(s, s.v);
    FlushTableIsNew(s);
    MemoryOrder(s);
    ImmAnswers(s);
    FlushedContents(s);
  }

  lemma FlushTableIsNew(s: Store)
    requires CanFlushBuilt(s) && FlushOk(s) && NumbersOk(s)
    ensures s.flush.table !in s.v.tables && s.flush.table < s.v.next
  {
    hide PinTablesBelow;
    assert Private(s, s.flush.table);
  }

  lemma ImmAnswers(s: Store)
    requires MemoryOk(s) && SequencesOk(s) && TablesOk(s.disk.tables, s.v)
    ensures Agree(Contents(s.disk.tables, s.v.tables) + s.Imm(), s.v.flushed + s.Imm(), s.v.floor)
  {
    hide Contents, Log.All, Log.Safe, Log.Intact, Newer, Agree;
    MemoryOrder(s);
    assert s.v.flushed + s.Imm() <= s.Issued();
    AgreeUnderLayer(Contents(s.disk.tables, s.v.tables), s.v.flushed, s.Imm(), s.v.floor);
  }

  lemma FlushedContents(s: Store)
    requires CanFlushBuilt(s) && s.flush.table !in s.v.tables && s.v.tables <= s.disk.tables.Keys
    ensures var t := FlushBuilt(s, true);
            && t.flush.next.tables <= t.disk.tables.Keys
            && Contents(t.disk.tables, t.flush.next.tables) == Contents(s.disk.tables, s.v.tables) + s.Imm()
  {
    hide Contents, Store.Imm;
    var t, n := FlushBuilt(s, true), s.flush.table;
    SameContents(s.disk.tables, t.disk.tables, s.v.tables);
    if s.Imm() == {} {
      assert Contents(s.disk.tables, s.v.tables) + s.Imm() == Contents(s.disk.tables, s.v.tables);
    } else {
      ContentsOfUnion(t.disk.tables, s.v.tables, {n});
      ContentsOfOne(t.disk.tables, n);
    }
  }

  // From the current log on, the logs continue it and cover the rest.
  lemma FlushedLogs(s: Store)
    requires Inv(s) && CanFlushBuilt(s)
    ensures var next := FlushBuilt(s, true).flush.next;
            LogsOk(s.disk.logs, next, s.Issued()) && Covers(s.disk.logs, next, s.hist)
  {
    hide LogsFrom, IntactFrom, SafeFrom, OldLogsOk, PinsOk, CompactOk, GroupOk, Log.All, Log.Safe, Log.Intact, Agree, Contents, Unique, AllParse;
    assert VersionOk(s, s.v);
    MemoryOrder(s);
    CurrentLog(s);
    LaterLogs(s.disk.logs, s.v.log, s.logfile);
    assert s.v.flushed + s.Imm() <= s.Issued();
  }

  // ---- LogAndApply and installing its result ---------------------------------------------

  lemma CommitKeeps(s: Store)
    requires Inv(s) && s.mode.Up? && CanCommit(s)
    ensures Inv(CommitManifest(s))
  {
    hide Sound, SequencesOk, GroupOk, MemoryOk, OldLogsOk, SnapshotsOk, PinsOk, FlushOk, CompactOk, PinTablesBelow;
    var t := CommitManifest(s);
    SameIssued(s, t);
    CommitKeepsMemory(s, t);
    PinsStay(s, t);
    CommitKeepsBackground(s);
    SameSound(s.disk, t.disk, s.v, s.Issued(), s.hist);
    SameSound(s.disk, t.disk, t.disk.manifest, s.Issued(), s.hist);
  }

  // A manifest being written names none of the files still being made.
  lemma CommitKeepsBackground(s: Store)
    requires FlushOk(s) && CompactOk(s) && CanCommit(s) && s.mode.Up?
    ensures FlushOk(CommitManifest(s)) && CompactOk(CommitManifest(s))
  {
    hide Contents, Kept, Above;
    var t := CommitManifest(s);
    if s.compact.Merging? {
      assert forall n | n in s.compact.outputs :: Private(s, n) && Private(t, n);
    }
  }

  lemma CommitKeepsMemory(s: Store, t: Store)
    requires t == s.(disk := s.disk.(manifest := t.disk.manifest))
    ensures SequencesOk(s) ==> SequencesOk(t)
    ensures GroupOk(s) ==> GroupOk(t)
    ensures MemoryOk(s) ==> MemoryOk(t)
    ensures MemoryOk(s) && OldLogsOk(s) ==> MemoryOk(t) && OldLogsOk(t)
    ensures SnapshotsOk(s) ==> SnapshotsOk(t)
  {
    hide Newer, Unique, AllParse, UpTo, LogsBetween, Log.All, Log.Safe, Log.Intact, Batch.All, Batch.Prefix;
    SameIssued(s, t);
    assert t.Mem() == s.Mem() && t.Imm() == s.Imm();
  }

  // DeleteObsoleteFiles removes nothing that a version, a reader or a writer
  // of files still needs.
  lemma GarbageKeeps(s: Store)
    requires Running(s) && s.mode.Up? && s.InManifestWrite() == None && s.flush.NoFlush?
    requires s.disk.manifest.tables == s.v.tables && s.disk.manifest.log == s.v.log
    ensures Running(CollectGarbage(s))
  {
    hide VersionsOk, SequencesOk, GroupOk, MemoryOk, OldLogsOk, SnapshotsOk, PinsOk, CompactOk, PinTablesBelow, Store.InManifestWrite;
    if !s.bgError {
      var t := CollectGarbage(s);
      GarbageKeepsLogs(s);
      GarbageKeepsVersions(s);
      GarbageKeepsPins(s);
      GarbageKeepsOutputs(s);
      FloorsBelow(s);
      CollectKeepsMemory(s);
    }
  }

  lemma GarbageKeepsLogs(s: Store)
    requires !s.bgError
    ensures var t := CollectGarbage(s);
            forall from | from >= s.v.log ::
              LogsFrom(t.disk.logs, from) == LogsFrom(s.disk.logs, from) &&
              IntactFrom(t.disk.logs, from) == IntactFrom(s.disk.logs, from) &&
              SafeFrom(t.disk.logs, from) == SafeFrom(s.disk.logs, from)
    ensures LogsBetween(CollectGarbage(s).disk.logs, s.v.log, s.logfile) == LogsBetween(s.disk.logs, s.v.log, s.logfile)
  {
    hide Log.All, Log.Safe, Log.Intact;
    var t := CollectGarbage(s);
    assert t.disk.logs == map n | n in s.disk.logs && n >= s.v.log :: s.disk.logs[n];
    forall from, e | from >= s.v.log
      ensures e in LogsFrom(s.disk.logs, from) ==> e in LogsFrom(t.disk.logs, from)
      ensures e in IntactFrom(s.disk.logs, from) ==> e in IntactFrom(t.disk.logs, from)
      ensures e in SafeFrom(s.disk.logs, from) ==> e in SafeFrom(t.disk.logs, from)
    {
      if n :| n in s.disk.logs && n >= from && e in s.disk.logs[n].Intact() { assert n in t.disk.logs; }
      if n :| n in s.disk.logs && n >= from && e in s.disk.logs[n].All() { assert n in t.disk.logs; }
      if n :| n in s.disk.logs && n >= from && e in s.disk.logs[n].Safe() { assert n in t.disk.logs; }
    }
    forall e | e in LogsBetween(s.disk.logs, s.v.log, s.logfile) ensures e in LogsBetween(t.disk.logs, s.v.log, s.logfile) {
      var n :| n in s.disk.logs && s.v.log <= n < s.logfile && e in s.disk.logs[n].All();
      assert n in t.disk.logs;
    }
  }

  lemma GarbageKeepsVersions(s: Store)
    requires VersionsOk(s) && !s.bgError && s.InManifestWrite() == None
    requires s.disk.manifest.tables == s.v.tables && s.disk.manifest.log == s.v.log
    ensures VersionsOk(CollectGarbage(s))
  {
    hide Sound, Store.Issued, LogsFrom, IntactFrom, SafeFrom;
    var t := CollectGarbage(s);
    GarbageKeepsLogs(s);
    SameIssued(s, t);
    SoundStays(s.disk, t.disk, s.v, s.Issued(), t.Issued(), s.hist, t.hist);
    SoundStays(s.disk, t.disk, s.disk.manifest, s.Issued(), t.Issued(), s.hist, t.hist);
  }

  lemma GarbageKeepsPins(s: Store)
    requires PinsOk(s) && !s.bgError
    ensures PinsOk(CollectGarbage(s))
  {
    hide Read, Store.Issued, Contents;
    var t := CollectGarbage(s);
    SameIssued(s, t);
    forall id | id in t.pins ensures PinOk(t, t.pins[id]) {
      var p := t.pins[id];
      assert PinOk(s, p);
      assert p.tables <= s.Live();
      SameContents(s.disk.tables, t.disk.tables, p.tables);
      assert t.PinContents(p) == s.PinContents(p);
    }
  }

  lemma GarbageKeepsOutputs(s: Store)
    requires VersionsOk(s) && CompactOk(s) && !s.bgError
    ensures CompactOk(CollectGarbage(s))
  {
    hide Kept, Above, Contents, Sound, Store.Issued, Store.InManifestWrite;
    var t := CollectGarbage(s);
    if s.compact.Merging? {
      OutputsArePending(s);
      assert s.v.tables <= s.disk.tables.Keys by { VersionTables(s); }
      SameContents(s.disk.tables, t.disk.tables, s.compact.inputs);
      SameContents(s.disk.tables, t.disk.tables, s.v.tables - s.compact.inputs);
      assert forall n | n in s.compact.outputs :: Private(s, n) && Private(t, n);
      SameContents(s.disk.tables, t.disk.tables, s.compact.outputs);
    }
  }

  lemma VersionTables(s: Store)
    requires VersionsOk(s)
    ensures s.v.tables <= s.disk.tables.Keys
    ensures Contents(s.disk.tables, s.v.tables) <= s.v.flushed
    ensures forall n | n in s.v.tables :: n < s.v.next
  {
    hide Contents, Agree, LogsOk, Covers, Store.Issued, Store.InManifestWrite;
    assert VersionOk(s, s.v);
  }

  lemma CollectKeepsMemory(s: Store)
    requires MemoryOk(s) && !s.bgError && s.v.log <= s.logfile
    requires LogsBetween(CollectGarbage(s).disk.logs, s.v.log, s.logfile) == LogsBetween(s.disk.logs, s.v.log, s.logfile)
    ensures var t := CollectGarbage(s);
            && MemoryOk(t)
            && (OldLogsOk(s) ==> OldLogsOk(t)) && (SequencesOk(s) ==> SequencesOk(t))
            && (GroupOk(s) ==> GroupOk(t)) && (SnapshotsOk(s) ==> SnapshotsOk(t))
  {
    hide Newer, Unique, AllParse, UpTo, LogsBetween, Log.All, Log.Safe, Log.Intact, Batch.All, Batch.Prefix;
    var t := CollectGarbage(s);
    SameIssued(s, t);
    assert t.Mem() == s.Mem() && t.Imm() == s.Imm();
  }

  lemma FlushInstalledKeeps(s: Store, ok: bool)
    requires Inv(s) && CanInstallFlush(s, ok)
    ensures Inv(FlushInstalled(s, ok))
  {
    hide VersionsOk, SequencesOk, GroupOk, MemoryOk, OldLogsOk, SnapshotsOk, PinsOk, CompactOk, PinTablesBelow, Store.InManifestWrite;
    hide CollectGarbage;
    if ok {
      var t := s.(v := Installed(s.v, s.flush.next), imm := None, flush := NoFlush);
      InstallFlushKeepsVersions(s);
      InstallFlushKeepsMemory(s);
      InstallFlushKeepsMerge(s);
      assert PinsOk(t) by { PinsStay(s, t); }
      assert t.InManifestWrite() == None by { NoManifestWrite(t); }
      GarbageKeeps(t);
      assert CollectGarbage(t).mode == s.mode by { GarbageMode(t); }
    } else {
      var t := s.(flush := NoFlush, bgError := true);
      GiveUpKeeps(s, t);
    }
  }

  lemma GarbageMode(s: Store)
    ensures CollectGarbage(s).mode == s.mode
  {
  }

  // The versions in memory and on disk are the one that was being installed.
  lemma InstallFlushKeepsVersions(s: Store)
    requires VersionsOk(s) && CanInstallFlush(s, true) && !s.compact.InstallingOutputs?
    ensures VersionsOk(s.(v := Installed(s.v, s.flush.next), imm := None, flush := NoFlush))
  {
    hide Sound, Store.Issued;
    var t := s.(v := Installed(s.v, s.flush.next), imm := None, flush := NoFlush);
    SameIssued(s, t);
    Restamped(s.disk, s.flush.next, t.v, s.Issued(), t.Issued(), s.hist, t.hist);
  }

  lemma InstallFlushKeepsMemory(s: Store)
    requires SequencesOk(s) && GroupOk(s) && MemoryOk(s) && OldLogsOk(s) && SnapshotsOk(s) && FlushOk(s)
    requires CanInstallFlush(s, true)
    ensures var t := s.(v := Installed(s.v, s.flush.next), imm := None, flush := NoFlush);
            SequencesOk(t) && GroupOk(t) && MemoryOk(t) && OldLogsOk(t) && SnapshotsOk(t)
  {
    hide Unique, AllParse, UpTo, Log.All, Log.Safe, Log.Intact, Batch.All, Batch.Prefix, Contents;
    var t := s.(v := Installed(s.v, s.flush.next), imm := None, flush := NoFlush);
    SameIssued(s, t);
    assert t.Mem() == s.Mem() && t.Imm() == {} && t.v.flushed == s.v.flushed + s.Imm();
    assert LogsBetween(t.disk.logs, t.v.log, t.logfile) == {};
  }

  // A running merge sees the new table only above its inputs.
  lemma InstallFlushKeepsMerge(s: Store)
    requires VersionsOk(s) && CompactOk(s) && FlushOk(s) && MemoryOk(s) && CanInstallFlush(s, true)
    ensures CompactOk(s.(v := Installed(s.v, s.flush.next), imm := None, flush := NoFlush))
  {
    hide Kept, Contents, VersionsOk, Log.All, Log.Safe, Log.Intact, Store.Inserted;
    var t := s.(v := Installed(s.v, s.flush.next), imm := None, flush := NoFlush);
    if s.compact.Merging? {
      var inputs, isBase := s.compact.inputs, s.compact.isBase;
      VersionTables(s);
      var rest, added := s.v.tables - inputs, t.v.tables - s.v.tables;
      assert t.v.tables - inputs == rest + added && inputs + rest == s.v.tables;
      ContentsOfUnion(s.disk.tables, rest, added);
      ContentsOfUnion(s.disk.tables, inputs, rest);
      assert Newer(Contents(s.disk.tables, added), Contents(s.disk.tables, inputs));
      assert forall n | n in s.compact.outputs :: Private(s, n) && Private(t, n);
    }
  }

  // Background work gives up after an error: nothing on disk is touched.
  lemma GiveUpKeeps(s: Store, t: Store)
    requires Running(s) && t == s.(flush := NoFlush, bgError := true, pending := t.pending, compact := t.compact)
    requires t.pending <= s.pending
    requires t.compact.NoCompact? || (t.compact == s.compact && t.pending == s.pending)
    ensures Running(t)
  {
    hide SequencesOk, GroupOk, MemoryOk, OldLogsOk, PinsOk, Sound, PinTablesBelow;
    hide Contents, Kept, Above;
    SameIssued(s, t);
    GiveUpKeepsMemory(s, t);
    PinsStay(s, t);
    if t.compact.Merging? {
      assert forall n | n in s.compact.outputs :: Private(s, n) && Private(t, n);
    }
  }

  lemma GiveUpKeepsMemory(s: Store, t: Store)
    requires SequencesOk(s) && GroupOk(s) && MemoryOk(s) && OldLogsOk(s)
    requires t.disk == s.disk && t.mems == s.mems && t.logfile == s.logfile && t.imm == s.imm && t.v == s.v
    requires t.group == s.group && t.hist == s.hist
    ensures SequencesOk(t) && GroupOk(t) && MemoryOk(t) && OldLogsOk(t)
  {
    hide Newer, Unique, AllParse, UpTo, LogsBetween, Log.All, Log.Safe, Log.Intact, Batch.All, Batch.Prefix;
    SameIssued(s, t);
    assert t.Mem() == s.Mem() && t.Imm() == s.Imm();
  }

  // ---- DoCompactionWork --------------------------------------------------------------------

  lemma CompactStartKeeps(s: Store, inputs: set<nat>, isBase: Key -> bool)
    requires Inv(s) && CanCompact(s, inputs, isBase)
    ensures Inv(CompactStart(s, inputs, isBase))
  {
    hide SequencesOk, GroupOk, MemoryOk, OldLogsOk, PinsOk, Sound, PinTablesBelow;
    hide Kept, Above;
    var t := CompactStart(s, inputs, isBase);
    SameIssued(s, t);
    GiveUpKeepsMemory(s, t);
    PinsStay(s, t);
  }

  lemma OpenOutputKeeps(s: Store)
    requires Inv(s) && CanMerge(s)
    ensures Inv(OpenOutput(s))
  {
    hide VersionsOk, SequencesOk, GroupOk, MemoryOk, OldLogsOk, SnapshotsOk, PinsOk, CompactOk, PinTablesBelow, Store.InManifestWrite;
    var t, n := OpenOutput(s), s.v.next;
    NextIsUnused(s);
    assert t.InManifestWrite() == s.InManifestWrite() by { NoManifestWrite(s); NoManifestWrite(t); }
    TableKeepsVersions(s, t, n);
    TableKeepsPins(s, t, n);
    TableKeepsMemory(s, t, n);
    BelowNext(s.pins, n);
    OpenOutputKeepsMerge(s);
  }

  lemma OpenOutputKeepsMerge(s: Store)
    requires CompactOk(s) && CanMerge(s) && Unused(s, s.v.next) && s.v.next !in s.pending
    ensures CompactOk(OpenOutput(s))
  {
    hide Kept, Above, Contents;
    var t, n := OpenOutput(s), s.v.next;
    OutputsArePending(s);
    SameContentsThroughout(s.disk.tables, t.disk.tables, s.compact.inputs, n);
    SameContentsThroughout(s.disk.tables, t.disk.tables, s.v.tables - s.compact.inputs, n);
    SameContentsThroughout(s.disk.tables, t.disk.tables, s.compact.outputs, n);
    ContentsOfUnion(t.disk.tables, s.compact.outputs, {n});
    ContentsOfOne(t.disk.tables, n);
    assert Contents(t.disk.tables, t.compact.outputs) == Contents(s.disk.tables, s.compact.outputs);
    forall m | m in t.compact.outputs ensures Private(t, m) {
      if m != n { assert Private(s, m); }
    }
  }

  lemma WriteOutputKeeps(s: Store, n: nat, e: Entry)
    requires Inv(s) && CanWriteOutput(s, n, e)
    ensures Inv(WriteOutput(s, n, e))
  {
    hide VersionsOk, SequencesOk, GroupOk, MemoryOk, OldLogsOk, SnapshotsOk, PinsOk, PinTablesBelow, Store.InManifestWrite;
    hide Kept, Above, Contents;
    var t := WriteOutput(s, n, e);
    assert t.InManifestWrite() == s.InManifestWrite() == None by { NoManifestWrite(s); NoManifestWrite(t); }
    assert Private(s, n) && Unused(s, n);
    TableKeepsVersions(s, t, n);
    TableKeepsPins(s, t, n);
    TableKeepsMemory(s, t, n);
    WriteOutputKeepsMerge(s, n, e);
  }

  lemma WriteOutputKeepsMerge(s: Store, n: nat, e: Entry)
    requires CompactOk(s) && CanWriteOutput(s, n, e)
    ensures CompactOk(WriteOutput(s, n, e))
  {
    hide Kept, Above;
    var t := WriteOutput(s, n, e);
    assert Private(s, n);
    SameContentsThroughout(s.disk.tables, t.disk.tables, s.compact.inputs, n);
    SameContentsThroughout(s.disk.tables, t.disk.tables, s.v.tables - s.compact.inputs, n);
    assert Contents(t.disk.tables, t.compact.outputs) <= Contents(s.disk.tables, s.compact.outputs) + {e};
    assert forall m | m in s.compact.outputs :: Private(s, m) && Private(t, m);
  }

  // The files the merge loop wrote, under the numbers it was given.
  ghost predicate WrittenAs(s: Store, outputs: seq<Output>, numbers: seq<nat>)
    requires s.compact.Merging?
  {
    && |numbers| == |outputs|
    && (forall n :: n in s.compact.outputs <==> n in numbers)
    && (forall k | 0 <= k < |numbers| :: numbers[k] in s.disk.tables && s.disk.tables[numbers[k]] == DbIter.EntrySet(outputs[k].entries))
  }

  lemma {:induction false} ConcatEntries(outputs: seq<Output>, e: Entry)
    ensures e in DbIter.EntrySet(Concat(outputs)) <==> exists k :: 0 <= k < |outputs| && e in outputs[k].entries
    decreases |outputs|
  {
    if outputs != [] {
      var n := |outputs| - 1;
      ConcatEntries(outputs[..n], e);
      assert forall k | 0 <= k < n :: outputs[..n][k] == outputs[k];
      assert e in Concat(outputs) <==> e in Concat(outputs[..n]) || e in outputs[n].entries;
    }
  }

  // When the loop of DoCompactionWork is through, its outputs may be installed:
  // they hold exactly what the rule keeps of the input tables.
  lemma MergedOutputsInstall(s: Store, cmp: Comparator, input: seq<Entry>, outputs: seq<Output>, numbers: seq<nat>)
    requires Inv(s) && CanMerge(s) && WrittenAs(s, outputs, numbers)
    requires TotalOrder(cmp) && DbIter.Sorted(cmp, input) && s.compact.smallest < MAX_SEQUENCE
    requires DbIter.EntrySet(input) == Contents(s.disk.tables, s.compact.inputs)
    requires Concat(outputs) == Survivors(input, s.compact.smallest, s.compact.isBase, |input|)
    ensures CanCompactInstall(s)
  {
    hide Kept, Above, Sound, GroupOk, MemoryOk, OldLogsOk, NumbersOk, FlushOk, SnapshotsOk, PinsOk, Concat, Survivors, Unique, TotalOrder, DbIter.Sorted;
    var c := s.compact;
    FlushedIsIssued(s);
    VersionTables(s);
    OutputsArePending(s);
    var inputs := Contents(s.disk.tables, c.inputs);
    assert inputs <= s.v.flushed;
    assert AllParse(inputs);
    SurvivorsMeetRule(cmp, input, c.smallest, c.isBase);
    forall e ensures e in Contents(s.disk.tables, c.outputs) <==> e in DbIter.EntrySet(Concat(outputs)) {
      ConcatEntries(outputs, e);
      if n :| n in c.outputs && n in s.disk.tables && e in s.disk.tables[n] {
        var k :| 0 <= k < |numbers| && numbers[k] == n;
        assert e in outputs[k].entries;
      }
      if k :| 0 <= k < |outputs| && e in outputs[k].entries {
        assert numbers[k] in c.outputs && e in s.disk.tables[numbers[k]];
      }
    }
  }

  lemma CompactInstallKeeps(s: Store)
    requires Inv(s) && CanCompactInstall(s)
    ensures Inv(CompactInstall(s))
  {
    hide SequencesOk, GroupOk, MemoryOk, OldLogsOk, PinsOk, TablesOk, LogsOk, Covers, PinTablesBelow, NumbersOk;
    hide Kept, Above, Contents, Store.Issued;
    var t := CompactInstall(s);
    SameIssued(s, t);
    GiveUpKeepsMemory(s, t);
    PinsStay(s, t);
    CompactedTables(s);
    assert VersionOk(s, s.v) && t.compact.next.log == s.v.log && t.compact.next.flushed == s.v.flushed;
    CompactedLogs(s, t.compact.next);
    FloorsBelow(s);
    NumbersStay(s, t);
  }

  lemma NumbersStay(s: Store, t: Store)
    requires NumbersOk(s) && t.logfile == s.logfile && t.v.next == s.v.next && t.pending == s.pending && t.pins == s.pins
    ensures NumbersOk(t)
  {
  }

  lemma CompactedLogs(s: Store, next: Version)
    requires VersionOk(s, s.v) && next.log == s.v.log && next.flushed == s.v.flushed
    ensures LogsOk(s.disk.logs, next, s.Issued()) && Covers(s.disk.logs, next, s.hist)
  {
    hide LogsFrom, IntactFrom, SafeFrom, Newer, Store.Issued;
  }

  // With the outputs in place of the inputs every permitted read is the same.
  lemma CompactedTables(s: Store)
    requires VersionsOk(s) && SequencesOk(s) && NumbersOk(s) && CompactOk(s) && CanCompactInstall(s)
    ensures TablesOk(s.disk.tables, CompactInstall(s).compact.next)
  {
    hide Contents, Kept, Above, Agree, LogsOk, Covers, Store.Issued, Store.InManifestWrite, AllParse, Unique;
    var c, next := s.compact, CompactInstall(s).compact.next;
    var tables, rest := s.disk.tables, s.v.tables - s.compact.inputs;
    assert VersionOk(s, s.v);
    assert s.v.tables == rest + c.inputs;
    ContentsOfUnion(tables, rest, c.inputs);
    ContentsOfUnion(tables, rest, c.outputs);
    assert forall n | n in c.outputs :: Private(s, n);
    var input := Contents(tables, c.inputs);
    FlushedIsIssued(s);
    AllOfThem(s.Issued(), input, Contents(tables, rest));
    CompactionAgrees(Contents(tables, rest), input, c.isBase, c.smallest);
    AgreeChain(Contents(tables, rest) + Kept(input, c.smallest, c.isBase), Contents(tables, s.v.tables), s.v.flushed, c.smallest, s.v.floor);
    KeptIsInput(input, c.smallest, c.isBase);
  }

  lemma FlushedIsIssued(s: Store)
    requires VersionsOk(s)
    ensures s.v.flushed <= s.Issued()
  {
    hide TablesOk, Covers, LogsFrom, Newer, Store.Issued, Store.InManifestWrite;
    assert VersionOk(s, s.v);
  }

  lemma AllOfThem(issued: set<Entry>, a: set<Entry>, b: set<Entry>)
    requires Unique(issued) && AllParse(issued) && a <= issued && b <= issued
    ensures Unique(b + a) && AllParse(a)
  {
  }

  lemma KeptIsInput(input: set<Entry>, smallest: nat, isBase: Key -> bool)
    ensures Kept(input, smallest, isBase) <= input
  {
  }

  lemma AgreeChain(a: set<Entry>, b: set<Entry>, c: set<Entry>, m: nat, n: nat)
    requires Agree(a, b, m) && Agree(b, c, n)
    ensures Agree(a, c, Max(m, n))
  {
    hide Read;
  }

  lemma CompactInstalledKeeps(s: Store, ok: bool)
    requires Inv(s) && CanCompactInstalled(s, ok)
    ensures Inv(CompactInstalled(s, ok))
  {
    hide VersionsOk, SequencesOk, GroupOk, MemoryOk, OldLogsOk, PinsOk, PinTablesBelow, Store.InManifestWrite;
    hide CollectGarbage;
    var t := s.(pending := s.pending - s.compact.files, compact := NoCompact);
    if ok {
      var u := t.(v := Installed(s.v, s.compact.next));
      InstallCompactKeepsVersions(s);
      assert u.InManifestWrite() == None by { NoManifestWrite(u); }
      InstallCompactKeepsMemory(s, u);
      PinsStay(s, u);
      GarbageKeeps(u);
      GarbageMode(u);
    } else {
      GiveUpKeeps(s, t.(bgError := true));
    }
  }

  lemma InstallCompactKeepsVersions(s: Store)
    requires VersionsOk(s) && CanCompactInstalled(s, true) && s.flush.NoFlush?
    ensures VersionsOk(s.(pending := s.pending - s.compact.files, compact := NoCompact, v := Installed(s.v, s.compact.next)))
  {
    hide Sound, Store.Issued;
    var t := s.(pending := s.pending - s.compact.files, compact := NoCompact, v := Installed(s.v, s.compact.next));
    SameIssued(s, t);
    Restamped(s.disk, s.compact.next, t.v, s.Issued(), t.Issued(), s.hist, t.hist);
  }

  lemma InstallCompactKeepsMemory(s: Store, t: Store)
    requires SequencesOk(s) && GroupOk(s) && MemoryOk(s) && OldLogsOk(s)
    requires t.disk == s.disk && t.mems == s.mems && t.logfile == s.logfile && t.imm == s.imm
    requires t.v.last == s.v.last && t.v.log == s.v.log && t.v.flushed == s.v.flushed
    requires t.group == s.group && t.hist == s.hist
    ensures SequencesOk(t) && GroupOk(t) && MemoryOk(t) && OldLogsOk(t)
  {
    hide Newer, Unique, AllParse, UpTo, LogsBetween, Log.All, Log.Safe, Log.Intact, Batch.All, Batch.Prefix;
    SameIssued(s, t);
    assert t.Mem() == s.Mem() && t.Imm() == s.Imm();
  }

  lemma CompactAbortKeeps(s: Store)
    requires Inv(s) && CanMerge(s)
    ensures Inv(CompactAbort(s))
  {
    hide Running;
    GiveUpKeeps(s, CompactAbort(s));
  }

  // ---- readers ----------------------------------------------------------------------------

  // Whatever is in flight, a reader that begins now sees what is committed.
  lemma ReadsCommitted(s: Store, k: Key, snapshot: nat)
    requires VersionsOk(s) && SequencesOk(s) && GroupOk(s) && MemoryOk(s)
    requires s.v.floor <= snapshot <= s.v.last
    ensures Read(Contents(s.disk.tables, s.v.tables) + s.Imm() + s.Mem(), k, snapshot) == Read(s.hist.committed, k, snapshot)
  {
    hide Contents, Log.All, Log.Safe, Log.Intact, Newer, LogsFrom, IntactFrom, SafeFrom, Store.InManifestWrite, Read, Covers, Unique, UpTo, AllParse, Batch.All, Batch.Prefix;
    var a, b, imm, mem := Contents(s.disk.tables, s.v.tables), s.v.flushed, s.Imm(), s.Mem();
    assert VersionOk(s, s.v);
    MemoryAbove(s);
    assert b + (imm + mem) == s.hist.committed + s.Inserted() && a + (imm + mem) == a + imm + mem;
    NewerLayer(a, b, imm + mem, k, snapshot);
    InsertedIsNew(s);
    FutureIsInvisible(s.hist.committed, s.Inserted(), k, snapshot);
  }

  lemma MemoryAbove(s: Store)
    requires MemoryOk(s) && SequencesOk(s) && GroupOk(s)
    ensures Newer(s.Imm() + s.Mem(), s.v.flushed)
    ensures Unique(s.v.flushed + (s.Imm() + s.Mem())) && Unique(s.hist.committed + s.Inserted())
  {
    hide Log.All, Log.Safe, Log.Intact, AllParse;
    assert s.Inserted() <= s.InFlight();
    assert s.v.flushed + (s.Imm() + s.Mem()) <= s.Issued();
  }

  lemma InsertedIsNew(s: Store)
    requires GroupOk(s)
    ensures forall e | e in s.Inserted() :: e.seqno > s.v.last
  {
    hide Log.All, Log.Safe, Log.Intact;
  }

  lemma BeginReadKeeps(s: Store, id: nat, snapshot: nat)
    requires Inv(s) && CanRead(s, id, snapshot)
    ensures Inv(BeginRead(s, id, snapshot))
  {
    hide SequencesOk, GroupOk, MemoryOk, OldLogsOk, Sound, PinOk, Contents, Kept, Above, Read;
    var t := BeginRead(s, id, snapshot);
    SameIssued(s, t);
    GiveUpKeepsMemory(s, t);
    assert s.v.floor <= snapshot <= s.v.last by { FloorsBelow(s); }
    NewPinOk(s, id, snapshot);
    BeginReadKeepsPins(s, id, snapshot);
    VersionTables(s);
    BeginReadKeepsPrivate(s, id, snapshot);
  }

  lemma BeginReadKeepsPrivate(s: Store, id: nat, snapshot: nat)
    ensures forall n | Private(s, n) :: Private(BeginRead(s, id, snapshot), n)
  {
  }

  lemma BeginReadKeepsPins(s: Store, id: nat, snapshot: nat)
    requires PinsOk(s) && CanRead(s, id, snapshot) && PinOk(s, BeginRead(s, id, snapshot).pins[id])
    ensures PinsOk(BeginRead(s, id, snapshot))
  {
    hide Read, Contents;
    var t := BeginRead(s, id, snapshot);
    SameIssued(s, t);
    forall i | i in t.pins ensures PinOk(t, t.pins[i]) {
      assert PinOk(s, t.pins[i]);
      assert t.PinContents(t.pins[i]) == s.PinContents(t.pins[i]);
    }
  }

  lemma NewPinOk(s: Store, id: nat, snapshot: nat)
    requires VersionsOk(s) && SequencesOk(s) && GroupOk(s) && MemoryOk(s)
    requires s.v.floor <= snapshot <= s.v.last
    ensures PinOk(s, BeginRead(s, id, snapshot).pins[id])
  {
    hide VersionsOk, SequencesOk, GroupOk, Read, Contents, Store.Issued;
    var p := BeginRead(s, id, snapshot).pins[id];
    PinHolds(s, id, snapshot);
    forall k ensures Read(s.PinContents(p), k, p.snapshot) == Read(p.seen, k, p.snapshot) {
      ReadsCommitted(s, k, snapshot);
    }
    VersionTables(s);
  }

  lemma PinHolds(s: Store, id: nat, snapshot: nat)
    requires VersionsOk(s) && SequencesOk(s) && GroupOk(s) && MemoryOk(s)
    ensures var p := BeginRead(s, id, snapshot).pins[id];
            && s.PinContents(p) == Contents(s.disk.tables, s.v.tables) + s.Imm() + s.Mem()
            && s.PinContents(p) <= s.Issued() && p.mem in s.mems && (p.imm.Some? ==> p.imm.value < s.logfile && p.imm.value in s.mems)
  {
    hide Contents, Log.All, Log.Safe, Log.Intact, Newer, Unique, AllParse, UpTo, Sound, Store.InManifestWrite, VersionsOk;
    VersionTables(s);
    assert s.Inserted() <= s.InFlight();
  }

  lemma EndReadKeeps(s: Store, id: nat)
    requires Inv(s) && s.mode.Up?
    ensures Inv(EndRead(s, id))
  {
    hide SequencesOk, GroupOk, MemoryOk, OldLogsOk, Sound, PinOk, Contents, Kept, Above, Read;
    var t := EndRead(s, id);
    SameIssued(s, t);
    GiveUpKeepsMemory(s, t);
    EndReadKeepsPins(s, id);
    EndReadKeepsPrivate(s, id);
  }

  lemma EndReadKeepsPrivate(s: Store, id: nat)
    ensures forall n | Private(s, n) :: Private(EndRead(s, id), n)
  {
  }

  lemma EndReadKeepsPins(s: Store, id: nat)
    requires PinsOk(s)
    ensures PinsOk(EndRead(s, id))
  {
    hide Read, Contents;
    var t := EndRead(s, id);
    SameIssued(s, t);
    forall i | i in t.pins ensures PinOk(t, t.pins[i]) {
      assert PinOk(s, t.pins[i]);
      assert t.PinContents(t.pins[i]) == s.PinContents(t.pins[i]);
    }
  }
}
