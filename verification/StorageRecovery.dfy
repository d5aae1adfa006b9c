// Crashes at any moment, and recovery from what is left on disk.
module StorageRecovery {
  import opened Bytes
  import opened Entries
  import opened Compaction
  import opened Storage
  import opened StorageInvariant
  import opened StorageFrames
  import opened StorageBackground

  // Whatever the store is doing, the manifest on disk could be recovered from.
  lemma ManifestIsSound(s: Store)
    requires Inv(s)
    ensures Sound(s.disk, s.disk.manifest, s.Issued(), s.hist)
    ensures Unique(s.Issued()) && AllParse(s.Issued()) && s.hist.durable <= s.hist.acked <= s.hist.committed
    ensures s.hist.exposed <= s.hist.committed
  {
    hide Sound, GroupOk, MemoryOk, OldLogsOk, NumbersOk, FlushOk, CompactOk, SnapshotsOk, PinsOk, Unique, AllParse, UpTo;
    if s.mode.Up? {
      assert VersionOk(s, s.disk.manifest);
    } else {
      assert s.Issued() == s.hist.committed;
    }
  }

  // ---- crash ---------------------------------------------------------------------

  lemma {:induction false} PartIsPart(a: seq<Batch>, b: seq<Batch>)
    requires PartOf(a, b)
    ensures forall r | r in a :: r in b
    decreases |b|
  {
    if a != [] {
      assert a == [a[0]] + a[1..] && b == [b[0]] + b[1..];
      if a[0] == b[0] && PartOf(a[1..], b[1..]) {
        PartIsPart(a[1..], b[1..]);
      } else {
        PartIsPart(a, b[1..]);
      }
    }
  }

  lemma RemainingEntries(left: Log, log: Log)
    requires Remains(left, log)
    ensures left.Safe() == log.Safe() && left.Intact() <= log.Intact()
    ensures PartOf(left.Behind(), log.Behind()) ==> left.All() <= log.All()
  {
    hide RecordEntries;
    if PartOf(left.Behind(), log.Behind()) {
      PartIsPart(left.Behind(), log.Behind());
      PartEntries(left.Sent(), log.Sent());
    }
    PartEntries(left.records, log.records);
    var m := Min(log.synced, |log.records|);
    assert left.records[..Min(left.synced, |left.records|)] == log.records[..m];
  }

  lemma RemainingLogs(logs: map<nat, Log>, left: map<nat, Log>, from: nat)
    requires left.Keys == logs.Keys && forall n | n in left :: Remains(left[n], logs[n])
    ensures SafeFrom(left, from) == SafeFrom(logs, from)
    ensures (forall n | n in left :: PartOf(left[n].Behind(), logs[n].Behind())) ==> LogsFrom(left, from) <= LogsFrom(logs, from)
  {
    hide Log.All, Log.Safe, Log.Intact, Remains, PartOf;
    forall n | n in left
      ensures left[n].Safe() == logs[n].Safe() && (PartOf(left[n].Behind(), logs[n].Behind()) ==> left[n].All() <= logs[n].All())
    {
      RemainingEntries(left[n], logs[n]);
    }
    if forall n | n in left :: PartOf(left[n].Behind(), logs[n].Behind()) {
      forall e | e in LogsFrom(left, from) ensures e in LogsFrom(logs, from) {
        var n :| n in left && n >= from && e in left[n].All();
        assert n in logs && e in logs[n].All();
      }
    }
    forall e ensures e in SafeFrom(logs, from) <==> e in SafeFrom(left, from) {
      if n :| n in logs && n >= from && e in logs[n].Safe() { assert n in left && e in left[n].Safe(); }
      if n :| n in left && n >= from && e in left[n].Safe() { assert n in logs && e in logs[n].Safe(); }
    }
  }

  lemma CrashKeeps(s: Store, left: map<nat, Log>)
    requires Inv(s) && CanCrash(s, left) && NothingForged(s, left)
    ensures Inv(Crash(s, left))
  {
    hide Inv, TablesOk, Unique, AllParse, LogsFrom, IntactFrom, SafeFrom, Store.Issued, Newer, Remains, PartOf;
    ManifestIsSound(s);
    var t, m := Crash(s, left), s.disk.manifest;
    RemainingLogs(s.disk.logs, left, m.log);
    SafeIsAll(left, m.log);
    var before, found := Recoverable(s.disk), Recoverable(t.disk);
    assert found <= before <= s.Issued();
    SmallerIsFine(s.Issued(), found);
    OlderStays(LogsFrom(s.disk.logs, m.log), LogsFrom(left, m.log), m.flushed);
    assert Sound(t.disk, m, found, t.hist);
    DownInv(t);
  }

  lemma SmallerIsFine(a: set<Entry>, b: set<Entry>)
    requires Unique(a) && AllParse(a) && b <= a
    ensures Unique(b) && AllParse(b)
  {
  }

  lemma OlderStays(a: set<Entry>, b: set<Entry>, c: set<Entry>)
    requires Newer(a, c) && b <= a
    ensures Newer(b, c)
  {
  }

  lemma DownInv(s: Store)
    requires s == Closed(s.disk, s.hist) && Sound(s.disk, s.disk.manifest, s.hist.committed, s.hist)
    requires s.hist.committed == Recoverable(s.disk) && s.hist.failed == {}
    requires s.hist.acked + s.hist.exposed <= s.hist.committed && s.hist.durable <= s.hist.acked
    requires Unique(s.hist.committed) && AllParse(s.hist.committed)
    ensures Inv(s)
  {
    assert s.Issued() == s.hist.committed;
  }

  lemma RecoverTableKeeps(s: Store, n: nat, es: set<Entry>)
    requires Inv(s) && CanRecoverTable(s, n)
    ensures Inv(RecoverTable(s, n, es))
  {
    hide Sound, Unique, AllParse;
    var t := RecoverTable(s, n, es);
    SameIssued(s, t);
    SameSound(s.disk, t.disk, s.disk.manifest, s.Issued(), s.hist);
  }

  // ---- reopening --------------------------------------------------------------------

  lemma OpenStartKeeps(s: Store, added: set<nat>, newLog: nat, last: nat)
    requires Inv(s) && CanOpen(s, added, newLog, last)
    ensures Inv(OpenStart(s, added, newLog, last))
  {
    hide Sound, Unique, AllParse, LogsFrom, IntactFrom, SafeFrom, Contents;
    var t, m := OpenStart(s, added, newLog, last), s.disk.manifest;
    SameIssued(s, t);
    FreshLog(s.disk.logs, newLog, m.log);
    SoundStays(s.disk, t.disk, m, s.Issued(), t.Issued(), s.hist, t.hist);
    OpenedVersion(s, added, newLog, last);
    assert m.log <= newLog by { ManifestIsOlder(s, newLog); }
  }

  lemma ManifestIsOlder(s: Store, newLog: nat)
    requires Inv(s) && s.mode.Down? && NewLogNumber(s.disk, {}, newLog)
    ensures s.disk.manifest.log <= newLog
  {
  }

  // The version about to be written holds everything that was recovered.
  lemma OpenedVersion(s: Store, added: set<nat>, newLog: nat, last: nat)
    requires Inv(s) && CanOpen(s, added, newLog, last)
    ensures var t := OpenStart(s, added, newLog, last);
            Sound(t.disk, t.mode.next, t.Issued(), t.hist)
  {
    hide Unique, AllParse, LogsFrom, IntactFrom, SafeFrom, Contents, Agree, Newer, Log.All, Log.Safe, Log.Intact;
    var t, m := OpenStart(s, added, newLog, last), s.disk.manifest;
    var logged := LogsFrom(s.disk.logs, m.log);
    SameIssued(s, t);
    assert s.Issued() == s.hist.committed == m.flushed + logged;
    ContentsOfUnion(s.disk.tables, m.tables, added);
    AgreeUnderLayer(Contents(s.disk.tables, m.tables), m.flushed, logged, m.floor);
    EmptyTail(t.disk.logs, newLog);
  }

  lemma EmptyTail(logs: map<nat, Log>, n: nat)
    requires n in logs && logs[n] == NEW_LOG && forall k | k in logs :: k <= n
    ensures LogsFrom(logs, n) == {} && IntactFrom(logs, n) == {} && SafeFrom(logs, n) == {}
    ensures forall flushed :: Newer(LogsFrom(logs, n), flushed)
  {
    hide Log.All, Log.Safe, Log.Intact;
    NoRecords();
    assert forall k | k in logs && k >= n :: k == n;
  }

  lemma CommitOpenKeeps(s: Store)
    requires Inv(s) && s.mode.Opening? && CanCommit(s)
    ensures Inv(CommitManifest(s))
  {
    hide Sound, Unique, AllParse, LogsFrom, IntactFrom, SafeFrom;
    var t := CommitManifest(s);
    SameIssued(s, t);
    EmptyTail(t.disk.logs, s.logfile);
    SameSound(s.disk, t.disk, s.mode.next, s.Issued(), s.hist);
  }

  lemma FinishOpenKeeps(s: Store)
    requires Inv(s) && CanFinishOpen(s)
    ensures Inv(FinishOpen(s))
  {
    hide CollectGarbage, Running, Sound;
    var t := s.(mode := Up, v := s.mode.next, mems := map[s.logfile := {}]);
    NoManifestWrite(t);
    NoRecords();
    FreshStore(t);
    GarbageKeeps(t);
    GarbageMode(t);
  }

  // A store with an empty memtable, an empty log and everything flushed.
  lemma FreshStore(t: Store)
    requires t.mode.Up? && t == Closed(t.disk, t.hist).(mode := Up, v := t.v, logfile := t.logfile, mems := map[t.logfile := {}])
    requires Sound(t.disk, t.v, t.hist.committed, t.hist)
    requires Sound(t.disk, t.disk.manifest, t.hist.committed, t.hist)
    requires Behind(t.disk.manifest, t.v, t.logfile) && Behind(t.v, t.v, t.logfile)
    requires t.v.flushed == t.hist.committed && t.hist.failed == {}
    requires t.hist.acked + t.hist.exposed <= t.hist.committed && t.hist.durable <= t.hist.acked
    requires Unique(t.hist.committed) && AllParse(t.hist.committed)
    requires t.logfile in t.disk.logs && t.disk.logs[t.logfile] == NEW_LOG && t.logfile < t.v.next
    requires forall n | n in t.disk.logs :: n <= t.logfile && (n >= t.v.log ==> t.disk.logs[n].Sent() == [])
    ensures Running(t)
  {
    hide Contents, LogsFrom, IntactFrom, SafeFrom, Unique, AllParse, Agree;
    assert t.Issued() == t.hist.committed && t.Inserted() == {};
    assert UpTo(t.hist.committed, t.v.last);
    assert t.disk.logs[t.logfile].All() == {};
    assert LogsBetween(t.disk.logs, t.v.log, t.logfile) == {};
  }

  lemma OpenUnsavedKeeps(s: Store, newLog: nat)
    requires Inv(s) && CanOpenUnsaved(s, newLog)
    ensures Inv(OpenUnsaved(s, newLog))
  {
    hide CollectGarbage, Running, Sound, LogsFrom, IntactFrom, SafeFrom, Unique, AllParse;
    var m := s.disk.manifest;
    var t := s.(mode := Up, v := m.(next := newLog + 1), logfile := newLog, mems := map[newLog := {}],
                disk := s.disk.(logs := s.disk.logs[newLog := NEW_LOG]));
    NoManifestWrite(t);
    FreshLog(s.disk.logs, newLog, m.log);
    assert s.Issued() == s.hist.committed;
    SoundStays(s.disk, t.disk, m, s.Issued(), s.Issued(), s.hist, t.hist);
    Restamped(t.disk, m, t.v, s.Issued(), s.Issued(), t.hist, t.hist);
    NothingLogged(s.disk.logs, m.log);
    ManifestIsOlder(s, newLog);
    FreshStore(t);
    GarbageKeeps(t);
    GarbageMode(t);
  }

  lemma NothingLogged(logs: map<nat, Log>, from: nat)
    requires forall n | n in logs && n >= from :: logs[n].Sent() == []
    ensures LogsFrom(logs, from) == {}
  {
  }

  lemma InitialInv()
    ensures Inv(Initial())
  {
    var s := Initial();
    assert LogsFrom(s.disk.logs, 0) == {} && Contents(s.disk.tables, {}) == {};
    assert s.Issued() == {};
  }
}
