// How the pieces of the store's invariant survive changes to single files
// and logs.
module StorageFrames {
  import opened Bytes
  import opened Entries
  import opened Compaction
  import opened Storage
  import opened StorageInvariant

  // ---- tables -----------------------------------------------------------------

  ghost predicate SameTables(a: map<nat, set<Entry>>, b: map<nat, set<Entry>>, live: set<nat>)
  {
    forall n | n in live && n in a :: n in b && b[n] == a[n]
  }

  lemma SameContents(a: map<nat, set<Entry>>, b: map<nat, set<Entry>>, live: set<nat>)
    requires SameTables(a, b, live) && live <= a.Keys
    ensures Contents(a, live) == Contents(b, live) && live <= b.Keys
  {
  }

  lemma ContentsOfUnion(tables: map<nat, set<Entry>>, x: set<nat>, y: set<nat>)
    ensures Contents(tables, x + y) == Contents(tables, x) + Contents(tables, y)
  {
  }

  lemma ContentsOfOne(tables: map<nat, set<Entry>>, n: nat)
    requires n in tables
    ensures Contents(tables, {n}) == tables[n]
  {
  }

  // ---- logs ----------------------------------------------------------------------

  lemma AppendedEntries(records: seq<Batch>, b: Batch)
    ensures RecordEntries(records + [b]) == RecordEntries(records) + b.All()
  {
    assert forall r :: r in records + [b] <==> r in records || r == b;
  }

  lemma PartEntries(a: seq<Batch>, b: seq<Batch>)
    requires forall r | r in a :: r in b
    ensures RecordEntries(a) <= RecordEntries(b)
  {
  }

  // Safe records are intact, intact ones were sent.
  lemma LogLayers(log: Log)
    ensures log.Safe() <= log.Intact() <= log.All()
  {
    PartEntries(log.records[..Min(log.synced, |log.records|)], log.records);
    PartEntries(log.records, log.Sent());
  }

  lemma AppendedLog(log: Log, b: Batch, tears: bool)
    ensures var longer := log.Add(b, tears);
            && longer.All() == log.All() + b.All() && longer.Sent() == log.Sent() + [b]
            && log.Safe() <= longer.Safe() && log.Intact() <= longer.Intact()
            && (!longer.Torn() ==> b.All() <= longer.Intact())
  {
    hide RecordEntries, Batch.All;
    var longer := log.Add(b, tears);
    assert longer.Sent() == log.Sent() + [b];
    AppendedEntries(log.Sent(), b);
    AppendedEntries(log.records, b);
    var m, n := Min(log.synced, |log.records|), Min(log.synced, |longer.records|);
    assert log.records[..m] == longer.records[..m];
    PartEntries(log.records[..m], longer.records[..n]);
  }

  lemma SyncedLog(log: Log)
    ensures var synced := log.(synced := |log.records|);
            && synced.All() == log.All() && synced.Intact() == log.Intact() && synced.Safe() == log.Intact()
            && synced.Sent() == log.Sent()
    ensures log.Safe() <= log.Intact() <= log.All()
  {
    LogLayers(log);
    assert log.records[..|log.records|] == log.records;
  }

  // Replacing one log by one that holds more.
  lemma GrownLog(logs: map<nat, Log>, n: nat, log: Log, more: set<Entry>, from: nat)
    requires n in logs && n >= from && log.All() == logs[n].All() + more
    requires logs[n].Safe() <= log.Safe() && logs[n].Intact() <= log.Intact()
    ensures var grown := logs[n := log];
            && LogsFrom(grown, from) == LogsFrom(logs, from) + more
            && IntactFrom(logs, from) + log.Intact() <= IntactFrom(grown, from)
            && SafeFrom(logs, from) + log.Safe() <= SafeFrom(grown, from)
  {
    hide Log.All, Log.Safe, Log.Intact;
    var grown := logs[n := log];
    forall e | e in LogsFrom(logs, from) + more ensures e in LogsFrom(grown, from) {
      if e in more { assert n in grown && e in grown[n].All(); }
      else { var m :| m in logs && m >= from && e in logs[m].All(); assert m in grown && e in grown[m].All(); }
    }
    forall e | e in IntactFrom(logs, from) + log.Intact() ensures e in IntactFrom(grown, from) {
      if e in log.Intact() { assert n in grown && e in grown[n].Intact(); }
      else { var m :| m in logs && m >= from && e in logs[m].Intact(); assert m in grown && e in grown[m].Intact(); }
    }
    forall e | e in SafeFrom(logs, from) + log.Safe() ensures e in SafeFrom(grown, from) {
      if e in log.Safe() { assert n in grown && e in grown[n].Safe(); }
      else { var m :| m in logs && m >= from && e in logs[m].Safe(); assert m in grown && e in grown[m].Safe(); }
    }
  }

  lemma NoRecords()
    ensures NEW_LOG.All() == {} && NEW_LOG.Intact() == {} && NEW_LOG.Safe() == {} && NEW_LOG.Sent() == []
  {
  }

  lemma FreshLog(logs: map<nat, Log>, n: nat, from: nat)
    requires n !in logs
    ensures LogsFrom(logs[n := NEW_LOG], from) == LogsFrom(logs, from)
    ensures IntactFrom(logs[n := NEW_LOG], from) == IntactFrom(logs, from)
    ensures SafeFrom(logs[n := NEW_LOG], from) == SafeFrom(logs, from)
  {
    NoRecords();
    hide Log.All, Log.Safe, Log.Intact;
    var more := logs[n := NEW_LOG];
    forall e | e in LogsFrom(logs, from) ensures e in LogsFrom(more, from) {
      var m :| m in logs && m >= from && e in logs[m].All();
      assert m in more && e in more[m].All();
    }
    forall e | e in IntactFrom(logs, from) ensures e in IntactFrom(more, from) {
      var m :| m in logs && m >= from && e in logs[m].Intact();
      assert m in more && e in more[m].Intact();
    }
    forall e | e in SafeFrom(logs, from) ensures e in SafeFrom(more, from) {
      var m :| m in logs && m >= from && e in logs[m].Safe();
      assert m in more && e in more[m].Safe();
    }
  }

  lemma LogIsIn(logs: map<nat, Log>, n: nat, from: nat)
    requires n in logs && from <= n
    ensures logs[n].All() <= LogsFrom(logs, from)
    ensures logs[n].Intact() <= IntactFrom(logs, from) && logs[n].Safe() <= SafeFrom(logs, from)
  {
    hide Log.All, Log.Safe, Log.Intact;
  }

  lemma OlderLogs(a: map<nat, Log>, b: map<nat, Log>, from: nat, to: nat)
    requires forall n | n < to :: (n in a <==> n in b) && (n in a ==> b[n].All() == a[n].All())
    ensures LogsBetween(a, from, to) == LogsBetween(b, from, to)
  {
    hide Log.All;
    forall e ensures e in LogsBetween(a, from, to) <==> e in LogsBetween(b, from, to) {
      if n :| n in a && from <= n < to && e in a[n].All() { assert n in b && e in b[n].All(); }
      if n :| n in b && from <= n < to && e in b[n].All() { assert n in a && e in a[n].All(); }
    }
  }

  // Safe entries are intact, and intact ones are entries.
  lemma SafeIsAll(logs: map<nat, Log>, from: nat)
    ensures SafeFrom(logs, from) <= IntactFrom(logs, from) <= LogsFrom(logs, from)
  {
    hide Log.All, Log.Safe, Log.Intact;
    forall e | e in SafeFrom(logs, from) ensures e in IntactFrom(logs, from) {
      var n :| n in logs && n >= from && e in logs[n].Safe();
      LogLayers(logs[n]);
      assert e in logs[n].Intact();
    }
    forall e | e in IntactFrom(logs, from) ensures e in LogsFrom(logs, from) {
      var n :| n in logs && n >= from && e in logs[n].Intact();
      LogLayers(logs[n]);
      assert e in logs[n].All();
    }
  }

  // ---- versions ----------------------------------------------------------------------

  // A version stays sound while its tables stay put, its logs keep what they
  // hold, and what must be covered does not grow.
  lemma SoundStays(d: Disk, d': Disk, w: Version, issued: set<Entry>, issued': set<Entry>, h: History, h': History)
    requires Sound(d, w, issued, h)
    requires SameTables(d.tables, d'.tables, w.tables)
    requires LogsFrom(d'.logs, w.log) == LogsFrom(d.logs, w.log)
    requires IntactFrom(d.logs, w.log) <= IntactFrom(d'.logs, w.log) && SafeFrom(d.logs, w.log) <= SafeFrom(d'.logs, w.log)
    requires issued <= issued' && h'.acked <= h.acked && h'.durable <= h.durable
    ensures Sound(d', w, issued', h')
  {
    hide Contents, LogsFrom, IntactFrom, SafeFrom, Agree, UpTo, Newer;
    SameContents(d.tables, d'.tables, w.tables);
  }

  lemma SameSound(d: Disk, d': Disk, w: Version, issued: set<Entry>, h: History)
    requires Sound(d, w, issued, h) && SameTables(d.tables, d'.tables, w.tables) && d.logs == d'.logs
    ensures Sound(d', w, issued, h)
  {
    hide Sound, SameTables;
    SoundStays(d, d', w, issued, issued, h, h);
  }

  // ---- the parts of the invariant -------------------------------------------------------

  lemma PinsStay(s: Store, t: Store)
    requires PinsOk(s) && t.disk.tables == s.disk.tables && t.mems == s.mems && t.logfile == s.logfile
    requires t.pins == s.pins && s.v.last <= t.v.last && s.Issued() <= t.Issued()
    ensures PinsOk(t)
  {
    hide Read, Store.Issued, Contents;
    forall id | id in t.pins ensures PinOk(t, t.pins[id]) {
      var p := t.pins[id];
      assert PinOk(s, p);
      assert t.PinContents(p) == s.PinContents(p);
    }
  }

  // The background work does not notice a step that leaves alone the files,
  // the pins, the snapshots and imm_.
  ghost predicate SameBackground(s: Store, t: Store)
  {
    && t.flush == s.flush && t.compact == s.compact && t.pending == s.pending && t.pins == s.pins
    && t.disk.tables == s.disk.tables && t.disk.manifest == s.disk.manifest
    && t.v.tables == s.v.tables && t.v.flushed == s.v.flushed && t.v.floor == s.v.floor && t.v.log == s.v.log
    && s.v.last <= t.v.last && t.imm == s.imm && t.Imm() == s.Imm()
    && t.logfile == s.logfile && t.snapshots == s.snapshots && t.mode == s.mode
  }

  lemma BackgroundStays(s: Store, t: Store)
    requires SameBackground(s, t)
    ensures FlushOk(s) ==> FlushOk(t)
    ensures CompactOk(s) ==> CompactOk(t)
    ensures t.InManifestWrite() == s.InManifestWrite()
  {
    hide Contents, Kept, Above, Store.Imm;
    assert forall n :: Private(t, n) <==> Private(s, n);
  }

  // Memory's counters moving on leaves every version sound.
  lemma VersionsStay(s: Store, t: Store)
    requires VersionsOk(s) && t.disk == s.disk && t.InManifestWrite() == s.InManifestWrite()
    requires t.v == s.v.(last := t.v.last, next := t.v.next) && s.v.last <= t.v.last && s.v.next <= t.v.next
    requires s.Issued() <= t.Issued() && t.logfile == s.logfile
    requires t.hist.acked == s.hist.acked && t.hist.durable == s.hist.durable
    ensures VersionsOk(t)
  {
    hide Store.Issued, Store.InManifestWrite, Sound;
    forall w: Version | VersionOk(s, w) ensures VersionOk(t, w) {
      Restamped(s.disk, w, w, s.Issued(), t.Issued(), s.hist, t.hist);
    }
    Restamped(s.disk, s.v, t.v, s.Issued(), t.Issued(), s.hist, t.hist);
  }

  lemma Restamped(d: Disk, w: Version, w': Version, issued: set<Entry>, issued': set<Entry>, h: History, h': History)
    requires Sound(d, w, issued, h) && issued <= issued' && h'.acked == h.acked && h'.durable == h.durable
    requires w' == w.(last := w'.last, next := w'.next) && w.last <= w'.last && w.next <= w'.next
    ensures Sound(d, w', issued', h')
  {
    hide Contents, LogsFrom, IntactFrom, SafeFrom, Agree, Newer;
  }

  lemma FloorsBelow(s: Store)
    requires VersionsOk(s)
    ensures s.v.floor <= s.v.last && s.v.log <= s.logfile
    ensures s.InManifestWrite().Some? ==> s.InManifestWrite().value.floor <= s.v.last
  {
    hide Contents, Agree, Newer, LogsFrom, IntactFrom, SafeFrom, Store.Issued, Store.InManifestWrite;
  }
}
