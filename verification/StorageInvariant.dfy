// What holds in every state of the store, and how reads survive changes of
// the sets they are made from.
module StorageInvariant {
  import opened DbFormat
  import opened Entries
  import opened Compaction
  import opened Storage

  // ---- sets of entries ------------------------------------------------------

  ghost predicate Unique(es: set<Entry>)
  {
    forall e, f | e in es && f in es && e.seqno == f.seqno :: e == f
  }

  ghost predicate Newer(a: set<Entry>, b: set<Entry>)
  {
    forall e, f | e in a && f in b :: e.seqno > f.seqno
  }

  ghost predicate UpTo(es: set<Entry>, last: nat)
  {
    forall e | e in es :: e.seqno <= last
  }

  lemma UniqueIsUniqueVersions(es: set<Entry>, sub: set<Entry>)
    requires Unique(es) && sub <= es
    ensures UniqueVersions(sub)
  {
  }

  // Reads depend only on what they can see.
  lemma SameVisible(a: set<Entry>, b: set<Entry>, k: Key, snapshot: nat)
    requires Unique(a) && Unique(b)
    requires forall e: Entry | e.user == k && e.VisibleAt(snapshot) :: e in a <==> e in b
    ensures Read(a, k, snapshot) == Read(b, k, snapshot)
  {
    UniqueIsUniqueVersions(a, a);
    UniqueIsUniqueVersions(b, b);
    if HasVersion(a, k, snapshot) {
      NewestExists(a, k, snapshot);
      var e :| Newest(a, k, snapshot, e);
      ReadIs(a, k, snapshot, e);
      ReadIs(b, k, snapshot, e);
    } else {
      ReadMiss(a, k, snapshot);
      ReadMiss(b, k, snapshot);
    }
  }

  // Entries past the snapshot are invisible: no part of a later group shows.
  lemma FutureIsInvisible(a: set<Entry>, future: set<Entry>, k: Key, snapshot: nat)
    requires Unique(a + future) && (forall e | e in future :: e.seqno > snapshot)
    ensures Read(a + future, k, snapshot) == Read(a, k, snapshot)
  {
    SameVisible(a + future, a, k, snapshot);
  }

  // Two stores that answer alike still do under a newer layer.
  ghost predicate Agree(a: set<Entry>, b: set<Entry>, floor: nat)
  {
    forall k, s: nat | s >= floor :: Read(a, k, s) == Read(b, k, s)
  }

  lemma NewerLayer(a: set<Entry>, b: set<Entry>, layer: set<Entry>, k: Key, s: nat)
    requires a <= b && Unique(b + layer) && Newer(layer, b)
    requires Read(a, k, s) == Read(b, k, s)
    ensures Read(a + layer, k, s) == Read(b + layer, k, s)
    ensures HasVersion(layer, k, s) ==> Read(b + layer, k, s) == Read(layer, k, s)
    ensures !HasVersion(layer, k, s) ==> Read(b + layer, k, s) == Read(b, k, s)
  {
    UniqueIsUniqueVersions(b + layer, b + layer);
    UniqueIsUniqueVersions(b + layer, a + layer);
    UniqueIsUniqueVersions(b + layer, layer);
    if HasVersion(layer, k, s) {
      NewestExists(layer, k, s);
      var e :| Newest(layer, k, s, e);
      assert Newest(a + layer, k, s, e) && Newest(b + layer, k, s, e);
      ReadIs(a + layer, k, s, e);
      ReadIs(b + layer, k, s, e);
      ReadIs(layer, k, s, e);
    } else {
      SameVisible(a + layer, a, k, s);
      SameVisible(b + layer, b, k, s);
    }
  }

  lemma AgreeUnderLayer(a: set<Entry>, b: set<Entry>, layer: set<Entry>, floor: nat)
    requires Agree(a, b, floor) && a <= b && Unique(b + layer) && Newer(layer, b)
    ensures Agree(a + layer, b + layer, floor)
  {
    forall k, s: nat | s >= floor ensures Read(a + layer, k, s) == Read(b + layer, k, s) {
      NewerLayer(a, b, layer, k, s);
    }
  }

  // Compaction: the outputs answer like the inputs from the smallest snapshot on.
  lemma CompactionAgrees(rest: set<Entry>, input: set<Entry>, isBase: Key -> bool, smallest: nat)
    requires Above(rest, input, isBase) && AllParse(input) && Unique(rest + input)
    ensures Agree(rest + Kept(input, smallest, isBase), rest + input, smallest)
  {
    hide Read, Kept;
    var newer := set e | e in rest && isBase(e.user);
    var deeper := rest - newer;
    var kept := Kept(input, smallest, isBase);
    assert newer + kept + deeper == rest + kept && newer + input + deeper == rest + input;
    UniqueIsUniqueVersions(rest + input, newer + input + deeper);
    assert Layered(newer, input, deeper, isBase);
    forall k, s: nat | s >= smallest ensures Read(rest + kept, k, s) == Read(rest + input, k, s) {
      CompactionPreservesRead(newer, input, deeper, smallest, isBase, k, s);
    }
  }

  // ---- a version that could be recovered --------------------------------------

  // The version's tables are on disk and answer like everything flushed into it.
  ghost predicate TablesOk(tables: map<nat, set<Entry>>, w: Version)
  {
    && w.tables <= tables.Keys
    && (forall n | n in w.tables :: n < w.next)
    && Contents(tables, w.tables) <= w.flushed
    && Agree(Contents(tables, w.tables), w.flushed, w.floor)
    && w.floor <= w.last && UpTo(w.flushed, w.last) && w.log < w.next
  }

  // The logs it names continue it, and hold nothing that was never issued.
  ghost predicate LogsOk(logs: map<nat, Log>, w: Version, issued: set<Entry>)
  {
    && Newer(LogsFrom(logs, w.log), w.flushed)
    && w.flushed + LogsFrom(logs, w.log) <= issued
  }

  // Recovering from it would bring back every write acknowledged from an intact
  // log; after a crash that loses unsynced bytes, every one that was synced.
  ghost predicate Covers(logs: map<nat, Log>, w: Version, h: History)
  {
    && h.acked <= w.flushed + IntactFrom(logs, w.log)
    && h.durable <= w.flushed + SafeFrom(logs, w.log)
  }

  ghost predicate Sound(disk: Disk, w: Version, issued: set<Entry>, h: History)
  {
    TablesOk(disk.tables, w) && LogsOk(disk.logs, w, issued) && Covers(disk.logs, w, h)
  }

  // In a running store no such version is ahead of memory.
  ghost predicate Behind(w: Version, v: Version, logfile: nat)
  {
    w.log <= logfile && w.last <= v.last && w.next <= v.next
  }

  // ---- the parts of the invariant ------------------------------------------------

  ghost predicate VersionOk(s: Store, w: Version)
  {
    Sound(s.disk, w, s.Issued(), s.hist) && Behind(w, s.v, s.logfile)
  }

  ghost predicate VersionsOk(s: Store)
  {
    && VersionOk(s, s.v) && VersionOk(s, s.disk.manifest)
    && (s.InManifestWrite().Some? ==> VersionOk(s, s.InManifestWrite().value))
  }

  ghost predicate SequencesOk(s: Store)
  {
    && Unique(s.Issued()) && AllParse(s.Issued())
    && UpTo(s.hist.committed + s.hist.failed, s.v.last)
    && s.hist.acked + s.hist.exposed <= s.hist.committed && s.hist.durable <= s.hist.acked
  }

  ghost predicate GroupOk(s: Store)
  {
    s.group.Some? ==>
      var g := s.group.value;
      && g.batch.first == s.v.last + 1 && s.logfile in s.disk.logs
      && (g.stage == ToSync || g.stage.Inserting? ==>
            && g.batch.All() <= s.disk.logs[s.logfile].All()
            && (!s.Torn() ==> g.batch.All() <= s.disk.logs[s.logfile].Intact()))
      && (g.stage.Inserting? ==>
            && g.stage.done <= |g.batch.ops|
            && (g.sync && !s.Torn() ==> g.batch.All() <= s.disk.logs[s.logfile].Safe()))
  }

  // What the logs older than the current one hold, from the version's on.
  ghost function LogsBetween(logs: map<nat, Log>, from: nat, to: nat): set<Entry>
  {
    set n, e | n in logs && from <= n < to && e in logs[n].All() :: e
  }

  // Memory and the logs that back it.
  ghost predicate MemoryOk(s: Store)
  {
    && s.logfile in s.mems && s.logfile in s.disk.logs
    && (s.imm.Some? ==> s.imm.value in s.mems && s.imm.value < s.logfile)
    && (forall n | n in s.disk.logs :: n <= s.logfile)
    && s.Mem() <= s.disk.logs[s.logfile].All()
    && s.v.flushed + s.Imm() + s.Mem() == s.hist.committed + s.Inserted() && s.Inserted() <= s.Mem()
    && Newer(s.Imm(), s.v.flushed)
    && Newer(s.disk.logs[s.logfile].All(), s.v.flushed + s.Imm())
    && s.hist.acked <= s.v.flushed + s.Imm() + s.disk.logs[s.logfile].Intact()
    && s.hist.durable <= s.v.flushed + s.Imm() + s.disk.logs[s.logfile].Safe()
  }

  // The logs from the version's up to the current one hold exactly what
  // imm_ holds, and the current one what mem_ holds or will hold, but for
  // groups that failed.
  ghost predicate OldLogsOk(s: Store)
    requires s.logfile in s.disk.logs
  {
    var older := LogsBetween(s.disk.logs, s.v.log, s.logfile);
    && s.Imm() <= older <= s.Imm() + s.hist.failed
    && s.disk.logs[s.logfile].All() <= s.Mem() + s.hist.failed + s.InFlight()
  }

  ghost predicate PinTablesBelow(pins: map<nat, Pin>, n: nat)
  {
    forall id, t | id in pins && t in pins[id].tables :: t < n
  }

  ghost predicate NumbersOk(s: Store)
  {
    && s.logfile < s.v.next
    && (forall n | n in s.pending :: n < s.v.next)
    && PinTablesBelow(s.pins, s.v.next)
  }

  // A file still being written belongs to no version and to no reader.
  ghost predicate Private(s: Store, n: nat)
  {
    && n in s.pending && n in s.disk.tables && n !in s.v.tables && n !in s.disk.manifest.tables
    && (forall id | id in s.pins :: n !in s.pins[id].tables)
  }

  ghost predicate FlushOk(s: Store)
  {
    match s.flush
    case NoFlush => true
    case Building(n) => s.imm.Some? && Private(s, n) && !(s.compact.Merging? && n in s.compact.outputs) && !s.compact.InstallingOutputs?
    case Installing(next) =>
      && s.imm.Some? && !s.compact.InstallingOutputs?
      && next.log == s.logfile && next.flushed == s.v.flushed + s.Imm() && next.floor == s.v.floor
      && s.v.tables <= next.tables
      && NewTableNewer(s, next.tables - s.v.tables)
      && (s.compact.Merging? ==> s.compact.outputs !! next.tables)
  }

  // A table being installed by a flush holds only entries of imm_.
  ghost predicate NewTableNewer(s: Store, added: set<nat>)
  {
    Contents(s.disk.tables, added) <= s.Imm()
  }

  ghost predicate CompactOk(s: Store)
  {
    match s.compact
    case NoCompact => true
    case Merging(inputs, smallest, isBase, outputs) =>
      && Pickable(s, inputs, isBase)
      && (forall n | n in outputs :: Private(s, n))
      && Contents(s.disk.tables, outputs) <= Kept(Contents(s.disk.tables, inputs), smallest, isBase)
      && smallest <= s.v.last
      && (forall i | 0 <= i < |s.snapshots| :: s.snapshots[i] >= smallest)
    case InstallingOutputs(_, next) =>
      && s.flush.NoFlush?
      && next.log == s.v.log && next.flushed == s.v.flushed && next.floor >= s.v.floor
      && (forall i | 0 <= i < |s.snapshots| :: s.snapshots[i] >= next.floor)
  }

  ghost predicate SnapshotsOk(s: Store)
  {
    && (forall i | 0 <= i < |s.snapshots| :: s.v.floor <= s.snapshots[i] <= s.v.last)
    && (forall i, j | 0 <= i < j < |s.snapshots| :: s.snapshots[i] <= s.snapshots[j])
  }

  // A reader keeps seeing what was committed when it began.
  ghost predicate PinOk(s: Store, p: Pin)
  {
    && p.tables <= s.disk.tables.Keys && p.snapshot <= s.v.last && p.mem <= s.logfile && p.mem in s.mems
    && (p.imm.Some? ==> p.imm.value < s.logfile && p.imm.value in s.mems)
    && s.PinContents(p) <= s.Issued()
    && forall k :: Read(s.PinContents(p), k, p.snapshot) == Read(p.seen, k, p.snapshot)
  }

  ghost predicate PinsOk(s: Store)
  {
    forall id | id in s.pins :: PinOk(s, s.pins[id])
  }

  ghost predicate Running(s: Store)
  {
    && VersionsOk(s) && SequencesOk(s) && GroupOk(s) && MemoryOk(s) && OldLogsOk(s)
    && NumbersOk(s) && FlushOk(s) && CompactOk(s) && SnapshotsOk(s) && PinsOk(s)
  }

  // Nothing but the disk is left, or is looked at.
  ghost predicate Stopped(s: Store)
  {
    && Sound(s.disk, s.disk.manifest, s.Issued(), s.hist)
    && s == Closed(s.disk, s.hist).(mode := s.mode, logfile := s.logfile, v := s.v)
    && s.hist.committed == Recoverable(s.disk) && s.hist.failed == {}
    && s.hist.acked + s.hist.exposed <= s.hist.committed && s.hist.durable <= s.hist.acked
    && Unique(s.hist.committed) && AllParse(s.hist.committed)
  }

  ghost predicate Reopening(s: Store)
  {
    && s.mode.Opening? && Stopped(s)
    && var next := s.mode.next;
       && Sound(s.disk, next, s.Issued(), s.hist)
       && next.flushed == s.hist.committed && next.log == s.logfile && s.logfile < next.next
       && s.logfile in s.disk.logs && s.disk.logs[s.logfile] == NEW_LOG
       && (forall n | n in s.disk.logs :: n <= s.logfile)
       && s.disk.manifest.last <= next.last && s.disk.manifest.next <= next.next && s.disk.manifest.log <= s.logfile
  }

  ghost predicate Inv(s: Store)
  {
    match s.mode
    case Up => Running(s)
    case Down => Stopped(s)
    case Opening(_) => Reopening(s)
  }
}
