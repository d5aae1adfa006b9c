// The whole of DBImpl as one transition system: the writer queue drives the
// store, the background thread and readers work beside it, and the process
// may die at any step. Group commit is a linearisation of the writers.
module Database {
  import opened Bytes
  import opened Compaction
  import opened Storage
  import opened StorageInvariant
  import opened StorageFrames
  import StorageRecovery
  import opened StorageRuns
  import opened WriteQueue

  // One turn of the queue, oldest first: the writers [lo, hi), the batch that
  // went out for them if there was one, whether all went well, and whether the
  // log it was sent to was torn by then.
  datatype Turn = Turn(lo: nat, hi: nat, batch: Option<Batch>, ok: bool, torn: bool)

  // A stretch of the journal.
  datatype Span = Span(lo: nat, hi: nat)

  // History of this incarnation: the turns taken, every record sent to a log
  // file, which of them were sent to which log, and LastSequence at opening.
  datatype Database = Database(q: Queue, s: Store, turns: seq<Turn>, journal: seq<Batch>,
                               spans: map<nat, Span>, base: nat)

  datatype Action =
    | Arrives(request: Request)
    | Wakes(writer: nat)
    | Checks(writer: nat)
    | Fails                                   // MakeRoomForWrite returns an error
    | NothingToWrite                          // a null batch, once there is room
    | SwitchesMemTable
    | Leads(n: nat)                           // BuildBatchGroup
    | Appends(ok: bool, tears: bool)
    | Finishes
    | Dies(left: map<nat, Log>)
    | Opens(step: Step)                       // the last step of DB::Open
    | Other(step: Step)                       // readers, background work, the rest of a group's write

  // Steps of the store that the queue has no part in.
  predicate Aside(step: Step)
  {
    !(step.Begin? || step.AppendRecord? || step.Finish? || step.Switch? || step.Die? || step.OpenDone? || step.OpenQuietly?)
  }

  ghost predicate Can(d: Database, a: Action)
  {
    match a
    case Arrives(_) => d.s.mode.Up?
    case Wakes(i) => CanWake(d.q, i)
    case Checks(i) => CanCheck(d.q, i)
    case Fails => MakesRoom(d.q)
    case NothingToWrite => MakesRoom(d.q) && !d.s.bgError && d.q.writers[d.q.head].request.ops.None?
    case SwitchesMemTable => MakesRoom(d.q) && CanSwitch(d.s)
    case Leads(n) => CanLead(d.q, n) && CanBegin(d.s)
    case Appends(_, _) => CanAppend(d.s)
    case Finishes => CanFinish(d.s) && d.q.lead.Some? && d.q.lead.value.Writing? && d.q.head < d.q.lead.value.end <= |d.q.writers|
    case Dies(left) => CanCrash(d.s, left)
    case Opens(step) => (step.OpenDone? || step.OpenQuietly?) && Enabled(d.s, step)
    case Other(step) => Aside(step) && Enabled(d.s, step)
  }

  ghost function Act(d: Database, a: Action): Database
    requires Can(d, a)
  {
    match a
    case Arrives(r) => d.(q := Arrive(d.q, r))
    case Wakes(i) => d.(q := Wake(d.q, i))
    case Checks(i) => d.(q := Check(d.q, i))
    case Fails => TakeTurn(d, d.q.head + 1, None, false)
    case NothingToWrite => TakeTurn(d, d.q.head + 1, None, true)
    case SwitchesMemTable => d.(s := SwitchMemTable(d.s), spans := d.spans[d.s.v.next := Span(|d.journal|, |d.journal|)])
    case Leads(n) =>
      d.(q := Build(d.q, n),
         s := BeginGroup(d.s, GroupOps(d.q, n), d.q.writers[d.q.head].request.sync))
    case Appends(ok, tears) =>
      d.(s := Append(d.s, ok, tears), journal := d.journal + [d.s.group.value.batch],
         spans := Longer(d.spans, d.s.logfile, |d.journal| + 1))
    case Finishes =>
      var g := d.s.group.value;
      TakeTurn(d, d.q.lead.value.end, Some(g.batch), !g.stage.Broken?).(s := FinishGroup(d.s))
    case Dies(left) => Fresh(Crash(d.s, left))
    case Opens(step) => Fresh(Apply(d.s, step))
    case Other(step) => d.(s := Apply(d.s, step))
  }

  // The current log's stretch now ends at `hi`.
  ghost function Longer(spans: map<nat, Span>, n: nat, hi: nat): map<nat, Span>
  {
    if n in spans then spans[n := Span(spans[n].lo, hi)] else spans
  }

  ghost function Fresh(s: Store): Database
  {
    Database(EMPTY, s, [], [], map n | n in s.disk.logs :: Span(0, 0), s.v.last)
  }

  // The leader pops its group and records the turn.
  ghost function TakeTurn(d: Database, end: nat, batch: Option<Batch>, ok: bool): Database
    requires d.q.head < end <= |d.q.writers|
  {
    d.(q := Complete(d.q, end, ok), turns := d.turns + [Turn(d.q.head, end, batch, ok, d.s.Torn())])
  }

  // ---- the history ------------------------------------------------------------------

  // The turns tile the writers that have left the queue.
  ghost predicate Tiles(turns: seq<Turn>, n: nat)
  {
    if turns == [] then n == 0
    else turns[|turns| - 1].hi == n && turns[|turns| - 1].lo < n && Tiles(turns[..|turns| - 1], turns[|turns| - 1].lo)
  }

  // The last sequence number after the turns; each batch starts right after
  // the one before it, whether that one succeeded or not.
  ghost predicate Consecutive(turns: seq<Turn>, base: nat, last: nat)
  {
    if turns == [] then last == base
    else
      var t := turns[|turns| - 1];
      match t.batch
      case None => Consecutive(turns[..|turns| - 1], base, last)
      case Some(b) => last + 1 == b.Next() && b.first > 0 && Consecutive(turns[..|turns| - 1], base, b.first - 1)
  }

  // The records sent to the logs: those of the turns, in the order of the queue.
  ghost function Logged(turns: seq<Turn>): seq<Batch>
  {
    if turns == [] then []
    else
      var t := turns[|turns| - 1];
      Logged(turns[..|turns| - 1]) + if t.batch.Some? then [t.batch.value] else []
  }

  // A turn's batch is what its writers asked for, in order, and every one of
  // them was told how it went.
  ghost predicate Faithful(q: Queue, t: Turn)
  {
    && t.lo < t.hi <= |q.writers|
    && (forall i | t.lo <= i < t.hi :: ToldOf(q.writers[i], t.ok))
    && (t.batch.Some? ==> t.batch.value.ops == Merged(Requests(q.writers[t.lo..t.hi])))
    && (t.batch.None? ==> t.hi == t.lo + 1)
    && (t.ok && t.batch.None? ==> q.writers[t.lo].request.ops.None?)
  }

  // The writer has returned this status, or is about to.
  predicate ToldOf(w: Writer, ok: bool)
  {
    w.phase == Returned(ok) || (w.phase.Checking? && w.done == Some(ok))
  }

  // What was acknowledged, and to writers that asked for a sync; behind a tear
  // neither is worth more than a mention.
  ghost predicate Acknowledged(q: Queue, h: History, t: Turn)
    requires t.hi <= |q.writers|
  {
    t.ok && t.batch.Some? ==>
      var all := t.batch.value.All();
      if t.torn then all <= h.exposed
      else all <= h.acked && ((exists i :: t.lo <= i < t.hi && q.writers[i].request.sync) ==> all <= h.durable)
  }

  // No acknowledgement is taken back.
  ghost predicate KeepsAcks(h: History, h': History)
  {
    h.acked <= h'.acked && h.durable <= h'.durable && h.exposed <= h'.exposed
  }

  // ---- invariant -----------------------------------------------------------------------

  // The leader past BuildBatchGroup is the owner of the store's group.
  ghost predicate Linked(d: Database)
  {
    && (d.s.mode.Up? && d.s.group.Some? <==> d.q.lead.Some? && d.q.lead.value.Writing?)
    && (d.s.mode.Up? && d.s.group.Some? ==>
          var q, g := d.q, d.s.group.value;
          && q.head < q.lead.value.end <= |q.writers|
          && g.batch.ops == Merged(Requests(q.writers[q.head..q.lead.value.end]))
          && g.sync == q.writers[q.head].request.sync
          && IsGroupOf(q, q.lead.value.end)
          && (q.lead.value.scratch ==> q.tmp == g.batch.ops))
    && (!d.s.mode.Up? ==> d.q == EMPTY)
  }

  // No writer in the group asked for a sync unless its leader did.
  ghost predicate IsGroupOf(q: Queue, end: nat)
  {
    && q.head < end <= |q.writers|
    && forall i | q.head <= i < end :: q.writers[i].request.sync ==> q.writers[q.head].request.sync
  }

  // The group whose record has been sent to the log.
  ghost function Flying(s: Store): seq<Batch>
  {
    if s.mode.Up? && s.group.Some? && s.group.value.stage != ToAppend then [s.group.value.batch] else []
  }

  // Every log on disk was sent exactly its stretch of the journal.
  ghost predicate LogsAreStretches(logs: map<nat, Log>, spans: map<nat, Span>, journal: seq<Batch>)
  {
    forall n | n in logs ::
      n in spans && spans[n].lo <= spans[n].hi <= |journal| && logs[n].Sent() == journal[spans[n].lo..spans[n].hi]
  }

  ghost predicate InSome(spans: map<nat, Span>, i: nat)
  {
    exists m :: m in spans && spans[m].lo <= i < spans[m].hi
  }

  // The stretches follow each other in the order of the logs and leave out nothing.
  ghost predicate Partition(spans: map<nat, Span>, logfile: nat, n: nat)
  {
    && (forall m | m in spans :: m <= logfile && spans[m].lo <= spans[m].hi <= n)
    && logfile in spans && spans[logfile].hi == n
    && (forall l, m | l in spans && m in spans && l < m :: spans[l].hi <= spans[m].lo)
    && (forall i | 0 <= i < n :: InSome(spans, i))
  }

  ghost predicate JournalOk(d: Database)
  {
    && d.journal == Logged(d.turns) + Flying(d.s)
    && (d.s.mode.Up? ==>
          && LogsAreStretches(d.s.disk.logs, d.spans, d.journal)
          && Partition(d.spans, d.s.logfile, |d.journal|))
  }

  ghost predicate HistoryOk(d: Database)
  {
    && Tiles(d.turns, d.q.head)
    && (d.s.mode.Up? ==> Consecutive(d.turns, d.base, d.s.v.last))
    && (forall t | t in d.turns :: Faithful(d.q, t) && Acknowledged(d.q, d.s.hist, t))
  }

  ghost predicate DbInv(d: Database)
  {
    Inv(d.s) && QueueInv(d.q) && Linked(d) && JournalOk(d) && HistoryOk(d)
  }

  // ---- what a step leaves alone ------------------------------------------------------------

  // Writers keep their requests, and what they have been told.
  ghost predicate Extends(q: Queue, r: Queue)
  {
    && |q.writers| <= |r.writers|
    && (forall i | 0 <= i < |q.writers| :: r.writers[i].request == q.writers[i].request)
    && (forall i, ok | 0 <= i < |q.writers| && ToldOf(q.writers[i], ok) :: ToldOf(r.writers[i], ok))
  }

  lemma SameRequests(q: Queue, r: Queue, lo: nat, hi: nat)
    requires Extends(q, r) && lo <= hi <= |q.writers|
    ensures Requests(r.writers[lo..hi]) == Requests(q.writers[lo..hi])
  {
  }

  lemma TurnStays(q: Queue, r: Queue, h: History, h': History, t: Turn)
    requires Extends(q, r) && Faithful(q, t) && Acknowledged(q, h, t) && KeepsAcks(h, h')
    ensures Faithful(r, t) && Acknowledged(r, h', t)
  {
    hide Merged, Batch.All;
    SameRequests(q, r, t.lo, t.hi);
    if i :| t.lo <= i < t.hi && r.writers[i].request.sync { assert q.writers[i].request.sync; }
  }

  // The past is untouched when no turn is taken.
  lemma HistoryStays(d: Database, e: Database)
    requires HistoryOk(d) && Extends(d.q, e.q) && e.turns == d.turns && e.base == d.base
    requires e.q.head == d.q.head && e.s.mode.Up? == d.s.mode.Up? && (d.s.mode.Up? ==> e.s.v.last == d.s.v.last)
    requires KeepsAcks(d.s.hist, e.s.hist)
    ensures HistoryOk(e)
  {
    hide Faithful, Tiles, Consecutive;
    forall t | t in e.turns ensures Faithful(e.q, t) && t.hi <= |e.q.writers| && Acknowledged(e.q, e.s.hist, t) {
      FaithfulBounds(d.q, t);
      TurnStays(d.q, e.q, d.s.hist, e.s.hist, t);
      FaithfulBounds(e.q, t);
    }
  }

  lemma FaithfulBounds(q: Queue, t: Turn)
    requires Faithful(q, t)
    ensures t.hi <= |q.writers|
  {
  }

  // The queue moves while the leader stays as it is.
  lemma QueueMoves(d: Database, r: Queue)
    requires DbInv(d) && QueueInv(r) && Extends(d.q, r) && d.s.mode.Up? && r.tmp == d.q.tmp
    requires r.head == d.q.head && (d.q.lead == r.lead || (d.q.lead.None? && r.lead == Some(MakingRoom)))
    ensures DbInv(d.(q := r))
  {
    hide Inv, QueueInv, HistoryOk, Merged, Logged, Partition, LogsAreStretches;
    HistoryStays(d, d.(q := r));
    if d.s.group.Some? {
      SameRequests(d.q, r, r.head, r.lead.value.end);
    }
  }

  // What work aside from the queue leaves alone.
  ghost predicate SameWriting(s: Store, t: Store)
  {
    && s.mode.Up? == t.mode.Up? && t.hist == s.hist
    && (s.mode.Up? ==>
          && t.v.last == s.v.last && t.logfile == s.logfile
          && (s.group.None? <==> t.group.None?)
          && (s.group.Some? ==>
                && t.group.value.batch == s.group.value.batch && t.group.value.sync == s.group.value.sync
                && (t.group.value.stage == ToAppend <==> s.group.value.stage == ToAppend)
                && (t.group.value.stage == ToSync || t.group.value.stage.Inserting? ==>
                      s.group.value.stage == ToSync || s.group.value.stage.Inserting?))
          && (forall n | n in t.disk.logs :: n in s.disk.logs && t.disk.logs[n].Sent() == s.disk.logs[n].Sent()))
  }

  lemma AsideKeepsWriting(s: Store, step: Step)
    requires Inv(s) && Aside(step) && Enabled(s, step)
    ensures SameWriting(s, Apply(s, step))
  {
    hide Running, Stopped, Reopening, SameWriting, Contents, Kept, Above, Recoverable, FlushInstalled, CompactInstalled, CollectGarbage;
    if step.InstalledFlush? || step.InstalledCompact? {
      InstallingKeepsWriting(s, step);
    } else if step.SyncLog? || step.Insert? {
      LeaderKeepsWriting(s, step);
    } else if step.WriteTable? || step.Open? {
      RecoveryKeepsWriting(s, step);
    } else if step.Snapshot? || step.Release? || step.StartRead? || step.StopRead? {
      ReadersKeepWriting(s, step);
    } else {
      BackgroundKeepsWriting(s, step);
    }
  }

  lemma InstallingKeepsWriting(s: Store, step: Step)
    requires Inv(s) && Enabled(s, step) && (step.InstalledFlush? || step.InstalledCompact?)
    ensures SameWriting(s, Apply(s, step))
  {
    hide VersionsOk, SequencesOk, GroupOk, OldLogsOk, NumbersOk, FlushOk, CompactOk, SnapshotsOk, PinsOk, Stopped, Reopening;
    hide Store.Imm, Store.Live, Store.Issued, Newer, Log.All, Log.Safe, Log.Intact, CollectGarbage, Store.Inserted, Log.Sent;
    if step.InstalledFlush? && step.ok {
      NewVersionIsBehind(s, s.flush.next);
      GarbageKeepsWriting(s.(v := Installed(s.v, s.flush.next), imm := None, flush := NoFlush));
    } else if step.InstalledCompact? && step.ok {
      NewVersionIsBehind(s, s.compact.next);
      GarbageKeepsWriting(s.(pending := s.pending - s.compact.files, compact := NoCompact, v := Installed(s.v, s.compact.next)));
    }
  }

  lemma LeaderKeepsWriting(s: Store, step: Step)
    requires Enabled(s, step) && (step.SyncLog? || step.Insert?)
    ensures SameWriting(s, Apply(s, step))
  {
  }

  lemma RecoveryKeepsWriting(s: Store, step: Step)
    requires Enabled(s, step) && (step.WriteTable? || step.Open?)
    ensures SameWriting(s, Apply(s, step))
  {
    hide Contents, Recoverable, LogsFrom, NewLogNumber;
  }

  lemma ReadersKeepWriting(s: Store, step: Step)
    requires Enabled(s, step) && (step.Snapshot? || step.Release? || step.StartRead? || step.StopRead?)
    ensures SameWriting(s, Apply(s, step))
  {
    hide Log.Sent;
  }

  lemma BackgroundKeepsWriting(s: Store, step: Step)
    requires Aside(step) && Enabled(s, step)
    requires step.StartFlush? || step.BuiltFlush? || step.Commit? || step.StartCompact? || step.NewOutput? || step.WriteEntry? ||
             step.InstallCompact? || step.AbortCompact?
    ensures SameWriting(s, Apply(s, step))
  {
    hide Contents, Kept, Above, Store.Imm, Log.Sent, Pickable;
  }

  lemma NewVersionIsBehind(s: Store, next: Version)
    requires Inv(s) && s.mode.Up? && s.disk.manifest == next
    ensures next.log <= s.logfile
  {
    hide Sound, SequencesOk, GroupOk, MemoryOk, OldLogsOk, NumbersOk, FlushOk, CompactOk, SnapshotsOk, PinsOk, Store.InManifestWrite;
    assert VersionOk(s, s.disk.manifest);
  }

  lemma GarbageKeepsWriting(s: Store)
    requires s.v.log <= s.logfile && s.logfile in s.disk.logs && s.mode.Up?
    ensures SameWriting(s, CollectGarbage(s))
  {
    hide Store.Live;
  }

  lemma OtherKeeps(d: Database, step: Step)
    requires DbInv(d) && Can(d, Other(step))
    ensures DbInv(Act(d, Other(step)))
  {
    hide Inv, QueueInv, HistoryOk, Merged, Enabled, Apply, Logged, Partition, Log.Sent;
    StepKeeps(d.s, step);
    AsideKeepsWriting(d.s, step);
    HistoryStays(d, Act(d, Other(step)));
  }

  lemma FreshKeeps(s: Store)
    requires Inv(s) && s.group.None?
    requires s.mode.Up? ==> s.logfile in s.disk.logs && forall n | n in s.disk.logs :: n <= s.logfile && s.disk.logs[n].Sent() == []
    ensures DbInv(Fresh(s))
  {
    hide Inv;
  }

  lemma DiesKeeps(d: Database, left: map<nat, Log>)
    requires DbInv(d) && Can(d, Dies(left)) && NothingForged(d.s, left)
    ensures DbInv(Act(d, Dies(left)))
  {
    hide Inv, QueueInv, Linked, JournalOk, HistoryOk, Recoverable, Certain, CanCrash;
    StepKeeps(d.s, Die(left));
    FreshKeeps(Crash(d.s, left));
  }

  lemma OpensKeeps(d: Database, step: Step)
    requires DbInv(d) && Can(d, Opens(step))
    ensures DbInv(Act(d, Opens(step)))
  {
    hide QueueInv, Linked, JournalOk, HistoryOk, Running, Sound, Recoverable, Unique, AllParse;
    StepKeeps(d.s, step);
    OpenedLogIsEmpty(d.s, step);
    FreshKeeps(Apply(d.s, step));
  }

  lemma OpenedLogIsEmpty(s: Store, step: Step)
    requires Inv(s) && (step.OpenDone? || step.OpenQuietly?) && Enabled(s, step)
    ensures var t := Apply(s, step);
            t.group.None? && t.logfile in t.disk.logs && forall n | n in t.disk.logs :: n <= t.logfile && t.disk.logs[n].Sent() == []
  {
    hide Running, Sound, Recoverable, Unique, AllParse, Store.Issued, Store.Live;
    if step.OpenQuietly? { StorageRecovery.ManifestIsOlder(s, step.newLog); }
  }

  lemma LeadsKeeps(d: Database, n: nat)
    requires DbInv(d) && Can(d, Leads(n))
    ensures DbInv(Act(d, Leads(n)))
  {
    hide Inv, QueueInv, HistoryOk, Merged, Logged, IsGroup, Waiting, UsesScratch, Partition, LogsAreStretches;
    var e, q := Act(d, Leads(n)), d.q;
    GroupIsPrefix(q, n);
    GroupOpsAreMerged(q, n);
    StepKeeps(d.s, Begin(GroupOps(q, n), q.writers[q.head].request.sync));
    BuildKeeps(q, n);
    HistoryStays(d, e);
  }

  // The group is made of the first n writers in the queue.
  lemma GroupIsPrefix(q: Queue, n: nat)
    requires q.head < |q.writers| && IsGroup(Waiting(q), n)
    ensures n <= |Waiting(q)| && q.head + n <= |q.writers| && 0 < n
    ensures Waiting(q)[..n] == Requests(q.writers[q.head..q.head + n])
    ensures IsGroupOf(q, q.head + n)
  {
    var rs := Waiting(q);
    assert forall i | q.head <= i < q.head + n :: q.writers[i].request == rs[i - q.head];
    if !rs[0].sync {
      NoSyncRides(rs, n);
    }
  }

  lemma AppendsKeeps(d: Database, ok: bool, tears: bool)
    requires DbInv(d) && Can(d, Appends(ok, tears))
    ensures DbInv(Act(d, Appends(ok, tears)))
  {
    hide Inv, QueueInv, HistoryOk, Merged, Logged, Log.Add, Log.Sent, Partition, LogsAreStretches, Longer;
    StepKeeps(d.s, AppendRecord(ok, tears));
    var e, b := Act(d, Appends(ok, tears)), d.s.group.value.batch;
    HistoryStays(d, e);
    AppendedLog(d.s.disk.logs[d.s.logfile], b, tears);
    StretchGrows(d.s.disk.logs, d.spans, d.journal, d.s.logfile, d.s.disk.logs[d.s.logfile].Add(b, tears), b);
  }

  lemma StretchGrows(logs: map<nat, Log>, spans: map<nat, Span>, journal: seq<Batch>, n: nat, longer: Log, b: Batch)
    requires LogsAreStretches(logs, spans, journal) && Partition(spans, n, |journal|)
    requires n in logs && longer.Sent() == logs[n].Sent() + [b]
    ensures var more := Longer(spans, n, |journal| + 1);
            LogsAreStretches(logs[n := longer], more, journal + [b]) && Partition(more, n, |journal| + 1)
  {
    hide Log.Sent, InSome;
    var more := Longer(spans, n, |journal| + 1);
    assert n in spans && spans[n].lo <= spans[n].hi == |journal|;
    forall m | m in logs[n := longer] ensures logs[n := longer][m].Sent() == (journal + [b])[more[m].lo..more[m].hi] {
      if m != n {
        assert more[m] == spans[m] && spans[m].lo <= spans[m].hi <= |journal|;
        SameStretch(journal, b, spans[m].lo, spans[m].hi);
      } else {
        LastStretch(journal, b, spans[n].lo);
      }
    }
    forall i | 0 <= i < |journal| + 1 ensures InSome(more, i) {
      StillInSome(spans, n, |journal|, i);
    }
  }

  lemma SameStretch(journal: seq<Batch>, b: Batch, lo: nat, hi: nat)
    requires lo <= hi <= |journal|
    ensures (journal + [b])[lo..hi] == journal[lo..hi]
  {
  }

  lemma LastStretch(journal: seq<Batch>, b: Batch, lo: nat)
    requires lo <= |journal|
    ensures (journal + [b])[lo..|journal| + 1] == journal[lo..|journal|] + [b]
  {
  }

  lemma StillInSome(spans: map<nat, Span>, n: nat, hi: nat, i: nat)
    requires n in spans && spans[n].lo <= spans[n].hi == hi && i <= hi && (i < hi ==> InSome(spans, i))
    ensures InSome(Longer(spans, n, hi + 1), i)
  {
    var more := Longer(spans, n, hi + 1);
    if i < hi {
      var m :| m in spans && spans[m].lo <= i < spans[m].hi;
      assert m in more && more[m].lo <= i < more[m].hi;
    } else {
      assert n in more && more[n].lo <= i < more[n].hi;
    }
  }

  lemma SwitchesKeeps(d: Database)
    requires DbInv(d) && Can(d, SwitchesMemTable)
    ensures DbInv(Act(d, SwitchesMemTable))
  {
    hide Inv, QueueInv, HistoryOk, Merged, Logged, Partition, LogsAreStretches;
    StepKeeps(d.s, Switch);
    HistoryStays(d, Act(d, SwitchesMemTable));
    NextIsPast(d.s);
    StretchStarts(d.s.disk.logs, d.spans, d.journal, d.s.logfile, d.s.v.next);
  }

  lemma NextIsPast(s: Store)
    requires Inv(s) && s.mode.Up?
    ensures s.logfile < s.v.next
  {
    hide VersionsOk, SequencesOk, GroupOk, MemoryOk, OldLogsOk, FlushOk, CompactOk, SnapshotsOk, PinsOk;
  }

  lemma StretchStarts(logs: map<nat, Log>, spans: map<nat, Span>, journal: seq<Batch>, logfile: nat, next: nat)
    requires LogsAreStretches(logs, spans, journal) && Partition(spans, logfile, |journal|) && logfile < next
    ensures var more := spans[next := Span(|journal|, |journal|)];
            LogsAreStretches(logs[next := NEW_LOG], more, journal) && Partition(more, next, |journal|)
  {
    hide InSome, Log.Sent;
    NoRecords();
    var more := spans[next := Span(|journal|, |journal|)];
    forall i | 0 <= i < |journal| ensures InSome(more, i) {
      InSomeStill(spans, more, i);
    }
  }

  lemma InSomeStill(spans: map<nat, Span>, more: map<nat, Span>, i: nat)
    requires InSome(spans, i) && forall m | m in spans :: m in more && more[m] == spans[m]
    ensures InSome(more, i)
  {
    var m :| m in spans && spans[m].lo <= i < spans[m].hi;
    assert m in more;
  }

  // ---- taking a turn ---------------------------------------------------------------------------

  lemma CompleteExtends(q: Queue, end: nat, ok: bool)
    requires QueueInv(q) && q.lead.Some? && q.head < end <= |q.writers|
    ensures Extends(q, Complete(q, end, ok))
    ensures forall i | q.head <= i < end :: ToldOf(Complete(q, end, ok).writers[i], ok)
  {
  }

  // A turn that wrote nothing.
  lemma IdleTurnKeeps(d: Database, ok: bool)
    requires DbInv(d) && MakesRoom(d.q) && (ok ==> d.q.writers[d.q.head].request.ops.None?)
    ensures DbInv(TakeTurn(d, d.q.head + 1, None, ok))
  {
    hide Inv, QueueInv, Merged, Batch.All, Partition, LogsAreStretches;
    assert d.q.head < |d.q.writers| && d.q.lead.Some?;
    CompleteKeeps(d.q, d.q.head + 1, ok);
    CompleteExtends(d.q, d.q.head + 1, ok);
    NewTurn(d, TakeTurn(d, d.q.head + 1, None, ok), d.q.head + 1, None, ok);
  }

  // The histories grow by one turn.
  lemma NewTurn(d: Database, e: Database, end: nat, batch: Option<Batch>, ok: bool)
    requires HistoryOk(d) && Extends(d.q, e.q) && d.q.head < end == e.q.head <= |d.q.writers|
    requires d.s.mode.Up? && e.s.mode.Up? && e.base == d.base
    requires e.turns == d.turns + [Turn(d.q.head, end, batch, ok, d.s.Torn())]
    requires Faithful(e.q, Turn(d.q.head, end, batch, ok, d.s.Torn()))
    requires Acknowledged(e.q, e.s.hist, Turn(d.q.head, end, batch, ok, d.s.Torn()))
    requires KeepsAcks(d.s.hist, e.s.hist)
    requires match batch
             case None => e.s.v.last == d.s.v.last
             case Some(b) => b.first == d.s.v.last + 1 && e.s.v.last + 1 == b.Next()
    ensures HistoryOk(e)
    ensures Logged(e.turns) == Logged(d.turns) + if batch.Some? then [batch.value] else []
  {
    hide Faithful, Acknowledged;
    assert e.turns[..|d.turns|] == d.turns;
    forall t | t in d.turns ensures Faithful(e.q, t) && t.hi <= |e.q.writers| && Acknowledged(e.q, e.s.hist, t) {
      FaithfulBounds(d.q, t);
      TurnStays(d.q, e.q, d.s.hist, e.s.hist, t);
      FaithfulBounds(e.q, t);
    }
    FaithfulBounds(e.q, Turn(d.q.head, end, batch, ok, d.s.Torn()));
  }

  lemma FinishesKeeps(d: Database)
    requires DbInv(d) && Can(d, Finishes)
    ensures DbInv(Act(d, Finishes))
  {
    hide Inv, QueueInv, Merged, Batch.All, Logged, HistoryOk, Partition, LogsAreStretches;
    var g, end := d.s.group.value, d.q.lead.value.end;
    var ok := !g.stage.Broken?;
    StepKeeps(d.s, Finish);
    CompleteKeeps(d.q, end, ok);
    CompleteExtends(d.q, end, ok);
    var e := Act(d, Finishes);
    assert g.batch.first == d.s.v.last + 1 by { GroupStartsNext(d.s); }
    SameRequests(d.q, e.q, d.q.head, end);
    NewTurn(d, e, end, Some(g.batch), ok);
  }

  lemma GroupStartsNext(s: Store)
    requires Inv(s) && s.mode.Up? && s.group.Some?
    ensures s.group.value.batch.first == s.v.last + 1
  {
    hide VersionsOk, SequencesOk, MemoryOk, OldLogsOk, NumbersOk, FlushOk, CompactOk, SnapshotsOk, PinsOk, Log.All, Log.Safe, Log.Intact;
  }

  lemma ActKeeps(d: Database, a: Action)
    requires DbInv(d) && Can(d, a) && (a.Dies? ==> NothingForged(d.s, a.left))
    ensures DbInv(Act(d, a))
  {
    hide DbInv;
    match a
    case Arrives(r) => ArrivesKeeps(d, r);
    case Wakes(i) => WakesKeeps(d, i);
    case Checks(i) => ChecksKeeps(d, i);
    case Fails => IdleTurnKeeps(d, false);
    case NothingToWrite => IdleTurnKeeps(d, true);
    case SwitchesMemTable => SwitchesKeeps(d);
    case Leads(n) => LeadsKeeps(d, n);
    case Appends(ok, tears) => AppendsKeeps(d, ok, tears);
    case Finishes => FinishesKeeps(d);
    case Dies(left) => DiesKeeps(d, left);
    case Opens(step) => OpensKeeps(d, step);
    case Other(step) => OtherKeeps(d, step);
  }

  lemma ArrivesKeeps(d: Database, r: Request)
    requires DbInv(d) && d.s.mode.Up?
    ensures DbInv(d.(q := Arrive(d.q, r)))
  {
    hide Inv, JournalOk, HistoryOk, QueueInv;
    ArriveKeeps(d.q, r);
    QueueMoves(d, Arrive(d.q, r));
  }

  lemma WakesKeeps(d: Database, i: nat)
    requires DbInv(d) && CanWake(d.q, i)
    ensures DbInv(d.(q := Wake(d.q, i)))
  {
    hide Inv, JournalOk, HistoryOk;
    WakeKeeps(d.q, i);
    QueueMoves(d, Wake(d.q, i));
  }

  lemma ChecksKeeps(d: Database, i: nat)
    requires DbInv(d) && CanCheck(d.q, i)
    ensures DbInv(d.(q := Check(d.q, i)))
  {
    hide Inv, JournalOk, HistoryOk;
    CheckKeeps(d.q, i);
    QueueMoves(d, Check(d.q, i));
  }

  // ---- runs -----------------------------------------------------------------------------------

  ghost predicate Acts(d: Database, actions: seq<Action>, e: Database)
    decreases |actions|
  {
    if actions == [] then d == e
    else Can(d, actions[0]) && Acts(Act(d, actions[0]), actions[1..], e)
  }

  // No crash on the way makes up a record.
  ghost predicate CrashesForgeNothing(d: Database, actions: seq<Action>)
    decreases |actions|
  {
    actions != [] && Can(d, actions[0]) ==>
      && (actions[0].Dies? ==> NothingForged(d.s, actions[0].left))
      && CrashesForgeNothing(Act(d, actions[0]), actions[1..])
  }

  // In every state that any interleaving of writers, readers, background work,
  // crashes and recoveries can reach, the invariant holds.
  lemma {:induction false} ActsKeep(d: Database, actions: seq<Action>, e: Database)
    requires DbInv(d) && Acts(d, actions, e) && CrashesForgeNothing(d, actions)
    ensures DbInv(e)
    decreases |actions|
  {
    hide DbInv, Can, Act, NothingForged;
    if actions != [] {
      ActKeeps(d, actions[0]);
      ActsKeep(Act(d, actions[0]), actions[1..], e);
    }
  }

  ghost predicate Happens(d: Database)
  {
    exists actions :: Acts(Fresh(Initial()), actions, d) && CrashesForgeNothing(Fresh(Initial()), actions)
  }

  lemma HappensInv(d: Database)
    requires Happens(d)
    ensures DbInv(d)
  {
    hide DbInv, Inv, Fresh, Initial;
    var actions :| Acts(Fresh(Initial()), actions, d) && CrashesForgeNothing(Fresh(Initial()), actions);
    InitialDb();
    ActsKeep(Fresh(Initial()), actions, d);
  }

  lemma InitialDb()
    ensures DbInv(Fresh(Initial()))
  {
    hide Inv;
    StorageRecovery.InitialInv();
    FreshKeeps(Initial());
  }
}
