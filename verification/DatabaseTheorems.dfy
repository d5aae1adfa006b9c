// What callers of Write, Get and GetSnapshot may rely on, over every run.
module DatabaseTheorems {
  import opened Bytes
  import opened Entries
  import opened Compaction
  import opened Storage
  import opened StorageInvariant
  import opened StorageRuns
  import opened StorageReplay
  import opened WriteQueue
  import opened Database

  // ---- the store inside the database --------------------------------------------

  // The store's side of an action, as a step of the store if it has one.
  ghost function Side(d: Database, a: Action): seq<Step>
    requires Can(d, a)
  {
    match a
    case SwitchesMemTable => [Switch]
    case Leads(n) => [Begin(GroupOps(d.q, n), d.q.writers[d.q.head].request.sync)]
    case Appends(ok, tears) => [AppendRecord(ok, tears)]
    case Finishes => [Finish]
    case Dies(left) => [Die(left)]
    case Opens(step) => [step]
    case Other(step) => [step]
    case _ => []
  }

  lemma SideIsStep(d: Database, a: Action)
    requires Can(d, a)
    ensures var side := Side(d, a);
            if side == [] then Act(d, a).s == d.s else Enabled(d.s, side[0]) && Act(d, a).s == Apply(d.s, side[0])
  {
    hide Append, FinishGroup, Crash, SwitchMemTable, BeginGroup, GroupOps;
    hide CanAppend, CanCrash, CanFinish, CanSwitch, CanBegin, CanLead, IsGroup, Complete, Build, Fresh;
    match a
    case Opens(step) => hide Enabled, Apply; FreshStore(Apply(d.s, step));
    case Other(step) => hide Enabled, Apply;
    case Dies(left) => FreshStore(Crash(d.s, left));
    case _ =>
  }

  lemma FreshStore(s: Store)
    ensures Fresh(s).s == s
  {
  }

  // Every crash on the way keeps the bytes already appended.
  ghost predicate CrashesKeep(d: Database, actions: seq<Action>)
    decreases |actions|
  {
    actions != [] && Can(d, actions[0]) ==>
      && (actions[0].Dies? ==> LosesNothing(d.s, actions[0].left))
      && CrashesKeep(Act(d, actions[0]), actions[1..])
  }

  // Seen from the store, a run of the database is a run of the store.
  lemma {:induction false} StoreRun(d: Database, actions: seq<Action>, e: Database) returns (steps: seq<Step>)
    requires Acts(d, actions, e)
    ensures Run(d.s, steps, e.s) && (CrashesKeep(d, actions) ==> CrashesLoseNothing(d.s, steps))
    ensures CrashesForgeNothing(d, actions) ==> ForgesNothing(d.s, steps)
    decreases |actions|
  {
    hide Can, Act, Enabled, Apply, Side, LosesNothing, NothingForged;
    if actions == [] {
      steps := [];
    } else {
      var a := actions[0];
      var side := Side(d, a);
      SideIsStep(d, a);
      DeathIsDeath(d, a);
      steps := StoreRun(Act(d, a), actions[1..], e);
      if side != [] {
        assert ([side[0]] + steps)[1..] == steps;
        steps := [side[0]] + steps;
      }
    }
  }

  lemma DeathIsDeath(d: Database, a: Action)
    requires Can(d, a)
    ensures var side := Side(d, a);
            |side| <= 1 && (side != [] && side[0].Die? ==> a == Dies(side[0].left))
  {
    hide GroupOps, CanLead, CanAppend, CanCrash, CanFinish, Enabled;
  }

  lemma StoreIsReachable(d: Database)
    requires Happens(d)
    ensures Reachable(d.s)
  {
    hide Acts, Initial, Run, CrashesForgeNothing, ForgesNothing;
    var actions :| Acts(Fresh(Initial()), actions, d) && CrashesForgeNothing(Fresh(Initial()), actions);
    FreshStore(Initial());
    var steps := StoreRun(Fresh(Initial()), actions, d);
  }

  // ---- every writer takes part in exactly one turn -----------------------------------

  lemma {:induction false} TurnOf(turns: seq<Turn>, n: nat, i: nat) returns (j: nat)
    requires Tiles(turns, n) && i < n
    ensures j < |turns| && turns[j].lo <= i < turns[j].hi
    ensures forall k | 0 <= k < |turns| && turns[k].lo <= i < turns[k].hi :: k == j
    decreases |turns|
  {
    var last := |turns| - 1;
    if turns[last].lo <= i {
      j := last;
      TurnsBelow(turns[..last], turns[last].lo);
      assert forall k | 0 <= k < last :: turns[..last][k] == turns[k];
    } else {
      j := TurnOf(turns[..last], turns[last].lo, i);
      forall k | 0 <= k < |turns| && turns[k].lo <= i < turns[k].hi ensures k == j {
        if k < last { assert turns[..last][k] == turns[k]; }
      }
    }
  }

  lemma {:induction false} TurnsBelow(turns: seq<Turn>, n: nat)
    requires Tiles(turns, n)
    ensures forall k | 0 <= k < |turns| :: turns[k].lo < turns[k].hi <= n
    decreases |turns|
  {
    if turns != [] {
      var last := |turns| - 1;
      TurnsBelow(turns[..last], turns[last].lo);
      forall k | 0 <= k < |turns| ensures turns[k].lo < turns[k].hi <= n {
        if k < last { assert turns[..last][k] == turns[k]; }
      }
    }
  }

  // Group commit linearises the writers: each one that has left the queue was
  // served by exactly one turn, is told how that turn went, and what the turn
  // wrote is its writers' batches in the order of their arrival.
  lemma EveryWriterOnce(d: Database, i: nat) returns (j: nat)
    requires Happens(d) && i < d.q.head
    ensures i < |d.q.writers| && j < |d.turns| && d.turns[j].lo <= i < d.turns[j].hi <= |d.q.writers|
    ensures forall k | 0 <= k < |d.turns| && d.turns[k].lo <= i < d.turns[k].hi :: k == j
    ensures ToldOf(d.q.writers[i], d.turns[j].ok)
    ensures d.turns[j].batch.Some? ==>
              d.turns[j].batch.value.ops == Merged(Requests(d.q.writers[d.turns[j].lo..d.turns[j].hi]))
  {
    hide Inv, QueueInv, Linked, JournalOk, Tiles, Consecutive, Merged;
    HappensInv(d);
    j := TurnOf(d.turns, d.q.head, i);
    assert d.turns[j] in d.turns;
    assert Faithful(d.q, d.turns[j]);
  }

  // ---- sequence numbers ------------------------------------------------------------------

  function Written(turns: seq<Turn>): nat
  {
    if turns == [] then 0
    else
      var t := turns[|turns| - 1];
      Written(turns[..|turns| - 1]) + if t.batch.Some? then |t.batch.value.ops| else 0
  }

  lemma {:induction false} NumbersUsed(turns: seq<Turn>, base: nat, last: nat)
    requires Consecutive(turns, base, last)
    ensures last == base + Written(turns)
    decreases |turns|
  {
    if turns != [] {
      var t := turns[|turns| - 1];
      NumbersUsed(turns[..|turns| - 1], base, match t.batch case None => last case Some(b) => b.first - 1);
    }
  }

  // Groups get disjoint ranges, in order and without gaps, failed ones too.
  lemma SequencesAreGapFree(d: Database, j: nat)
    requires Happens(d) && d.s.mode.Up? && j < |d.turns| && d.turns[j].batch.Some?
    ensures d.turns[j].batch.value.first == d.base + Written(d.turns[..j]) + 1
    ensures d.s.v.last == d.base + Written(d.turns)
  {
    hide Inv, QueueInv, Linked, JournalOk, Tiles, Faithful, Acknowledged;
    HappensInv(d);
    NumbersUsed(d.turns, d.base, d.s.v.last);
    FirstNumber(d.turns, d.base, d.s.v.last, j);
  }

  lemma {:induction false} FirstNumber(turns: seq<Turn>, base: nat, last: nat, j: nat)
    requires Consecutive(turns, base, last) && j < |turns| && turns[j].batch.Some?
    ensures turns[j].batch.value.first == base + Written(turns[..j]) + 1
    decreases |turns|
  {
    var n := |turns| - 1;
    var before := match turns[n].batch case None => last case Some(b) => b.first - 1;
    if j == n {
      NumbersUsed(turns[..n], base, before);
    } else {
      FirstNumber(turns[..n], base, before, j);
      assert turns[..n][..j] == turns[..j];
    }
  }

  // ---- the log -----------------------------------------------------------------------------

  // What was sent to the logs is the batches of the turns, in the order of the
  // queue, none twice and none left out, with at most the group in flight after
  // them. Each log was sent one stretch of it, the stretches follow each other
  // in the order of the logs without a gap, and what a log file on disk was sent
  // is exactly its stretch.
  lemma LogsFollowTheQueue(d: Database)
    requires Happens(d) && d.s.mode.Up?
    ensures d.journal == Logged(d.turns) + Flying(d.s)
    ensures forall n | n in d.s.disk.logs ::
              && n in d.spans && d.spans[n].lo <= d.spans[n].hi <= |d.journal|
              && d.s.disk.logs[n].Sent() == d.journal[d.spans[n].lo..d.spans[n].hi]
    ensures Partition(d.spans, d.s.logfile, |d.journal|)
  {
    hide Inv, QueueInv, Linked, HistoryOk, Logged, Log.Sent, Flying;
    HappensInv(d);
  }

  // ---- acknowledged writes ------------------------------------------------------------------

  // Each batch's operations stand together in the merged one.
  lemma {:induction false} MergedHolds(rs: seq<Request>, j: nat) returns (at: nat)
    requires j < |rs| && rs[j].ops.Some?
    ensures at == |Merged(rs[..j])|
    ensures at + |rs[j].ops.value| <= |Merged(rs)| && Merged(rs)[at..at + |rs[j].ops.value|] == rs[j].ops.value
    decreases |rs|
  {
    var n := |rs| - 1;
    if j == n {
      at := |Merged(rs[..n])|;
    } else {
      at := MergedHolds(rs[..n], j);
      assert rs[..n][j] == rs[j] && rs[..n][..j] == rs[..j];
      assert Merged(rs)[at..at + |rs[j].ops.value|] == Merged(rs[..n])[at..at + |rs[j].ops.value|];
    }
  }

  // The log the writer's batch was sent to was torn by then.
  ghost predicate Exposed(d: Database, i: nat)
  {
    exists j :: 0 <= j < |d.turns| && d.turns[j].lo <= i < d.turns[j].hi && d.turns[j].torn
  }

  // The number of writer i's first operation, when turn t wrote for it: what the
  // members of the group before it asked for comes first.
  ghost function FirstOf(d: Database, t: Turn, i: nat): nat
    requires t.lo <= i <= |d.q.writers| && t.batch.Some?
  {
    t.batch.value.first + |Merged(Requests(d.q.writers[t.lo..i]))|
  }

  // Turn j wrote the operations of writer i, under the numbers from `first` on.
  ghost predicate WroteFor(d: Database, j: nat, i: nat, first: nat)
    requires i < |d.q.writers| && d.q.writers[i].request.ops.Some?
  {
    && j < |d.turns| && d.turns[j].lo <= i < d.turns[j].hi && d.turns[j].batch.Some? && first == FirstOf(d, d.turns[j], i)
    && var b, ops := d.turns[j].batch.value, d.q.writers[i].request.ops.value;
       && b.first <= first && first + |ops| <= b.Next()
       && b.ops[first - b.first..first - b.first + |ops|] == ops
  }

  // A write that returned OK was written by exactly one turn, its own, under
  // consecutive sequence numbers, and all its operations are acknowledged under
  // them, and durable if it asked for a sync; or the log was torn, and they are
  // exposed.
  lemma OkMeansAcknowledged(d: Database, i: nat) returns (j: nat, first: nat)
    requires Happens(d) && i < |d.q.writers| && d.q.writers[i].phase == Returned(true)
    requires d.q.writers[i].request.ops.Some?
    ensures WroteFor(d, j, i, first) && (Exposed(d, i) <==> d.turns[j].torn)
    ensures forall m | 0 <= m < |d.turns| && d.turns[m].lo <= i < d.turns[m].hi :: m == j
    ensures var r := d.q.writers[i].request;
            forall k | 0 <= k < |r.ops.value| ::
              var e := r.ops.value[k].At(first + k);
              if Exposed(d, i) then e in d.s.hist.exposed
              else e in d.s.hist.acked && (r.sync ==> e in d.s.hist.durable)
  {
    hide Faithful, Acknowledged, Happens, Exposed, Merged, Requests;
    j := TurnOfOk(d, i);
    var t := d.turns[j];
    first := ShareOf(d, t, i);
    AckedByTurn(d.q, d.s.hist, t, i);
  }

  // The turn that served a writer which returned OK: it wrote a batch.
  lemma TurnOfOk(d: Database, i: nat) returns (j: nat)
    requires Happens(d) && i < |d.q.writers| && d.q.writers[i].phase == Returned(true) && d.q.writers[i].request.ops.Some?
    ensures j < |d.turns| && d.turns[j].lo <= i < d.turns[j].hi <= |d.q.writers| && d.turns[j].ok && d.turns[j].batch.Some?
    ensures Faithful(d.q, d.turns[j]) && Acknowledged(d.q, d.s.hist, d.turns[j]) && (Exposed(d, i) <==> d.turns[j].torn)
    ensures forall m | 0 <= m < |d.turns| && d.turns[m].lo <= i < d.turns[m].hi :: m == j
  {
    hide Inv, Linked, JournalOk, Tiles, Consecutive, Merged, QueueInv, Requests, Acknowledged;
    HappensInv(d);
    ReturnedHasLeft(d.q, i);
    j := EveryWriterOnce(d, i);
    var t := d.turns[j];
    assert t in d.turns && Faithful(d.q, t) && Acknowledged(d.q, d.s.hist, t);
    ReturnedWasTold(d.q, i, t.ok);
  }

  // A member's share of the group's batch.
  lemma ShareOf(d: Database, t: Turn, i: nat) returns (first: nat)
    requires Faithful(d.q, t) && t.lo <= i < t.hi && t.batch.Some? && d.q.writers[i].request.ops.Some?
    ensures var b, ops := t.batch.value, d.q.writers[i].request.ops.value;
            && first == FirstOf(d, t, i) && b.first <= first && first + |ops| <= b.Next()
            && b.ops[first - b.first..first - b.first + |ops|] == ops
            && forall k | 0 <= k < |ops| :: ops[k].At(first + k) in b.All()
  {
    hide Merged;
    var b, ops := t.batch.value, d.q.writers[i].request.ops.value;
    var rs := Requests(d.q.writers[t.lo..t.hi]);
    assert rs[i - t.lo] == d.q.writers[i].request && rs[..i - t.lo] == Requests(d.q.writers[t.lo..i]);
    var at := MergedHolds(rs, i - t.lo);
    first := b.first + at;
    forall k | 0 <= k < |ops| ensures ops[k].At(first + k) in b.All() {
      assert Merged(rs)[at..at + |ops|][k] == ops[k];
      assert b.ops[at + k] == ops[k];
    }
  }

  lemma AckedByTurn(q: Queue, h: History, t: Turn, i: nat)
    requires t.lo <= i < t.hi <= |q.writers| && t.ok && t.batch.Some? && Acknowledged(q, h, t)
    ensures if t.torn then t.batch.value.All() <= h.exposed
            else t.batch.value.All() <= h.acked && (q.writers[i].request.sync ==> t.batch.value.All() <= h.durable)
  {
    hide Batch.All;
  }

  lemma ReturnedWasTold(q: Queue, i: nat, ok: bool)
    requires i < |q.writers| && q.writers[i].phase == Returned(true) && ToldOf(q.writers[i], ok)
    ensures ok
  {
  }

  lemma ReturnedHasLeft(q: Queue, i: nat)
    requires QueueInv(q) && i < |q.writers| && q.writers[i].phase.Returned?
    ensures i < q.head
  {
  }

  // The guarantee behind Write: once it has returned OK from a log that is not
  // torn, then whatever happens afterwards, other writers, flushes, compactions,
  // any number of crashes and of recoveries that fail or succeed, each of its
  // operations, under the number its own turn gave it, is one of those that make
  // up what an open database holds; a Get of its key finds what it put there, or
  // nothing if it was a deletion, or what a later committed operation on the key
  // says. With sync this holds of any crashes, without, of crashes that keep the
  // bytes already appended, as long as none makes up a record behind a tear.
  lemma OkWriteSurvives(d: Database, i: nat, k: nat, actions: seq<Action>, e: Database)
      returns (j: nat, first: nat, run: seq<Step>, h: seq<Numbered>)
    requires Happens(d) && i < |d.q.writers| && d.q.writers[i].phase == Returned(true) && !Exposed(d, i)
    requires d.q.writers[i].request.ops.Some? && k < |d.q.writers[i].request.ops.value|
    requires Acts(d, actions, e) && CrashesForgeNothing(d, actions) && e.s.mode.Up?
    requires d.q.writers[i].request.sync || CrashesKeep(d, actions)
    ensures WroteFor(d, j, i, first)
    ensures var op := d.q.writers[i].request.ops.value[k];
            && op.At(first + k) in d.s.hist.acked && (d.q.writers[i].request.sync ==> op.At(first + k) in d.s.hist.durable)
            && Holds(e.s, run, h) && Numbered(first + k, op) in h && StillAnswers(e.s, first + k, op)
    ensures forall key :: Answer(e.s, key) == Lookup(Applied(map[], Ops(h)), key)
  {
    hide Reachable, Acts, CrashesKeep, CrashesLoseNothing, CrashesForgeNothing, ForgesNothing, Run, Answer, Exposed, WroteFor, Holds, StillAnswers;
    j, first := OkMeansAcknowledged(d, i);
    StoreIsReachable(d);
    var steps := StoreRun(d, actions, e);
    run, h := AcknowledgedIsHeld(d.s, first + k, d.q.writers[i].request.ops.value[k], steps, e.s);
  }

  // Without half-failed writes to log files nothing is left to assume but, for a
  // write without sync, that crashes keep what was appended.
  lemma UntornWriteSurvives(before: seq<Action>, d: Database, i: nat, k: nat, after: seq<Action>, e: Database)
      returns (j: nat, first: nat, run: seq<Step>, h: seq<Numbered>)
    requires Acts(Fresh(Initial()), before, d) && Acts(d, after, e) && e.s.mode.Up?
    requires forall a | a in before + after :: !(a.Appends? && a.tears)
    requires i < |d.q.writers| && d.q.writers[i].phase == Returned(true)
    requires d.q.writers[i].request.ops.Some? && k < |d.q.writers[i].request.ops.value|
    requires d.q.writers[i].request.sync || CrashesKeep(d, after)
    ensures WroteFor(d, j, i, first) && Holds(e.s, run, h)
    ensures var op := d.q.writers[i].request.ops.value[k]; Numbered(first + k, op) in h && StillAnswers(e.s, first + k, op)
    ensures forall key :: Answer(e.s, key) == Lookup(Applied(map[], Ops(h)), key)
  {
    hide Acts, Initial, Fresh, DbInv, CrashesKeep, CrashesForgeNothing, Exposed, WroteFor, StillAnswers, Untouched, Holds, Answer;
    InitialDb();
    NewIsUntouched();
    NothingIsExposed(Fresh(Initial()), before, d);
    HappensInv(d);
    NothingIsExposed(d, after, e);
    j, first, run, h := OkWriteSurvives(d, i, k, after, e);
  }

  lemma NewIsUntouched()
    ensures Untouched(Fresh(Initial()))
  {
  }

  // Only a write to a log file that fails half-way can expose anything: without
  // one, every OK write is covered by the guarantee.
  ghost predicate Untouched(d: Database)
  {
    && NoneTorn(d.s.disk.logs) && d.s.hist.exposed == {} && (forall t | t in d.turns :: !t.torn)
  }

  lemma ActTearsNothing(d: Database, a: Action)
    requires DbInv(d) && Can(d, a) && Untouched(d) && !(a.Appends? && a.tears)
    ensures Untouched(Act(d, a)) && (a.Dies? ==> NothingForged(d.s, a.left))
  {
    hide Inv, QueueInv, Linked, JournalOk, HistoryOk, Merged, Contents, LogsFrom, IntactFrom, Kept, Recoverable, Certain;
    hide Store.Live, Store.Imm, CanOpen, GroupOps, Complete, IsGroup, PartOf, Batch.All, Longer, UsesScratch;
    if a.Other? {
      hide Inv, CollectGarbage;
      StepTearsNothing(d.s, a.step);
    } else if a.Opens? {
      StepTearsNothing(d.s, a.step);
    } else if a.Dies? {
      UntornForgesNothing(d.s, a.left);
    }
  }

  lemma {:induction false} NothingIsExposed(d: Database, actions: seq<Action>, e: Database)
    requires DbInv(d) && Untouched(d) && Acts(d, actions, e)
    requires forall a | a in actions :: !(a.Appends? && a.tears)
    ensures Untouched(e) && (forall i :: !Exposed(e, i)) && CrashesForgeNothing(d, actions)
    decreases |actions|
  {
    hide DbInv, Can, Act, NothingForged;
    if actions != [] {
      assert actions[0] in actions;
      ActTearsNothing(d, actions[0]);
      ActKeeps(d, actions[0]);
      NothingIsExposed(Act(d, actions[0]), actions[1..], e);
    } else {
      assert forall j | 0 <= j < |e.turns| :: e.turns[j] in e.turns;
    }
  }

  // ---- readers ---------------------------------------------------------------------------------

  // A snapshot, or a Get, taken at any moment sees every group that has
  // finished and no part of the one in flight.
  lemma GroupsAppearAtOnce(d: Database, k: seq<Byte>)
    requires Happens(d) && d.s.mode.Up?
    ensures Answer(d.s, k) == Read(d.s.hist.committed, k, d.s.v.last)
    ensures d.s.group.Some? ==> forall e | e in d.s.group.value.batch.All() :: e.seqno > d.s.v.last
  {
    hide Inv, Acts, Reachable, Read, Contents, Batch.Prefix;
    StoreIsReachable(d);
    ReachableInv(d.s);
    Counters(d.s);
    RunningReads(d.s, k, d.s.v.last);
    if d.s.group.Some? { NumbersFollow(d.s.group.value.batch); }
  }

  lemma NumbersFollow(b: Batch)
    ensures forall e | e in b.All() :: e.seqno >= b.first
  {
  }

  lemma Counters(s: Store)
    requires Inv(s) && s.mode.Up?
    ensures s.v.floor <= s.v.last && (s.group.Some? ==> s.group.value.batch.first == s.v.last + 1)
  {
    hide SequencesOk, MemoryOk, OldLogsOk, NumbersOk, FlushOk, CompactOk, SnapshotsOk, PinsOk, Log.All, Log.Safe, Log.Intact;
    hide LogsOk, Covers, Contents, Agree, Store.Issued, Store.InManifestWrite;
    assert VersionOk(s, s.v);
  }

  // ---- waiting -------------------------------------------------------------------------------------

  // No writer sleeps through its turn, no sync request rides behind a leader
  // that will not sync, and the scratch batch is empty unless it is the batch of
  // the group in flight: whoever is next to build a group finds it empty.
  lemma WaitersAreServed(d: Database)
    requires Happens(d)
    ensures forall i | 0 <= i < |d.q.writers| && d.q.writers[i].phase.Asleep? ::
              && d.q.writers[i].done.None? && d.q.head <= i
              && (d.q.lead.None? ==> i != d.q.head && d.q.writers[d.q.head].phase.Checking?)
    ensures d.q.lead.Some? && d.q.lead.value.Writing? ==> IsGroupOf(d.q, d.q.lead.value.end)
    ensures d.q.tmp != [] ==>
              && d.q.lead.Some? && d.q.lead.value.Writing? && d.q.lead.value.scratch
              && d.s.mode.Up? && d.s.group.Some? && d.q.tmp == d.s.group.value.batch.ops
    ensures MakesRoom(d.q) ==> d.q.tmp == []
  {
    hide Inv, HistoryOk, JournalOk, Merged;
    HappensInv(d);
  }
}
