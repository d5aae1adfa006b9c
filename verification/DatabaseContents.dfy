// What the database holds, from the writers' side: their operations in the
// order of the queue.
module DatabaseContents {
  import opened Bytes
  import opened DbFormat
  import opened Entries
  import opened Compaction
  import opened Storage
  import opened StorageInvariant
  import opened StorageRuns
  import opened StorageReplay
  import opened WriteQueue
  import opened Database
  import opened DatabaseTheorems

  // What the writers asked for who were told OK, in the order of the queue.
  function Asked(q: Queue, turns: seq<Turn>): seq<Op>
    requires forall t | t in turns :: t.lo <= t.hi <= |q.writers|
  {
    if turns == [] then []
    else
      var t := turns[|turns| - 1];
      Asked(q, turns[..|turns| - 1]) + if t.ok then Merged(Requests(q.writers[t.lo..t.hi])) else []
  }

  // The map that answers like the database.
  ghost predicate AnswersLike(s: Store, m: map<Key, Value>)
  {
    forall k :: Answer(s, k) == Lookup(m, k)
  }

  ghost predicate ReadsLike(s: Store, m: map<Key, Value>)
  {
    forall k :: Read(s.hist.committed, k, s.v.last) == Lookup(m, k)
  }

  lemma AnswersAreReads(d: Database, m: map<Key, Value>)
    requires DbInv(d) && d.s.mode.Up?
    ensures AnswersLike(d.s, m) <==> ReadsLike(d.s, m)
  {
    hide Inv, QueueInv, Linked, JournalOk, HistoryOk, Read, Lookup, Contents;
    CommittedIsUnique(d.s);
    forall k ensures Answer(d.s, k) == Read(d.s.hist.committed, k, d.s.v.last) {
      RunningReads(d.s, k, d.s.v.last);
    }
  }

  // Neither a crash nor an opening.
  predicate Goes(a: Action)
  {
    !a.Dies? && !a.Opens?
  }

  // The operations of the batches that went out well.
  function Stored(turns: seq<Turn>): seq<Op>
  {
    if turns == [] then []
    else
      var t := turns[|turns| - 1];
      Stored(turns[..|turns| - 1]) + if t.ok && t.batch.Some? then t.batch.value.ops else []
  }

  lemma OneStored(t: Turn)
    ensures Stored([]) == [] && Stored([t]) == if t.ok && t.batch.Some? then t.batch.value.ops else []
  {
    assert [t][..0] == [];
  }

  // A group ends: what it wrote comes on top.
  lemma FinishReplays(d: Database, m: map<Key, Value>)
    requires DbInv(d) && Can(d, Finishes) && d.s.mode.Up? && ReadsLike(d.s, m)
    ensures var e := Act(d, Finishes);
            && e.s.mode.Up? && |e.turns| == |d.turns| + 1 && d.turns <= e.turns
            && ReadsLike(e.s, Applied(m, Stored(e.turns[|d.turns|..])))
  {
    hide Inv, QueueInv, Linked, JournalOk, HistoryOk, Read, Lookup, Applied, Stored, Batch.Prefix;
    var e, b, ok := Act(d, Finishes), d.s.group.value.batch, !d.s.group.value.stage.Broken?;
    var turn := e.turns[|d.turns|];
    assert e.turns[|d.turns|..] == [turn] && turn.ok == ok && turn.batch == Some(b);
    OneStored(turn);
    CommittedIsUnique(d.s);
    GroupIsNext(d.s);
    assert e.s.hist.committed == if ok then d.s.hist.committed + b.All() else d.s.hist.committed;
    forall k ensures Read(e.s.hist.committed, k, e.s.v.last) == Lookup(Applied(m, if ok then b.ops else []), k) {
      if ok {
        ReadAfterBatch(d.s.hist.committed, d.s.v.last, b, |b.ops|, m, k);
        assert b.ops[..|b.ops|] == b.ops;
      } else {
        ReadLater(d.s.hist.committed, d.s.v.last, e.s.v.last, k);
        NothingApplied(m, []);
      }
    }
  }

  lemma GroupIsNext(s: Store)
    requires Inv(s) && s.mode.Up? && s.group.Some?
    ensures s.group.value.batch.first == s.v.last + 1
  {
    hide VersionsOk, SequencesOk, MemoryOk, OldLogsOk, NumbersOk, FlushOk, CompactOk, SnapshotsOk, PinsOk, Batch.All, Log.All, Log.Intact;
  }

  // Numbers given to a failed group change no read.
  lemma ReadLater(es: set<Entry>, last: nat, later: nat, k: Key)
    requires Unique(es) && UpTo(es, last) && last <= later
    ensures Read(es, k, later) == Read(es, k, last)
  {
    UniqueIsUniqueVersions(es, es);
    SameNewest(es, es, k, later, last);
  }

  // Any other action leaves the committed entries alone; a turn it ends wrote nothing.
  lemma QuietAct(d: Database, a: Action)
    requires DbInv(d) && Can(d, a) && Goes(a) && !a.Finishes? && d.s.mode.Up?
    ensures var e := Act(d, a);
            && e.s.mode.Up? && e.s.hist.committed == d.s.hist.committed && e.s.v.last == d.s.v.last
            && (e.turns == d.turns || (|e.turns| == |d.turns| + 1 && d.turns <= e.turns && e.turns[|d.turns|].batch.None?))
  {
    hide Inv, QueueInv, Linked, JournalOk, HistoryOk, Complete, Build, GroupOps, Check, Wake, Arrive, CanLead, Log.Add;
    if a.Other? {
      hide Apply, Enabled;
      AsideKeepsWriting(d.s, a.step);
    }
  }

  // One action adds the operations of the turn it ends, if that went well.
  lemma ActReplays(d: Database, a: Action, m: map<Key, Value>)
    requires DbInv(d) && Can(d, a) && Goes(a) && d.s.mode.Up? && ReadsLike(d.s, m)
    ensures var e := Act(d, a);
            && e.s.mode.Up? && d.turns <= e.turns
            && ReadsLike(e.s, Applied(m, Stored(e.turns[|d.turns|..])))
  {
    hide DbInv, Read, Lookup, Act, Can;
    if a.Finishes? {
      FinishReplays(d, m);
    } else {
      QuietAct(d, a);
      var e := Act(d, a);
      NothingApplied(m, []);
      if e.turns == d.turns {
        assert e.turns[|d.turns|..] == [];
      } else {
        assert e.turns[|d.turns|..] == [e.turns[|d.turns|]];
        OneStored(e.turns[|d.turns|]);
      }
    }
  }

  lemma {:induction false} AppliedTwice(m: map<Key, Value>, a: seq<Op>, b: seq<Op>)
    ensures Applied(Applied(m, a), b) == Applied(m, a + b)
    decreases |b|
  {
    if b == [] {
      assert a + b == a;
    } else {
      AppliedTwice(m, a, b[..|b| - 1]);
      assert (a + b)[..|a + b| - 1] == a + b[..|b| - 1];
    }
  }

  lemma {:induction false} StoredTwice(a: seq<Turn>, b: seq<Turn>)
    ensures Stored(a + b) == Stored(a) + Stored(b)
    decreases |b|
  {
    hide Stored;
    if b == [] {
      NoneStored(map[]);
      assert a + b == a && Stored(a) + [] == Stored(a);
    } else {
      var front, last := b[..|b| - 1], b[|b| - 1];
      StoredTwice(a, front);
      assert a + b == a + front + [last] && b == front + [last];
      StoredMore(a + front, last);
      StoredMore(front, last);
      assert Stored(a) + Stored(front) + Stored([last]) == Stored(a) + (Stored(front) + Stored([last]));
    }
  }

  lemma StoredMore(turns: seq<Turn>, t: Turn)
    ensures Stored(turns + [t]) == Stored(turns) + Stored([t])
  {
    assert (turns + [t])[..|turns|] == turns && [t][..0] == [];
  }

  lemma {:induction false} ActsReplay(d: Database, actions: seq<Action>, e: Database, m: map<Key, Value>)
    requires DbInv(d) && Acts(d, actions, e) && d.s.mode.Up? && ReadsLike(d.s, m) && forall a | a in actions :: Goes(a)
    ensures DbInv(e) && e.s.mode.Up? && d.turns <= e.turns && ReadsLike(e.s, Applied(m, Stored(e.turns[|d.turns|..])))
    decreases |actions|
  {
    hide DbInv, Can, Act, ReadsLike, Stored, Applied;
    if actions == [] {
      assert e.turns[|d.turns|..] == [];
      NoneStored(m);
    } else {
      assert actions[0] in actions;
      var c := Act(d, actions[0]);
      ActReplays(d, actions[0], m);
      ActKeeps(d, actions[0]);
      ActsReplay(c, actions[1..], e, Applied(m, Stored(c.turns[|d.turns|..])));
      AppliedTwice(m, Stored(c.turns[|d.turns|..]), Stored(e.turns[|c.turns|..]));
      StoredTwice(c.turns[|d.turns|..], e.turns[|c.turns|..]);
      assert e.turns[|d.turns|..] == c.turns[|d.turns|..] + e.turns[|c.turns|..];
    }
  }

  lemma NoneStored(m: map<Key, Value>)
    ensures Applied(m, Stored([])) == m && Stored([]) == []
  {
  }

  lemma {:induction false} StoredIsAsked(q: Queue, turns: seq<Turn>)
    requires forall t | t in turns :: t.lo <= t.hi <= |q.writers| && Faithful(q, t)
    ensures Stored(turns) == Asked(q, turns)
    decreases |turns|
  {
    if turns != [] {
      var t := turns[|turns| - 1];
      StoredIsAsked(q, turns[..|turns| - 1]);
      if t.ok && t.batch.None? {
        NothingAsked(Requests(q.writers[t.lo..t.hi]));
      }
    }
  }

  lemma NothingAsked(rs: seq<Request>)
    requires |rs| == 1 && rs[0].ops.None?
    ensures Merged(rs) == []
  {
    assert rs[..0] == [];
  }

  // Between two moments without a crash the database changes exactly by the
  // operations that writers asked for and were told OK, in the order in which
  // they queued up, whoever led their group; failed ones leave no trace.
  lemma AnswersFollowTheQueue(d: Database, actions: seq<Action>, e: Database, m: map<Key, Value>)
    requires Happens(d) && Acts(d, actions, e) && d.s.mode.Up? && AnswersLike(d.s, m) && forall a | a in actions :: Goes(a)
    ensures d.turns <= e.turns && (forall t | t in e.turns[|d.turns|..] :: t.lo <= t.hi <= |e.q.writers|)
    ensures AnswersLike(e.s, Applied(m, Asked(e.q, e.turns[|d.turns|..])))
  {
    hide Inv, QueueInv, Linked, JournalOk, Acts, ReadsLike, Stored, Asked, Applied, AnswersLike, Faithful, Acknowledged, Happens;
    HappensInv(d);
    AnswersAreReads(d, m);
    ActsReplay(d, actions, e, m);
    var turns := e.turns[|d.turns|..];
    forall t | t in turns ensures Faithful(e.q, t) && t.lo <= t.hi <= |e.q.writers| {
      assert t in e.turns;
      FaithfulFits(e.q, t);
    }
    StoredIsAsked(e.q, turns);
    AnswersAreReads(e, Applied(m, Stored(turns)));
  }

  lemma FaithfulFits(q: Queue, t: Turn)
    requires Faithful(q, t)
    ensures t.lo <= t.hi <= |q.writers|
  {
  }

  // A new database holds nothing.
  lemma NewHoldsNothing() returns (d: Database)
    ensures Happens(d) && d.s.mode.Up? && d.turns == [] && AnswersLike(d.s, map[])
  {
    hide Contents, Store.Live, Inv;
    var a := Opens(OpenQuietly(2));
    var new_ := Fresh(Initial());
    assert Can(new_, a);
    d := Act(new_, a);
    OneAction(new_, a);
    HappensInv(d);
    assert d.s.hist.committed == {};
    forall k ensures Read(d.s.hist.committed, k, d.s.v.last) == None { ReadMiss({}, k, d.s.v.last); }
    AnswersAreReads(d, map[]);
  }

  lemma OneAction(d: Database, a: Action)
    requires Can(d, a) && !a.Dies?
    ensures Acts(d, [a], Act(d, a)) && CrashesForgeNothing(d, [a])
  {
    hide Can, Act;
    assert [a][1..] == [];
    assert Acts(Act(d, a), [], Act(d, a));
  }
}
