// The database as a map: at any moment it answers like the operations written
// to it, applied one after the other in the order of their numbers.
module StorageReplay {
  import opened Bytes
  import opened DbFormat
  import opened Entries
  import opened Compaction
  import opened Storage
  import opened StorageInvariant
  import opened StorageRecovery
  import opened StorageRuns

  // ---- operations on a map ------------------------------------------------------

  function Applied(m: map<Key, Value>, ops: seq<Op>): map<Key, Value>
  {
    if ops == [] then m
    else
      var before := Applied(m, ops[..|ops| - 1]);
      match ops[|ops| - 1]
      case Put(k, v) => before[k := v]
      case Delete(k) => before - {k}
  }

  function Lookup(m: map<Key, Value>, k: Key): Option<Value>
  {
    if k in m then Some(m[k]) else None
  }

  // An operation and its sequence number.
  datatype Numbered = Numbered(seqno: nat, op: Op)

  // Numbers start at one.
  predicate Ascending(h: seq<Numbered>)
  {
    && (forall i | 0 <= i < |h| :: h[i].seqno > 0)
    && (forall i, j | 0 <= i < j < |h| :: h[i].seqno < h[j].seqno)
  }

  function Ops(h: seq<Numbered>): seq<Op>
  {
    seq(|h|, i requires 0 <= i < |h| => h[i].op)
  }

  // The operations a snapshot may see.
  function Until(h: seq<Numbered>, snapshot: nat): (r: seq<Numbered>)
    ensures |r| <= |h|
  {
    if h == [] then []
    else if h[|h| - 1].seqno <= snapshot then h
    else Until(h[..|h| - 1], snapshot)
  }

  // What a key holds after its last operation.
  function Means(op: Op): Option<Value>
  {
    match op
    case Put(_, v) => Some(v)
    case Delete(_) => None
  }

  // The last operation on a key decides, and without one the key is as before.
  lemma {:induction false} LastDecides(m: map<Key, Value>, ops: seq<Op>, i: nat)
    requires i < |ops| && forall j | i < j < |ops| :: ops[j].key != ops[i].key
    ensures Lookup(Applied(m, ops), ops[i].key) == Means(ops[i])
    decreases |ops|
  {
    var n := |ops| - 1;
    if i < n {
      assert ops[..n][i] == ops[i];
      LastDecides(m, ops[..n], i);
    }
  }

  lemma {:induction false} OthersStay(m: map<Key, Value>, ops: seq<Op>, k: Key)
    requires forall j | 0 <= j < |ops| :: ops[j].key != k
    ensures Lookup(Applied(m, ops), k) == Lookup(m, k)
    decreases |ops|
  {
    if ops != [] { OthersStay(m, ops[..|ops| - 1], k); }
  }

  lemma LookupMore(m: map<Key, Value>, ops: seq<Op>, k: Key)
    requires ops != []
    ensures var op := ops[|ops| - 1];
            Lookup(Applied(m, ops), k) == if op.key == k then Means(op) else Lookup(Applied(m, ops[..|ops| - 1]), k)
  {
  }

  // ---- entries and operations --------------------------------------------------------

  function OpOf(e: Entry): Op
  {
    if e.kind == TYPE_VALUE then Put(e.user, e.value) else Delete(e.user)
  }

  lemma OpComesBack(op: Op, n: nat)
    ensures OpOf(op.At(n)) == op && op.At(n).seqno == n && op.At(n).user == op.key && op.At(n).Parses()
    ensures Outcome(op.At(n)) == Means(op)
  {
  }

  // Its internal key in bytes: the key, then 1 for a Put and 0 for a Delete, then
  // the number.
  lemma OpIsSpelled(op: Op, n: nat)
    requires n <= MAX_SEQUENCE
    ensures var s, m := Encode(ParsedKey(op.At(n).user, op.At(n).seqno, op.At(n).kind)), |op.key|;
            && |s| == m + 8 && s[..m] == op.key && s[m] == (if op.Put? then 1 else 0)
            && SpellsWord(s[m + 1..], 7, n)
  {
    hide Encode, SpellsWord;
    KeyIsSpelled(ParsedKey(op.At(n).user, op.At(n).seqno, op.At(n).kind));
  }

  // One more entry, newer than all others.
  lemma ReadOneMore(es: set<Entry>, last: nat, op: Op, n: nat, k: Key)
    requires Unique(es) && UpTo(es, last) && last < n
    ensures Unique(es + {op.At(n)}) && UpTo(es + {op.At(n)}, n)
    ensures Read(es + {op.At(n)}, k, n) == if op.key == k then Means(op) else Read(es, k, last)
  {
    var e, more := op.At(n), es + {op.At(n)};
    OpComesBack(op, n);
    UniqueIsUniqueVersions(more, more);
    if op.key == k {
      assert Newest(more, k, n, e);
      ReadIs(more, k, n, e);
    } else {
      UniqueIsUniqueVersions(es, es);
      SameNewest(es, more, k, last, n);
    }
  }

  // Two sets in which a key has the same visible versions.
  lemma SameNewest(a: set<Entry>, b: set<Entry>, k: Key, m: nat, n: nat)
    requires UniqueVersions(a) && UniqueVersions(b)
    requires forall e: Entry | e.user == k :: (e in a && e.VisibleAt(m)) <==> (e in b && e.VisibleAt(n))
    ensures Read(a, k, m) == Read(b, k, n)
  {
    if HasVersion(a, k, m) {
      NewestExists(a, k, m);
      var e :| Newest(a, k, m, e);
      assert Newest(b, k, n, e);
      ReadIs(a, k, m, e);
      ReadIs(b, k, n, e);
    } else {
      ReadMiss(a, k, m);
      ReadMiss(b, k, n);
    }
  }

  // ---- a batch -----------------------------------------------------------------

  // A batch behind all other entries does to a map what its operations do.
  lemma {:induction false} ReadAfterBatch(es: set<Entry>, last: nat, b: Batch, n: nat, m: map<Key, Value>, k: Key)
    requires Unique(es) && UpTo(es, last) && b.first == last + 1 && n <= |b.ops| && Lookup(m, k) == Read(es, k, last)
    ensures Unique(es + b.Prefix(n)) && UpTo(es + b.Prefix(n), last + n)
    ensures Read(es + b.Prefix(n), k, last + n) == Lookup(Applied(m, b.ops[..n]), k)
    decreases n
  {
    hide Read, Unique, UpTo, Applied, Lookup;
    if n == 0 {
      NothingApplied(m, b.ops);
      assert es + b.Prefix(0) == es;
    } else {
      var op := b.ops[n - 1];
      ReadAfterBatch(es, last, b, n - 1, m, k);
      assert b.Prefix(n) == b.Prefix(n - 1) + {op.At(b.first + (n - 1))};
      assert es + b.Prefix(n) == es + b.Prefix(n - 1) + {op.At(last + n)};
      ReadOneMore(es + b.Prefix(n - 1), last + (n - 1), op, last + n, k);
      assert b.ops[..n][..n - 1] == b.ops[..n - 1];
      LookupMore(m, b.ops[..n], k);
    }
  }

  lemma NothingApplied(m: map<Key, Value>, ops: seq<Op>)
    ensures ops[..0] == [] && Applied(m, ops[..0]) == m
  {
  }

  // ---- a whole history ------------------------------------------------------------

  ghost function EntriesOf(h: seq<Numbered>): set<Entry>
  {
    set i | 0 <= i < |h| :: h[i].op.At(h[i].seqno)
  }

  function Top(h: seq<Numbered>): nat
  {
    if h == [] then 0 else h[|h| - 1].seqno
  }

  // Reading the newest of a history is looking up what its operations made of
  // the empty map.
  lemma {:induction false} ReadLatest(h: seq<Numbered>, k: Key)
    requires Ascending(h)
    ensures Unique(EntriesOf(h)) && UpTo(EntriesOf(h), Top(h))
    ensures Read(EntriesOf(h), k, Top(h)) == Lookup(Applied(map[], Ops(h)), k)
    decreases |h|
  {
    if h == [] {
      assert EntriesOf(h) == {};
      ReadMiss({}, k, 0);
    } else {
      var before, x := h[..|h| - 1], h[|h| - 1];
      hide Read, Unique, UpTo, Applied, Lookup, EntriesOf, Ops;
      OneMoreOp(h);
      ReadLatest(before, k);
      LookupMore(map[], Ops(h), k);
      ReadOneMore(EntriesOf(before), Top(before), x.op, x.seqno, k);
    }
  }

  lemma OneMoreOp(h: seq<Numbered>)
    requires h != [] && Ascending(h)
    ensures var before, x := h[..|h| - 1], h[|h| - 1];
            && Ascending(before) && Top(before) < x.seqno && EntriesOf(h) == EntriesOf(before) + {x.op.At(x.seqno)}
            && Ops(h)[..|h| - 1] == Ops(before) && Ops(h)[|h| - 1] == x.op
  {
    var before, x := h[..|h| - 1], h[|h| - 1];
    forall e ensures e in EntriesOf(h) <==> e in EntriesOf(before) + {x.op.At(x.seqno)} {
      if e in EntriesOf(before) {
        var i :| 0 <= i < |before| && e == before[i].op.At(before[i].seqno);
        assert before[i] == h[i];
      }
      if e in EntriesOf(h) {
        var i :| 0 <= i < |h| && e == h[i].op.At(h[i].seqno);
        if i < |before| { assert before[i] == h[i]; }
      }
    }
  }

  // A snapshot reads what the operations up to it made.
  lemma ReadIsReplay(h: seq<Numbered>, k: Key, snapshot: nat)
    requires Ascending(h)
    ensures Read(EntriesOf(h), k, snapshot) == Lookup(Applied(map[], Ops(Until(h, snapshot))), k)
  {
    hide Read, Applied, Lookup;
    var seen := Until(h, snapshot);
    UntilIsPrefix(h, snapshot);
    ReadLatest(h, k);
    ReadLatest(seen, k);
    UniqueIsUniqueVersions(EntriesOf(h), EntriesOf(h));
    UniqueIsUniqueVersions(EntriesOf(seen), EntriesOf(seen));
    forall e: Entry | e.user == k
      ensures (e in EntriesOf(h) && e.VisibleAt(snapshot)) <==> (e in EntriesOf(seen) && e.VisibleAt(Top(seen)))
    {
      SameVisible(h, snapshot, e);
    }
    SameNewest(EntriesOf(h), EntriesOf(seen), k, snapshot, Top(seen));
  }

  lemma {:induction false} UntilIsPrefix(h: seq<Numbered>, snapshot: nat)
    requires Ascending(h)
    ensures var seen := Until(h, snapshot);
            && seen == h[..|seen|] && Ascending(seen) && Top(seen) <= snapshot
            && forall i | |seen| <= i < |h| :: h[i].seqno > snapshot
    decreases |h|
  {
    if h != [] && h[|h| - 1].seqno > snapshot { UntilIsPrefix(h[..|h| - 1], snapshot); }
  }

  lemma SameVisible(h: seq<Numbered>, snapshot: nat, e: Entry)
    requires Ascending(h)
    ensures var seen := Until(h, snapshot);
            (e in EntriesOf(h) && e.VisibleAt(snapshot)) <==> (e in EntriesOf(seen) && e.VisibleAt(Top(seen)))
  {
    var seen := Until(h, snapshot);
    UntilIsPrefix(h, snapshot);
    if e in EntriesOf(h) && e.VisibleAt(snapshot) {
      var i :| 0 <= i < |h| && e == h[i].op.At(h[i].seqno);
      OpComesBack(h[i].op, h[i].seqno);
      assert seen[i] == h[i];
    }
    if e in EntriesOf(seen) && e.VisibleAt(Top(seen)) {
      var i :| 0 <= i < |seen| && e == seen[i].op.At(seen[i].seqno);
      assert seen[i] == h[i];
    }
  }

  // ---- the committed operations -------------------------------------------------------

  // Entries with numbers of their own can be listed in order.
  lemma {:induction false} InOrder(es: set<Entry>) returns (list: seq<Entry>)
    requires Unique(es)
    ensures (forall e :: e in list <==> e in es) && forall i, j | 0 <= i < j < |list| :: list[i].seqno < list[j].seqno
    decreases es
  {
    if es == {} {
      list := [];
    } else {
      var e := Latest(es);
      list := InOrder(es - {e});
      list := list + [e];
    }
  }

  lemma {:induction false} Latest(es: set<Entry>) returns (e: Entry)
    requires es != {}
    ensures e in es && forall f | f in es :: f.seqno <= e.seqno
    decreases es
  {
    e :| e in es;
    var rest := es - {e};
    if rest != {} {
      var f := Latest(rest);
      assert es == rest + {e};
      if f.seqno > e.seqno { e := f; }
    }
  }

  // Operation op gets number n in a group that begins during the run.
  ghost predicate BegunOp(s: Store, steps: seq<Step>, n: nat, op: Op)
    decreases |steps|
  {
    && steps != [] && Enabled(s, steps[0])
    && ((steps[0].Begin? && s.v.last < n <= s.v.last + |steps[0].ops| && steps[0].ops[n - s.v.last - 1] == op)
        || BegunOp(Apply(s, steps[0]), steps[1..], n, op))
  }

  lemma {:induction false} EntryIsOp(s: Store, steps: seq<Step>, e: Entry)
    requires Begun(s, steps, e)
    ensures e.seqno > 0 && e == OpOf(e).At(e.seqno) && BegunOp(s, steps, e.seqno, OpOf(e))
    decreases |steps|
  {
    hide Enabled, Apply;
    if steps[0].Begin? && e in Batch(s.v.last + 1, steps[0].ops).All() {
      var i :| 0 <= i < |steps[0].ops| && e == steps[0].ops[i].At(s.v.last + 1 + i);
      OpComesBack(steps[0].ops[i], s.v.last + 1 + i);
    } else {
      EntryIsOp(Apply(s, steps[0]), steps[1..], e);
    }
  }

  // These operations, each of a group that began on the run, are what the
  // database holds: at any permitted snapshot it answers like the map they make.
  ghost predicate Holds(s: Store, steps: seq<Step>, h: seq<Numbered>)
  {
    && Run(Initial(), steps, s) && ForgesNothing(Initial(), steps) && Ascending(h)
    && (forall i | 0 <= i < |h| :: BegunOp(Initial(), steps, h[i].seqno, h[i].op) && h[i].seqno <= s.v.last)
    && (forall k, snapshot: nat | s.v.floor <= snapshot <= s.v.last ::
          Read(Contents(s.disk.tables, s.v.tables) + s.Imm() + s.Mem(), k, snapshot) ==
          Lookup(Applied(map[], Ops(Until(h, snapshot))), k))
  }

  // An open database answers like the map that the committed operations make of
  // the empty one, whatever was written, flushed, merged, crashed and recovered
  // on the way, and each of them was written by someone.
  lemma AnswersAreReplay(s: Store) returns (steps: seq<Step>, h: seq<Numbered>)
    requires Reachable(s) && s.mode.Up?
    ensures Holds(s, steps, h) && EntriesOf(h) == s.hist.committed
    ensures forall k :: Answer(s, k) == Lookup(Applied(map[], Ops(h)), k)
  {
    hide Inv, Run, ForgesNothing, BegunOp, Read, Contents, Applied, Lookup, Reachable, Unique;
    steps := RunTo(s);
    ReachableInv(s);
    CommittedIsUnique(s);
    var list := InOrder(s.hist.committed);
    h := seq(|list|, i requires 0 <= i < |list| => Numbered(list[i].seqno, OpOf(list[i])));
    forall i | 0 <= i < |list|
      ensures list[i] == h[i].op.At(h[i].seqno) && h[i].seqno > 0 && BegunOp(Initial(), steps, h[i].seqno, h[i].op) && h[i].seqno <= s.v.last
    {
      assert list[i] in list;
      WasWritten(s, steps, list[i]);
    }
    ListIsHistory(list, h);
    HistoryAnswers(s, h);
  }

  lemma RunTo(s: Store) returns (steps: seq<Step>)
    requires Reachable(s)
    ensures Run(Initial(), steps, s) && ForgesNothing(Initial(), steps)
  {
    hide Run, ForgesNothing;
    steps :| Run(Initial(), steps, s) && ForgesNothing(Initial(), steps);
  }

  lemma CommittedIsUnique(s: Store)
    requires Inv(s) && s.mode.Up?
    ensures Unique(s.hist.committed) && UpTo(s.hist.committed, s.v.last) && s.v.floor <= s.v.last
  {
    hide VersionsOk, GroupOk, MemoryOk, OldLogsOk, NumbersOk, FlushOk, CompactOk, SnapshotsOk, PinsOk;
    FloorIsBelow(s);
    assert s.hist.committed <= s.Issued();
  }

  lemma WasWritten(s: Store, steps: seq<Step>, e: Entry)
    requires Run(Initial(), steps, s) && ForgesNothing(Initial(), steps) && e in s.hist.committed
    ensures e.seqno > 0 && e == OpOf(e).At(e.seqno) && BegunOp(Initial(), steps, e.seqno, OpOf(e))
  {
    hide Run, ForgesNothing, Begun, BegunOp, Inv;
    InitialInv();
    assert Known(Initial()) == {};
    EntriesWereBegun(Initial(), steps, s, e);
    EntryIsOp(Initial(), steps, e);
  }

  lemma ListIsHistory(list: seq<Entry>, h: seq<Numbered>)
    requires |list| == |h| && forall i | 0 <= i < |list| :: list[i] == h[i].op.At(h[i].seqno)
    ensures forall e :: e in EntriesOf(h) <==> e in list
  {
    forall e ensures e in EntriesOf(h) <==> e in list {
      if e in list {
        var i :| 0 <= i < |list| && list[i] == e;
        assert h[i].op.At(h[i].seqno) == e;
      }
    }
  }

  lemma HistoryAnswers(s: Store, h: seq<Numbered>)
    requires Inv(s) && s.mode.Up? && Ascending(h) && EntriesOf(h) == s.hist.committed && s.v.floor <= s.v.last
    requires forall i | 0 <= i < |h| :: h[i].seqno <= s.v.last
    ensures forall k, snapshot: nat | s.v.floor <= snapshot <= s.v.last ::
              Read(Contents(s.disk.tables, s.v.tables) + s.Imm() + s.Mem(), k, snapshot) ==
              Lookup(Applied(map[], Ops(Until(h, snapshot))), k)
    ensures forall k :: Answer(s, k) == Lookup(Applied(map[], Ops(h)), k)
  {
    hide Inv, Read, Contents, Applied, Lookup;
    forall k, snapshot: nat | s.v.floor <= snapshot <= s.v.last
      ensures Read(Contents(s.disk.tables, s.v.tables) + s.Imm() + s.Mem(), k, snapshot) ==
              Lookup(Applied(map[], Ops(Until(h, snapshot))), k)
    {
      RunningReads(s, k, snapshot);
      ReadIsReplay(h, k, snapshot);
    }
    assert Until(h, s.v.last) == h;
  }

  // An acknowledged operation, under its number, is among those the database
  // holds after any run; a Get answers with it or with a later one on its key.
  lemma AcknowledgedIsHeld(s: Store, n: nat, op: Op, steps: seq<Step>, t: Store) returns (run: seq<Step>, h: seq<Numbered>)
    requires Reachable(s) && Run(s, steps, t) && ForgesNothing(s, steps) && t.mode.Up?
    requires op.At(n) in s.hist.durable || (op.At(n) in s.hist.acked && CrashesLoseNothing(s, steps))
    ensures Holds(t, run, h) && Numbered(n, op) in h && StillAnswers(t, n, op)
    ensures forall k :: Answer(t, k) == Lookup(Applied(map[], Ops(h)), k)
  {
    hide Inv, Run, Reachable, CrashesLoseNothing, ForgesNothing, Holds, Read, Contents, Applied, Lookup;
    AcknowledgedStaysThroughout(s, steps, t);
    run, h := AnswersAreReplay(t);
    HoldsAscends(t, run, h);
    AckedIsCommitted(t);
    var i := OpIsListed(h, n, op);
    var j := LastOn(h, i);
    LastDecides(map[], Ops(h), j);
  }

  // Some operation on the key, this one or one after it, decides a Get.
  ghost predicate StillAnswers(t: Store, n: nat, op: Op)
  {
    exists x: Numbered :: x.op.At(x.seqno) in t.hist.committed && x.op.key == op.key
                          && (x == Numbered(n, op) || x.seqno > n) && Answer(t, op.key) == Means(x.op)
  }

  lemma AckedIsCommitted(t: Store)
    requires Reachable(t) && t.mode.Up?
    ensures t.hist.acked + t.hist.durable <= t.hist.committed
  {
    hide VersionsOk, GroupOk, MemoryOk, OldLogsOk, NumbersOk, FlushOk, CompactOk, SnapshotsOk, PinsOk, Reachable;
    ReachableInv(t);
  }

  lemma OpIsListed(h: seq<Numbered>, n: nat, op: Op) returns (i: nat)
    requires op.At(n) in EntriesOf(h)
    ensures i < |h| && h[i] == Numbered(n, op)
  {
    i :| 0 <= i < |h| && op.At(n) == h[i].op.At(h[i].seqno);
    OpComesBack(op, n);
    OpComesBack(h[i].op, h[i].seqno);
  }

  lemma {:induction false} LastOn(h: seq<Numbered>, i: nat) returns (j: nat)
    requires Ascending(h) && i < |h|
    ensures i <= j < |h| && h[j].op.key == h[i].op.key && (j == i || h[j].seqno > h[i].seqno)
    ensures h[j].op.At(h[j].seqno) in EntriesOf(h)
    ensures forall m | j < m < |Ops(h)| :: Ops(h)[m].key != Ops(h)[j].key
    decreases |h| - i
  {
    if m :| i < m < |h| && h[m].op.key == h[i].op.key {
      j := LastOn(h, m);
    } else {
      j := i;
    }
  }

  // What a reader sees in the tables and memtables it pinned, however long it
  // takes: the map that the operations up to its snapshot made.
  lemma ReadersSeeReplay(s: Store, id: nat, snapshot: nat, steps: seq<Step>, t: Store, k: Key) returns (before: seq<Step>, h: seq<Numbered>)
    requires Reachable(s) && CanRead(s, id, snapshot)
    requires Run(BeginRead(s, id, snapshot), steps, t) && forall step | step in steps :: LeavesReader(step, id)
    ensures Holds(s, before, h) && id in t.pins
    ensures Read(t.PinContents(t.pins[id]), k, snapshot) == Lookup(Applied(map[], Ops(Until(h, snapshot))), k)
  {
    hide Run, Read, Store.PinContents, Applied, Lookup, Holds, Reachable, BeginRead;
    ReadersSeeTheirSnapshot(s, id, snapshot, steps, t, k);
    before, h := AnswersAreReplay(s);
    HoldsAscends(s, before, h);
    ReadIsReplay(h, k, snapshot);
  }

  lemma HoldsAscends(s: Store, steps: seq<Step>, h: seq<Numbered>)
    requires Holds(s, steps, h)
    ensures Ascending(h)
  {
  }
}
