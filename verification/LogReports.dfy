// What a reader reports of a log with one damaged physical record, byte for byte.
module LogReports {
  import opened Bytes
  import opened LogFormat
  import opened LogEvents
  import opened LogTheorems
  import opened LogDamage

  // Type 3 or 4: the record goes on from an earlier fragment.
  predicate Later(f: Fragment) { f.kind == 3 || f.kind == 4 }

  // Type 2 or 3: the record goes on in a later fragment.
  predicate Earlier(f: Fragment) { f.kind == 2 || f.kind == 3 }

  // Each fragment that continues a record stands behind one that is continued;
  // the first behind a record left open or not.
  predicate InOrder(frags: seq<Fragment>, open: bool)
  {
    forall i | 0 <= i < |frags| :: Joins(frags, i, open)
  }

  predicate Joins(frags: seq<Fragment>, i: nat, open: bool)
    requires i < |frags|
  {
    1 <= frags[i].kind <= 4 && (Later(frags[i]) <==> if i > 0 then Earlier(frags[i - 1]) else open)
  }

  // The bytes of a record that stops short at the end of the fragments.
  function Unfinished(frags: seq<Fragment>): Option<nat>
  {
    if frags == [] then None
    else
      var f, before := frags[|frags| - 1], Unfinished(frags[..|frags| - 1]);
      if f.kind == 2 then Some(|f.payload|)
      else if f.kind == 3 && before.Some? then Some(before.value + |f.payload|)
      else None
  }

  // The sizes of fragments at the front whose record has lost its beginning.
  function Orphans(frags: seq<Fragment>): seq<nat>
  {
    if frags == [] || !Later(frags[0]) then [] else [|frags[0].payload|] + Orphans(frags[1..])
  }

  function Found(bytes: Option<nat>): seq<nat>
  {
    match bytes
    case None => []
    case Some(n) => [n]
  }

  // ---- the order of a layout -------------------------------------------------------

  lemma {:induction false} WholeInOrder(frags: seq<Fragment>, begin: bool)
    requires WholeRecord(frags, begin)
    ensures !Earlier(frags[|frags| - 1]) && InOrder(frags, !begin)
    decreases |frags|
  {
    if |frags| > 1 {
      WholeInOrder(frags[1..], false);
      JoinInOrder(frags[..1], frags[1..], !begin);
      assert frags[..1] + frags[1..] == frags;
    }
  }

  lemma {:induction false} LayoutInOrder(fmt: Format, pos: nat, records: seq<seq<Byte>>)
    requires fmt.Ok()
    ensures InOrder(CutAll(fmt.block, pos, records), false)
    decreases |records|
  {
    if records != [] {
      hide Cut, WholeRecord, Chain, Payloads, Later, Earlier;
      var frags := Cut(fmt.block, pos, records[0], true);
      CutIsRecord(fmt, pos, records[0], true);
      WholeInOrder(frags, true);
      LayoutInOrder(fmt, EndOf(pos, frags), records[1..]);
      JoinInOrder(frags, CutAll(fmt.block, EndOf(pos, frags), records[1..]), false);
    }
  }

  lemma JoinInOrder(a: seq<Fragment>, b: seq<Fragment>, open: bool)
    requires a != [] && InOrder(a, open) && InOrder(b, Earlier(a[|a| - 1]))
    ensures InOrder(a + b, open)
  {
    hide Later, Earlier;
    var both := a + b;
    forall i | 0 <= i < |both| ensures Joins(both, i, open) {
      if i < |a| {
        assert Joins(a, i, open);
      } else {
        assert Joins(b, i - |a|, Earlier(a[|a| - 1]));
      }
    }
  }

  // ---- drops, event by event ---------------------------------------------------------

  // All drops reported from here to the end of the events.
  function DropsFrom(events: seq<Event>, p: Partial, initial: nat): seq<nat>
  {
    var s := NextRecord(events, false, p, initial);
    s.drops + if s.found.Some? then ReadAll(s.rest, s.resyncing, initial).1 else []
  }

  lemma DropsAreAll(events: seq<Event>, initial: nat)
    ensures ReadAll(events, false, initial).1 == DropsFrom(events, NOTHING, initial)
  {
    hide NextRecord;
    var s := NextRecord(events, false, NOTHING, initial);
    assert s.drops + [] == s.drops;
  }

  lemma DropsNext(e: Event, rest: seq<Event>, p: Partial, initial: nat)
    requires e.code != EOF_CODE && (TurnOn(e, false, p, initial).Go? ==> !TurnOn(e, false, p, initial).resyncing)
    ensures DropsFrom([e] + rest, p, initial) == EventDrops(e) +
            match TurnOn(e, false, p, initial)
            case Deliver(_, drops) => drops + DropsFrom(rest, NOTHING, initial)
            case Stop(drops) => drops
            case Go(_, q, drops) => drops + DropsFrom(rest, q, initial)
  {
    hide TurnOn, EventDrops, ReadAll;
    assert ([e] + rest)[1..] == rest;
    DropsAreAll(rest, initial);
    var seen := EventDrops(e);
    match TurnOn(e, false, p, initial)
    case Deliver(_, drops) =>
      assert seen + drops + DropsFrom(rest, NOTHING, initial) == seen + (drops + DropsFrom(rest, NOTHING, initial));
    case Stop(_) =>
    case Go(resync, q, drops) =>
      var s := NextRecord(rest, false, q, initial);
      var end := if s.found.Some? then ReadAll(s.rest, s.resyncing, initial).1 else [];
      assert NextRecord([e] + rest, false, p, initial).drops == seen + drops + s.drops;
      assert seen + drops + s.drops + end == seen + (drops + (s.drops + end));
  }

  // The record that the reader has in hand.
  predicate Holding(p: Partial, bytes: Option<nat>)
  {
    if bytes.Some? then p.open && |p.scratch| == bytes.value else p == NOTHING
  }

  lemma QuietTurn(f: Fragment, rest: seq<Event>, p: Partial, bytes: Option<nat>, initial: nat) returns (q: Partial)
    requires f.start >= initial
    requires 1 <= f.kind <= 4 && Holding(p, bytes) && (Later(f) <==> bytes.Some?)
    ensures DropsFrom([EventOf(f, initial)] + rest, p, initial) == DropsFrom(rest, q, initial)
    ensures Holding(q, if f.kind == 2 then Some(|f.payload|)
                       else if f.kind == 3 && bytes.Some? then Some(bytes.value + |f.payload|) else None)
  {
    hide DropsFrom;
    var e := EventOf(f, initial);
    DropsNext(e, rest, p, initial);
    q := match TurnOn(e, false, p, initial)
    case Go(_, r, _) => r
    case _ => NOTHING;
    assert [] + ([] + DropsFrom(rest, q, initial)) == DropsFrom(rest, q, initial);
  }

  lemma FrontInOrder(frags: seq<Fragment>)
    requires InOrder(frags, false) && frags != []
    ensures InOrder(frags[..|frags| - 1], false)
  {
    hide Later, Earlier;
    var front := frags[..|frags| - 1];
    forall i | 0 <= i < |front| ensures Joins(front, i, false) {
      assert Joins(frags, i, false);
    }
  }

  lemma {:induction false} EarlierIsUnfinished(frags: seq<Fragment>)
    requires InOrder(frags, false)
    ensures Unfinished(frags).Some? <==> frags != [] && Earlier(frags[|frags| - 1])
    decreases |frags|
  {
    if frags != [] {
      var front := frags[..|frags| - 1];
      FrontInOrder(frags);
      EarlierIsUnfinished(front);
      assert Joins(frags, |frags| - 1, false);
      if front != [] { assert front[|front| - 1] == frags[|frags| - 2]; }
    }
  }

  // Intact fragments in order are read without a report.
  lemma {:induction false} QuietPrefix(frags: seq<Fragment>, rest: seq<Event>, initial: nat) returns (q: Partial)
    requires InOrder(frags, false) && forall f | f in frags :: f.start >= initial
    ensures DropsFrom(EventsOf(frags, initial) + rest, NOTHING, initial) == DropsFrom(rest, q, initial)
    ensures Holding(q, Unfinished(frags))
    decreases |frags|
  {
    hide DropsFrom, EventOf;
    if frags == [] {
      q := NOTHING;
      assert EventsOf(frags, initial) + rest == rest;
    } else {
      hide Later, Earlier;
      var front, f := frags[..|frags| - 1], frags[|frags| - 1];
      assert frags == front + [f];
      FrontInOrder(frags);
      EventsConcat(front, [f], initial);
      assert EventsOf([f], initial) == [EventOf(f, initial)];
      assert EventsOf(front, initial) + [EventOf(f, initial)] + rest == EventsOf(front, initial) + ([EventOf(f, initial)] + rest);
      var p := QuietPrefix(front, [EventOf(f, initial)] + rest, initial);
      EarlierIsUnfinished(front);
      assert Joins(frags, |frags| - 1, false);
      if front != [] { assert front[|front| - 1] == frags[|frags| - 2]; }
      q := QuietTurn(f, rest, p, Unfinished(front), initial);
    }
  }

  lemma NoMoreDrops(q: Partial, initial: nat)
    ensures DropsFrom([], q, initial) == []
  {
  }

  lemma OrphanTurn(f: Fragment, rest: seq<Event>, initial: nat)
    requires Later(f) && f.start >= initial
    ensures DropsFrom([EventOf(f, initial)] + rest, NOTHING, initial) == [|f.payload|] + DropsFrom(rest, NOTHING, initial)
  {
    hide DropsFrom;
    DropsNext(EventOf(f, initial), rest, NOTHING, initial);
    assert [] + ([|f.payload|] + DropsFrom(rest, NOTHING, initial)) == [|f.payload|] + DropsFrom(rest, NOTHING, initial);
  }

  // Past the damage the reader reports fragments up to where a record begins.
  lemma {:induction false} TailDrops(frags: seq<Fragment>, m: nat, initial: nat)
    requires InOrder(frags, false) && m <= |frags| && forall i | m <= i < |frags| :: frags[i].start >= initial
    ensures DropsFrom(EventsOf(frags[m..], initial), NOTHING, initial) == Orphans(frags[m..])
    decreases |frags| - m
  {
    hide DropsFrom, EventOf;
    var tail := frags[m..];
    if tail == [] {
      NoMoreDrops(NOTHING, initial);
    } else if Later(tail[0]) {
      assert tail[1..] == frags[m + 1..];
      OrphanTurn(tail[0], EventsOf(tail[1..], initial), initial);
      TailDrops(frags, m + 1, initial);
    } else {
      var q := QuietFrom(frags, m, initial);
      NoMoreDrops(q, initial);
    }
  }

  lemma QuietFrom(frags: seq<Fragment>, m: nat, initial: nat) returns (q: Partial)
    requires InOrder(frags, false) && m < |frags| && !Later(frags[m]) && forall i | m <= i < |frags| :: frags[i].start >= initial
    ensures DropsFrom(EventsOf(frags[m..], initial), NOTHING, initial) == DropsFrom([], q, initial)
  {
    hide DropsFrom, EventOf, EventsOf, Later, Earlier;
    var tail := frags[m..];
    assert InOrder(tail, false) by {
      forall i | 0 <= i < |tail| ensures Joins(tail, i, false) {
        assert Joins(frags, m + i, false);
      }
    }
    q := QuietPrefix(tail, [], initial);
    assert EventsOf(tail, initial) + [] == EventsOf(tail, initial);
  }

  lemma DamageTurn(e: Event, rest: seq<Event>, p: Partial, bytes: Option<nat>)
    requires e.code == BAD_RECORD && Holding(p, bytes) && (bytes.Some? ==> bytes.value <= e.after)
    ensures DropsFrom([e] + rest, p, 0) == (if e.dropped > 0 then [e.dropped] else []) + Found(bytes) + DropsFrom(rest, NOTHING, 0)
  {
    hide DropsFrom;
    DropsNext(e, rest, p, 0);
    var seen, drops := EventDrops(e), TurnOn(e, false, p, 0).drops;
    assert drops == Found(bytes);
    assert seen + (drops + DropsFrom(rest, NOTHING, 0)) == seen + drops + DropsFrom(rest, NOTHING, 0);
  }

  // ---- the theorem ---------------------------------------------------------------------

  lemma {:induction false} UnfinishedFits(fmt: Format, pos: nat, frags: seq<Fragment>)
    requires fmt.Ok() && Chain(fmt, pos, frags)
    ensures Unfinished(frags).Some? ==> Unfinished(frags).value <= EndOf(pos, frags)
    decreases |frags|
  {
    if frags != [] {
      hide Place, BlockEnd, Chain;
      var n := |frags| - 1;
      ChainSplit(fmt, pos, frags, n);
      UnfinishedFits(fmt, pos, frags[..n]);
      AtLeast(fmt, pos, frags);
    }
  }

  lemma AtLeast(fmt: Format, pos: nat, frags: seq<Fragment>)
    requires fmt.Ok() && Chain(fmt, pos, frags) && frags != []
    ensures EndOf(pos, frags[..|frags| - 1]) + |frags[|frags| - 1].payload| <= EndOf(pos, frags)
  {
    hide Place, BlockEnd;
    ChainSplit(fmt, pos, frags, |frags| - 1);
    assert frags[|frags| - 1..][0] == frags[|frags| - 1];
    ChainAscends(fmt, pos, frags);
  }

  // Reading a layout with one damaged physical record.
  lemma DropsAroundDamage(src: Source, frags: seq<Fragment>, k: nat, damage: seq<Event>)
    requires src.Ok() && Chain(src.fmt, 0, frags) && InOrder(frags, false) && k < |frags|
    requires frags[k].start + HEADER_SIZE <= src.BufferEnd(frags[k].start)
    requires frags[k].start == Place(src.fmt.block, EndOf(0, frags[..k]))
    requires Reported(src, frags[k].start, damage)
    requires damage == [] ==> After(frags[k + 1..], BlockEnd(src.fmt.block, frags[k].start)) == []
    ensures var tail := After(frags[k + 1..], BlockEnd(src.fmt.block, frags[k].start));
            ReadAll(EventsOf(frags[..k], 0) + damage + EventsOf(tail, 0), false, 0).1 ==
            if damage == [] then []
            else (if damage[0].dropped > 0 then [damage[0].dropped] else []) + Found(Unfinished(frags[..k])) + Orphans(tail)
  {
    hide BlockEnd, Chain, InOrder, ReadAll, EventsOf, Orphans, Unfinished, Reported, After, EndOf;
    var hi := BlockEnd(src.fmt.block, frags[k].start);
    var j := AfterIsSuffix(frags[k + 1..], hi);
    SuffixOfSuffix(frags, k + 1, j);
    assert Unfinished(frags[..k]).Some? ==> Unfinished(frags[..k]).value <= frags[k].start by {
      ChainSplit(src.fmt, 0, frags, k);
      UnfinishedFits(src.fmt, 0, frags[..k]);
    }
    ReportedAfter(src, frags[k].start, damage);
    hide Place, DamageEvents;
    EventsAround(frags, k, k + 1 + j, damage);
  }

  lemma SuffixOfSuffix(frags: seq<Fragment>, i: nat, j: nat)
    requires i <= |frags| && j <= |frags| - i
    ensures frags[i..][j..] == frags[i + j..]
  {
  }

  lemma ReportedAfter(src: Source, start: nat, damage: seq<Event>)
    requires src.Ok() && start + HEADER_SIZE <= src.BufferEnd(start) && Reported(src, start, damage)
    ensures DamageEvents(damage) && (damage != [] ==> damage[0].after >= start)
  {
  }

  lemma EventsAround(frags: seq<Fragment>, k: nat, m: nat, damage: seq<Event>)
    requires InOrder(frags, false) && k <= m <= |frags| && DamageEvents(damage) && (damage == [] ==> m == |frags|)
    requires damage != [] && Unfinished(frags[..k]).Some? ==> Unfinished(frags[..k]).value <= damage[0].after
    ensures ReadAll(EventsOf(frags[..k], 0) + damage + EventsOf(frags[m..], 0), false, 0).1 ==
            if damage == [] then []
            else (if damage[0].dropped > 0 then [damage[0].dropped] else []) + Found(Unfinished(frags[..k])) + Orphans(frags[m..])
  {
    hide DropsFrom, EventsOf, InOrder, ReadAll, Orphans, Holding, Unfinished;
    var tail := EventsOf(frags[m..], 0);
    assert EventsOf(frags[..k], 0) + damage + tail == EventsOf(frags[..k], 0) + (damage + tail);
    DropsAreAll(EventsOf(frags[..k], 0) + (damage + tail), 0);
    PrefixInOrder(frags, k);
    var q := QuietPrefix(frags[..k], damage + tail, 0);
    if damage == [] {
      NoEvents();
      NoMoreDrops(q, 0);
      assert damage + tail == [];
    } else {
      assert damage == [damage[0]];
      DamageTurn(damage[0], tail, q, Unfinished(frags[..k]));
      TailDrops(frags, m, 0);
    }
  }

  lemma PrefixInOrder(frags: seq<Fragment>, k: nat)
    requires InOrder(frags, false) && k <= |frags|
    ensures InOrder(frags[..k], false)
  {
    hide Later, Earlier;
    forall i | 0 <= i < k ensures Joins(frags[..k], i, false) {
      assert Joins(frags, i, false);
    }
  }

  // One physical record is damaged so that its length or checksum test fails.
  // The reports are exactly these, in order: the bytes from that record to the
  // end of its block or of the file; the bytes already read of a record that
  // the damage breaks off; and one by one the fragments in later blocks of a
  // record that began before them. A record of type and length 0 is not
  // reported itself; and a length that runs past the end of the file counts as
  // the end of the log, without any report.
  lemma DamageIsReported(fmt: Format, records: seq<seq<Byte>>, log: seq<Byte>, k: nat, checksum: bool)
    requires fmt.Ok()
    requires var frags := CutAll(fmt.block, 0, records);
             var src := Source(fmt, log, checksum, 0);
             && k < |frags| && |log| == EndOf(0, frags)
             && IntactBut(fmt, log, frags, k)
             && frags[k].start + HEADER_SIZE <= src.BufferEnd(frags[k].start)
             && Detectable(src, frags[k].start)
    ensures var frags := CutAll(fmt.block, 0, records);
            var start := frags[k].start;
            var low: int, high: int := log[start + 4], log[start + 5];
            var end := BlockEnd(fmt.block, start);
            ReadAll(Source(fmt, log, checksum, 0).Scan(0), false, 0).1 ==
            if |log| < end && start + 7 + low + 256 * high > |log| then []
            else (if low == 0 && high == 0 && log[start + 6] == 0 then [] else [Min(end, |log|) - start])
                 + Found(Unfinished(frags[..k])) + Orphans(After(frags[k + 1..], end))
  {
    hide ReadAll, BlockEnd, Chain, InOrder, Detectable, IntactBut, CutAll, Unfinished, Orphans, After, EventsOf;
    var frags, src := CutAll(fmt.block, 0, records), Source(fmt, log, checksum, 0);
    CutAllChain(fmt, 0, records);
    LayoutInOrder(fmt, 0, records);
    HeaderInBuffer(src, 0, frags, k);
    var damage := ScanDamaged(src, 0, frags, k);
    DropsAroundDamage(src, frags, k, damage);
  }
}
