// What a reader reports that starts inside an intact log, and what it forgives.
module LogOffsets {
  import opened Bytes
  import opened LogFormat
  import opened LogEvents
  import opened LogTheorems
  import opened LogReports

  // The events without a broken record at the front: middle fragments up to and
  // with the last one.
  function Resynced(events: seq<Event>): seq<Event>
  {
    if events == [] then []
    else if events[0].code == 3 then Resynced(events[1..])
    else if events[0].code == 4 then events[1..]
    else events
  }

  // Starting inside the file, the reader passes over just that, and in silence.
  lemma {:induction false} ResyncSkips(events: seq<Event>, initial: nat)
    requires forall e | e in events :: e.code != BAD_RECORD ==> e.dropped == 0
    ensures ReadAll(events, true, initial) == ReadAll(Resynced(events), false, initial)
    decreases |events|
  {
    if events != [] {
      var e, rest := events[0], events[1..];
      assert e in events && forall x | x in rest :: x in events;
      NextResyncing(events, initial);
      if e.code == 3 { ResyncSkips(rest, initial); }
    }
  }

  lemma NextResyncing(events: seq<Event>, initial: nat)
    requires events != [] && (events[0].code != BAD_RECORD ==> events[0].dropped == 0)
    ensures NextRecord(events, true, NOTHING, initial) ==
            if events[0].code == 3 then NextRecord(events[1..], true, NOTHING, initial)
            else if events[0].code == 4 then NextRecord(events[1..], false, NOTHING, initial)
            else NextRecord(events, false, NOTHING, initial)
  {
    var e := events[0];
    if e.code == 3 || e.code == 4 {
      var s := NextRecord(events[1..], e.code == 3, NOTHING, initial);
      assert [] + [] + s.drops == s.drops;
    }
  }

  // An empty first fragment, which an earlier writer could leave at the end of a
  // block, changes nothing before the record that follows.
  lemma EmptyFirstIsForgiven(e: Event, f: Event, rest: seq<Event>, initial: nat)
    requires e.code == 2 && e.payload == [] && e.dropped == 0 && (f.code == 1 || f.code == 2)
    ensures ReadAll([e, f] + rest, false, initial) == ReadAll([f] + rest, false, initial)
  {
    var later := [f] + rest;
    assert [e, f] + rest == [e] + later;
    var p := Partial(true, e.payload, e.start);
    assert ([e] + later)[1..] == later;
    var s := NextRecord(later, false, p, initial);
    assert NextRecord([e] + later, false, NOTHING, initial) == s.(drops := [] + [] + s.drops);
    assert [] + [] + s.drops == s.drops;
    assert LostPartial(f, p, initial) == [] == LostPartial(f, NOTHING, initial);
    assert later[0] == f;
    assert NextRecord(later, false, p, initial) == NextRecord(later, false, NOTHING, initial);
  }

  // ---- reports from an offset ------------------------------------------------------

  lemma BelowTurn(f: Fragment, rest: seq<Event>, initial: nat)
    requires f.start < initial
    ensures DropsFrom([EventOf(f, initial)] + rest, NOTHING, initial) == DropsFrom(rest, NOTHING, initial)
  {
    hide DropsFrom;
    DropsNext(EventOf(f, initial), rest, NOTHING, initial);
    assert [] + ([] + DropsFrom(rest, NOTHING, initial)) == DropsFrom(rest, NOTHING, initial);
  }

  predicate Ascends(frags: seq<Fragment>)
  {
    forall i, j | 0 <= i < j < |frags| :: frags[i].start < frags[j].start
  }

  lemma {:induction false} ChainIsAscending(fmt: Format, pos: nat, frags: seq<Fragment>)
    requires fmt.Ok() && Chain(fmt, pos, frags)
    ensures Ascends(frags)
    decreases |frags|
  {
    hide Place, BlockEnd;
    if frags != [] {
      ChainIsAscending(fmt, frags[0].End(), frags[1..]);
      ChainAscends(fmt, frags[0].End(), frags[1..]);
      forall i, j | 0 <= i < j < |frags| ensures frags[i].start < frags[j].start {
        assert frags[j] == frags[1..][j - 1];
        if i > 0 { assert frags[i] == frags[1..][i - 1]; } else { assert frags[j] in frags[1..]; }
      }
    }
  }

  // Fragments below the offset bring nothing; past it those are reported whose
  // record has begun before.
  lemma {:induction false} ReportsFrom(frags: seq<Fragment>, m: nat, initial: nat)
    requires InOrder(frags, false) && Ascends(frags) && m <= |frags|
    ensures DropsFrom(EventsOf(frags[m..], initial), NOTHING, initial) == Orphans(After(frags[m..], initial))
    decreases |frags| - m
  {
    hide DropsFrom, EventOf, InOrder, Orphans;
    var tail := frags[m..];
    if tail != [] && tail[0].start < initial {
      assert tail[1..] == frags[m + 1..];
      BelowTurn(tail[0], EventsOf(tail[1..], initial), initial);
      ReportsFrom(frags, m + 1, initial);
    } else {
      assert After(tail, initial) == tail;
      TailDrops(frags, m, initial);
    }
  }

  // Past the offset from the first: what is left of a broken record is skipped.
  lemma {:induction false} QuietResync(frags: seq<Fragment>, m: nat, initial: nat)
    requires InOrder(frags, false) && m <= |frags| && forall i | m <= i < |frags| :: frags[i].start >= initial
    ensures DropsFrom(Resynced(EventsOf(frags[m..], initial)), NOTHING, initial) == []
    decreases |frags| - m
  {
    hide DropsFrom, InOrder;
    var tail := frags[m..];
    if tail == [] {
      NoMoreDrops(NOTHING, initial);
    } else {
      assert tail[1..] == frags[m + 1..] && EventsOf(tail, initial)[1..] == EventsOf(tail[1..], initial);
      assert EventsOf(tail, initial)[0].code == tail[0].kind;
      if tail[0].kind == 3 {
        QuietResync(frags, m + 1, initial);
      } else if tail[0].kind == 4 {
        TailDrops(frags, m + 1, initial);
        NoOrphans(frags, m);
      } else {
        TailDrops(frags, m, initial);
      }
    }
  }

  lemma NoOrphans(frags: seq<Fragment>, m: nat)
    requires InOrder(frags, false) && m < |frags| && frags[m].kind == 4
    ensures Orphans(frags[m + 1..]) == []
  {
    if m + 1 < |frags| { assert Joins(frags, m + 1, false); }
  }

  // A reader opened at an offset inside an intact log reports nothing when the
  // first physical record it comes to lies past the offset. Otherwise it loses
  // its way in the middle of a record: each fragment of it past the offset is
  // reported.
  lemma OffsetReports(fmt: Format, records: seq<seq<Byte>>, log: seq<Byte>, initial: nat, checksum: bool)
    requires fmt.Ok() && IsLog(fmt, records, log)
    ensures var src := Source(fmt, log, checksum, initial);
            var frags := CutAll(fmt.block, 0, records);
            var seen := After(frags, src.InitialBlock());
            ReadAll(src.Scan(src.InitialBlock()), initial > 0, initial).1 ==
            if seen != [] && seen[0].start < initial then Orphans(After(frags, initial)) else []
  {
    hide ReadAll, Source.Scan, Source.InitialBlock, CutAll, EventsOf, InOrder, Orphans, Chain, After, Ascends;
    var src := Source(fmt, log, checksum, initial);
    var frags := CutAll(fmt.block, 0, records);
    CutAllChain(fmt, 0, records);
    LayoutInOrder(fmt, 0, records);
    ChainIsAscending(fmt, 0, frags);
    EventsFromBlock(src, frags);
    var m := AfterIsSuffix(frags, src.InitialBlock());
    SuffixReports(frags, m, initial);
    if m < |frags| && frags[m].start < initial { SameAfter(frags, m, initial); }
  }

  lemma EventsFromBlock(src: Source, frags: seq<Fragment>)
    requires src.Ok() && Chain(src.fmt, 0, frags) && HoldsAll(src.fmt, src.file, frags) && |src.file| == EndOf(0, frags)
    ensures src.Scan(src.InitialBlock()) == EventsOf(After(frags, src.InitialBlock()), src.initial)
    ensures src.initial == 0 ==> src.InitialBlock() == 0
  {
    assert src.initial == 0 ==> src.InitialBlock() == 0;
    InitialBlockStarts(src);
    hide Source.Scan, Source.InitialBlock, HoldsAll, BlockEnd, EventsOf, Chain, After;
    HoldsAfter(src, frags, src.InitialBlock());
    ScanFrom(src, 0, frags, src.InitialBlock());
  }

  lemma SameAfter(frags: seq<Fragment>, m: nat, initial: nat)
    requires Ascends(frags) && m < |frags| && frags[m].start < initial
    ensures After(frags[m..], initial) == After(frags, initial)
  {
    assert frags == frags[..m] + frags[m..];
    var k := AfterIsSuffix(frags[..m], initial);
    if k < m { assert false; }
    AfterConcat(frags[..m], frags[m..], initial);
  }

  lemma SuffixReports(frags: seq<Fragment>, m: nat, initial: nat)
    requires InOrder(frags, false) && Ascends(frags) && m <= |frags| && (initial == 0 ==> m == 0)
    ensures ReadAll(EventsOf(frags[m..], initial), initial > 0, initial).1 ==
            if m < |frags| && frags[m].start < initial then Orphans(After(frags[m..], initial)) else []
  {
    hide ReadAll, EventsOf, DropsFrom, InOrder, Orphans, After, Resynced;
    var events := EventsOf(frags[m..], initial);
    DropsAreAll(events, initial);
    if initial > 0 {
      NoDamage(frags[m..], initial);
      ResyncSkips(events, initial);
      DropsAreAll(Resynced(events), initial);
    }
    if m < |frags| && frags[m].start < initial {
      BelowStays(frags, m, initial);
      ReportsFrom(frags, m, initial);
    } else {
      QuietSuffix(frags, m, initial);
    }
  }

  lemma NoDamage(frags: seq<Fragment>, initial: nat)
    ensures forall e | e in EventsOf(frags, initial) :: e.dropped == 0
  {
    forall e | e in EventsOf(frags, initial) ensures e.dropped == 0 {
      var i := EventsAt(frags, initial, e);
    }
  }

  lemma BelowStays(frags: seq<Fragment>, m: nat, initial: nat)
    requires m < |frags| && frags[m].start < initial
    ensures Resynced(EventsOf(frags[m..], initial)) == EventsOf(frags[m..], initial)
  {
    assert frags[m..][0] == frags[m];
  }

  lemma QuietSuffix(frags: seq<Fragment>, m: nat, initial: nat)
    requires InOrder(frags, false) && Ascends(frags) && m <= |frags| && (m < |frags| ==> frags[m].start >= initial)
    requires initial == 0 ==> m == 0
    ensures DropsFrom(Resynced(EventsOf(frags[m..], initial)), NOTHING, initial) == []
    ensures initial == 0 ==> DropsFrom(EventsOf(frags[m..], initial), NOTHING, initial) == []
  {
    hide DropsFrom, EventsOf, Resynced;
    QuietResync(frags, m, initial);
    if initial == 0 {
      TailDrops(frags, m, 0);
      if frags != [] { assert Joins(frags, 0, false); }
    }
  }
}
