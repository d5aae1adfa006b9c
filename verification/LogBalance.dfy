// Nothing is passed over in silence: whatever bytes a log file holds, all payload
// that the reader finds is returned in a record or reported as dropped.
module LogBalance {
  import opened Bytes
  import opened LogFormat
  import opened LogEvents
  import opened LogReports

  function Total(drops: seq<nat>): nat
  {
    if drops == [] then 0 else drops[0] + Total(drops[1..])
  }

  function TotalReturned(records: seq<Record>): nat
  {
    if records == [] then 0 else |records[0].0| + TotalReturned(records[1..])
  }

  // What one physical record brings: its payload, or the bytes given up there. The
  // reader takes a record of type 6 for a damaged one.
  function Brings(e: Event): nat
  {
    e.dropped + if e.code == 6 then 0 else |e.payload|
  }

  function TotalFound(events: seq<Event>): nat
  {
    if events == [] then 0 else Brings(events[0]) + TotalFound(events[1..])
  }

  // A record of type 5 is taken for the end of the file.
  function UpToFive(events: seq<Event>): seq<Event>
  {
    if events == [] || events[0].code == 5 then [] else [events[0]] + UpToFive(events[1..])
  }

  // The bytes of a record begun and not finished, given those before the events.
  function LeftOpen(events: seq<Event>, held: Option<nat>): Option<nat>
  {
    if events == [] then held
    else
      var e := events[0];
      LeftOpen(events[1..],
        if e.code == 2 then Some(|e.payload|)
        else if e.code == 3 && held.Some? then Some(held.value + |e.payload|)
        else None)
  }

  function Size(held: Option<nat>): nat
  {
    if held.Some? then held.value else 0
  }

  // The events lie one behind the other, and only damage is given up.
  predicate Laid(events: seq<Event>, pos: nat)
  {
    events != [] ==>
      && events[0].after >= pos + |events[0].payload|
      && (events[0].code != 6 ==> events[0].dropped == 0)
      && Laid(events[1..], events[0].after)
  }

  lemma {:induction false} ScanIsLaid(src: Source, pos: nat)
    requires src.Ok()
    ensures Laid(src.Scan(pos), pos)
    decreases |src.file| + src.fmt.block - pos
  {
    if pos <= |src.file| {
      if src.BufferEnd(pos) - pos < HEADER_SIZE {
        if !src.AtEof(pos) {
          ScanIsLaid(src, BlockEnd(src.fmt.block, pos));
          LaidEarlier(src.Scan(BlockEnd(src.fmt.block, pos)), BlockEnd(src.fmt.block, pos), pos);
        }
      } else {
        var e := src.EventAt(pos);
        if e.Some? { ScanIsLaid(src, e.value.after); }
      }
    }
  }

  lemma LaidEarlier(events: seq<Event>, pos: nat, before: nat)
    requires Laid(events, pos) && before <= pos
    ensures Laid(events, before)
  {
  }

  // All records returned from here to the end of the events.
  function FoundFrom(events: seq<Event>, p: Partial): seq<Record>
  {
    var s := NextRecord(events, false, p, 0);
    if s.found.Some? then [s.found.value] + ReadAll(s.rest, s.resyncing, 0).0 else []
  }

  lemma FoundNext(e: Event, rest: seq<Event>, p: Partial)
    requires TurnOn(e, false, p, 0).Go? ==> !TurnOn(e, false, p, 0).resyncing
    ensures FoundFrom([e] + rest, p) ==
            match TurnOn(e, false, p, 0)
            case Deliver(r, _) => [r] + FoundFrom(rest, NOTHING)
            case Stop(_) => []
            case Go(_, q, _) => FoundFrom(rest, q)
  {
    hide TurnOn, EventDrops;
    assert ([e] + rest)[1..] == rest;
    FoundIsAll(rest);
  }

  lemma FoundIsAll(events: seq<Event>)
    ensures ReadAll(events, false, 0).0 == FoundFrom(events, NOTHING)
  {
    hide NextRecord;
  }

  lemma {:induction false} TotalJoin(a: seq<nat>, b: seq<nat>)
    ensures Total(a + b) == Total(a) + Total(b)
    decreases |a|
  {
    if a == [] {
      assert a + b == b;
    } else {
      assert (a + b)[1..] == a[1..] + b;
      TotalJoin(a[1..], b);
    }
  }

  // One physical record: what it brings and what was held go into the record
  // returned, the reports and what is held now.
  lemma TurnBalances(e: Event, p: Partial, held: Option<nat>, pos: nat)
    requires Holding(p, held) && Size(held) <= pos && e.after >= pos + |e.payload| && e.code != 5
    ensures var t := TurnOn(e, false, p, 0);
            var now := LeftOpen([e], held);
            && !t.Stop? && Size(now) <= e.after
            && Size(held) + Brings(e) == (if t.Deliver? then |t.record.0| else 0) + Total(EventDrops(e)) + Total(t.drops) + Size(now)
            && (if t.Deliver? then now == None else !t.resyncing && Holding(t.partial, now))
  {
    assert LeftOpen([], LeftOpen([e], held)) == LeftOpen([e], held);
  }

  lemma {:induction false} EventsBalance(events: seq<Event>, p: Partial, held: Option<nat>, pos: nat)
    requires Laid(events, pos) && Holding(p, held) && Size(held) <= pos
    ensures var seen := UpToFive(events);
            TotalReturned(FoundFrom(events, p)) + Total(DropsFrom(events, p, 0)) + Size(LeftOpen(seen, held)) == TotalFound(seen) + Size(held)
    decreases |events|
  {
    hide FoundFrom, DropsFrom, Brings, TurnOn, EventDrops, Holding;
    if events == [] {
      NothingFound(p);
    } else {
      var e, rest := events[0], events[1..];
      assert events == [e] + rest;
      if e.code == 5 {
        FiveStops(e, rest, p);
      } else {
        TurnBalances(e, p, held, pos);
        var t, now := TurnOn(e, false, p, 0), LeftOpen([e], held);
        FoundNext(e, rest, p);
        DropsNext(e, rest, p, 0);
        var q := if t.Deliver? then NOTHING else t.partial;
        NothingHeld();
        EventsBalance(rest, q, now, e.after);
        TotalJoin(t.drops, DropsFrom(rest, q, 0));
        TotalJoin(EventDrops(e), t.drops + DropsFrom(rest, q, 0));
        assert UpToFive(events)[1..] == UpToFive(rest);
      }
    }
  }

  lemma NothingHeld()
    ensures Holding(NOTHING, None)
  {
  }

  lemma NothingFound(p: Partial)
    ensures FoundFrom([], p) == [] && DropsFrom([], p, 0) == []
  {
  }

  lemma FiveStops(e: Event, rest: seq<Event>, p: Partial)
    requires e.code == 5 && e.dropped == 0
    ensures FoundFrom([e] + rest, p) == [] && DropsFrom([e] + rest, p, 0) == []
  {
  }

  // The balance of a whole file, whatever its bytes: what is returned and what is
  // reported is all that was found, but for a record that the end of the file cuts
  // short.
  lemma ReadingBalances(fmt: Format, file: seq<Byte>, checksum: bool)
    requires fmt.Ok()
    ensures var (records, drops) := ReadAll(Source(fmt, file, checksum, 0).Scan(0), false, 0);
            var seen := UpToFive(Source(fmt, file, checksum, 0).Scan(0));
            TotalReturned(records) + Total(drops) + Size(LeftOpen(seen, None)) == TotalFound(seen)
  {
    hide FoundFrom, DropsFrom, ReadAll, Source.Scan;
    var src := Source(fmt, file, checksum, 0);
    ScanIsLaid(src, 0);
    NothingHeld();
    EventsBalance(src.Scan(0), NOTHING, None, 0);
    FoundIsAll(src.Scan(0));
    DropsAreAll(src.Scan(0), 0);
  }
}
