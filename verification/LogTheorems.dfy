// What reading a log gives back: round trips through crashes, damage and
// starting in the middle of the file.
module LogTheorems {
  import opened Bytes
  import opened LogFormat
  import opened LogEvents

  // ---- scanning a file that holds a layout -------------------------------

  function EventOf(f: Fragment, initial: nat): Event
  {
    if f.start < initial then Event(BAD_RECORD, [], f.start, f.End(), 0)
    else Event(f.kind, f.payload, f.start, f.End(), 0)
  }

  function EventsOf(frags: seq<Fragment>, initial: nat): (events: seq<Event>)
    ensures |events| == |frags|
  {
    if frags == [] then [] else [EventOf(frags[0], initial)] + EventsOf(frags[1..], initial)
  }

  // The fragments that lie wholly in the first n bytes.
  function Within(frags: seq<Fragment>, n: nat): seq<Fragment>
  {
    if frags == [] || frags[0].End() > n then [] else [frags[0]] + Within(frags[1..], n)
  }

  lemma HeldHeader(src: Source, f: Fragment)
    requires src.Ok() && Holds(src.fmt, src.file, f) && f.start + HEADER_SIZE <= |src.file|
    ensures var low: int, high: int := src.file[f.start + 4], src.file[f.start + 5];
            low + 256 * high == |f.payload| && src.file[f.start + 6] == f.kind
  {
    var code := Physical(src.fmt, f.kind, f.payload);
    assert code[4] == |f.payload| % 256 && code[5] == |f.payload| / 256 && code[6] == f.kind;
    assert src.file[f.start + 4] == code[4] && src.file[f.start + 5] == code[5] && src.file[f.start + 6] == code[6];
  }

  lemma HeldBody(src: Source, f: Fragment)
    requires src.Ok() && Holds(src.fmt, src.file, f) && f.End() <= |src.file|
    ensures src.file[f.start..f.start + 4] == src.fmt.crc([f.kind] + f.payload)
    ensures src.file[f.start + 6..f.End()] == [f.kind] + f.payload
  {
    var code := Physical(src.fmt, f.kind, f.payload);
    forall i | 0 <= i < |code| ensures src.file[f.start..f.End()][i] == code[i] {
      assert src.file[f.start + i] == code[i];
    }
    assert src.file[f.start..f.End()] == code;
    assert src.file[f.start..f.start + 4] == code[..4];
    assert src.file[f.start + 6..f.End()] == code[6..];
  }

  lemma ParseAtHeader(src: Source, f: Fragment)
    requires src.Ok() && Holds(src.fmt, src.file, f)
    requires f.End() <= BlockEnd(src.fmt.block, f.start) && FULL_TYPE <= f.kind <= LAST_TYPE
    requires f.start + HEADER_SIZE <= |src.file|
    ensures src.EventAt(f.start) == if f.End() <= |src.file| then Some(EventOf(f, src.initial)) else None
  {
    hide BlockEnd, Holds, Physical;
    HeldHeader(src, f);
    var end, n := src.BufferEnd(f.start), HEADER_SIZE + |f.payload|;
    var buffer := src.file[f.start..end];
    assert buffer[4] == src.file[f.start + 4] && buffer[5] == src.file[f.start + 5];
    assert buffer[6] == src.file[f.start + 6];
    if f.End() <= |src.file| {
      HeldSlices(src, f, end);
    }
  }

  lemma HeldSlices(src: Source, f: Fragment, end: nat)
    requires src.Ok() && Holds(src.fmt, src.file, f) && f.End() <= end <= |src.file|
    ensures var buffer, n := src.file[f.start..end], HEADER_SIZE + |f.payload|;
            && buffer[..4] == src.fmt.crc(buffer[6..n])
            && buffer[HEADER_SIZE..n] == f.payload
  {
    hide Holds, Physical;
    var n := HEADER_SIZE + |f.payload|;
    HeldBody(src, f);
    SliceOfSlice(src.file, f.start, end, 0, 4);
    SliceOfSlice(src.file, f.start, end, 6, n);
    SliceOfSlice(src.file, f.start, end, HEADER_SIZE, n);
    SliceOfSlice(src.file, f.start + 6, f.End(), 1, n - 6);
    assert ([f.kind] + f.payload)[1..] == f.payload;
  }

  // One fragment: its event when it lies wholly in the file, else the end.
  lemma ScanAtHeader(src: Source, f: Fragment)
    requires src.Ok() && Holds(src.fmt, src.file, f)
    requires f.End() <= BlockEnd(src.fmt.block, f.start) && FULL_TYPE <= f.kind <= LAST_TYPE
    ensures src.Scan(f.start) ==
            if f.End() <= |src.file| then [EventOf(f, src.initial)] + src.Scan(f.End()) else []
  {
    hide BlockEnd, Holds, Source.EventAt;
    if f.start + HEADER_SIZE <= |src.file| {
      ParseAtHeader(src, f);
    }
  }

  lemma ScanToHeader(src: Source, pos: nat)
    requires src.Ok()
    ensures Place(src.fmt.block, pos) <= |src.file| ==> src.Scan(pos) == src.Scan(Place(src.fmt.block, pos))
    ensures Place(src.fmt.block, pos) > |src.file| ==> src.Scan(pos) == []
  {
  }

  lemma {:induction false} ScanIntact(src: Source, pos: nat, frags: seq<Fragment>)
    requires src.Ok() && Chain(src.fmt, pos, frags) && HoldsAll(src.fmt, src.file, frags)
    requires |src.file| <= EndOf(pos, frags)
    ensures src.Scan(pos) == EventsOf(Within(frags, |src.file|), src.initial)
    decreases |frags|
  {
    ScanToHeader(src, pos);
    if frags != [] {
      var f := frags[0];
      assert Holds(src.fmt, src.file, f);
      ScanAtHeader(src, f);
      if f.End() <= |src.file| {
        assert EndOf(f.End(), frags[1..]) == EndOf(pos, frags);
        ScanIntact(src, f.End(), frags[1..]);
        assert Within(frags, |src.file|)[1..] == Within(frags[1..], |src.file|);
      }
    }
  }

  // ---- assembling the events of one record ---------------------------------

  // What the first fragment of a record, or a later one, does.
  lemma TurnOnFragment(f: Fragment, begin: bool, end: bool, p: Partial, resyncing: bool, initial: nat)
    requires f.kind == KindOf(begin, end) && f.start >= initial
    requires if begin then p == NOTHING else p.open && !resyncing
    ensures var scratch, start := p.scratch + f.payload, if begin then f.start else p.start;
            && TurnOn(EventOf(f, initial), resyncing, p, initial) ==
               (if end then Deliver((scratch, start), []) else Go(false, Partial(true, scratch, start), []))
            && EventDrops(EventOf(f, initial)) == []
  {
    assert begin ==> p.scratch + f.payload == f.payload;
  }

  function AfterTurn(t: Turn, rest: seq<Event>, initial: nat): Step
  {
    match t
    case Deliver(r, _) => Step(Some(r), rest, false, [])
    case Stop(_) => Step(None, rest, false, [])
    case Go(resync, q, _) => NextRecord(rest, resync, q, initial)
  }

  lemma NextOn(e: Event, rest: seq<Event>, resyncing: bool, p: Partial, initial: nat)
    requires EventDrops(e) == [] && TurnOn(e, resyncing, p, initial).drops == []
    ensures NextRecord([e] + rest, resyncing, p, initial) ==
            AfterTurn(TurnOn(e, resyncing, p, initial), rest, initial)
  {
    hide TurnOn, EventDrops;
    assert ([e] + rest)[1..] == rest;
    var t := TurnOn(e, resyncing, p, initial);
    if t.Go? {
      var s := NextRecord(rest, t.resyncing, t.partial, initial);
      assert [] + [] + s.drops == s.drops;
    }
  }

  lemma {:induction false} AssembleWhole(frags: seq<Fragment>, begin: bool, p: Partial, rest: seq<Event>, resyncing: bool, initial: nat)
    requires WholeRecord(frags, begin)
    requires forall f | f in frags :: f.start >= initial
    requires if begin then p == NOTHING else p.open && !resyncing
    ensures NextRecord(EventsOf(frags, initial) + rest, resyncing, p, initial) ==
            Step(Some((p.scratch + Payloads(frags), if begin then frags[0].start else p.start)), rest, false, [])
    decreases |frags|
  {
    hide NextRecord, TurnOn, EventDrops, EventsOf, Payloads;
    var f, later := frags[0], EventsOf(frags[1..], initial) + rest;
    FirstFragment(frags, initial, rest, p.scratch);
    TurnOnFragment(f, begin, |frags| == 1, p, resyncing, initial);
    NextOn(EventOf(f, initial), later, resyncing, p, initial);
    if |frags| > 1 {
      var q := Partial(true, p.scratch + f.payload, if begin then f.start else p.start);
      AssembleWhole(frags[1..], false, q, rest, false, initial);
    }
  }

  lemma FirstFragment(frags: seq<Fragment>, initial: nat, rest: seq<Event>, scratch: seq<Byte>)
    requires frags != []
    ensures frags[0] in frags
    ensures EventsOf(frags, initial) + rest == [EventOf(frags[0], initial)] + (EventsOf(frags[1..], initial) + rest)
    ensures scratch + Payloads(frags) == scratch + frags[0].payload + Payloads(frags[1..])
    ensures |frags| == 1 ==> EventsOf(frags[1..], initial) + rest == rest && scratch + Payloads(frags) == scratch + frags[0].payload
  {
  }

  // A proper prefix of a record's fragments leaves a record open, quietly.
  lemma {:induction false} AssemblePrefix(frags: seq<Fragment>, n: nat, begin: bool, p: Partial, rest: seq<Event>, initial: nat)
      returns (q: Partial)
    requires WholeRecord(frags, begin) && n < |frags|
    requires forall f | f in frags :: f.start >= initial
    requires if begin then p == NOTHING else p.open
    ensures NextRecord(EventsOf(frags[..n], initial) + rest, false, p, initial) == NextRecord(rest, false, q, initial)
    ensures q == NOTHING || q.open
    decreases |frags|
  {
    if n == 0 {
      q := p;
      assert EventsOf(frags[..n], initial) + rest == rest;
    } else {
      hide NextRecord, TurnOn, EventDrops;
      assert frags[0] in frags;
      assert frags[..n][1..] == frags[1..][..n - 1];
      var later := EventsOf(frags[1..][..n - 1], initial) + rest;
      assert EventsOf(frags[..n], initial) + rest == [EventOf(frags[0], initial)] + later;
      TurnOnFragment(frags[0], begin, false, p, false, initial);
      NextOn(EventOf(frags[0], initial), later, false, p, initial);
      var o := Partial(true, p.scratch + frags[0].payload, if begin then frags[0].start else p.start);
      q := AssemblePrefix(frags[1..], n - 1, false, o, rest, initial);
    }
  }

  // Reading a whole record off the front.
  lemma ReadOne(frags: seq<Fragment>, rest: seq<Event>, resyncing: bool, initial: nat)
    requires WholeRecord(frags, true) && forall f | f in frags :: f.start >= initial
    ensures var (more, drops) := ReadAll(rest, false, initial);
            ReadAll(EventsOf(frags, initial) + rest, resyncing, initial) ==
            ([(Payloads(frags), frags[0].start)] + more, drops)
  {
    hide NextRecord;
    AssembleWhole(frags, true, NOTHING, rest, resyncing, initial);
    assert NOTHING.scratch + Payloads(frags) == Payloads(frags);
    assert [] + ReadAll(rest, false, initial).1 == ReadAll(rest, false, initial).1;
  }

  lemma {:induction false} EventsConcat(a: seq<Fragment>, b: seq<Fragment>, initial: nat)
    ensures EventsOf(a + b, initial) == EventsOf(a, initial) + EventsOf(b, initial)
    decreases |a|
  {
    hide EventOf;
    if a == [] {
      assert a + b == b;
    } else {
      EventsConcat(a[1..], b, initial);
      assert (a + b)[1..] == a[1..] + b && (a + b)[0] == a[0];
      assert [EventOf(a[0], initial)] + (EventsOf(a[1..], initial) + EventsOf(b, initial)) == EventsOf(a, initial) + EventsOf(b, initial);
    }
  }

  // ---- positions along a layout ---------------------------------------------

  lemma {:induction false} WithinWhole(fmt: Format, pos: nat, a: seq<Fragment>, b: seq<Fragment>, n: nat)
    requires fmt.Ok() && Chain(fmt, pos, a) && EndOf(pos, a) <= n
    ensures Within(a + b, n) == a + Within(b, n)
    decreases |a|
  {
    if a == [] {
      assert a + b == b;
    } else {
      hide Chain, Within;
      FirstEnds(fmt, pos, a);
      WithinWhole(fmt, a[0].End(), a[1..], b, n);
      assert (a + b)[1..] == a[1..] + b;
      WithinMore(a + b, n);
      assert [a[0]] + (a[1..] + Within(b, n)) == a + Within(b, n);
    }
  }

  lemma FirstEnds(fmt: Format, pos: nat, a: seq<Fragment>)
    requires fmt.Ok() && Chain(fmt, pos, a) && a != []
    ensures a[0].End() <= EndOf(pos, a) == EndOf(a[0].End(), a[1..]) && Chain(fmt, a[0].End(), a[1..])
  {
    hide Place, BlockEnd;
    ChainAscends(fmt, a[0].End(), a[1..]);
  }

  lemma WithinMore(a: seq<Fragment>, n: nat)
    requires a != [] && a[0].End() <= n
    ensures Within(a, n) == [a[0]] + Within(a[1..], n)
  {
  }

  lemma {:induction false} WithinPart(fmt: Format, pos: nat, a: seq<Fragment>, b: seq<Fragment>, n: nat) returns (k: nat)
    requires fmt.Ok() && Chain(fmt, pos, a) && a != [] && EndOf(pos, a) > n
    ensures k < |a| && Within(a + b, n) == a[..k]
    decreases |a|
  {
    if a[0].End() > n {
      k := 0;
    } else {
      assert EndOf(a[0].End(), a[1..]) == EndOf(pos, a);
      k := WithinPart(fmt, a[0].End(), a[1..], b, n);
      k := k + 1;
      assert (a + b)[1..] == a[1..] + b;
      assert a[..k] == [a[0]] + a[1..][..k - 1];
    }
  }

  // ---- round trip under truncation -------------------------------------------

  // The records whose last fragment lies wholly in the first n bytes, each
  // with the offset of its first header.
  function Recovered(block: nat, pos: nat, records: seq<seq<Byte>>, n: nat): seq<Record>
    requires block > HEADER_SIZE
    decreases |records|
  {
    if records == [] then []
    else
      var frags := Cut(block, pos, records[0], true);
      if EndOf(pos, frags) > n then []
      else [(records[0], frags[0].start)] + Recovered(block, EndOf(pos, frags), records[1..], n)
  }

  lemma NoneWithin(n: nat)
    ensures Within([], n) == []
  {
  }

  lemma NothingLeft(resyncing: bool, p: Partial, initial: nat)
    ensures NextRecord([], resyncing, p, initial) == Step(None, [], false, [])
  {
  }

  lemma {:induction false} ReadWithin(fmt: Format, pos: nat, records: seq<seq<Byte>>, n: nat)
    requires fmt.Ok()
    ensures ReadAll(EventsOf(Within(CutAll(fmt.block, pos, records), n), 0), false, 0) ==
            (Recovered(fmt.block, pos, records, n), [])
    decreases |records|
  {
    hide NextRecord, Chain, Within, Cut;
    if records == [] {
      assert Within([], n) == [] by { NoneWithin(n); }
      NothingLeft(false, NOTHING, 0);
    } else {
      var frags := Cut(fmt.block, pos, records[0], true);
      var more := CutAll(fmt.block, EndOf(pos, frags), records[1..]);
      CutIsRecord(fmt, pos, records[0], true);
      if EndOf(pos, frags) > n {
        var k := WithinPart(fmt, pos, frags, more, n);
        var q := AssemblePrefix(frags, k, true, NOTHING, [], 0);
        NothingLeft(false, q, 0);
        assert EventsOf(frags[..k], 0) + [] == EventsOf(frags[..k], 0);
      } else {
        WithinWhole(fmt, pos, frags, more, n);
        EventsConcat(frags, Within(more, n), 0);
        ReadOne(frags, EventsOf(Within(more, n), 0), false, 0);
        ReadWithin(fmt, EndOf(pos, frags), records[1..], n);
      }
    }
  }

  // The beginning of a log, however it came about: reading it from the start
  // yields exactly the records that are complete in it, in order, and reports
  // nothing.
  lemma StartedLogReadsBack(fmt: Format, records: seq<seq<Byte>>, file: seq<Byte>, checksum: bool)
    requires fmt.Ok() && StartsLog(fmt, records, file)
    ensures var src := Source(fmt, file, checksum, 0);
            ReadAll(src.Scan(0), false, 0) == (Recovered(fmt.block, 0, records, |file|), [])
  {
    var src := Source(fmt, file, checksum, 0);
    CutAllChain(fmt, 0, records);
    ScanIntact(src, 0, CutAll(fmt.block, 0, records));
    ReadWithin(fmt, 0, records, |file|);
  }

  // A log written by AddRecord and cut anywhere by a crash.
  lemma TruncatedLogReadsBack(fmt: Format, records: seq<seq<Byte>>, log: seq<Byte>, n: nat, checksum: bool)
    requires fmt.Ok() && n <= |log| && IsLog(fmt, records, log)
    ensures var src := Source(fmt, log[..n], checksum, 0);
            ReadAll(src.Scan(0), false, 0) == (Recovered(fmt.block, 0, records, n), [])
  {
    StartedLogReadsBack(fmt, records, log[..n], checksum);
  }

  // An append that breaks off loses nothing as long as nothing follows it: the
  // earlier records come back, the new one if all of it is there.
  lemma BrokenAppendLosesNothing(fmt: Format, records: seq<seq<Byte>>, log: seq<Byte>, data: seq<Byte>, file: seq<Byte>, checksum: bool)
    requires fmt.Ok() && IsLog(fmt, records, log) && Landed(fmt, log, data, file)
    ensures var (found, drops) := ReadAll(Source(fmt, file, checksum, 0).Scan(0), false, 0);
            && drops == [] && |found| == |records| + (if Whole(fmt, log, data, file) then 1 else 0)
            && forall i | 0 <= i < |found| :: found[i].0 == (records + [data])[i]
  {
    hide ReadAll, Source.Scan, Landed, Whole, HoldsAll;
    AppendExtendsLog(fmt, records, log, data, file);
    StartedLogReadsBack(fmt, records + [data], file, checksum);
    var found := Recovered(fmt.block, 0, records + [data], |file|);
    RecoveredIsPrefix(fmt.block, 0, records + [data], |file|);
    assert (records + [data])[..|records|] == records;
    assert |found| >= |records| by {
      BeforeIsThere(fmt, records, log, data, file);
      SyncedRecordsSurvive(fmt, 0, records + [data], |records|, |file|);
    }
    LastNeedsAll(fmt, records, log, data, file);
  }

  lemma BeforeIsThere(fmt: Format, records: seq<seq<Byte>>, log: seq<Byte>, data: seq<Byte>, file: seq<Byte>)
    requires fmt.Ok() && IsLog(fmt, records, log) && Landed(fmt, log, data, file)
    ensures EndOf(0, CutAll(fmt.block, 0, records)) <= |file|
  {
  }

  lemma LastNeedsAll(fmt: Format, records: seq<seq<Byte>>, log: seq<Byte>, data: seq<Byte>, file: seq<Byte>)
    requires fmt.Ok() && IsLog(fmt, records, log) && Landed(fmt, log, data, file)
    ensures var n := |Recovered(fmt.block, 0, records + [data], |file|)|;
            n > |records| <==> Whole(fmt, log, data, file)
  {
    hide Cut, HoldsAll;
    CutAllAppend(fmt, 0, records, data);
    RecoveredInFull(fmt, 0, records + [data], |file|);
  }

  // All records come back exactly when the layout's end is reached.
  lemma {:induction false} RecoveredInFull(fmt: Format, pos: nat, records: seq<seq<Byte>>, n: nat)
    requires fmt.Ok()
    ensures |Recovered(fmt.block, pos, records, n)| >= |records| <==> records == [] || EndOf(pos, CutAll(fmt.block, pos, records)) <= n
    decreases |records|
  {
    if records != [] {
      hide Chain, Cut;
      var frags := Cut(fmt.block, pos, records[0], true);
      var next := EndOf(pos, frags);
      var more := CutAll(fmt.block, next, records[1..]);
      CutIsRecord(fmt, pos, records[0], true);
      CutAllChain(fmt, next, records[1..]);
      ChainAscends(fmt, next, more);
      ChainConcat(fmt, pos, frags, more);
      RecoveredInFull(fmt, next, records[1..], n);
    }
  }

  // ---- records before anything at all ----------------------------------------

  // A fragment that lies wholly in the file, wherever reading comes from.
  lemma ScanOne(src: Source, pos: nat, f: Fragment)
    requires src.Ok() && Holds(src.fmt, src.file, f) && f.End() <= |src.file|
    requires f.start == Place(src.fmt.block, pos) && f.End() <= BlockEnd(src.fmt.block, f.start)
    requires FULL_TYPE <= f.kind <= LAST_TYPE
    ensures src.Scan(pos) == [EventOf(f, src.initial)] + src.Scan(f.End())
  {
    hide Source.Scan, Holds, BlockEnd;
    ScanToHeader(src, pos);
    ScanAtHeader(src, f);
  }

  lemma {:induction false} ScanLayout(src: Source, pos: nat, frags: seq<Fragment>)
    requires src.Ok() && Chain(src.fmt, pos, frags) && HoldsAll(src.fmt, src.file, frags)
    requires EndOf(pos, frags) <= |src.file|
    ensures src.Scan(pos) == EventsOf(frags, src.initial) + src.Scan(EndOf(pos, frags))
    decreases |frags|
  {
    hide Source.Scan, Place, BlockEnd, Holds;
    if frags == [] {
      assert EventsOf(frags, src.initial) + src.Scan(pos) == src.Scan(pos);
    } else {
      var f := frags[0];
      assert f in frags;
      ChainAscends(src.fmt, pos, frags);
      ScanOne(src, pos, f);
      assert EndOf(f.End(), frags[1..]) == EndOf(pos, frags);
      ScanLayout(src, f.End(), frags[1..]);
      OneMoreEvent(frags, src.initial, src.Scan(EndOf(pos, frags)));
    }
  }

  lemma OneMoreEvent(frags: seq<Fragment>, initial: nat, rest: seq<Event>)
    requires frags != []
    ensures EventsOf(frags, initial) + rest == [EventOf(frags[0], initial)] + (EventsOf(frags[1..], initial) + rest)
  {
  }

  lemma {:induction false} ReadLayout(fmt: Format, pos: nat, records: seq<seq<Byte>>, rest: seq<Event>)
    requires fmt.Ok()
    ensures var found := ReadAll(EventsOf(CutAll(fmt.block, pos, records), 0) + rest, false, 0).0;
            var more := ReadAll(rest, false, 0).0;
            && |found| == |records| + |more| && found[|records|..] == more
            && forall i | 0 <= i < |records| :: found[i].0 == records[i]
    decreases |records|
  {
    if records == [] {
      assert EventsOf(CutAll(fmt.block, pos, records), 0) + rest == rest;
    } else {
      hide NextRecord, ReadAll, Cut, EventsOf, WholeRecord, Chain, Payloads;
      var frags := Cut(fmt.block, pos, records[0], true);
      var later := CutAll(fmt.block, EndOf(pos, frags), records[1..]);
      CutIsRecord(fmt, pos, records[0], true);
      EventsConcat(frags, later, 0);
      var events := EventsOf(later, 0) + rest;
      assert CutAll(fmt.block, pos, records) == frags + later;
      assert EventsOf(frags, 0) + EventsOf(later, 0) + rest == EventsOf(frags, 0) + events;
      ReadOne(frags, events, false, 0);
      ReadLayout(fmt, EndOf(pos, frags), records[1..], rest);
    }
  }

  // Whatever has been written behind a log of records, a reader finds those
  // records first.
  lemma RecordsComeFirst(fmt: Format, records: seq<seq<Byte>>, log: seq<Byte>, tail: seq<Byte>, checksum: bool)
    requires fmt.Ok() && IsLog(fmt, records, log)
    ensures var src := Source(fmt, log + tail, checksum, 0);
            var found := ReadAll(src.Scan(0), false, 0).0;
            && |found| >= |records| && found[|records|..] == ReadAll(src.Scan(|log|), false, 0).0
            && forall i | 0 <= i < |records| :: found[i].0 == records[i]
  {
    hide ReadAll, Source.Scan, Cut, CutAll, Holds;
    var src, frags := Source(fmt, log + tail, checksum, 0), CutAll(fmt.block, 0, records);
    CutAllChain(fmt, 0, records);
    ChainAscends(fmt, 0, frags);
    forall f | f in frags ensures Holds(fmt, log + tail, f) {
      StillWritten(fmt, log, log + tail, f);
    }
    ScanLayout(src, 0, frags);
    ReadLayout(fmt, 0, records, src.Scan(|log|));
  }

  // With nothing cut off, every record comes back.
  lemma {:induction false} AllRecovered(fmt: Format, pos: nat, records: seq<seq<Byte>>, n: nat)
    requires fmt.Ok() && EndOf(pos, CutAll(fmt.block, pos, records)) <= n
    ensures var r := Recovered(fmt.block, pos, records, n);
            |r| == |records| && forall i | 0 <= i < |r| :: r[i].0 == records[i]
    decreases |records|
  {
    if records != [] {
      var frags := Cut(fmt.block, pos, records[0], true);
      var more := CutAll(fmt.block, EndOf(pos, frags), records[1..]);
      CutAllChain(fmt, EndOf(pos, frags), records[1..]);
      ChainAscends(fmt, EndOf(pos, frags), more);
      CutIsRecord(fmt, pos, records[0], true);
      ChainConcat(fmt, pos, frags, more);
      AllRecovered(fmt, EndOf(pos, frags), records[1..], n);
    }
  }

  // What a crash leaves is a prefix of the records.
  lemma {:induction false} RecoveredIsPrefix(block: nat, pos: nat, records: seq<seq<Byte>>, n: nat)
    requires block > HEADER_SIZE
    ensures var r := Recovered(block, pos, records, n);
            |r| <= |records| && forall i | 0 <= i < |r| :: r[i].0 == records[i]
    decreases |records|
  {
    if records != [] {
      RecoveredIsPrefix(block, EndOf(pos, Cut(block, pos, records[0], true)), records[1..], n);
    }
  }

  // It has at least the records whose bytes survive: those written before a
  // successful sync, when everything up to the sync does.
  lemma {:induction false} SyncedRecordsSurvive(fmt: Format, pos: nat, records: seq<seq<Byte>>, k: nat, n: nat)
    requires fmt.Ok() && k <= |records| && EndOf(pos, CutAll(fmt.block, pos, records[..k])) <= n
    ensures |Recovered(fmt.block, pos, records, n)| >= k
    decreases k
  {
    if k > 0 {
      hide Chain, Cut;
      var frags := Cut(fmt.block, pos, records[0], true);
      var next := EndOf(pos, frags);
      var more := CutAll(fmt.block, next, records[1..][..k - 1]);
      assert records[..k][0] == records[0] && records[..k][1..] == records[1..][..k - 1];
      assert CutAll(fmt.block, pos, records[..k]) == frags + more;
      CutIsRecord(fmt, pos, records[0], true);
      CutAllChain(fmt, next, records[1..][..k - 1]);
      ChainAscends(fmt, next, more);
      ChainConcat(fmt, pos, frags, more);
      SyncedRecordsSurvive(fmt, next, records[1..], k - 1, n);
    }
  }

  // ---- records past a point ---------------------------------------------------

  // The fragments that start at or past `from`.
  function After(frags: seq<Fragment>, from: nat): seq<Fragment>
  {
    if frags == [] then []
    else if frags[0].start >= from then frags
    else After(frags[1..], from)
  }

  // The records whose first header is at or past `from`.
  function RecordsFrom(block: nat, pos: nat, records: seq<seq<Byte>>, from: nat): seq<Record>
    requires block > HEADER_SIZE
    decreases |records|
  {
    if records == [] then []
    else
      var frags := Cut(block, pos, records[0], true);
      var more := RecordsFrom(block, EndOf(pos, frags), records[1..], from);
      if frags[0].start >= from then [(records[0], frags[0].start)] + more else more
  }

  // Events that assemble to nothing while no record is open.
  ghost predicate Skippable(events: seq<Event>)
  {
    forall e | e in events :: e.code == BAD_RECORD || e.code == MIDDLE_TYPE || e.code == LAST_TYPE
  }

  lemma {:induction false} SkipEvents(events: seq<Event>, rest: seq<Event>, resyncing: bool, initial: nat)
      returns (resync: bool)
    requires Skippable(events)
    ensures ReadAll(events + rest, resyncing, initial).0 == ReadAll(rest, resync, initial).0
    decreases |events|
  {
    if events == [] {
      resync := resyncing;
      assert events + rest == rest;
    } else {
      assert events[0] in events;
      assert (events + rest)[1..] == events[1..] + rest;
      var t := TurnOn(events[0], resyncing, NOTHING, initial);
      resync := SkipEvents(events[1..], rest, t.resyncing, initial);
    }
  }

  lemma {:induction false} LaterFragments(frags: seq<Fragment>, begin: bool)
    requires WholeRecord(frags, begin)
    ensures forall i | 0 <= i < |frags| ::
              (!begin || i > 0) ==> frags[i].kind == MIDDLE_TYPE || frags[i].kind == LAST_TYPE
    decreases |frags|
  {
    if |frags| > 1 {
      LaterFragments(frags[1..], false);
      forall i | 0 < i < |frags| ensures frags[i].kind == MIDDLE_TYPE || frags[i].kind == LAST_TYPE {
        assert frags[i] == frags[1..][i - 1];
      }
    }
  }

  lemma {:induction false} AfterIsSuffix(frags: seq<Fragment>, from: nat) returns (k: nat)
    ensures k <= |frags| && After(frags, from) == frags[k..]
    ensures k < |frags| ==> frags[k].start >= from
    ensures forall i | 0 <= i < k :: frags[i].start < from
    decreases |frags|
  {
    if frags == [] || frags[0].start >= from {
      k := 0;
    } else {
      k := AfterIsSuffix(frags[1..], from);
      k := k + 1;
      assert frags == [frags[0]] + frags[1..];
    }
  }

  lemma {:induction false} AfterConcat(a: seq<Fragment>, b: seq<Fragment>, from: nat)
    ensures After(a + b, from) == if After(a, from) != [] then After(a, from) + b else After(b, from)
    decreases |a|
  {
    if a == [] {
      assert a + b == b;
    } else if a[0].start < from {
      AfterConcat(a[1..], b, from);
      assert (a + b)[1..] == a[1..] + b;
    }
  }

  lemma AfterAll(fmt: Format, pos: nat, frags: seq<Fragment>, from: nat)
    requires fmt.Ok() && Chain(fmt, pos, frags) && pos >= from
    ensures After(frags, from) == frags
  {
    ChainAscends(fmt, pos, frags);
    if frags != [] { assert frags[0] in frags; }
  }

  // The part of a record past `from`, when its first header is not to be
  // returned, assembles to nothing.
  lemma TailIsSkipped(fmt: Format, pos: nat, frags: seq<Fragment>, from: nat, initial: nat)
    requires fmt.Ok() && Chain(fmt, pos, frags) && WholeRecord(frags, true)
    requires frags[0].start < Max(from, initial)
    ensures Skippable(EventsOf(After(frags, from), initial))
  {
    var k := AfterIsSuffix(frags, from);
    LaterFragments(frags, true);
    forall e | e in EventsOf(frags[k..], initial)
      ensures e.code == BAD_RECORD || e.code == MIDDLE_TYPE || e.code == LAST_TYPE
    {
      var i := EventsAt(frags[k..], initial, e);
      assert frags[k..][i] == frags[k + i];
    }
  }

  lemma {:induction false} EventsAt(frags: seq<Fragment>, initial: nat, e: Event) returns (i: nat)
    requires e in EventsOf(frags, initial)
    ensures i < |frags| && e == EventOf(frags[i], initial)
    decreases |frags|
  {
    if e == EventOf(frags[0], initial) {
      i := 0;
    } else {
      i := EventsAt(frags[1..], initial, e);
      i := i + 1;
    }
  }

  // Reading from a point in the layout yields the records that start past it
  // and past the initial offset, whether or not the reader is resynchronising.
  lemma {:induction false} ReadFrom(fmt: Format, pos: nat, records: seq<seq<Byte>>, from: nat, resyncing: bool, initial: nat)
    requires fmt.Ok()
    ensures ReadAll(EventsOf(After(CutAll(fmt.block, pos, records), from), initial), resyncing, initial).0 ==
            RecordsFrom(fmt.block, pos, records, Max(from, initial))
    decreases |records|
  {
    hide NextRecord, Chain, Cut, After, WholeRecord;
    if records == [] {
      assert After([], from) == [] by { NoneAfter(from); }
      NothingLeft(resyncing, NOTHING, initial);
    } else {
      var frags := Cut(fmt.block, pos, records[0], true);
      var next := EndOf(pos, frags);
      var more := CutAll(fmt.block, next, records[1..]);
      CutIsRecord(fmt, pos, records[0], true);
      CutAllChain(fmt, next, records[1..]);
      ChainAscends(fmt, pos, frags);
      assert frags[0] in frags;
      AfterConcat(frags, more, from);
      if frags[0].start >= from {
        AfterFirst(frags, from);
        AfterAll(fmt, next, more, from);
      }
      var tail := After(frags, from);
      if tail != [] { TailReaches(fmt, pos, frags, from); AfterAll(fmt, next, more, from); }
      assert After(frags + more, from) == tail + After(more, from);
      EventsConcat(tail, After(more, from), initial);
      if frags[0].start >= Max(from, initial) {
        AllAbove(fmt, pos, frags, initial);
        ReadOne(frags, EventsOf(After(more, from), initial), resyncing, initial);
        ReadFrom(fmt, next, records[1..], from, false, initial);
      } else {
        TailIsSkipped(fmt, pos, frags, from, initial);
        var resync := SkipEvents(EventsOf(tail, initial), EventsOf(After(more, from), initial), resyncing, initial);
        ReadFrom(fmt, next, records[1..], from, resync, initial);
      }
    }
  }

  lemma NoneAfter(from: nat)
    ensures After([], from) == []
  {
  }

  lemma AfterFirst(frags: seq<Fragment>, from: nat)
    requires frags != [] && frags[0].start >= from
    ensures After(frags, from) == frags
  {
  }

  lemma TailReaches(fmt: Format, pos: nat, frags: seq<Fragment>, from: nat)
    requires fmt.Ok() && Chain(fmt, pos, frags) && After(frags, from) != []
    ensures EndOf(pos, frags) >= from
  {
    var k := AfterIsSuffix(frags, from);
    ChainAscends(fmt, pos, frags);
    assert frags[k] in frags;
  }

  lemma {:induction false} AllAbove(fmt: Format, pos: nat, frags: seq<Fragment>, initial: nat)
    requires fmt.Ok() && Chain(fmt, pos, frags) && frags != [] && frags[0].start >= initial
    ensures forall f | f in frags :: f.start >= initial
  {
    ChainAscends(fmt, frags[0].End(), frags[1..]);
    assert frags == [frags[0]] + frags[1..];
  }

  // ---- starting inside the file ----------------------------------------------

  // Fragments past a block boundary form a layout of their own from there.
  lemma {:induction false} ChainFrom(fmt: Format, pos: nat, frags: seq<Fragment>, from: nat)
    requires fmt.Ok() && Chain(fmt, pos, frags) && pos <= from
    requires BlockEnd(fmt.block, from) == from + fmt.block
    ensures Chain(fmt, from, After(frags, from))
    ensures EndOf(pos, frags) <= EndOf(from, After(frags, from))
    decreases |frags|
  {
    if frags != [] {
      var f := frags[0];
      assert EndOf(f.End(), frags[1..]) == EndOf(pos, frags);
      StopsAtBoundary(fmt.block, pos, from);
      StopsAtBoundary(fmt.block, f.start, from);
      if f.start < from {
        ChainFrom(fmt, f.End(), frags[1..], from);
      }
    }
  }

  // No block reaches across a block boundary.
  lemma StopsAtBoundary(block: nat, pos: nat, from: nat)
    requires block > HEADER_SIZE && BlockEnd(block, from) == from + block
    ensures pos < from ==> BlockEnd(block, pos) <= from
    ensures pos <= from ==> Place(block, pos) <= from || Place(block, pos) == pos
  {
    if pos < from {
      var q, r := pos / block, from / block;
      assert from == block * r;
      assert pos - pos % block == block * q;
      if q >= r {
        Monotone(block, r, q);
        assert false;
      }
      Monotone(block, q + 1, r);
      assert block * (q + 1) == block * q + block;
    }
  }

  lemma HoldsAfter(src: Source, frags: seq<Fragment>, from: nat)
    requires HoldsAll(src.fmt, src.file, frags)
    ensures HoldsAll(src.fmt, src.file, After(frags, from))
  {
    var k := AfterIsSuffix(frags, from);
  }

  lemma {:induction false} WithinAll(fmt: Format, pos: nat, frags: seq<Fragment>, n: nat)
    requires fmt.Ok() && Chain(fmt, pos, frags) && EndOf(pos, frags) <= n
    ensures Within(frags, n) == frags
  {
    WithinWhole(fmt, pos, frags, [], n);
    assert frags + [] == frags;
  }

  lemma ScanFrom(src: Source, pos: nat, frags: seq<Fragment>, from: nat)
    requires src.Ok() && Chain(src.fmt, pos, frags) && pos <= from
    requires BlockEnd(src.fmt.block, from) == from + src.fmt.block
    requires HoldsAll(src.fmt, src.file, After(frags, from)) && |src.file| == EndOf(pos, frags)
    ensures src.Scan(from) == EventsOf(After(frags, from), src.initial)
  {
    var rest := After(frags, from);
    ChainFrom(src.fmt, pos, frags, from);
    ScanIntact(src, from, rest);
    if rest == [] {
      NoneWithin(|src.file|);
    } else {
      var k := AfterIsSuffix(frags, from);
      assert EndOf(from, rest) == EndOf(pos, frags);
      WithinAll(src.fmt, from, rest, |src.file|);
    }
  }

  // A reader opened at an offset inside an intact log returns exactly the
  // records whose first header starts at or past it, with those offsets.
  lemma OffsetReadsSuffix(fmt: Format, records: seq<seq<Byte>>, log: seq<Byte>, initial: nat, checksum: bool)
    requires fmt.Ok() && IsLog(fmt, records, log)
    ensures var src := Source(fmt, log, checksum, initial);
            ReadAll(src.Scan(src.InitialBlock()), initial > 0, initial).0 ==
            RecordsFrom(fmt.block, 0, records, initial)
  {
    hide ReadAll, Source.Scan, CutAll, HoldsAll, RecordsFrom, BlockEnd, After, EventsOf;
    var src := Source(fmt, log, checksum, initial);
    var frags := CutAll(fmt.block, 0, records);
    CutAllChain(fmt, 0, records);
    InitialBlockStarts(src);
    HoldsAfter(src, frags, src.InitialBlock());
    ScanFrom(src, 0, frags, src.InitialBlock());
    ReadFrom(fmt, 0, records, src.InitialBlock(), initial > 0, initial);
    if src.InitialBlock() > initial {
      SameRecordsFrom(fmt, 0, records, initial, src.InitialBlock());
      assert Max(src.InitialBlock(), initial) == src.InitialBlock();
    }
  }

  lemma InitialBlockStarts(src: Source)
    requires src.Ok()
    ensures var from := src.InitialBlock();
            && BlockEnd(src.fmt.block, from) == from + src.fmt.block
            && (from > src.initial ==> from == BlockEnd(src.fmt.block, src.initial) && from - src.initial < 6)
  {
    BlockStarts(src.fmt.block, src.initial);
  }

  // No header starts in a block's trailer.
  lemma {:induction false} SameRecordsFrom(fmt: Format, pos: nat, records: seq<seq<Byte>>, low: nat, high: nat)
    requires fmt.Ok() && high == BlockEnd(fmt.block, low) && high - low < HEADER_SIZE
    ensures RecordsFrom(fmt.block, pos, records, low) == RecordsFrom(fmt.block, pos, records, high)
    decreases |records|
  {
    if records != [] {
      var frags := Cut(fmt.block, pos, records[0], true);
      CutIsRecord(fmt, pos, records[0], true);
      SameRecordsFrom(fmt, EndOf(pos, frags), records[1..], low, high);
      if low <= frags[0].start < high {
        SameBlock(fmt.block, low, frags[0].start);
        assert false;
      }
    }
  }
}
