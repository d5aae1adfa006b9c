// What a reader finds behind a tear (db/log_writer.cc, db/log_reader.cc). The
// records sent there stand at other offsets than the writer believes, so that a
// block of the reader may begin anywhere. As long as nothing parses as a
// physical record but what was written as one, every record found was sent.
module LogBehind {
  import opened Bytes
  import opened LogFormat
  import opened LogEvents
  import opened LogTheorems

  // A fragment that reached the file in full, the number of its record, and that
  // record's bytes up to its end.
  datatype Part = Part(frag: Fragment, record: nat, sofar: seq<Byte>)
  {
    predicate Begins() { frag.kind == FULL_TYPE || frag.kind == FIRST_TYPE }

    predicate Ends() { frag.kind == FULL_TYPE || frag.kind == LAST_TYPE }
  }

  // A record's first fragment comes behind whatever is there, a later one right
  // behind the one before it.
  ghost predicate Follows(q: Part, parts: seq<Part>, j: nat)
    requires j <= |parts|
  {
    if q.Begins() then
      && q.sofar == q.frag.payload
      && (j > 0 ==> parts[j - 1].frag.End() <= q.frag.start && parts[j - 1].record < q.record)
    else
      && j > 0 && parts[j - 1].frag.End() == q.frag.start && parts[j - 1].record == q.record
      && !parts[j - 1].Ends() && q.sofar == parts[j - 1].sofar + q.frag.payload
  }

  ghost predicate PartAt(fmt: Format, file: seq<Byte>, from: nat, sent: seq<seq<Byte>>, parts: seq<Part>, j: nat)
    requires j < |parts|
  {
    var q := parts[j];
    && q.frag.start >= from && Holds(fmt, file, q.frag) && FULL_TYPE <= q.frag.kind <= LAST_TYPE
    && q.record < |sent| && (q.Ends() ==> q.sofar == sent[q.record])
    && Follows(q, parts, j)
  }

  // These are fragments of the records sent, in the order of the file.
  ghost predicate Traced(fmt: Format, file: seq<Byte>, from: nat, sent: seq<seq<Byte>>, parts: seq<Part>)
  {
    forall j | 0 <= j < |parts| :: PartAt(fmt, file, from, sent, parts, j)
  }

  // From here on nothing parses as a physical record but where one was written.
  ghost predicate NoStray(src: Source, from: nat, parts: seq<Part>)
    requires src.Ok()
  {
    forall pos: nat | from <= pos && pos + HEADER_SIZE <= src.BufferEnd(pos) ::
      var e := src.EventAt(pos);
      e.Some? && e.value.code != BAD_RECORD ==> exists j :: 0 <= j < |parts| && parts[j].frag.start == pos
  }

  lemma {:induction false} Ascends(fmt: Format, file: seq<Byte>, from: nat, sent: seq<seq<Byte>>, parts: seq<Part>, j: nat, m: nat)
    requires Traced(fmt, file, from, sent, parts) && j < m < |parts|
    ensures parts[j].frag.End() <= parts[m].frag.start && parts[j].record <= parts[m].record
    ensures parts[j].Ends() ==> parts[j].record < parts[m].record
    decreases m
  {
    hide Holds;
    assert PartAt(fmt, file, from, sent, parts, m);
    if j < m - 1 {
      Ascends(fmt, file, from, sent, parts, j, m - 1);
    }
  }

  // ---- sending one more record ---------------------------------------------------

  // The whole fragments of one record, as parts.
  function PartsOf(frags: seq<Fragment>, record: nat, sofar: seq<Byte>): seq<Part>
  {
    if frags == [] then []
    else
      var upTo := sofar + frags[0].payload;
      [Part(frags[0], record, upTo)] + PartsOf(frags[1..], record, upTo)
  }

  // Where the next fragment may come: behind all others, and right behind the
  // one before it when that is of the same record.
  ghost predicate Next(frags: seq<Fragment>, parts: seq<Part>, record: nat, sofar: seq<Byte>, begin: bool)
  {
    frags != [] ==>
      if begin then
        sofar == [] && (parts != [] ==> var last := parts[|parts| - 1]; last.frag.End() <= frags[0].start && last.record < record)
      else
        && parts != []
        && var last := parts[|parts| - 1];
           last.frag.End() == frags[0].start && last.record == record && !last.Ends() && last.sofar == sofar
  }

  lemma {:induction false} TraceRecord(fmt: Format, file: seq<Byte>, from: nat, sent: seq<seq<Byte>>, parts: seq<Part>,
                                       frags: seq<Fragment>, record: nat, sofar: seq<Byte>, rest: seq<Byte>, begin: bool)
    requires Traced(fmt, file, from, sent, parts) && record < |sent| && sofar + rest == sent[record]
    requires Begun(frags, rest, begin) && Next(frags, parts, record, sofar, begin)
    requires forall f | f in frags :: Holds(fmt, file, f) && f.start >= from
    ensures Traced(fmt, file, from, sent, parts + PartsOf(frags, record, sofar))
    decreases |frags|
  {
    if frags == [] {
      assert parts + PartsOf(frags, record, sofar) == parts;
    } else {
      hide Holds, Traced, Next, Follows, Begun, PartsOf;
      var f, q := frags[0], Part(frags[0], record, sofar + frags[0].payload);
      assert f in frags;
      FirstPart(sent, parts, frags, record, sofar, rest, begin);
      OnePart(fmt, file, from, sent, parts, q);
      TraceRecord(fmt, file, from, sent, parts + [q], frags[1..], record, q.sofar, rest[|f.payload|..], false);
      PartsUnfold(parts, frags, record, sofar);
    }
  }

  lemma PartsUnfold(parts: seq<Part>, frags: seq<Fragment>, record: nat, sofar: seq<Byte>)
    requires frags != []
    ensures var q := Part(frags[0], record, sofar + frags[0].payload);
            parts + PartsOf(frags, record, sofar) == parts + [q] + PartsOf(frags[1..], record, q.sofar)
  {
  }

  lemma FirstPart(sent: seq<seq<Byte>>, parts: seq<Part>, frags: seq<Fragment>, record: nat, sofar: seq<Byte>, rest: seq<Byte>, begin: bool)
    requires frags != [] && record < |sent| && sofar + rest == sent[record]
    requires Begun(frags, rest, begin) && Next(frags, parts, record, sofar, begin)
    ensures var f, n := frags[0], |frags[0].payload|;
            var q := Part(f, record, sofar + f.payload);
            && Follows(q, parts, |parts|) && FULL_TYPE <= f.kind <= LAST_TYPE && (q.Ends() ==> q.sofar == sent[record])
            && n <= |rest| && q.sofar + rest[n..] == sent[record]
            && Begun(frags[1..], rest[n..], false) && Next(frags[1..], parts + [q], record, q.sofar, false)
  {
    hide Begun;
    var f, n := frags[0], |frags[0].payload|;
    FirstOfBegun(frags, rest, begin);
    assert sofar + f.payload + rest[n..] == sofar + rest;
    assert [] + f.payload == f.payload;
  }

  lemma FirstOfBegun(frags: seq<Fragment>, rest: seq<Byte>, begin: bool)
    requires frags != [] && Begun(frags, rest, begin)
    ensures var f, n := frags[0], |frags[0].payload|;
            && n <= |rest| && f.payload == rest[..n] && rest == f.payload + rest[n..] && Begun(frags[1..], rest[n..], false)
            && f.kind == KindOf(begin, n == |rest|) && (n == |rest| ==> rest[n..] == [])
            && (|frags| > 1 ==> n < |rest| && frags[1].start == f.End())
  {
    hide KindOf;
  }

  lemma OnePart(fmt: Format, file: seq<Byte>, from: nat, sent: seq<seq<Byte>>, parts: seq<Part>, q: Part)
    requires Traced(fmt, file, from, sent, parts) && Follows(q, parts, |parts|)
    requires q.frag.start >= from && Holds(fmt, file, q.frag) && FULL_TYPE <= q.frag.kind <= LAST_TYPE
    requires q.record < |sent| && (q.Ends() ==> q.sofar == sent[q.record])
    ensures Traced(fmt, file, from, sent, parts + [q])
  {
    hide Holds;
    var more := parts + [q];
    forall j | 0 <= j < |more| ensures PartAt(fmt, file, from, sent, more, j) {
      if j > 0 { assert more[j - 1] == parts[j - 1]; }
      if j < |parts| { assert PartAt(fmt, file, from, sent, parts, j); }
    }
  }

  // The file reaches past all of them.
  ghost predicate Reached(parts: seq<Part>, n: nat)
  {
    forall q | q in parts :: q.frag.End() <= n
  }

  // One more record has been sent, and these fragments of it are in the file.
  lemma TraceMore(fmt: Format, before: seq<Byte>, after: seq<Byte>, from: nat, sent: seq<seq<Byte>>, parts: seq<Part>, data: seq<Byte>, frags: seq<Fragment>)
    requires fmt.Ok() && Traced(fmt, before, from, sent, parts) && Reached(parts, |before|) && from <= |before| && before <= after
    requires Begun(frags, data, true) && (frags != [] ==> frags[0].start >= |before|) && forall f | f in frags :: Written(fmt, after, f)
    ensures var more := parts + PartsOf(frags, |sent|, []);
            Traced(fmt, after, from, sent + [data], more) && Reached(more, |after|)
  {
    hide Traced, Begun, PartsOf;
    StillTraced(fmt, before, after, from, sent, parts, data);
    FirstOfAll(before, from, sent, parts, data, frags);
    assert forall f | f in frags :: Holds(fmt, after, f);
    assert [] + data == data;
    TraceRecord(fmt, after, from, sent + [data], parts, frags, |sent|, [], data, true);
    PartsReached(frags, |sent|, [], |after|);
  }

  lemma StillTraced(fmt: Format, before: seq<Byte>, after: seq<Byte>, from: nat, sent: seq<seq<Byte>>, parts: seq<Part>, data: seq<Byte>)
    requires fmt.Ok() && Traced(fmt, before, from, sent, parts) && Reached(parts, |before|) && before <= after
    ensures Traced(fmt, after, from, sent + [data], parts) && forall j | 0 <= j < |parts| :: parts[j].record < |sent|
  {
    hide Holds;
    forall j | 0 <= j < |parts| ensures PartAt(fmt, after, from, sent + [data], parts, j) && parts[j].record < |sent| {
      assert PartAt(fmt, before, from, sent, parts, j) && parts[j] in parts;
      StillWritten(fmt, before, after, parts[j].frag);
    }
  }

  // A new record's fragments come behind all parts.
  lemma FirstOfAll(before: seq<Byte>, from: nat, sent: seq<seq<Byte>>, parts: seq<Part>, data: seq<Byte>, frags: seq<Fragment>)
    requires Reached(parts, |before|) && from <= |before| && forall j | 0 <= j < |parts| :: parts[j].record < |sent|
    requires Begun(frags, data, true) && (frags != [] ==> frags[0].start >= |before|)
    ensures Next(frags, parts, |sent|, [], true) && forall f | f in frags :: f.start >= from
  {
    hide Begun;
    InOrder(frags, data, true);
  }

  lemma {:induction false} InOrder(frags: seq<Fragment>, data: seq<Byte>, begin: bool)
    requires Begun(frags, data, begin)
    ensures frags != [] ==> forall f | f in frags :: f.start >= frags[0].start
    decreases |frags|
  {
    if |frags| > 1 {
      InOrder(frags[1..], data[|frags[0].payload|..], false);
      assert frags == [frags[0]] + frags[1..];
    }
  }

  lemma {:induction false} PartsReached(frags: seq<Fragment>, record: nat, sofar: seq<Byte>, n: nat)
    requires forall f | f in frags :: f.End() <= n
    ensures Reached(PartsOf(frags, record, sofar), n)
    decreases |frags|
  {
    if frags != [] {
      assert frags[0] in frags;
      PartsReached(frags[1..], record, sofar + frags[0].payload, n);
    }
  }

  // ---- reading on with a record half assembled --------------------------------

  function Data(found: seq<Record>): seq<seq<Byte>>
  {
    seq(|found|, i requires 0 <= i < |found| => found[i].0)
  }

  // What a caller gets who reads to the end from inside a record.
  function ReadOn(events: seq<Event>, p: Partial): seq<Record>
  {
    NextRecordShrinks(events, false, p, 0);
    var s := NextRecord(events, false, p, 0);
    match s.found
    case None => []
    case Some(r) => [r] + ReadAll(s.rest, s.resyncing, 0).0
  }

  lemma ReadOnFrom(e: Event, rest: seq<Event>, p: Partial)
    requires e.code != EOF_CODE
    ensures ReadOn([e] + rest, p) ==
            match TurnOn(e, false, p, 0)
            case Deliver(r, _) => [r] + ReadOn(rest, NOTHING)
            case Go(_, q, _) => ReadOn(rest, q)
            case Stop(_) => []
  {
    assert ([e] + rest)[1..] == rest;
  }

  lemma NothingRead(p: Partial)
    ensures ReadOn([], p) == []
  {
  }

  lemma DataOfMore(r: Record, more: seq<Record>)
    ensures Data([r] + more) == [r.0] + Data(more)
  {
  }

  // ---- one physical record ------------------------------------------------------

  // What is read where a fragment was written is that fragment.
  lemma ParsesAsWritten(src: Source, f: Fragment)
    requires src.Ok() && src.initial == 0 && Holds(src.fmt, src.file, f)
    requires f.start + HEADER_SIZE <= src.BufferEnd(f.start)
    ensures var e := src.EventAt(f.start);
            e.Some? && e.value.code != BAD_RECORD ==> e.value == Event(f.kind, f.payload, f.start, f.End(), 0) && f.End() <= |src.file|
  {
    hide BlockEnd, Holds, Physical;
    var end := src.BufferEnd(f.start);
    HeldHeader(src, f);
    var buffer := src.file[f.start..end];
    assert buffer[4] == src.file[f.start + 4] && buffer[5] == src.file[f.start + 5] && buffer[6] == src.file[f.start + 6];
    if f.End() <= end {
      HeldSlices(src, f, end);
    }
  }

  // Where the reader stands: between records, or after part j of one.
  ghost predicate Stands(parts: seq<Part>, pos: nat, p: Partial, at: Option<nat>)
  {
    match at
    case None => p == NOTHING
    case Some(j) =>
      j < |parts| && parts[j].frag.End() == pos && p.open && p.scratch == parts[j].sofar && !parts[j].Ends()
  }

  // The records yet to come are those from `low` on.
  ghost predicate Ahead(parts: seq<Part>, pos: nat, at: Option<nat>, low: nat)
  {
    forall j | 0 <= j < |parts| && (parts[j].frag.start >= pos || at == Some(j)) :: parts[j].record >= low
  }

  // A later fragment found less than a header's length on continues the record
  // being assembled.
  lemma Continues(fmt: Format, file: seq<Byte>, from: nat, sent: seq<seq<Byte>>, parts: seq<Part>, j: nat, m: nat)
    requires Traced(fmt, file, from, sent, parts) && j < |parts| && m < |parts| && !parts[m].Begins()
    requires parts[j].frag.End() <= parts[m].frag.start < parts[j].frag.End() + HEADER_SIZE
    ensures m == j + 1
  {
    hide Holds;
    assert PartAt(fmt, file, from, sent, parts, m);
    if m - 1 < j {
      if m - 1 >= 0 { Ascends(fmt, file, from, sent, parts, m - 1, j); }
    } else if m - 1 > j {
      Ascends(fmt, file, from, sent, parts, j, m - 1);
    }
  }

  // Past the end of a record come later ones.
  lemma AheadAfter(fmt: Format, file: seq<Byte>, from: nat, sent: seq<seq<Byte>>, parts: seq<Part>, m: nat)
    requires Traced(fmt, file, from, sent, parts) && m < |parts| && parts[m].Ends()
    ensures Ahead(parts, parts[m].frag.End(), None, parts[m].record + 1)
  {
    hide Holds;
    forall j | 0 <= j < |parts| && parts[j].frag.start >= parts[m].frag.End() ensures parts[j].record > parts[m].record {
      if j < m { Ascends(fmt, file, from, sent, parts, j, m); }
      if j > m { Ascends(fmt, file, from, sent, parts, m, j); }
    }
  }

  // ---- one event -----------------------------------------------------------------

  // The event is that of part m.
  predicate IsPart(e: Event, f: Fragment)
  {
    e == Event(f.kind, f.payload, f.start, f.End(), 0)
  }

  // What the event adds to what has been read: nothing, or one record that was
  // sent behind those before.
  ghost predicate Adds(more: seq<Record>, sent: seq<seq<Byte>>, low: nat, low': nat)
  {
    || (more == [] && low' == low)
    || (low < low' <= |sent| && |more| == 1 && more[0].0 == sent[low' - 1])
  }

  // A record begins: the one being assembled, if any, is forgotten.
  lemma BeginsOne(src: Source, from: nat, sent: seq<seq<Byte>>, parts: seq<Part>, pos: nat, p: Partial, at: Option<nat>, low: nat, m: nat,
                  e: Event, rest: seq<Event>) returns (more: seq<Record>, p': Partial, at': Option<nat>, low': nat)
    requires Traced(src.fmt, src.file, from, sent, parts) && Ahead(parts, pos, at, low)
    requires m < |parts| && parts[m].Begins() && parts[m].frag.start >= pos && IsPart(e, parts[m].frag)
    ensures ReadOn([e] + rest, p) == more + ReadOn(rest, p') && Adds(more, sent, low, low')
    ensures Stands(parts, e.after, p', at') && Ahead(parts, e.after, at', low')
  {
    hide Holds, ReadOn;
    assert PartAt(src.fmt, src.file, from, sent, parts, m);
    ReadOnFrom(e, rest, p);
    if parts[m].Ends() {
      more, p', at', low' := [(e.payload, e.start)], NOTHING, None, parts[m].record + 1;
      AheadAfter(src.fmt, src.file, from, sent, parts, m);
    } else {
      more, p', at', low' := [], Partial(true, e.payload, e.start), Some(m), low;
      assert [] + ReadOn(rest, p') == ReadOn(rest, p');
    }
  }

  // A record goes on: it is the one being assembled, or else nothing is made of it.
  lemma GoesOn(src: Source, from: nat, sent: seq<seq<Byte>>, parts: seq<Part>, pos: nat, p: Partial, at: Option<nat>, low: nat, m: nat,
               e: Event, rest: seq<Event>) returns (more: seq<Record>, p': Partial, at': Option<nat>, low': nat)
    requires Traced(src.fmt, src.file, from, sent, parts) && Stands(parts, pos, p, at) && Ahead(parts, pos, at, low)
    requires m < |parts| && !parts[m].Begins() && pos <= parts[m].frag.start < pos + HEADER_SIZE && IsPart(e, parts[m].frag)
    ensures ReadOn([e] + rest, p) == more + ReadOn(rest, p') && Adds(more, sent, low, low')
    ensures Stands(parts, e.after, p', at') && Ahead(parts, e.after, at', low')
  {
    hide Holds, ReadOn;
    assert PartAt(src.fmt, src.file, from, sent, parts, m);
    ReadOnFrom(e, rest, p);
    if at.None? {
      more, p', at', low' := [], NOTHING, None, low;
      assert [] + ReadOn(rest, p') == ReadOn(rest, p');
    } else {
      Continues(src.fmt, src.file, from, sent, parts, at.value, m);
      if parts[m].Ends() {
        more, p', at', low' := [(p.scratch + e.payload, p.start)], NOTHING, None, parts[m].record + 1;
        AheadAfter(src.fmt, src.file, from, sent, parts, m);
      } else {
        more, p', at', low' := [], p.(scratch := p.scratch + e.payload), Some(m), low;
        assert [] + ReadOn(rest, p') == ReadOn(rest, p');
      }
    }
  }

  // Damage: the record being assembled is forgotten.
  lemma Forgets(parts: seq<Part>, pos: nat, p: Partial, at: Option<nat>, low: nat, e: Event, rest: seq<Event>)
    requires e.code == BAD_RECORD && pos <= e.after && Ahead(parts, pos, at, low)
    ensures ReadOn([e] + rest, p) == ReadOn(rest, NOTHING) && Ahead(parts, e.after, None, low)
  {
    ReadOnFrom(e, rest, p);
  }

  // ---- reading to the end ------------------------------------------------------

  // The next event behind the tear.
  lemma NextEvent(src: Source, from: nat, sent: seq<seq<Byte>>, parts: seq<Part>, pos: nat) returns (e: Option<Event>)
    requires src.Ok() && src.initial == 0 && Traced(src.fmt, src.file, from, sent, parts) && NoStray(src, from, parts)
    requires from <= pos <= |src.file|
    ensures e.None? ==> src.Scan(pos) == []
    ensures e.Some? ==>
              && src.Scan(pos) == [e.value] + src.Scan(e.value.after) && pos < e.value.after <= |src.file|
              && (e.value.code != BAD_RECORD ==>
                    exists m :: 0 <= m < |parts| && IsPart(e.value, parts[m].frag) && pos <= parts[m].frag.start < pos + HEADER_SIZE)
  {
    hide BlockEnd, Holds, Source.EventAt;
    var q := Place(src.fmt.block, pos);
    ScanToHeader(src, pos);
    PlaceIsNear(src.fmt.block, pos);
    e := None;
    if q <= |src.file| && q + HEADER_SIZE <= src.BufferEnd(q) {
      e := src.EventAt(q);
      if e.Some? {
        EventIsAhead(src, q);
        if e.value.code != BAD_RECORD {
          var m :| 0 <= m < |parts| && parts[m].frag.start == q;
          assert PartAt(src.fmt, src.file, from, sent, parts, m);
          ParsesAsWritten(src, parts[m].frag);
        }
      }
    }
  }

  lemma PlaceIsNear(block: nat, pos: nat)
    requires block > HEADER_SIZE
    ensures pos <= Place(block, pos) < pos + HEADER_SIZE
    ensures BlockEnd(block, Place(block, pos)) >= Place(block, pos) + HEADER_SIZE
  {
    PlaceHasRoom(block, pos);
  }

  lemma EventIsAhead(src: Source, pos: nat)
    requires src.Ok() && pos + HEADER_SIZE <= src.BufferEnd(pos)
    ensures var e := src.EventAt(pos); e.Some? ==> pos < e.value.after <= |src.file|
  {
  }

  // From wherever the reader stands, all it finds was sent, in that order.
  lemma {:induction false} FindsSent(src: Source, from: nat, sent: seq<seq<Byte>>, parts: seq<Part>, pos: nat, p: Partial, at: Option<nat>, low: nat)
    requires src.Ok() && src.initial == 0 && Traced(src.fmt, src.file, from, sent, parts) && NoStray(src, from, parts)
    requires from <= pos <= |src.file| && Stands(parts, pos, p, at) && low <= |sent| && Ahead(parts, pos, at, low)
    ensures PartOf(Data(ReadOn(src.Scan(pos), p)), sent[low..])
    decreases |src.file| - pos
  {
    hide Source.Scan, ReadOn, PartOf, Traced, NoStray, Ahead, Stands;
    var found := NextEvent(src, from, sent, parts, pos);
    if found.None? {
      NothingRead(p);
      NothingIsPart(sent[low..]);
    } else {
      var e, rest := found.value, src.Scan(found.value.after);
      var more, p', at', low' := [], NOTHING, None, low;
      if e.code == BAD_RECORD {
        Forgets(parts, pos, p, at, low, e, rest);
        BetweenRecords(parts, e.after);
      } else {
        var m :| 0 <= m < |parts| && IsPart(e, parts[m].frag) && pos <= parts[m].frag.start < pos + HEADER_SIZE;
        if parts[m].Begins() {
          more, p', at', low' := BeginsOne(src, from, sent, parts, pos, p, at, low, m, e, rest);
        } else {
          more, p', at', low' := GoesOn(src, from, sent, parts, pos, p, at, low, m, e, rest);
        }
      }
      FindsSent(src, from, sent, parts, e.after, p', at', low');
      AddsUp(more, ReadOn(rest, p'), sent, low, low');
    }
  }

  lemma BetweenRecords(parts: seq<Part>, pos: nat)
    ensures Stands(parts, pos, NOTHING, None)
  {
  }

  lemma NothingIsPart(b: seq<seq<Byte>>)
    ensures PartOf(Data([]), b)
  {
  }

  lemma AddsUp(more: seq<Record>, later: seq<Record>, sent: seq<seq<Byte>>, low: nat, low': nat)
    requires Adds(more, sent, low, low') && low' <= |sent| && PartOf(Data(later), sent[low'..])
    ensures PartOf(Data(more + later), sent[low..])
  {
    hide PartOf;
    if more == [] {
      assert more + later == later;
    } else {
      assert more == [more[0]];
      DataOfMore(more[0], later);
      PartOfFirst(Data(later), sent, low, low' - 1);
    }
  }

  // ---- the log behind its records ---------------------------------------------------

  // A file cut short is no worse.
  lemma TracedInPart(fmt: Format, file: seq<Byte>, n: nat, from: nat, sent: seq<seq<Byte>>, parts: seq<Part>)
    requires Traced(fmt, file, from, sent, parts) && n <= |file|
    ensures Traced(fmt, file[..n], from, sent, parts)
  {
    forall j | 0 <= j < |parts| ensures PartAt(fmt, file[..n], from, sent, parts, j) {
      assert PartAt(fmt, file, from, sent, parts, j);
    }
  }

  // The records of a log come first, and then some of those sent behind it.
  lemma NothingIsForged(fmt: Format, records: seq<seq<Byte>>, log: seq<Byte>, file: seq<Byte>, sent: seq<seq<Byte>>, parts: seq<Part>, checksum: bool)
    requires fmt.Ok() && IsLog(fmt, records, log) && log <= file
    requires Traced(fmt, file, |log|, sent, parts) && NoStray(Source(fmt, file, checksum, 0), |log|, parts)
    ensures var found := Data(ReadAll(Source(fmt, file, checksum, 0).Scan(0), false, 0).0);
            |found| >= |records| && found[..|records|] == records && PartOf(found[|records|..], sent)
  {
    hide ReadAll, Source.Scan, IsLog, Traced, NoStray, PartOf;
    var src := Source(fmt, file, checksum, 0);
    assert file == log + file[|log|..];
    RecordsComeFirst(fmt, records, log, file[|log|..], checksum);
    BetweenRecords(parts, |log|);
    AllAhead(parts, |log|);
    FindsSent(src, |log|, sent, parts, |log|, NOTHING, None, 0);
    ReadOnIsReadAll(src.Scan(|log|));
    assert sent[0..] == sent;
    var found := ReadAll(src.Scan(0), false, 0).0;
    assert Data(found)[|records|..] == Data(found[|records|..]);
    assert Data(found)[..|records|] == records;
  }

  lemma AllAhead(parts: seq<Part>, pos: nat)
    ensures Ahead(parts, pos, None, 0)
  {
  }

  lemma ReadOnIsReadAll(events: seq<Event>)
    ensures ReadOn(events, NOTHING) == ReadAll(events, false, 0).0
  {
  }
}
