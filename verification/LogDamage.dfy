// Resynchronisation: what a reader returns from a log in which one physical
// record is damaged.
module LogDamage {
  import opened Bytes
  import opened LogFormat
  import opened LogEvents
  import opened LogTheorems

  // The length or the checksum of the physical record at `start` is wrong, so
  // that the reader can tell.
  predicate Detectable(src: Source, start: nat)
    requires src.fmt.block > HEADER_SIZE && start + HEADER_SIZE <= src.BufferEnd(start)
  {
    var low: int, high: int := src.file[start + 4], src.file[start + 5];
    var next := start + HEADER_SIZE + low + 256 * high;
    || next > src.BufferEnd(start)
    || (src.checksum && src.file[start..start + 4] != src.fmt.crc(src.file[start + 6..next]))
  }

  // The records with no fragment that reaches into [lo, hi).
  function Undamaged(block: nat, pos: nat, records: seq<seq<Byte>>, lo: nat, hi: nat): seq<Record>
    requires block > HEADER_SIZE
    decreases |records|
  {
    if records == [] then []
    else
      var frags := Cut(block, pos, records[0], true);
      var more := Undamaged(block, EndOf(pos, frags), records[1..], lo, hi);
      if forall f | f in frags :: f.End() <= lo || f.start >= hi
      then [(records[0], frags[0].start)] + more else more
  }

  // The events of the damaged record itself: one report, or the end of the
  // file when its length points past it.
  predicate DamageEvents(events: seq<Event>)
  {
    events == [] || (|events| == 1 && events[0].code == BAD_RECORD)
  }

  // What is reported of the damaged record itself: the rest of its block, unless
  // it has type and length 0, lies below the initial offset, or its length runs
  // past the end of the file.
  predicate Reported(src: Source, start: nat, damage: seq<Event>)
    requires src.fmt.block > HEADER_SIZE && start + HEADER_SIZE <= src.BufferEnd(start)
  {
    var low: int, high: int := src.file[start + 4], src.file[start + 5];
    && DamageEvents(damage)
    && (damage == [] <==> |src.file| < BlockEnd(src.fmt.block, start) && start + 7 + low + 256 * high > |src.file|)
    && (damage != [] ==>
          && damage[0].after == src.BufferEnd(start)
          && (damage[0].dropped == if (low == 0 && high == 0 && src.file[start + 6] == 0) || start < src.initial then 0 else src.BufferEnd(start) - start))
  }

  lemma DamagedHeader(src: Source, start: nat)
    requires src.Ok() && start + HEADER_SIZE <= src.BufferEnd(start) && Detectable(src, start)
    ensures match src.EventAt(start)
            case None => src.AtEof(start) && Reported(src, start, [])
            case Some(e) => e.code == BAD_RECORD && e.after == src.BufferEnd(start) && Reported(src, start, [e])
  {
    hide BlockEnd;
    var end := src.BufferEnd(start);
    var buffer := src.file[start..end];
    assert buffer[4] == src.file[start + 4] && buffer[5] == src.file[start + 5] && buffer[6] == src.file[start + 6];
    var low: int, high: int := buffer[4], buffer[5];
    var length := low + 256 * high;
    if start + HEADER_SIZE + length <= end {
      SliceOfSlice(src.file, start, end, 0, 4);
      SliceOfSlice(src.file, start, end, 6, HEADER_SIZE + length);
    }
  }

  lemma {:induction false} ChainSplit(fmt: Format, pos: nat, frags: seq<Fragment>, k: nat)
    requires fmt.Ok() && Chain(fmt, pos, frags) && k <= |frags|
    ensures Chain(fmt, pos, frags[..k]) && Chain(fmt, EndOf(pos, frags[..k]), frags[k..])
    ensures EndOf(EndOf(pos, frags[..k]), frags[k..]) == EndOf(pos, frags)
    decreases k
  {
    hide Place, BlockEnd;
    if k == 0 {
      assert frags[..k] == [] && frags[k..] == frags;
    } else {
      ChainSplit(fmt, frags[0].End(), frags[1..], k - 1);
      assert frags[..k][1..] == frags[1..][..k - 1];
      assert EndOf(frags[0].End(), frags[1..][..k - 1]) == EndOf(pos, frags[..k]);
      assert frags[1..][k - 1..] == frags[k..];
    }
  }

  // Every fragment but the k-th is intact.
  ghost predicate IntactBut(fmt: Format, file: seq<Byte>, frags: seq<Fragment>, k: nat)
  {
    forall i | 0 <= i < |frags| && i != k :: Holds(fmt, file, frags[i])
  }

  lemma HeaderInBuffer(src: Source, pos: nat, frags: seq<Fragment>, k: nat)
    requires src.Ok() && Chain(src.fmt, pos, frags) && k < |frags| && |src.file| == EndOf(pos, frags)
    ensures frags[k].start == Place(src.fmt.block, EndOf(pos, frags[..k]))
    ensures frags[k].End() <= src.BufferEnd(frags[k].start)
    ensures Chain(src.fmt, frags[k].End(), frags[k + 1..])
    ensures EndOf(frags[k].End(), frags[k + 1..]) == EndOf(pos, frags)
  {
    hide BlockEnd;
    ChainSplit(src.fmt, pos, frags, k);
    ChainAscends(src.fmt, pos, frags);
    assert frags[k..][0] == frags[k] && frags[k..][1..] == frags[k + 1..];
    assert frags[k] in frags;
  }

  lemma ScanDamaged(src: Source, pos: nat, frags: seq<Fragment>, k: nat) returns (damage: seq<Event>)
    requires src.Ok() && Chain(src.fmt, pos, frags) && k < |frags| && |src.file| == EndOf(pos, frags)
    requires IntactBut(src.fmt, src.file, frags, k)
    requires frags[k].start + HEADER_SIZE <= src.BufferEnd(frags[k].start) && Detectable(src, frags[k].start)
    ensures Reported(src, frags[k].start, damage)
    ensures var tail := After(frags[k + 1..], BlockEnd(src.fmt.block, frags[k].start));
            && DamageEvents(damage) && (damage == [] ==> tail == [])
            && src.Scan(pos) == EventsOf(frags[..k], src.initial) + damage + EventsOf(tail, src.initial)
  {
    hide Source.Scan, BlockEnd, Holds, Detectable, Chain, Source.EventAt, Reported;
    var fmt, start := src.fmt, frags[k].start;
    var hi := BlockEnd(fmt.block, start);
    HeaderInBuffer(src, pos, frags, k);
    ChainSplit(fmt, pos, frags, k);
    assert HoldsAll(fmt, src.file, frags[..k]);
    ScanLayout(src, pos, frags[..k]);
    ScanToHeader(src, EndOf(pos, frags[..k]));
    assert src.Scan(pos) == EventsOf(frags[..k], src.initial) + src.Scan(start);
    damage := AtDamage(src, start);
    var rest := frags[k + 1..];
    if src.AtEof(start) {
      NothingAfter(fmt, frags[k].End(), rest, hi);
    } else {
      BlockEndAligned(fmt.block, start);
      HoldsLater(fmt, src.file, frags, k);
      HoldsAfter(src, rest, hi);
      ScanFrom(src, frags[k].End(), rest, hi);
    }
  }

  lemma HoldsLater(fmt: Format, file: seq<Byte>, frags: seq<Fragment>, k: nat)
    requires k < |frags| && IntactBut(fmt, file, frags, k)
    ensures HoldsAll(fmt, file, frags[k + 1..])
  {
  }

  // Scanning on from the damaged header.
  lemma AtDamage(src: Source, start: nat) returns (damage: seq<Event>)
    requires src.Ok() && start + HEADER_SIZE <= src.BufferEnd(start) && Detectable(src, start)
    ensures Reported(src, start, damage)
    ensures DamageEvents(damage) && (damage == [] ==> src.AtEof(start))
    ensures src.Scan(start) == damage + if src.AtEof(start) then [] else src.Scan(BlockEnd(src.fmt.block, start))
  {
    hide Source.EventAt, Reported;
    DamagedHeader(src, start);
    var e := src.EventAt(start);
    damage := if e.Some? then [e.value] else [];
    if e.Some? && src.AtEof(start) { EndOfFile(src); }
  }

  lemma EndOfFile(src: Source)
    requires src.Ok()
    ensures src.Scan(|src.file|) == []
  {
  }

  lemma NothingAfter(fmt: Format, pos: nat, frags: seq<Fragment>, from: nat)
    requires fmt.Ok() && Chain(fmt, pos, frags) && EndOf(pos, frags) < from
    ensures After(frags, from) == []
  {
    ChainAscends(fmt, pos, frags);
    var k := AfterIsSuffix(frags, from);
  }

  // Damage inside a record makes the reader forget it.
  lemma ForgetPartial(damage: seq<Event>, tail: seq<Event>, p: Partial, initial: nat)
    requires DamageEvents(damage) && (damage == [] ==> tail == [])
    ensures var s, t := NextRecord(damage + tail, false, p, initial), NextRecord(tail, false, NOTHING, initial);
            s.found == t.found && s.rest == t.rest && s.resyncing == t.resyncing
  {
    if damage != [] {
      assert (damage + tail)[1..] == tail;
    }
  }

  lemma {:induction false} LaterRecords(fmt: Format, pos: nat, records: seq<seq<Byte>>, lo: nat, hi: nat)
    requires fmt.Ok() && lo <= pos
    ensures Undamaged(fmt.block, pos, records, lo, hi) == RecordsFrom(fmt.block, pos, records, hi)
    decreases |records|
  {
    hide Chain, Cut, WholeRecord;
    if records != [] {
      var frags := Cut(fmt.block, pos, records[0], true);
      CutIsRecord(fmt, pos, records[0], true);
      ChainAscends(fmt, pos, frags);
      assert frags[0] in frags;
      if frags[0].start >= hi { AllAbove(fmt, pos, frags, hi); }
      LaterRecords(fmt, EndOf(pos, frags), records[1..], lo, hi);
    }
  }

  lemma {:induction false} ReadDamaged(fmt: Format, pos: nat, records: seq<seq<Byte>>, k: nat, damage: seq<Event>)
    requires fmt.Ok() && DamageEvents(damage)
    requires var frags := CutAll(fmt.block, pos, records);
             k < |frags| &&
             (damage == [] ==> After(frags[k + 1..], BlockEnd(fmt.block, frags[k].start)) == [])
    ensures var frags := CutAll(fmt.block, pos, records);
            var lo, hi := frags[k].start, BlockEnd(fmt.block, frags[k].start);
            ReadAll(EventsOf(frags[..k], 0) + damage + EventsOf(After(frags[k + 1..], hi), 0), false, 0).0 ==
            Undamaged(fmt.block, pos, records, lo, hi)
    decreases |records|
  {
    hide NextRecord, Chain, Cut, BlockEnd, WholeRecord, After, EventsOf, ReadAll, Payloads;
    var all := CutAll(fmt.block, pos, records);
    var frags := Cut(fmt.block, pos, records[0], true);
    var next := EndOf(pos, frags);
    var more := CutAll(fmt.block, next, records[1..]);
    var lo, hi := all[k].start, BlockEnd(fmt.block, all[k].start);
    var tail := EventsOf(After(all[k + 1..], hi), 0);
    if k >= |frags| {
      var j := k - |frags|;
      FirstIsBefore(fmt, pos, records, j);
      PastFirst(frags, more, k, damage, tail);
      var rest := EventsOf(more[..j], 0) + damage + tail;
      ReadOne(frags, rest, false, 0);
      ReadDamaged(fmt, next, records[1..], j, damage);
    } else {
      InFirst(fmt, pos, records, k);
      ReadInside(fmt, pos, records, k, damage);
      UndamagedInside(fmt, pos, records, k);
    }
  }

  lemma FirstIsBefore(fmt: Format, pos: nat, records: seq<seq<Byte>>, j: nat)
    requires fmt.Ok() && records != []
    requires j < |CutAll(fmt.block, EndOf(pos, Cut(fmt.block, pos, records[0], true)), records[1..])|
    ensures var frags := Cut(fmt.block, pos, records[0], true);
            var more := CutAll(fmt.block, EndOf(pos, frags), records[1..]);
            && WholeRecord(frags, true) && Payloads(frags) == records[0]
            && forall f | f in frags :: f.End() <= more[j].start
  {
    hide Chain, Cut, BlockEnd, WholeRecord, Payloads;
    var frags := Cut(fmt.block, pos, records[0], true);
    var next := EndOf(pos, frags);
    var more := CutAll(fmt.block, next, records[1..]);
    CutIsRecord(fmt, pos, records[0], true);
    CutAllChain(fmt, next, records[1..]);
    ChainAscends(fmt, pos, frags);
    ChainAscends(fmt, next, more);
    assert frags[0] in frags && more[j] in more;
  }

  lemma InFirst(fmt: Format, pos: nat, records: seq<seq<Byte>>, k: nat)
    requires fmt.Ok() && records != [] && k < |Cut(fmt.block, pos, records[0], true)|
    ensures var all, frags := CutAll(fmt.block, pos, records), Cut(fmt.block, pos, records[0], true);
            all[..k] == frags[..k] && all[k] == frags[k] && frags[k] in frags
  {
    hide Cut;
  }

  lemma PastFirst(frags: seq<Fragment>, more: seq<Fragment>, k: nat, damage: seq<Event>, tail: seq<Event>)
    requires |frags| <= k < |frags| + |more|
    ensures var all, j := frags + more, k - |frags|;
            && all[k] == more[j] && all[k + 1..] == more[j + 1..]
            && EventsOf(all[..k], 0) + damage + tail == EventsOf(frags, 0) + (EventsOf(more[..j], 0) + damage + tail)
  {
    hide EventsOf;
    SplitLater(frags, more, k);
    EventsConcat(frags, more[..k - |frags|], 0);
    Regroup(EventsOf(frags, 0), EventsOf(more[..k - |frags|], 0), damage, tail);
  }

  lemma SplitLater(frags: seq<Fragment>, more: seq<Fragment>, k: nat)
    requires |frags| <= k < |frags| + |more|
    ensures var all, j := frags + more, k - |frags|;
            all[k] == more[j] && all[..k] == frags + more[..j] && all[k + 1..] == more[j + 1..]
  {
  }

  lemma Regroup(a: seq<Event>, b: seq<Event>, c: seq<Event>, d: seq<Event>)
    ensures a + b + c + d == a + (b + c + d)
  {
  }

  // The damage sits inside the first record: reading goes on with the records
  // past it.
  lemma ReadInside(fmt: Format, pos: nat, records: seq<seq<Byte>>, k: nat, damage: seq<Event>)
    requires fmt.Ok() && DamageEvents(damage) && records != []
    requires k < |Cut(fmt.block, pos, records[0], true)|
    requires var all := CutAll(fmt.block, pos, records);
             damage == [] ==> After(all[k + 1..], BlockEnd(fmt.block, all[k].start)) == []
    ensures var all := CutAll(fmt.block, pos, records);
            var hi := BlockEnd(fmt.block, all[k].start);
            ReadAll(EventsOf(all[..k], 0) + damage + EventsOf(After(all[k + 1..], hi), 0), false, 0).0 ==
            RecordsFrom(fmt.block, pos, records, hi)
  {
    hide NextRecord, Chain, Cut, BlockEnd, WholeRecord, After, EventsOf;
    var all := CutAll(fmt.block, pos, records);
    var frags := Cut(fmt.block, pos, records[0], true);
    var hi := BlockEnd(fmt.block, all[k].start);
    var tail := EventsOf(After(all[k + 1..], hi), 0);
    CutIsRecord(fmt, pos, records[0], true);
    assert all[..k] == frags[..k];
    var q := AssemblePrefix(frags, k, true, NOTHING, damage + tail, 0);
    assert EventsOf(all[..k], 0) + damage + tail == EventsOf(frags[..k], 0) + (damage + tail);
    NoEvents();
    ForgetPartial(damage, tail, q, 0);
    AfterDamage(fmt, pos, records, k);
    ReadFrom(fmt, pos, records, hi, false, 0);
  }

  lemma NoEvents()
    ensures EventsOf([], 0) == []
  {
  }

  lemma AfterDamage(fmt: Format, pos: nat, records: seq<seq<Byte>>, k: nat)
    requires fmt.Ok() && k < |CutAll(fmt.block, pos, records)|
    ensures var all := CutAll(fmt.block, pos, records);
            var hi := BlockEnd(fmt.block, all[k].start);
            After(all, hi) == After(all[k + 1..], hi)
  {
    hide Cut, BlockEnd, CutAll;
    var all := CutAll(fmt.block, pos, records);
    var hi := BlockEnd(fmt.block, all[k].start);
    CutAllChain(fmt, pos, records);
    ChainSplit(fmt, pos, all, k);
    ChainAscends(fmt, pos, all[..k]);
    assert all == all[..k + 1] + all[k + 1..];
    var i := AfterIsSuffix(all[..k + 1], hi);
    AfterConcat(all[..k + 1], all[k + 1..], hi);
  }

  // The damaged record itself is not among the undamaged ones.
  lemma UndamagedInside(fmt: Format, pos: nat, records: seq<seq<Byte>>, k: nat)
    requires fmt.Ok() && records != [] && k < |Cut(fmt.block, pos, records[0], true)|
    ensures var f := Cut(fmt.block, pos, records[0], true)[k];
            var hi := BlockEnd(fmt.block, f.start);
            Undamaged(fmt.block, pos, records, f.start, hi) == RecordsFrom(fmt.block, pos, records, hi)
  {
    hide Cut, Chain, BlockEnd, WholeRecord;
    var frags := Cut(fmt.block, pos, records[0], true);
    var f := frags[k];
    CutIsRecord(fmt, pos, records[0], true);
    ChainAscends(fmt, pos, frags);
    assert f in frags && f.End() > f.start;
    if frags[0].start >= BlockEnd(fmt.block, f.start) {
      AllAbove(fmt, pos, frags, BlockEnd(fmt.block, f.start));
      assert false;
    }
    LaterRecords(fmt, EndOf(pos, frags), records[1..], f.start, BlockEnd(fmt.block, f.start));
  }

  // One physical record is damaged so that its length or checksum test fails.
  // Exactly the records with no fragment between that record and the end of
  // its block are returned, in order: all others but those that lie past the
  // damage in the same block, and none that was never written.
  lemma DamageIsContained(fmt: Format, records: seq<seq<Byte>>, log: seq<Byte>, k: nat, checksum: bool)
    requires fmt.Ok()
    requires var frags := CutAll(fmt.block, 0, records);
             var src := Source(fmt, log, checksum, 0);
             && k < |frags| && |log| == EndOf(0, frags)
             && IntactBut(fmt, log, frags, k)
             && frags[k].start + HEADER_SIZE <= src.BufferEnd(frags[k].start)
             && Detectable(src, frags[k].start)
    ensures var start := CutAll(fmt.block, 0, records)[k].start;
            ReadAll(Source(fmt, log, checksum, 0).Scan(0), false, 0).0 ==
            Undamaged(fmt.block, 0, records, start, BlockEnd(fmt.block, start))
  {
    CutAllChain(fmt, 0, records);
    var damage := ScanDamaged(Source(fmt, log, checksum, 0), 0, CutAll(fmt.block, 0, records), k);
    ReadDamaged(fmt, 0, records, k, damage);
  }
}
