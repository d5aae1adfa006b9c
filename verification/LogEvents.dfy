// What a log reader sees, in two layers: the physical records (and the
// damage) found in a file, and the logical records assembled from them.
module LogEvents {
  import opened Bytes
  import opened LogFormat

  // One answer of ReadPhysicalRecord: the record type or BAD_RECORD, where the
  // record starts, where reading goes on, and the bytes reported as dropped.
  datatype Event = Event(code: Byte, payload: seq<Byte>, start: nat, after: nat, dropped: nat)

  datatype Source = Source(fmt: Format, file: seq<Byte>, checksum: bool, initial: nat)
  {
    ghost predicate Ok() { fmt.Ok() }

    // End of the buffer that holds the block around pos.
    function BufferEnd(pos: nat): nat
      requires fmt.block > HEADER_SIZE
    {
      Min(BlockEnd(fmt.block, pos), |file|)
    }

    // That block was the last read: it came back shorter than a block.
    predicate AtEof(pos: nat)
      requires fmt.block > HEADER_SIZE
    {
      |file| < BlockEnd(fmt.block, pos)
    }

    // The record at the front of a buffer that starts at file offset pos; none
    // when the file ends before the record does.
    function Parse(buffer: seq<Byte>, pos: nat, atEof: bool): Option<Event>
      requires |buffer| >= HEADER_SIZE
    {
      var low: int, high: int := buffer[4], buffer[5];
      var length := low + 256 * high;
      var kind := buffer[6];
      var end, next := pos + |buffer|, pos + HEADER_SIZE + length;
      var reported := if pos >= initial then |buffer| else 0;
      if next > end then
        if atEof then None else Some(Event(BAD_RECORD, [], pos, end, reported))
      else if kind == ZERO_TYPE && length == 0 then
        Some(Event(BAD_RECORD, [], pos, end, 0))
      else if checksum && buffer[..4] != fmt.crc(buffer[6..HEADER_SIZE + length]) then
        Some(Event(BAD_RECORD, [], pos, end, reported))
      else if pos < initial then
        Some(Event(BAD_RECORD, [], pos, next, 0))
      else
        Some(Event(kind, buffer[HEADER_SIZE..HEADER_SIZE + length], pos, next, 0))
    }

    function EventAt(pos: nat): Option<Event>
      requires fmt.block > HEADER_SIZE && pos + HEADER_SIZE <= BufferEnd(pos)
    {
      Parse(file[pos..BufferEnd(pos)], pos, AtEof(pos))
    }

    // Start of the first block that can hold a record at or past `initial`;
    // an offset in a block's trailer belongs to the next block.
    function InitialBlock(): nat
      requires fmt.block > HEADER_SIZE
    {
      var offset := initial % fmt.block;
      initial - offset + if offset > fmt.block - 6 then fmt.block else 0
    }

    // All events from pos to the end of the file.
    function Scan(pos: nat): seq<Event>
      requires fmt.block > HEADER_SIZE
      decreases |file| + fmt.block - pos
    {
      if pos > |file| then []
      else if BufferEnd(pos) - pos < HEADER_SIZE then
        if AtEof(pos) then [] else Scan(BlockEnd(fmt.block, pos))
      else
        match EventAt(pos)
        case None => []
        case Some(e) => [e] + Scan(e.after)
    }
  }

  // Reading may resume anywhere in the block around pos: too close to its end
  // counts as the next block, or as the end of the file in the last one.
  lemma ScanResumes(src: Source, pos: nat, next: nat)
    requires src.Ok() && pos < next <= src.BufferEnd(pos)
    ensures next < src.BufferEnd(pos) ==>
              src.BufferEnd(next) == src.BufferEnd(pos) && src.AtEof(next) == src.AtEof(pos)
    ensures src.BufferEnd(pos) - next < HEADER_SIZE ==>
              src.Scan(next) == if src.AtEof(pos) then [] else src.Scan(src.BufferEnd(pos))
  {
    if next < src.BufferEnd(pos) {
      SameBlock(src.fmt.block, pos, next);
    }
  }

  // Records below the initial offset are neither handed on nor reported.
  lemma {:induction false} ScanAboveInitial(src: Source, pos: nat)
    requires src.Ok()
    ensures AboveInitial(src.Scan(pos), src.initial)
    decreases |src.file| + src.fmt.block - pos
  {
    if pos <= |src.file| {
      if src.BufferEnd(pos) - pos < HEADER_SIZE {
        if !src.AtEof(pos) { ScanAboveInitial(src, BlockEnd(src.fmt.block, pos)); }
      } else {
        var e := src.EventAt(pos);
        if e.Some? { ScanAboveInitial(src, e.value.after); }
      }
    }
  }

  ghost predicate AboveInitial(events: seq<Event>, initial: nat)
  {
    forall e | e in events :: (e.code == BAD_RECORD && e.dropped == 0) || e.start >= initial
  }

  // ---- assembling logical records ----------------------------------------

  datatype Partial = Partial(open: bool, scratch: seq<Byte>, start: nat)

  const NOTHING: Partial := Partial(false, [], 0)

  type Record = (seq<Byte>, nat)

  // What one call of ReadRecord yields from the events ahead of it.
  datatype Step = Step(found: Option<Record>, rest: seq<Event>, resyncing: bool, drops: seq<nat>)

  // Drops that begin below the initial offset are not reported.
  function Report(bytes: nat, after: nat, initial: nat): seq<nat>
  {
    if after - bytes >= initial then [bytes] else []
  }

  function EventDrops(e: Event): seq<nat>
  {
    if e.dropped > 0 then [e.dropped] else []
  }

  // What one physical record does to the record being assembled.
  datatype Turn = Deliver(record: Record, drops: seq<nat>)
                | Stop(drops: seq<nat>)
                | Go(resyncing: bool, partial: Partial, drops: seq<nat>)

  function TurnOn(e: Event, resyncing: bool, p: Partial, initial: nat): Turn
  {
    if resyncing && e.code == MIDDLE_TYPE then Go(true, p, [])
    else if resyncing && e.code == LAST_TYPE then Go(false, p, [])
    else if e.code == FULL_TYPE then
      Deliver((e.payload, e.start), LostPartial(e, p, initial))
    else if e.code == FIRST_TYPE then
      Go(false, Partial(true, e.payload, e.start), LostPartial(e, p, initial))
    else if e.code == MIDDLE_TYPE then
      if p.open then Go(false, p.(scratch := p.scratch + e.payload), [])
      else Go(false, p, Report(|e.payload|, e.after, initial))
    else if e.code == LAST_TYPE then
      if p.open then Deliver((p.scratch + e.payload, p.start), [])
      else Go(false, p, Report(|e.payload|, e.after, initial))
    else if e.code == EOF_CODE then Stop([])
    else if e.code == BAD_RECORD then
      Go(false, NOTHING, if p.open then Report(|p.scratch|, e.after, initial) else [])
    else
      Go(false, NOTHING, Report(|e.payload| + if p.open then |p.scratch| else 0, e.after, initial))
  }

  function LostPartial(e: Event, p: Partial, initial: nat): seq<nat>
  {
    if p.open && p.scratch != [] then Report(|p.scratch|, e.after, initial) else []
  }

  function NextRecord(events: seq<Event>, resyncing: bool, p: Partial, initial: nat): Step
    decreases |events|
  {
    if events == [] then Step(None, [], false, [])
    else
      var seen := EventDrops(events[0]);
      match TurnOn(events[0], resyncing, p, initial)
      case Deliver(r, drops) => Step(Some(r), events[1..], false, seen + drops)
      case Stop(drops) => Step(None, events[1..], false, seen + drops)
      case Go(resync, q, drops) =>
        var s := NextRecord(events[1..], resync, q, initial);
        s.(drops := seen + drops + s.drops)
  }

  lemma {:induction false} NextRecordShrinks(events: seq<Event>, resyncing: bool, p: Partial, initial: nat)
    ensures var s := NextRecord(events, resyncing, p, initial);
            |s.rest| <= |events| && (s.found.Some? ==> |s.rest| < |events|)
    decreases |events|
  {
    if events != [] {
      match TurnOn(events[0], resyncing, p, initial)
      case Go(resync, q, _) => NextRecordShrinks(events[1..], resync, q, initial);
      case _ =>
    }
  }

  // Everything a caller gets who reads until ReadRecord returns false, and the
  // drops reported on the way.
  function ReadAll(events: seq<Event>, resyncing: bool, initial: nat): (seq<Record>, seq<nat>)
    decreases |events|
  {
    NextRecordShrinks(events, resyncing, NOTHING, initial);
    var s := NextRecord(events, resyncing, NOTHING, initial);
    match s.found
    case None => ([], s.drops)
    case Some(r) =>
      var (more, drops) := ReadAll(s.rest, s.resyncing, initial);
      ([r] + more, s.drops + drops)
  }
}
