// The log reader (db/log_reader.cc).
module LogReader {
  import opened Bytes
  import opened LogFormat
  import opened LogEvents

  class Reader {
    const src: Source
    var filePos: nat
    var buffer: seq<Byte>
    var eof: bool
    var endOfBufferOffset: nat
    var lastRecordOffset: nat
    var resyncing: bool
    // What the reporter has been told.
    var drops: seq<nat>

    // Nothing is left to parse or to read.
    static predicate Spent(buffer: seq<Byte>, eof: bool)
    {
      |buffer| < HEADER_SIZE && eof
    }

    // The buffer is the unread rest of the block last read.
    static ghost predicate Consistent(src: Source, filePos: nat, buffer: seq<Byte>, eof: bool, end: nat)
    {
      && src.Ok() && |buffer| <= end
      && (Spent(buffer, eof) || (
            && end == filePos
            && (buffer == [] ==> !eof && BlockEnd(src.fmt.block, filePos) == filePos + src.fmt.block)
            && (buffer != [] ==>
                  && |buffer| <= filePos <= |src.file|
                  && buffer == src.file[filePos - |buffer|..filePos]
                  && filePos == src.BufferEnd(filePos - |buffer|)
                  && eof == src.AtEof(filePos - |buffer|))))
    }

    // The events not yet returned.
    static ghost function EventsLeft(src: Source, filePos: nat, buffer: seq<Byte>, eof: bool, end: nat): seq<Event>
      requires Consistent(src, filePos, buffer, eof, end)
    {
      if Spent(buffer, eof) then []
      else if |buffer| < HEADER_SIZE then src.Scan(filePos)
      else src.Scan(filePos - |buffer|)
    }

    ghost predicate Valid()
      reads this
      ensures Valid() ==> |buffer| <= endOfBufferOffset
    {
      Consistent(src, filePos, buffer, eof, endOfBufferOffset)
    }

    ghost function Remaining(): seq<Event>
      requires Valid()
      reads this
    {
      EventsLeft(src, filePos, buffer, eof, endOfBufferOffset)
    }

    predicate AtEnd()
      reads this
    {
      buffer == [] && eof
    }

    ghost predicate Fresh()
      reads this
    {
      buffer == [] && !eof && filePos == 0 && endOfBufferOffset == 0 && lastRecordOffset == 0
    }

    // Nothing of a block is left over while the reader has yet to skip to its
    // initial offset.
    ghost predicate Usable()
      reads this
    {
      Valid() && (lastRecordOffset < src.initial ==> Fresh() || AtEnd())
    }

    // What ReadRecord reads from: a reader that has not yet found a record
    // first skips to the block of its initial offset.
    ghost function Ahead(): seq<Event>
      requires Valid()
      reads this
    {
      if lastRecordOffset < src.initial && Fresh() then src.Scan(src.InitialBlock()) else Remaining()
    }

    constructor (src: Source)
      requires src.Ok()
      ensures Usable() && Fresh() && this.src == src && drops == []
      ensures resyncing == (src.initial > 0)
      ensures Ahead() == src.Scan(if src.initial > 0 then src.InitialBlock() else 0)
    {
      this.src := src;
      filePos := 0;
      buffer := [];
      eof := false;
      lastRecordOffset := 0;
      endOfBufferOffset := 0;
      resyncing := src.initial > 0;
      drops := [];
    }

    // Drops below the initial offset are not reported.
    method ReportDrop(bytes: nat)
      requires bytes <= endOfBufferOffset - |buffer|
      modifies this`drops
      ensures drops == old(drops) + Report(bytes, endOfBufferOffset - |buffer|, src.initial)
    {
      if endOfBufferOffset - |buffer| - bytes >= src.initial {
        drops := drops + [bytes];
      }
    }

    method SkipToInitialBlock()
      requires Valid() && lastRecordOffset < src.initial && (Fresh() || AtEnd())
      modifies this`filePos, this`endOfBufferOffset
      ensures Valid() && Remaining() == old(Ahead())
    {
      hide BlockEnd, Source.Scan;
      var offset := src.initial % src.fmt.block;
      var blockStart := src.initial - offset;
      if offset > src.fmt.block - 6 {
        blockStart := blockStart + src.fmt.block;
      }
      InitialBlockAligned(src);
      endOfBufferOffset := blockStart;
      if blockStart > 0 {
        filePos := filePos + blockStart;
      }
    }

    static lemma InitialBlockAligned(src: Source)
      requires src.Ok()
      ensures BlockEnd(src.fmt.block, src.InitialBlock()) == src.InitialBlock() + src.fmt.block
    {
      BlockStarts(src.fmt.block, src.initial);
    }

    // The next logical record: the one the events ahead assemble to, with the
    // drops they call for. The reader can be used again, unless the file holds a
    // record whose type byte reads as the end of the file.
    method ReadRecord() returns (ok: bool, record: seq<Byte>)
      requires Usable()
      modifies this
      ensures Valid() && (NoEof(old(Ahead())) ==> Usable())
      ensures Prepend(old(drops), NextRecord(old(Ahead()), old(resyncing), NOTHING, src.initial)) ==
              Step(if ok then Some((record, lastRecordOffset)) else None, Remaining(), resyncing, drops)
      ensures ok ==> lastRecordOffset >= src.initial
    {
      hide NextRecord, Source.Scan, Consistent, EventsLeft;
      if lastRecordOffset < src.initial {
        SkipToInitialBlock();
      }
      ok, record := AssembleRecord();
    }

    method AssembleRecord() returns (ok: bool, record: seq<Byte>)
      requires Valid()
      modifies this
      ensures Valid() && (!ok && NoEof(old(Remaining())) ==> AtEnd())
      ensures Prepend(old(drops), NextRecord(old(Remaining()), old(resyncing), NOTHING, src.initial)) ==
              Step(if ok then Some((record, lastRecordOffset)) else None, Remaining(), resyncing, drops)
      ensures ok ==> lastRecordOffset >= src.initial
    {
      hide NextRecord, Source.Scan, AboveInitial, Consistent, EventsLeft, TurnOn, NoEof;
      var p := NOTHING;
      ghost var goal := Prepend(drops, NextRecord(Remaining(), resyncing, NOTHING, src.initial));
      RemainingAboveInitial();
      while true
        invariant Valid() && goal == Prepend(drops, NextRecord(Remaining(), resyncing, p, src.initial))
        invariant AboveInitial(Remaining(), src.initial) && (p.open ==> p.start >= src.initial)
        invariant (p.open || p == NOTHING) && |p.scratch| <= Position()
        invariant NoEof(old(Remaining())) ==> NoEof(Remaining())
        decreases |Remaining()|
      {
        ghost var events, told := Remaining(), drops;
        var kind, fragment := ReadPhysicalRecord();
        ghost var turn := TurnOn(Seen(kind, fragment), resyncing, p, src.initial);
        TurnKeeps(Seen(kind, fragment), resyncing, p, src.initial);
        if events == [] {
          NextAtEnd(Seen(kind, fragment), resyncing, p, src.initial, told);
        } else {
          SameTurn(events[0], Seen(kind, fragment), resyncing, p, src.initial);
          NextUnfolds(events, resyncing, p, src.initial, told);
          AboveInitialTail(events, src.initial);
          NoEofTail(events, resyncing, p, src.initial);
          TurnAbove(events[0], resyncing, p, src.initial);
        }
        assert goal == Continue(turn, Remaining(), drops, src.initial);
        var finished, got, r, q := Dispatch(kind, fragment, p);
        if finished {
          assert goal == Step(if got then Some((r, lastRecordOffset)) else None, Remaining(), resyncing, drops);
          return got, r;
        }
        p := q;
      }
    }

    static ghost predicate NoEof(events: seq<Event>)
    {
      forall e | e in events :: e.code != EOF_CODE
    }

    static lemma NoEofTail(events: seq<Event>, resyncing: bool, p: Partial, initial: nat)
      requires events != []
      ensures NoEof(events) ==> NoEof(events[1..]) && !TurnOn(events[0], resyncing, p, initial).Stop?
    {
    }

    // What is left to come after one turn.
    static ghost function Continue(t: Turn, rest: seq<Event>, told: seq<nat>, initial: nat): Step
    {
      match t
      case Deliver(r, drops) => Step(Some(r), rest, false, told + drops)
      case Stop(drops) => Step(None, rest, false, told + drops)
      case Go(resync, q, drops) => Prepend(told + drops, NextRecord(rest, resync, q, initial))
    }

    static lemma NextAtEnd(e: Event, resyncing: bool, p: Partial, initial: nat, told: seq<nat>)
      requires e.code == EOF_CODE
      ensures TurnOn(e, resyncing, p, initial) == Stop([])
      ensures Prepend(told, NextRecord([], resyncing, p, initial)) == Continue(Stop([]), [], told, initial)
    {
    }

    // The outcome ahead is decided by the first event.
    static lemma NextUnfolds(events: seq<Event>, resyncing: bool, p: Partial, initial: nat, told: seq<nat>)
      requires events != []
      ensures var t := TurnOn(events[0], resyncing, p, initial);
              Prepend(told, NextRecord(events, resyncing, p, initial)) ==
              Continue(t, events[1..], told + EventDrops(events[0]), initial)
    {
      hide TurnOn, EventDrops;
      var seen, t := EventDrops(events[0]), TurnOn(events[0], resyncing, p, initial);
      match t {
        case Go(resync, q, drops) =>
          Associates(told, seen, drops, NextRecord(events[1..], resync, q, initial).drops);
        case Deliver(_, drops) => Associates(told, seen, drops, []);
        case Stop(drops) => Associates(told, seen, drops, []);
      }
    }

    static lemma Associates(a: seq<nat>, b: seq<nat>, c: seq<nat>, d: seq<nat>)
      ensures a + (b + c) == a + b + c
      ensures a + (b + c + d) == a + b + c + d
    {
    }

    static lemma TurnKeeps(e: Event, resyncing: bool, p: Partial, initial: nat)
      requires (p.open || p == NOTHING) && |p.scratch| + |e.payload| <= e.after
      ensures var t := TurnOn(e, resyncing, p, initial);
              t.Go? ==> (t.partial.open || t.partial == NOTHING) && |t.partial.scratch| <= e.after
    {
    }

    // A record that is handed on, or being assembled, starts above the offset.
    static lemma TurnAbove(e: Event, resyncing: bool, p: Partial, initial: nat)
      requires e.code == BAD_RECORD || e.start >= initial
      requires p.open ==> p.start >= initial
      ensures var t := TurnOn(e, resyncing, p, initial);
              && (t.Go? && t.partial.open ==> t.partial.start >= initial)
              && (t.Deliver? ==> t.record.1 >= initial)
    {
    }

    // Assembling looks at the start of a record only when there is one.
    static lemma SameTurn(e: Event, f: Event, resyncing: bool, p: Partial, initial: nat)
      requires e.code == f.code && e.payload == f.payload && e.after == f.after
      requires e.code != BAD_RECORD ==> e.start == f.start
      ensures TurnOn(e, resyncing, p, initial) == TurnOn(f, resyncing, p, initial)
    {
    }

    // One turn of the loop once a physical record is at hand: hand a logical
    // record on, stop, or go on assembling.
    method Dispatch(kind: Byte, fragment: seq<Byte>, p: Partial)
        returns (finished: bool, got: bool, record: seq<Byte>, q: Partial)
      requires |p.scratch| + |fragment| <= Position() && (p.open || p == NOTHING)
      requires kind == FULL_TYPE || kind == FIRST_TYPE ==> Position() - HEADER_SIZE - |fragment| >= 0
      modifies this`resyncing, this`lastRecordOffset, this`drops
      ensures var t := TurnOn(Seen(kind, fragment), old(resyncing), p, src.initial);
              && drops == old(drops) + t.drops
              && (!got ==> lastRecordOffset == old(lastRecordOffset))
              && match t
                 case Deliver(r, _) => finished && got && !resyncing && r == (record, lastRecordOffset)
                 case Stop(_) => finished && !got && !resyncing
                 case Go(resync, p', _) => !finished && !got && resyncing == resync && q == p'
    {
      finished, got, record, q := false, false, [], p;
      var offset := Position() - HEADER_SIZE - |fragment|;
      if resyncing {
        if kind == MIDDLE_TYPE {
          return;
        } else if kind == LAST_TYPE {
          resyncing := false;
          return;
        } else {
          resyncing := false;
        }
      }
      match kind {
        case 1 =>
          if p.open && p.scratch != [] { ReportDrop(|p.scratch|); }
          lastRecordOffset := offset;
          return true, true, fragment, p;
        case 2 =>
          if p.open && p.scratch != [] { ReportDrop(|p.scratch|); }
          q := Partial(true, fragment, offset);
        case 3 =>
          if !p.open {
            ReportDrop(|fragment|);
          } else {
            q := p.(scratch := p.scratch + fragment);
          }
        case 4 =>
          if !p.open {
            ReportDrop(|fragment|);
          } else {
            lastRecordOffset := p.start;
            return true, true, p.scratch + fragment, p;
          }
        case 5 =>
          return true, false, [], p;
        case 6 =>
          if p.open {
            ReportDrop(|p.scratch|);
            q := NOTHING;
          }
        case _ =>
          ReportDrop(|fragment| + if p.open then |p.scratch| else 0);
          q := NOTHING;
      }
    }

    // The event a physical record stands for, as far as assembling looks.
    ghost function Seen(kind: Byte, fragment: seq<Byte>): Event
      requires Position() >= 0
      reads this
    {
      var start := Position() - HEADER_SIZE - |fragment|;
      Event(kind, fragment, if start >= 0 then start else 0, Position(), 0)
    }

    // File offset of the next byte to parse.
    function Position(): int
      reads this
    {
      endOfBufferOffset - |buffer|
    }

    static ghost function Prepend(told: seq<nat>, s: Step): Step
    {
      s.(drops := told + s.drops)
    }

    lemma RemainingAboveInitial()
      requires Valid()
      ensures AboveInitial(Remaining(), src.initial)
    {
      if !Spent(buffer, eof) {
        ScanAboveInitial(src, if |buffer| < HEADER_SIZE then filePos else filePos - |buffer|);
      }
    }

    static lemma AboveInitialTail(events: seq<Event>, initial: nat)
      requires AboveInitial(events, initial) && events != []
      ensures events[0].code == BAD_RECORD || events[0].start >= initial
      ensures AboveInitial(events[1..], initial)
    {
    }

    // ---- physical records -------------------------------------------------

    method ReadPhysicalRecord() returns (code: Byte, fragment: seq<Byte>)
      requires Valid()
      modifies this`filePos, this`buffer, this`eof, this`endOfBufferOffset, this`drops
      ensures Valid() && Answers(old(Remaining()), code, fragment)
      ensures Remaining() == if old(Remaining()) == [] then [] else old(Remaining())[1..]
      ensures drops == old(drops) + if old(Remaining()) == [] then [] else EventDrops(old(Remaining())[0])
      ensures old(Remaining()) == [] ==> AtEnd()
      ensures Position() >= old(Position()) + |fragment|
    {
      hide Source.Scan, BlockEnd, Consistent, EventsLeft, Source.EventAt;
      while |buffer| < HEADER_SIZE
        invariant Valid() && Remaining() == old(Remaining()) && drops == old(drops)
        invariant Position() >= old(Position())
        decreases !eof, HEADER_SIZE - |buffer|
      {
        if !eof {
          ReadBlock();
        } else {
          LeftWhenSpent(src, filePos, buffer, eof, endOfBufferOffset);
          buffer := [];
          return EOF_CODE, [];
        }
      }
      code, fragment := ParseRecord();
    }

    // The answer is the first event, or end of file when there is none.
    ghost predicate Answers(events: seq<Event>, code: Byte, fragment: seq<Byte>)
      reads this
    {
      if events == [] then code == EOF_CODE && fragment == []
      else
        var e := events[0];
        && code == e.code && fragment == e.payload && Position() == e.after
        && (code != BAD_RECORD ==> e.start + HEADER_SIZE + |fragment| == e.after)
    }

    static lemma LeftWhenSpent(src: Source, filePos: nat, buffer: seq<Byte>, eof: bool, end: nat)
      requires Consistent(src, filePos, buffer, eof, end) && Spent(buffer, eof)
      ensures Consistent(src, filePos, [], eof, end)
      ensures EventsLeft(src, filePos, buffer, eof, end) == []
      ensures EventsLeft(src, filePos, [], eof, end) == []
    {
    }

    // Parses the record at the front of a buffer that holds a header.
    method ParseRecord() returns (code: Byte, fragment: seq<Byte>)
      requires Valid() && |buffer| >= HEADER_SIZE
      modifies this`buffer, this`drops
      ensures Valid() && Answers(old(Remaining()), code, fragment)
      ensures Remaining() == if old(Remaining()) == [] then [] else old(Remaining())[1..]
      ensures drops == old(drops) + if old(Remaining()) == [] then [] else EventDrops(old(Remaining())[0])
      ensures old(Remaining()) == [] ==> AtEnd()
      ensures Position() >= old(Position()) + |fragment|
    {
      hide Source.Scan, BlockEnd;
      ghost var pos := filePos - |buffer|;
      ScanUnfolds(src, pos);
      var a: int, b: int := buffer[4], buffer[5];
      var kind := buffer[6];
      var length := a + 256 * b;
      if HEADER_SIZE + length > |buffer| {
        var dropSize := |buffer|;
        ClearBuffer();
        if !eof {
          ReportDrop(dropSize);
          return BAD_RECORD, [];
        }
        return EOF_CODE, [];
      }
      if kind == ZERO_TYPE && length == 0 {
        ClearBuffer();
        return BAD_RECORD, [];
      }
      if src.checksum {
        if buffer[..4] != src.fmt.crc(buffer[6..HEADER_SIZE + length]) {
          var dropSize := |buffer|;
          ClearBuffer();
          ReportDrop(dropSize);
          return BAD_RECORD, [];
        }
      }
      fragment := buffer[HEADER_SIZE..HEADER_SIZE + length];
      RemovePrefix(HEADER_SIZE + length);
      if endOfBufferOffset - |buffer| - HEADER_SIZE - length < src.initial {
        return BAD_RECORD, [];
      }
      return kind, fragment;
    }

    static lemma ScanUnfolds(src: Source, pos: nat)
      requires src.Ok() && pos <= |src.file| && src.BufferEnd(pos) - pos >= HEADER_SIZE
      ensures src.Scan(pos) == match src.EventAt(pos) case None => [] case Some(e) => [e] + src.Scan(e.after)
    {
    }

    // Gives up the rest of the block.
    method ClearBuffer()
      requires Valid() && |buffer| >= HEADER_SIZE
      modifies this`buffer
      ensures Valid() && buffer == []
      ensures Remaining() == src.Scan(filePos)
    {
      hide BlockEnd, Source.Scan, Source.EventAt;
      ScanResumes(src, filePos - |buffer|, filePos);
      BlockEndAligned(src.fmt.block, filePos - |buffer|);
      buffer := [];
    }

    method RemovePrefix(n: nat)
      requires Valid() && HEADER_SIZE <= n <= |buffer|
      modifies this`buffer
      ensures Valid() && |buffer| == old(|buffer|) - n
      ensures Remaining() == src.Scan(filePos - |buffer|)
    {
      hide BlockEnd, Source.Scan, Source.EventAt;
      ghost var pos := filePos - |buffer|;
      ScanResumes(src, pos, pos + n);
      BlockEndAligned(src.fmt.block, pos);
      buffer := buffer[n..];
    }

    // Reads the next block; a short one is the last.
    method ReadBlock()
      requires Valid() && |buffer| < HEADER_SIZE && !eof
      modifies this`filePos, this`buffer, this`eof, this`endOfBufferOffset
      ensures Valid() && Remaining() == old(Remaining())
      ensures eof || |buffer| >= HEADER_SIZE
      ensures Position() >= old(Position())
    {
      hide BlockEnd, Source.EventAt;
      if buffer != [] { BlockEndAligned(src.fmt.block, filePos - |buffer|); }
      if filePos <= |src.file| {
        var end := Min(filePos + src.fmt.block, |src.file|);
        buffer := src.file[filePos..end];
        filePos := end;
      } else {
        buffer := [];
      }
      endOfBufferOffset := endOfBufferOffset + |buffer|;
      if |buffer| < src.fmt.block { eof := true; }
    }
  }
}
