// A write that fails half-way leaves a tear in a log file (db/log_writer.cc):
// the writer goes on as if the bytes were there. What was written before it
// comes back; what is written after it may not, though it was reported as OK,
// and what comes back in its place may be something nobody wrote.
module LogTears {
  import opened Bytes
  import opened LogFormat
  import opened LogEvents
  import opened LogTheorems
  import opened LogDamage
  import opened LogWriter
  import opened LogReader
  import opened LogRecovery

  // The header of a record in one piece, and what follows it there.
  function Header(fmt: Format, a: seq<Byte>): seq<Byte>
    requires |a| <= 0xffff
  {
    fmt.crc([FULL_TYPE] + a) + [|a| % 256, |a| / 256, FULL_TYPE]
  }

  // A header whose payload never came, and the next record right behind it.
  function Torn(fmt: Format, log: seq<Byte>, a: seq<Byte>, b: seq<Byte>): seq<Byte>
    requires |a| <= 0xffff && |b| <= 0xffff
  {
    log + (Header(fmt, a) + Physical(fmt, FULL_TYPE, b))
  }

  // The checksum of the lost payload does not happen to fit what stands there.
  ghost predicate NoCollision(fmt: Format, a: seq<Byte>, b: seq<Byte>)
    requires |b| <= 0xffff
  {
    |a| <= |Physical(fmt, FULL_TYPE, b)| ==>
      fmt.crc([FULL_TYPE] + a) != fmt.crc([FULL_TYPE] + Physical(fmt, FULL_TYPE, b)[..|a|])
  }

  // All this lies in one block.
  predicate OneBlock(fmt: Format, log: seq<Byte>, a: seq<Byte>, b: seq<Byte>)
    requires fmt.block > HEADER_SIZE
  {
    a != [] && |log| + 2 * HEADER_SIZE + |a| + |b| <= BlockEnd(fmt.block, |log|)
  }

  lemma Lengths(fmt: Format, log: seq<Byte>, a: seq<Byte>, b: seq<Byte>)
    requires fmt.Ok() && |a| <= 0xffff && |b| <= 0xffff
    ensures |Header(fmt, a)| == HEADER_SIZE && |Physical(fmt, FULL_TYPE, b)| == HEADER_SIZE + |b|
    ensures Physical(fmt, FULL_TYPE, a) == Header(fmt, a) + a
    ensures Torn(fmt, log, a, b)[|log|..] == Header(fmt, a) + Physical(fmt, FULL_TYPE, b)
  {
  }

  // What a reader makes of the bytes behind the tear.
  lemma ParsesToNothing(src: Source, a: seq<Byte>, b: seq<Byte>, pos: nat)
    requires src.Ok() && src.checksum && src.initial == 0 && |a| <= 0xffff && |b| <= 0xffff && NoCollision(src.fmt, a, b)
    ensures var buffer := Header(src.fmt, a) + Physical(src.fmt, FULL_TYPE, b);
            && |buffer| >= HEADER_SIZE
            && var e := src.Parse(buffer, pos, true);
               e.Some? ==> e.value.code == BAD_RECORD && e.value.after == pos + |buffer|
  {
    hide Physical;
    var fmt, header, rest := src.fmt, Header(src.fmt, a), Physical(src.fmt, FULL_TYPE, b);
    Lengths(fmt, [], a, b);
    var buffer := header + rest;
    assert header[..4] == fmt.crc([FULL_TYPE] + a) && buffer[..4] == header[..4];
    assert buffer[4] == |a| % 256 && buffer[5] == |a| / 256 && buffer[6] == FULL_TYPE;
    if |a| <= |rest| {
      assert buffer[6..HEADER_SIZE + |a|] == [FULL_TYPE] + rest[..|a|];
    }
  }

  lemma EndsThere(src: Source, pos: nat)
    requires src.Ok() && pos < |src.file| < BlockEnd(src.fmt.block, pos)
    ensures src.BufferEnd(pos) == |src.file| && src.AtEof(pos) && src.Scan(|src.file|) == []
  {
    hide BlockEnd;
    BlockStarts(src.fmt.block, pos);
    SameAfter(src.fmt.block, pos, |src.file|);
  }

  lemma SameAfter(block: nat, pos: nat, p: nat)
    requires block > HEADER_SIZE && pos <= p < BlockEnd(block, pos)
    ensures BlockEnd(block, p) == BlockEnd(block, pos)
  {
    SameBlock(block, pos, p);
  }

  lemma NothingBehind(fmt: Format, log: seq<Byte>, a: seq<Byte>, b: seq<Byte>)
    requires fmt.Ok() && OneBlock(fmt, log, a, b) && |a| <= 0xffff && |b| <= 0xffff && NoCollision(fmt, a, b)
    ensures var src := Source(fmt, Torn(fmt, log, a, b), true, 0);
            ReadAll(src.Scan(|log|), false, 0).0 == []
  {
    hide BlockEnd, Physical, Header, NoCollision, NextRecord, Source.Parse, Source.BufferEnd, Source.AtEof;
    var src, pos := Source(fmt, Torn(fmt, log, a, b), true, 0), |log|;
    Lengths(fmt, log, a, b);
    assert |src.file| == |log| + 2 * HEADER_SIZE + |b|;
    EndsThere(src, pos);
    assert src.file[pos..|src.file|] == src.file[pos..];
    ParsesToNothing(src, a, b, pos);
    var e := src.EventAt(pos);
    assert src.Scan(pos) == if e.None? then [] else [e.value];
    if e.Some? { BadAlone(e.value); } else { NothingLeft(false, NOTHING, 0); }
  }

  lemma BadAlone(e: Event)
    requires e.code == BAD_RECORD
    ensures ReadAll([e], false, 0).0 == []
  {
    assert [e][1..] == [];
    NothingLeft(false, NOTHING, 0);
  }

  // A torn append followed by a good one loses the good one: only the records
  // from before the tear are found.
  lemma NextRecordIsLost(fmt: Format, records: seq<seq<Byte>>, log: seq<Byte>, a: seq<Byte>, b: seq<Byte>)
    requires fmt.Ok() && IsLog(fmt, records, log) && OneBlock(fmt, log, a, b) && |a| <= 0xffff && |b| <= 0xffff
    requires NoCollision(fmt, a, b)
    ensures var found := ReadAll(Source(fmt, Torn(fmt, log, a, b), true, 0).Scan(0), false, 0).0;
            |found| == |records| && forall i | 0 <= i < |records| :: found[i].0 == records[i]
  {
    hide ReadAll, Source.Scan, IsLog, NoCollision, Physical, Header, OneBlock;
    RecordsComeFirst(fmt, records, log, Header(fmt, a) + Physical(fmt, FULL_TYPE, b), true);
    NothingBehind(fmt, log, a, b);
  }

  // The same with the writer and the reader at work: the payload of the first
  // record fails, the second AddRecord reports OK, and the log reads as empty.
  method OkIsNoPromise(fmt: Format, a: seq<Byte>, b: seq<Byte>) returns (first: bool, second: bool, found: seq<Record>)
    requires fmt.Ok() && OneBlock(fmt, [], a, b) && NoCollision(fmt, a, b)
    ensures !first && second && found == []
  {
    hide NoCollision, OneBlock, Reader.Consistent, Reader.EventsLeft;
    var file;
    first, second, file := TwoWrites(fmt, a, b);
    var reader := new Reader(Source(fmt, file, true, 0));
    NextRecordIsLost(fmt, [], [], a, b) by { EmptyIsLog(fmt); }
    found := ReadToEnd(reader);
  }

  lemma EmptyIsLog(fmt: Format)
    requires fmt.Ok()
    ensures IsLog(fmt, [], [])
  {
  }

  // The payload of the first record does not reach the file.
  method TwoWrites(fmt: Format, a: seq<Byte>, b: seq<Byte>) returns (first: bool, second: bool, file: seq<Byte>)
    requires fmt.Ok() && OneBlock(fmt, [], a, b)
    ensures |a| <= 0xffff && |b| <= 0xffff
    ensures !first && second && file == Torn(fmt, [], a, b)
  {
    hide IsLog, Landed, Whole, Physical, Header, OneBlock, LogWriter.Writer.OffsetOk, Begun, Payloads, Written;
    FitsBlock(fmt, a, b);
    Lengths(fmt, [], a, b);
    var fate := (k: nat) => if k == 1 then Some(0) else None;
    var w := new Writer(fmt, fate);
    ghost var parts;
    first, parts := w.AddRecord(a);
    assert a[..|a|] == a && b[..|b|] == b;
    assert fate(1).Some?;
    assert w.dest == Header(fmt, a);
    second, parts := w.AddRecord(b);
    file := w.dest;
    assert file == Header(fmt, a) + Physical(fmt, FULL_TYPE, b);
  }

  lemma FitsBlock(fmt: Format, a: seq<Byte>, b: seq<Byte>)
    requires fmt.Ok() && OneBlock(fmt, [], a, b)
    ensures 2 * HEADER_SIZE + |a| + |b| <= fmt.block && |a| > 0
  {
  }

  // ---- a record nobody wrote ---------------------------------------------------

  // The checksum tells a reader of the lost payload, and it gives up the block.
  // The next one begins inside the payload of x, with bytes that are themselves a
  // physical record: four bytes into x stands the code of c.
  predicate Shifted(fmt: Format, a: seq<Byte>, b: seq<Byte>, x: seq<Byte>, c: seq<Byte>)
  {
    fmt.block == 32 && |a| == 11 && |b| == 7 && |x| == 12 && |c| == 1 && x[4..] == Physical(fmt, FULL_TYPE, c)
  }

  function ShiftedFile(fmt: Format, a: seq<Byte>, b: seq<Byte>, x: seq<Byte>): seq<Byte>
    requires |a| <= 0xffff && |b| <= 0xffff && |x| <= 0xffff
  {
    Header(fmt, a) + Physical(fmt, FULL_TYPE, b) + Physical(fmt, FULL_TYPE, x)
  }

  lemma LostIsDetected(fmt: Format, a: seq<Byte>, b: seq<Byte>, x: seq<Byte>, c: seq<Byte>)
    requires fmt.Ok() && Shifted(fmt, a, b, x, c) && NoCollision(fmt, a, b)
    ensures |ShiftedFile(fmt, a, b, x)| == 40 && BlockEnd(32, 0) == 32 && Detectable(Source(fmt, ShiftedFile(fmt, a, b, x), true, 0), 0)
  {
    hide Physical, Header;
    var file, rest := ShiftedFile(fmt, a, b, x), Physical(fmt, FULL_TYPE, b);
    Lengths(fmt, [], a, b);
    Lengths(fmt, [], a, x);
    HeaderBytes(fmt, a);
    assert file[..4] == Header(fmt, a)[..4] && file[4] == 11 && file[5] == 0;
    assert file[6..18] == [FULL_TYPE] + rest[..11];
  }

  lemma HeaderBytes(fmt: Format, a: seq<Byte>)
    requires fmt.Ok() && |a| <= 255
    ensures var h := Header(fmt, a); h[..4] == fmt.crc([FULL_TYPE] + a) && h[4] == |a| && h[5] == 0 && h[6] == FULL_TYPE
  {
  }

  lemma InsideIsHeld(fmt: Format, a: seq<Byte>, b: seq<Byte>, x: seq<Byte>, c: seq<Byte>)
    requires fmt.Ok() && Shifted(fmt, a, b, x, c)
    ensures |ShiftedFile(fmt, a, b, x)| == 40 && Holds(fmt, ShiftedFile(fmt, a, b, x), Fragment(32, FULL_TYPE, c))
  {
    hide Physical, Header;
    var file, code := ShiftedFile(fmt, a, b, x), Physical(fmt, FULL_TYPE, c);
    Lengths(fmt, [], a, b);
    Lengths(fmt, [], x, c);
    assert file == Header(fmt, a) + Physical(fmt, FULL_TYPE, b) + Header(fmt, x) + x[..4] + x[4..];
    forall i | 0 <= i < |code| ensures file[32 + i] == code[i] {
    }
  }

  lemma SkipsToInside(fmt: Format, a: seq<Byte>, b: seq<Byte>, x: seq<Byte>, c: seq<Byte>)
    requires fmt.Ok() && Shifted(fmt, a, b, x, c) && NoCollision(fmt, a, b)
    ensures ReadAll(Source(fmt, ShiftedFile(fmt, a, b, x), true, 0).Scan(0), false, 0).0 == [(c, 32)]
  {
    hide ShiftedFile, NoCollision, Physical, Detectable, Holds, NextRecord, Source.Scan;
    LostIsDetected(fmt, a, b, x, c);
    InsideIsHeld(fmt, a, b, x, c);
    var src, f := Source(fmt, ShiftedFile(fmt, a, b, x), true, 0), Fragment(32, FULL_TYPE, c);
    BlockEndAligned(32, 0);
    var damage := AtDamage(src, 0);
    ScanAtHeader(src, f);
    EndOfFile(src);
    assert src.Scan(0) == damage + [EventOf(f, 0)];
    AfterDamage(damage, EventOf(f, 0));
  }

  lemma AfterDamage(damage: seq<Event>, e: Event)
    requires DamageEvents(damage) && e.code == FULL_TYPE
    ensures ReadAll(damage + [e], false, 0).0 == [(e.payload, e.start)]
  {
    if damage == [] {
      assert damage + [e] == [e];
    } else {
      ForgetPartial(damage, [e], NOTHING, 0);
    }
    assert [e][1..] == [];
    NothingLeft(false, NOTHING, 0);
  }

  // The same writer and reader at work: one record lost, two reported as OK, and
  // what is read is none of the three.
  method ReadsWhatNobodyWrote(fmt: Format, a: seq<Byte>, b: seq<Byte>, x: seq<Byte>, c: seq<Byte>)
      returns (statuses: seq<bool>, found: seq<Record>)
    requires fmt.Ok() && Shifted(fmt, a, b, x, c) && NoCollision(fmt, a, b)
    ensures statuses == [false, true, true] && found == [(c, 32)] && c !in [a, b, x]
  {
    hide NoCollision, Shifted, ShiftedFile, Reader.Consistent, Reader.EventsLeft;
    var file;
    statuses, file := ThreeWrites(fmt, a, b, x, c);
    var reader := new Reader(Source(fmt, file, true, 0));
    SkipsToInside(fmt, a, b, x, c);
    NoneOfThese(fmt, a, b, x, c);
    found := ReadToEnd(reader);
  }

  lemma NoneOfThese(fmt: Format, a: seq<Byte>, b: seq<Byte>, x: seq<Byte>, c: seq<Byte>)
    requires Shifted(fmt, a, b, x, c)
    ensures c !in [a, b, x]
  {
  }

  method ThreeWrites(fmt: Format, a: seq<Byte>, b: seq<Byte>, x: seq<Byte>, ghost c: seq<Byte>) returns (statuses: seq<bool>, file: seq<Byte>)
    requires fmt.Ok() && Shifted(fmt, a, b, x, c)
    ensures |a| <= 0xffff && |b| <= 0xffff && |x| <= 0xffff
    ensures statuses == [false, true, true] && file == ShiftedFile(fmt, a, b, x)
  {
    hide IsLog, Landed, Whole, Physical, Header, LogWriter.Writer.OffsetOk, Begun, Payloads, Written;
    Lengths(fmt, [], a, b);
    Lengths(fmt, [], a, x);
    var fate := (k: nat) => if k == 1 then Some(0) else None;
    var w := new Writer(fmt, fate);
    ghost var parts;
    var first, second, third;
    first, parts := w.AddRecord(a);
    assert a[..|a|] == a && b[..|b|] == b && x[..|x|] == x;
    assert fate(1).Some?;
    assert w.dest == Header(fmt, a);
    second, parts := w.AddRecord(b);
    assert w.dest == Header(fmt, a) + Physical(fmt, FULL_TYPE, b);
    third, parts := w.AddRecord(x);
    statuses, file := [first, second, third], w.dest;
  }
}
