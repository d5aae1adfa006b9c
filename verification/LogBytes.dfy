// The bytes of a log file, spelled out as doc/log_format.md does: what the
// writer puts there, and what the reader takes from there.
module LogBytes {
  import opened Bytes
  import opened LogFormat
  import opened LogEvents
  import opened LogTheorems
  import opened LogDamage
  import opened LogWriter
  import opened LogReader
  import opened LogRecovery

  // A stretch of a record and the offset of its header.
  datatype Piece = Piece(at: nat, data: seq<Byte>)

  // Four bytes of checksum over type and data, two bytes of length, low byte
  // first, the type, the data.
  ghost predicate Spelled(fmt: Format, file: seq<Byte>, p: Piece, kind: Byte)
  {
    && p.at + 7 + |p.data| <= |file|
    && file[p.at..p.at + 4] == fmt.crc([kind] + p.data)
    && (var low: int, high: int := file[p.at + 4], file[p.at + 5]; low + 256 * high == |p.data|)
    && file[p.at + 6] == kind
    && file[p.at + 7..p.at + 7 + |p.data|] == p.data
  }

  // Type 1 for a record in one piece, else 2 for the first, 4 for the last and 3
  // for those between.
  function TypeByte(i: nat, n: nat): Byte
  {
    if n == 1 then 1 else if i == 0 then 2 else if i == n - 1 then 4 else 3
  }

  function Joined(pieces: seq<Piece>): seq<Byte>
  {
    if pieces == [] then [] else pieces[0].data + Joined(pieces[1..])
  }

  // No header in the last six bytes of a block.
  function NextHeader(block: nat, from: nat): nat
    requires block > 7
  {
    if block - from % block < 7 then from + (block - from % block) else from
  }

  // A record from here on: its pieces in order, none across a block's end, all
  // but the last up to it, the next one right behind.
  ghost predicate RecordAt(fmt: Format, file: seq<Byte>, from: nat, data: seq<Byte>, pieces: seq<Piece>)
    requires fmt.block > 7
  {
    && pieces != [] && Joined(pieces) == data
    && pieces[0].at == NextHeader(fmt.block, from)
    && (forall i | 0 <= i < |pieces| :: Spelled(fmt, file, pieces[i], TypeByte(i, |pieces|)) && Placed(fmt.block, pieces, i))
  }

  predicate Placed(block: nat, pieces: seq<Piece>, i: nat)
    requires block > 7 && i < |pieces|
  {
    var end := pieces[i].at + 7 + |pieces[i].data|;
    && pieces[i].at % block + 7 + |pieces[i].data| <= block
    && (i < |pieces| - 1 ==> pieces[i].at % block + 7 + |pieces[i].data| == block && pieces[i + 1].at == end)
  }

  function PiecesEnd(pieces: seq<Piece>): nat
    requires pieces != []
  {
    pieces[|pieces| - 1].at + 7 + |pieces[|pieces| - 1].data|
  }

  // ---- pieces and fragments -----------------------------------------------------

  function FragsOf(pieces: seq<Piece>, i: nat, n: nat): (frags: seq<Fragment>)
    ensures |frags| == |pieces|
  {
    if pieces == [] then []
    else [Fragment(pieces[0].at, TypeByte(i, n), pieces[0].data)] + FragsOf(pieces[1..], i + 1, n)
  }

  lemma SpelledIsWritten(fmt: Format, file: seq<Byte>, p: Piece, kind: Byte)
    requires fmt.Ok() && Spelled(fmt, file, p, kind)
    ensures Written(fmt, file, Fragment(p.at, kind, p.data))
  {
    var code := Physical(fmt, kind, p.data);
    var low: int, high: int := file[p.at + 4], file[p.at + 5];
    assert |p.data| % 256 == low && |p.data| / 256 == high;
    forall i | 0 <= i < |code| ensures file[p.at + i] == code[i] {
      if i < 4 {
        assert file[p.at + i] == file[p.at..p.at + 4][i];
      } else if i >= 7 {
        assert file[p.at + i] == file[p.at + 7..p.at + 7 + |p.data|][i - 7];
      }
    }
  }

  lemma WrittenIsSpelled(fmt: Format, file: seq<Byte>, f: Fragment)
    requires fmt.Ok() && Written(fmt, file, f)
    ensures Spelled(fmt, file, Piece(f.start, f.payload), f.kind)
  {
    var code := Physical(fmt, f.kind, f.payload);
    assert file[f.start..f.start + |code|] == code;
    assert file[f.start..f.start + 4] == code[..4];
    assert file[f.start + 4] == code[4] && file[f.start + 5] == code[5] && file[f.start + 6] == code[6];
    assert file[f.start + 7..f.start + |code|] == code[7..];
  }

  // ---- what the writer writes --------------------------------------------------------

  function PiecesOf(frags: seq<Fragment>): (pieces: seq<Piece>)
    ensures |pieces| == |frags|
    ensures forall i | 0 <= i < |frags| :: pieces[i] == Piece(frags[i].start, frags[i].payload)
  {
    seq(|frags|, i requires 0 <= i < |frags| => Piece(frags[i].start, frags[i].payload))
  }

  lemma {:induction false} SameBytes(frags: seq<Fragment>)
    ensures Joined(PiecesOf(frags)) == Payloads(frags)
  {
    if frags != [] {
      SameBytes(frags[1..]);
      assert PiecesOf(frags)[1..] == PiecesOf(frags[1..]);
    }
  }

  lemma {:induction false} KindAt(frags: seq<Fragment>, begin: bool, i: nat)
    requires WholeRecord(frags, begin) && i < |frags|
    ensures frags[i].kind == if begin then TypeByte(i, |frags|) else TypeByte(i + 1, |frags| + 1)
    decreases |frags|
  {
    if i > 0 {
      KindAt(frags[1..], false, i - 1);
    }
  }

  // Where the fragments of a record lie.
  lemma {:induction false} CutPlaces(block: nat, pos: nat, data: seq<Byte>, begin: bool, i: nat)
    requires block > HEADER_SIZE && i < |Cut(block, pos, data, begin)|
    ensures var frags := Cut(block, pos, data, begin);
            && frags[0].start == NextHeader(block, pos)
            && frags[i].start % block + 7 + |frags[i].payload| <= block
            && (i < |frags| - 1 ==> frags[i].start % block + 7 + |frags[i].payload| == block && frags[i + 1].start == frags[i].End())
    decreases |data|, BlockRoom(block, pos) == 0
  {
    var frags := Cut(block, pos, data, begin);
    var n := Min(|data|, BlockRoom(block, pos));
    PlaceIsNext(block, pos);
    if n != |data| {
      NextBlockHasRoom(block, pos);
      var rest := Cut(block, frags[0].End(), data[n..], false);
      assert frags == [frags[0]] + rest;
      FirstOfRest(block, frags[0].End(), data[n..]);
      if i > 0 { CutPlaces(block, frags[0].End(), data[n..], false, i - 1); }
    }
  }

  lemma FirstOfRest(block: nat, pos: nat, data: seq<Byte>)
    requires block > HEADER_SIZE && Place(block, pos) == pos
    ensures Cut(block, pos, data, false)[0].start == pos
  {
  }

  lemma PlaceIsNext(block: nat, pos: nat)
    requires block > HEADER_SIZE
    ensures Place(block, pos) == NextHeader(block, pos) && BlockRoom(block, pos) == block - 7 - NextHeader(block, pos) % block
  {
    BlockEndAligned(block, pos);
  }

  // A record that was written whole is spelled out in the file, behind zeros up
  // to its first header.
  lemma WholeIsSpelled(fmt: Format, before: seq<Byte>, data: seq<Byte>, after: seq<Byte>) returns (pieces: seq<Piece>)
    requires fmt.Ok() && Landed(fmt, before, data, after) && Whole(fmt, before, data, after)
    ensures RecordAt(fmt, after, |before|, data, pieces) && PiecesEnd(pieces) == |after|
    ensures forall i | |before| <= i < pieces[0].at :: after[i] == 0
  {
    hide Covered, Cut, Spelled, Placed, Payloads, Joined, NextHeader, WholeRecord, Chain, HoldsAll, TypeByte;
    var frags := Cut(fmt.block, |before|, data, true);
    CutIsRecord(fmt, |before|, data, true);
    pieces := PiecesOf(frags);
    SameBytes(frags);
    forall i | 0 <= i < |frags| ensures Spelled(fmt, after, pieces[i], TypeByte(i, |pieces|)) && Placed(fmt.block, pieces, i) {
      PieceAt(fmt, before, data, after, i);
    }
    CutPlaces(fmt.block, |before|, data, true, 0);
    ZerosBefore(fmt, before, data, after);
  }

  lemma ZerosBefore(fmt: Format, before: seq<Byte>, data: seq<Byte>, after: seq<Byte>)
    requires fmt.Ok() && Landed(fmt, before, data, after) && Whole(fmt, before, data, after)
    ensures var first := Cut(fmt.block, |before|, data, true)[0].start;
            first <= |after| && forall i | |before| <= i < first :: after[i] == 0
  {
    hide Covered, Cut, Payloads, Holds, WholeRecord, Place, BlockEnd;
    var frags := Cut(fmt.block, |before|, data, true);
    CutIsRecord(fmt, |before|, data, true);
    ChainAscends(fmt, |before|, frags);
    assert frags[0] in frags;
    forall i | |before| <= i < frags[0].start ensures after[i] == 0 {
      NotCovered(fmt, |before|, frags, i);
    }
  }

  lemma PieceAt(fmt: Format, before: seq<Byte>, data: seq<Byte>, after: seq<Byte>, i: nat)
    requires fmt.Ok() && Landed(fmt, before, data, after) && Whole(fmt, before, data, after)
    requires i < |Cut(fmt.block, |before|, data, true)|
    ensures var pieces := PiecesOf(Cut(fmt.block, |before|, data, true));
            Spelled(fmt, after, pieces[i], TypeByte(i, |pieces|)) && Placed(fmt.block, pieces, i)
  {
    hide Covered, Cut, Spelled, Payloads, Holds, Chain, WholeRecord, Place, BlockEnd;
    var frags := Cut(fmt.block, |before|, data, true);
    CutIsRecord(fmt, |before|, data, true);
    ChainAscends(fmt, |before|, frags);
    assert frags[i] in frags;
    KindAt(frags, true, i);
    WrittenIsSpelled(fmt, after, frags[i]);
    CutPlaces(fmt.block, |before|, data, true, i);
  }

  lemma NotCovered(fmt: Format, pos: nat, frags: seq<Fragment>, i: nat)
    requires fmt.Ok() && Chain(fmt, pos, frags) && frags != [] && i < frags[0].start
    ensures !Covered(frags, i)
  {
    hide Place, BlockEnd;
    ChainAscends(fmt, frags[0].End(), frags[1..]);
    assert frags == [frags[0]] + frags[1..];
  }

  // AddRecord on a file whose calls are fine up to its first header, from an
  // aligned offset: OK means that the record is there, byte for byte.
  method AddSpelled(w: Writer, data: seq<Byte>) returns (ok: bool, ghost pieces: seq<Piece>)
    requires w.Valid()
    modifies w
    ensures w.Valid() && old(w.dest) <= w.dest
    ensures ok && old(w.Aligned()) && w.Fine(old(w.calls), w.FirstEmit(old(w.calls), old(w.blockOffset))) ==>
              && RecordAt(w.fmt, w.dest, |old(w.dest)|, data, pieces) && PiecesEnd(pieces) == |w.dest| && w.Aligned()
              && forall i | |old(w.dest)| <= i < pieces[0].at :: w.dest[i] == 0
    ensures w.Fine(old(w.calls), w.calls) ==> ok
  {
    hide Landed, Whole, RecordAt, Begun, Payloads, Written, LogWriter.Writer.OffsetOk;
    ghost var before, sound := w.dest, w.Aligned() && w.Fine(w.calls, w.FirstEmit(w.calls, w.blockOffset));
    ghost var parts;
    ok, parts := w.AddRecord(data);
    pieces := [];
    if ok && sound { pieces := WholeIsSpelled(w.fmt, before, data, w.dest); }
  }

  // ---- what the reader reads -------------------------------------------------------------

  // The records one after the other, to the end of the file.
  ghost predicate SpelledLog(fmt: Format, file: seq<Byte>, from: nat, records: seq<seq<Byte>>)
    requires fmt.block > 7
    decreases |records|
  {
    if records == [] then from == |file|
    else exists pieces: seq<Piece> :: pieces != [] && RecordAt(fmt, file, from, records[0], pieces) && SpelledLog(fmt, file, PiecesEnd(pieces), records[1..])
  }

  // Pieces i and on, of n.
  ghost predicate SpelledFrom(fmt: Format, file: seq<Byte>, pieces: seq<Piece>, i: nat, n: nat)
    requires fmt.block > 7
    decreases |pieces|
  {
    pieces != [] ==>
      && Spelled(fmt, file, pieces[0], TypeByte(i, n)) && Placed(fmt.block, pieces, 0)
      && SpelledFrom(fmt, file, pieces[1..], i + 1, n)
  }

  lemma {:induction false} AllFrom(fmt: Format, file: seq<Byte>, all: seq<Piece>, i: nat)
    requires fmt.block > 7 && i <= |all|
    requires forall k | 0 <= k < |all| :: Spelled(fmt, file, all[k], TypeByte(k, |all|)) && Placed(fmt.block, all, k)
    ensures SpelledFrom(fmt, file, all[i..], i, |all|)
    decreases |all| - i
  {
    hide Spelled, TypeByte;
    if i < |all| {
      AllFrom(fmt, file, all, i + 1);
      assert all[i..][0] == all[i] && all[i..][1..] == all[i + 1..];
      assert Spelled(fmt, file, all[i], TypeByte(i, |all|)) && Placed(fmt.block, all, i);
      assert i + 1 < |all| ==> all[i..][1] == all[i + 1];
    }
  }

  lemma {:induction false} PiecesAreChain(fmt: Format, file: seq<Byte>, from: nat, pieces: seq<Piece>, i: nat, n: nat)
    requires fmt.Ok() && pieces != [] && i + |pieces| == n && pieces[0].at == Place(fmt.block, from)
    requires SpelledFrom(fmt, file, pieces, i, n)
    ensures var frags := FragsOf(pieces, i, n);
            && Chain(fmt, from, frags) && WholeRecord(frags, i == 0) && Payloads(frags) == Joined(pieces)
            && HoldsAll(fmt, file, frags) && EndOf(from, frags) == PiecesEnd(pieces) <= |file|
    decreases |pieces|
  {
    hide Place, BlockEnd, Holds, Spelled, Physical, Placed, TypeByte, KindOf, SpelledFrom;
    FirstPiece(fmt, file, pieces, i, n);
    var f := Fragment(pieces[0].at, TypeByte(i, n), pieces[0].data);
    if |pieces| > 1 {
      PiecesAreChain(fmt, file, f.End(), pieces[1..], i + 1, n);
      var rest := FragsOf(pieces[1..], i + 1, n);
      assert FragsOf(pieces, i, n)[1..] == rest;
    } else {
      assert pieces[1..] == [] && FragsOf(pieces, i, n) == [f];
    }
  }

  lemma FirstPiece(fmt: Format, file: seq<Byte>, pieces: seq<Piece>, i: nat, n: nat)
    requires fmt.Ok() && pieces != [] && i + |pieces| == n && SpelledFrom(fmt, file, pieces, i, n)
    ensures var f := Fragment(pieces[0].at, TypeByte(i, n), pieces[0].data);
            && Written(fmt, file, f) && f.End() <= BlockEnd(fmt.block, f.start)
            && FULL_TYPE <= f.kind <= LAST_TYPE && f.kind == KindOf(i == 0, |pieces| == 1)
            && (|pieces| > 1 ==> pieces[1].at == f.End() == Place(fmt.block, f.End()) && SpelledFrom(fmt, file, pieces[1..], i + 1, n))
  {
    hide Place, BlockEnd, Holds, Spelled;
    var p := pieces[0];
    SpelledIsWritten(fmt, file, p, TypeByte(i, n));
    InItsBlock(fmt.block, p.at, 7 + |p.data|);
    if |pieces| > 1 { BlockIsFull(fmt.block, p.at, p.at + 7 + |p.data|); }
  }

  lemma InItsBlock(block: nat, at: nat, n: nat)
    requires block > 7 && at % block + n <= block
    ensures at + n <= BlockEnd(block, at)
  {
  }

  lemma BlockIsFull(block: nat, at: nat, end: nat)
    requires block > 7 && at % block + (end - at) == block && at <= end
    ensures Place(block, end) == end
  {
    BlockEndAligned(block, at);
  }

  // A reader finds exactly the records spelled out, in order, and reports nothing.
  lemma {:induction false} SpelledReadsBack(src: Source, from: nat, records: seq<seq<Byte>>)
    requires src.Ok() && src.initial == 0 && SpelledLog(src.fmt, src.file, from, records)
    ensures var (found, drops) := ReadAll(src.Scan(from), false, 0);
            drops == [] && |found| == |records| && forall i | 0 <= i < |records| :: found[i].0 == records[i]
    decreases |records|
  {
    hide Source.Scan, NextRecord, RecordAt;
    if records == [] {
      EndOfFile(src);
      NothingLeft(false, NOTHING, 0);
    } else {
      var pieces: seq<Piece> :| pieces != [] && RecordAt(src.fmt, src.file, from, records[0], pieces) && SpelledLog(src.fmt, src.file, PiecesEnd(pieces), records[1..]);
      var frags := OneSpelled(src, from, records[0], pieces);
      SpelledReadsBack(src, PiecesEnd(pieces), records[1..]);
      ReadOne(frags, src.Scan(PiecesEnd(pieces)), false, 0);
    }
  }

  lemma OneSpelled(src: Source, from: nat, data: seq<Byte>, pieces: seq<Piece>) returns (frags: seq<Fragment>)
    requires src.Ok() && RecordAt(src.fmt, src.file, from, data, pieces)
    ensures WholeRecord(frags, true) && Payloads(frags) == data
    ensures src.Scan(from) == EventsOf(frags, src.initial) + src.Scan(PiecesEnd(pieces))
  {
    hide Source.Scan, Spelled, Placed, WholeRecord, Chain, HoldsAll, NextHeader, Place;
    PlaceIsNext(src.fmt.block, from);
    frags := FragsOf(pieces, 0, |pieces|);
    AllFrom(src.fmt, src.file, pieces, 0);
    assert pieces[0..] == pieces;
    PiecesAreChain(src.fmt, src.file, from, pieces, 0, |pieces|);
    ScanLayout(src, from, frags);
  }

  // The running reader on a file given byte for byte.
  method ReadSpelled(fmt: Format, file: seq<Byte>, checksum: bool, ghost records: seq<seq<Byte>>) returns (found: seq<Record>, reported: seq<nat>)
    requires fmt.Ok() && SpelledLog(fmt, file, 0, records)
    ensures reported == [] && |found| == |records| && forall i | 0 <= i < |records| :: found[i].0 == records[i]
  {
    hide SpelledLog, Reader.Consistent, Reader.EventsLeft, ReadAll, Source.Scan;
    var reader := new Reader(Source(fmt, file, checksum, 0));
    SpelledReadsBack(reader.src, 0, records);
    found := ReadToEnd(reader);
    reported := reader.drops;
  }
}
