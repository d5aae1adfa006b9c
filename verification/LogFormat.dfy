// The log file format (db/log_format.h): blocks, physical records and how a
// logical record is cut into fragments.
module LogFormat {
  import opened Bytes

  const HEADER_SIZE: nat := 7

  const ZERO_TYPE: Byte := 0
  const FULL_TYPE: Byte := 1
  const FIRST_TYPE: Byte := 2
  const MIDDLE_TYPE: Byte := 3
  const LAST_TYPE: Byte := 4
  // The reader's own codes, just past the largest record type.
  const EOF_CODE: Byte := 5
  const BAD_RECORD: Byte := 6

  // The block size, and the checksum stored for a type byte and a payload.
  datatype Format = Format(block: nat, crc: seq<Byte> -> seq<Byte>)
  {
    // A fragment's length must fit two bytes, and a block must hold a header.
    ghost predicate Ok()
    {
      && HEADER_SIZE < block <= HEADER_SIZE + 0xffff
      && forall s :: |crc(s)| == 4
    }
  }

  // ---- blocks -----------------------------------------------------------

  function BlockEnd(block: nat, pos: nat): (end: nat)
    requires block > 0
    ensures pos < end <= pos + block
  {
    pos - pos % block + block
  }

  // Where the next header goes: never closer than a header to a block's end.
  function Place(block: nat, pos: nat): (start: nat)
    requires block > HEADER_SIZE
    ensures pos <= start <= BlockEnd(block, pos)
  {
    if BlockEnd(block, pos) - pos < HEADER_SIZE then BlockEnd(block, pos) else pos
  }

  lemma SameBlock(block: nat, pos: nat, p: nat)
    requires block > 0 && pos - pos % block <= p < BlockEnd(block, pos)
    ensures BlockEnd(block, p) == BlockEnd(block, pos)
    ensures p % block == p - (pos - pos % block)
  {
    var q := pos / block;
    assert pos - pos % block == block * q;
    ModUnique(block, q, p - block * q);
  }

  lemma BlockEndAligned(block: nat, pos: nat)
    requires block > 0
    ensures BlockEnd(block, pos) % block == 0
    ensures BlockEnd(block, BlockEnd(block, pos)) == BlockEnd(block, pos) + block
  {
    var q := pos / block;
    assert BlockEnd(block, pos) == block * (q + 1);
    ModUnique(block, q + 1, 0);
  }

  lemma BlockStarts(block: nat, pos: nat)
    requires block > HEADER_SIZE
    ensures BlockEnd(block, pos - pos % block) == pos - pos % block + block
    ensures BlockEnd(block, BlockEnd(block, pos)) == BlockEnd(block, pos) + block
  {
    SameBlock(block, pos, pos - pos % block);
    BlockEndAligned(block, pos);
  }

  // ---- physical records -------------------------------------------------

  function Physical(fmt: Format, kind: Byte, payload: seq<Byte>): seq<Byte>
    requires |payload| <= 0xffff
  {
    fmt.crc([kind] + payload) + [|payload| % 256, |payload| / 256, kind] + payload
  }

  // A fragment and the file offset of its header.
  datatype Fragment = Fragment(start: nat, kind: Byte, payload: seq<Byte>)
  {
    function End(): nat { start + HEADER_SIZE + |payload| }
  }

  function EndOf(pos: nat, frags: seq<Fragment>): nat
  {
    if frags == [] then pos else frags[|frags| - 1].End()
  }

  // Fragments laid out one after the other from `pos` on, none crossing a
  // block boundary.
  ghost predicate Chain(fmt: Format, pos: nat, frags: seq<Fragment>)
    requires fmt.Ok()
    decreases |frags|
  {
    frags != [] ==>
      && frags[0].start == Place(fmt.block, pos)
      && frags[0].End() <= BlockEnd(fmt.block, frags[0].start)
      && FULL_TYPE <= frags[0].kind <= LAST_TYPE
      && Chain(fmt, frags[0].End(), frags[1..])
  }

  lemma EndOfBoth(pos: nat, a: seq<Fragment>, b: seq<Fragment>)
    ensures EndOf(pos, a + b) == EndOf(EndOf(pos, a), b)
  {
  }

  lemma {:induction false} ChainConcat(fmt: Format, pos: nat, a: seq<Fragment>, b: seq<Fragment>)
    requires fmt.Ok() && Chain(fmt, pos, a) && Chain(fmt, EndOf(pos, a), b)
    ensures Chain(fmt, pos, a + b)
    ensures EndOf(pos, a + b) == EndOf(EndOf(pos, a), b)
    decreases |a|
  {
    hide Place, BlockEnd;
    EndOfBoth(pos, a, b);
    if a == [] {
      assert a + b == b;
    } else {
      assert EndOf(a[0].End(), a[1..]) == EndOf(pos, a);
      hide EndOf;
      ChainConcat(fmt, a[0].End(), a[1..], b);
      assert (a + b)[1..] == a[1..] + b && (a + b)[0] == a[0];
    }
  }

  lemma {:induction false} ChainAscends(fmt: Format, pos: nat, frags: seq<Fragment>)
    requires fmt.Ok() && Chain(fmt, pos, frags)
    ensures pos <= EndOf(pos, frags)
    ensures forall f | f in frags :: pos <= f.start && f.End() <= EndOf(pos, frags)
    decreases |frags|
  {
    if frags != [] {
      assert EndOf(frags[0].End(), frags[1..]) == EndOf(pos, frags);
      ChainAscends(fmt, frags[0].End(), frags[1..]);
      assert frags == [frags[0]] + frags[1..];
    }
  }

  // The file holds fragment f, as far as the file reaches.
  ghost predicate Holds(fmt: Format, file: seq<Byte>, f: Fragment)
  {
    && |f.payload| <= 0xffff
    && var code := Physical(fmt, f.kind, f.payload);
       forall i | 0 <= i < |code| && f.start + i < |file| :: file[f.start + i] == code[i]
  }

  ghost predicate HoldsAll(fmt: Format, file: seq<Byte>, frags: seq<Fragment>)
  {
    forall f | f in frags :: Holds(fmt, file, f)
  }

  // ---- fragmentation ----------------------------------------------------

  function KindOf(begin: bool, end: bool): Byte
  {
    if begin && end then FULL_TYPE
    else if begin then FIRST_TYPE
    else if end then LAST_TYPE
    else MIDDLE_TYPE
  }

  // How AddRecord cuts `data` when the file is `pos` bytes long.
  function Cut(block: nat, pos: nat, data: seq<Byte>, begin: bool): (frags: seq<Fragment>)
    requires block > HEADER_SIZE
    ensures frags != []
    decreases |data|, BlockEnd(block, Place(block, pos)) - Place(block, pos) == HEADER_SIZE
  {
    var start := Place(block, pos);
    var avail := BlockRoom(block, pos);
    var n := Min(|data|, avail);
    var f := Fragment(start, KindOf(begin, n == |data|), data[..n]);
    if n == |data| then [f]
    else
      NextBlockHasRoom(block, pos);
      [f] + Cut(block, f.End(), data[n..], false)
  }

  // Payload bytes that fit after the next header.
  function BlockRoom(block: nat, pos: nat): nat
    requires block > HEADER_SIZE
  {
    PlaceHasRoom(block, pos);
    BlockEnd(block, Place(block, pos)) - Place(block, pos) - HEADER_SIZE
  }

  lemma PlaceHasRoom(block: nat, pos: nat)
    requires block > HEADER_SIZE
    ensures BlockEnd(block, Place(block, pos)) - Place(block, pos) >= HEADER_SIZE
  {
    BlockEndAligned(block, pos);
  }

  lemma NextBlockHasRoom(block: nat, pos: nat)
    requires block > HEADER_SIZE
    ensures var end := Place(block, pos) + HEADER_SIZE + BlockRoom(block, pos);
            Place(block, end) == end && BlockRoom(block, end) == block - HEADER_SIZE
  {
    BlockEndAligned(block, Place(block, pos));
  }

  // ---- what cutting guarantees ------------------------------------------

  function Payloads(frags: seq<Fragment>): seq<Byte>
  {
    if frags == [] then [] else frags[0].payload + Payloads(frags[1..])
  }

  // The fragments of one record, seen from its first (begin) or a later one.
  ghost predicate WholeRecord(frags: seq<Fragment>, begin: bool)
  {
    && frags != []
    && frags[0].kind == KindOf(begin, |frags| == 1)
    && (|frags| > 1 ==> WholeRecord(frags[1..], false))
  }

  // Fragments of one record, in order and without gaps, as far as they go.
  ghost predicate Begun(frags: seq<Fragment>, data: seq<Byte>, begin: bool)
    decreases |frags|
  {
    frags != [] ==>
      var f, n := frags[0], |frags[0].payload|;
      && n <= |data| && f.payload == data[..n] && f.kind == KindOf(begin, n == |data|)
      && (|frags| > 1 ==> n < |data| && frags[1].start == f.End())
      && Begun(frags[1..], data[n..], false)
  }

  // One fragment more.
  lemma {:induction false} BegunMore(frags: seq<Fragment>, data: seq<Byte>, begin: bool, left: seq<Byte>, f: Fragment)
    requires Begun(frags, data, begin) && data == Payloads(frags) + left && (frags != [] ==> left != [])
    requires f.payload <= left && f.kind == KindOf(begin && frags == [], |f.payload| == |left|)
    requires frags != [] ==> f.start == EndOf(0, frags)
    ensures Begun(frags + [f], data, begin)
    decreases |frags|
  {
    hide KindOf;
    if frags == [] {
      assert frags + [f] == [f] && [f][1..] == [];
    } else {
      FirstTakesSome(frags, data, begin, left);
      BegunMore(frags[1..], data[|frags[0].payload|..], false, left, f);
      assert (frags + [f])[1..] == frags[1..] + [f];
      assert |frags| == 1 ==> (frags + [f])[1] == f;
    }
  }

  lemma FirstTakesSome(frags: seq<Fragment>, data: seq<Byte>, begin: bool, left: seq<Byte>)
    requires frags != [] && Begun(frags, data, begin) && data == Payloads(frags) + left && left != []
    ensures |frags[0].payload| < |data| && data[|frags[0].payload|..] == Payloads(frags[1..]) + left
    ensures |frags| > 1 ==> EndOf(0, frags[1..]) == EndOf(0, frags)
  {
    hide Begun;
    var n := |frags[0].payload|;
    assert data == frags[0].payload + (Payloads(frags[1..]) + left);
  }

  lemma {:induction false} PayloadsMore(frags: seq<Fragment>, f: Fragment)
    ensures Payloads(frags + [f]) == Payloads(frags) + f.payload
    decreases |frags|
  {
    if frags == [] {
      assert frags + [f] == [f] && [f][1..] == [];
    } else {
      PayloadsMore(frags[1..], f);
      assert (frags + [f])[1..] == frags[1..] + [f];
    }
  }

  lemma StaysInBlock(block: nat, pos: nat, n: nat)
    requires block > HEADER_SIZE && n <= BlockRoom(block, pos)
    ensures Place(block, pos) + HEADER_SIZE + n <= BlockEnd(block, Place(block, pos))
  {
  }

  lemma {:induction false} CutIsRecord(fmt: Format, pos: nat, data: seq<Byte>, begin: bool)
    requires fmt.Ok()
    ensures var frags := Cut(fmt.block, pos, data, begin);
            WholeRecord(frags, begin) && Payloads(frags) == data && Chain(fmt, pos, frags)
    decreases |data|, BlockRoom(fmt.block, pos) == 0
  {
    hide Place, BlockEnd, BlockRoom;
    var frags := Cut(fmt.block, pos, data, begin);
    var n := Min(|data|, BlockRoom(fmt.block, pos));
    var f := frags[0];
    StaysInBlock(fmt.block, pos, n);
    if n == |data| {
      assert frags == [f] && frags[1..] == [];
      assert Payloads(frags) == f.payload + [] == data;
    } else {
      NextBlockHasRoom(fmt.block, pos);
      CutIsRecord(fmt, f.End(), data[n..], false);
      assert frags[1..] == Cut(fmt.block, f.End(), data[n..], false);
      assert data == data[..n] + data[n..];
    }
  }

  // The layout of a list of records written one after the other.
  function CutAll(block: nat, pos: nat, records: seq<seq<Byte>>): seq<Fragment>
    requires block > HEADER_SIZE
    decreases |records|
  {
    if records == [] then []
    else
      var frags := Cut(block, pos, records[0], true);
      frags + CutAll(block, EndOf(pos, frags), records[1..])
  }

  lemma {:induction false} CutAllChain(fmt: Format, pos: nat, records: seq<seq<Byte>>)
    requires fmt.Ok()
    ensures Chain(fmt, pos, CutAll(fmt.block, pos, records))
    decreases |records|
  {
    if records != [] {
      var frags := Cut(fmt.block, pos, records[0], true);
      CutIsRecord(fmt, pos, records[0], true);
      CutAllChain(fmt, EndOf(pos, frags), records[1..]);
      ChainConcat(fmt, pos, frags, CutAll(fmt.block, EndOf(pos, frags), records[1..]));
    }
  }

  // ---- the bytes a layout stands for ------------------------------------

  function Zeros(n: nat): (s: seq<Byte>)
    ensures |s| == n
    ensures forall i | 0 <= i < n :: s[i] == 0
  {
    if n == 0 then [] else [0] + Zeros(n - 1)
  }

  // The file reaches past f and holds it.
  ghost predicate Written(fmt: Format, file: seq<Byte>, f: Fragment)
  {
    f.End() <= |file| && Holds(fmt, file, f)
  }

  lemma StillWritten(fmt: Format, before: seq<Byte>, after: seq<Byte>, f: Fragment)
    requires fmt.Ok() && before <= after && Written(fmt, before, f)
    ensures Written(fmt, after, f)
  {
  }

  // One turn of AddRecord's loop: the fragment it writes and those left.
  lemma CutTurn(fmt: Format, pos: nat, data: seq<Byte>, begin: bool)
    requires fmt.Ok()
    ensures var n := Min(|data|, BlockRoom(fmt.block, pos));
            var f := Fragment(Place(fmt.block, pos), KindOf(begin, n == |data|), data[..n]);
            var rest := if n == |data| then [] else Cut(fmt.block, f.End(), data[n..], false);
            && n <= 0xffff
            && Cut(fmt.block, pos, data, begin) == [f] + rest
            && EndOf(pos, [f] + rest) == EndOf(f.End(), rest)
  {
  }

  // ---- a log of records ---------------------------------------------------

  // The bytes of a log to which exactly these records were added in turn.
  ghost predicate IsLog(fmt: Format, records: seq<seq<Byte>>, log: seq<Byte>)
    requires fmt.Ok()
  {
    var frags := CutAll(fmt.block, 0, records);
    |log| == EndOf(0, frags) && HoldsAll(fmt, log, frags)
  }

  lemma {:induction false} CutAllAppend(fmt: Format, pos: nat, records: seq<seq<Byte>>, data: seq<Byte>)
    requires fmt.Ok()
    ensures var frags := CutAll(fmt.block, pos, records);
            && CutAll(fmt.block, pos, records + [data]) == frags + Cut(fmt.block, EndOf(pos, frags), data, true)
            && EndOf(pos, CutAll(fmt.block, pos, records + [data])) ==
               EndOf(EndOf(pos, frags), Cut(fmt.block, EndOf(pos, frags), data, true))
    decreases |records|
  {
    hide Cut;
    if records == [] {
      assert [data][1..] == [];
      assert CutAll(fmt.block, pos, [data]) == Cut(fmt.block, pos, data, true) + [];
      assert records + [data] == [data];
    } else {
      hide EndOf;
      var first := Cut(fmt.block, pos, records[0], true);
      var more := CutAll(fmt.block, EndOf(pos, first), records[1..]);
      assert (records + [data])[1..] == records[1..] + [data];
      CutAllAppend(fmt, EndOf(pos, first), records[1..], data);
      EndOfBoth(pos, first, more);
      var last := Cut(fmt.block, EndOf(EndOf(pos, first), more), data, true);
      EndOfBoth(pos, first, more + last);
      EndOfBoth(pos, first + more, last);
      assert first + (more + last) == first + more + last;
    }
  }

  // ---- one more record -----------------------------------------------------

  ghost predicate Covered(frags: seq<Fragment>, i: nat)
  {
    exists f :: f in frags && f.start <= i < f.End()
  }

  // `after` is `before` with the layout of one more record, or the beginning of
  // it; between the fragments there are zeros.
  ghost predicate Landed(fmt: Format, before: seq<Byte>, data: seq<Byte>, after: seq<Byte>)
    requires fmt.Ok()
  {
    var frags := Cut(fmt.block, |before|, data, true);
    && before <= after && |after| <= EndOf(|before|, frags) && HoldsAll(fmt, after, frags)
    && (forall i | |before| <= i < |after| :: after[i] == 0 || Covered(frags, i))
  }

  ghost predicate Whole(fmt: Format, before: seq<Byte>, data: seq<Byte>, after: seq<Byte>)
    requires fmt.Ok()
  {
    |after| == EndOf(|before|, Cut(fmt.block, |before|, data, true))
  }

  // A log of these records, cut short somewhere or not.
  ghost predicate StartsLog(fmt: Format, records: seq<seq<Byte>>, file: seq<Byte>)
    requires fmt.Ok()
  {
    var frags := CutAll(fmt.block, 0, records);
    |file| <= EndOf(0, frags) && HoldsAll(fmt, file, frags)
  }

  // Adding a record to a log, whoever opened it, makes the log of one more;
  // when it breaks off, the beginning of that log.
  lemma AppendExtendsLog(fmt: Format, records: seq<seq<Byte>>, log: seq<Byte>, data: seq<Byte>, longer: seq<Byte>)
    requires fmt.Ok() && IsLog(fmt, records, log) && Landed(fmt, log, data, longer)
    ensures StartsLog(fmt, records + [data], longer)
    ensures Whole(fmt, log, data, longer) ==> IsLog(fmt, records + [data], longer)
  {
    hide Cut, CutAll, Holds;
    var frags := CutAll(fmt.block, 0, records);
    CutAllAppend(fmt, 0, records, data);
    CutAllChain(fmt, 0, records);
    ChainAscends(fmt, 0, frags);
    forall f | f in frags ensures Holds(fmt, longer, f) {
      StillWritten(fmt, log, longer, f);
    }
  }
}
