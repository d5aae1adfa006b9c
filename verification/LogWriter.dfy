// The log writer (db/log_writer.cc).
module LogWriter {
  import opened Bytes
  import opened LogFormat

  class Writer {
    const fmt: Format
    // How the file answers its k-th call: well, or with an error after it took
    // some of the bytes.
    const fate: nat -> Option<nat>
    var dest: seq<Byte>
    var blockOffset: nat
    var calls: nat

    ghost predicate Valid()
      reads this
    {
      fmt.Ok() && blockOffset <= fmt.block
    }

    // The writer's offset is that of the file's end in its block. It is lost as
    // soon as a call fails before the last byte of a fragment.
    ghost predicate Aligned()
      reads this
    {
      Valid() && OffsetOk(fmt.block, |dest|, blockOffset)
    }

    // The offset in the current block; it may stand at the end of a full one.
    static predicate OffsetOk(block: nat, pos: nat, offset: nat)
      requires block > HEADER_SIZE
    {
      offset <= block && (offset == pos % block || (offset == block && pos % block == 0))
    }

    // No call from the first to before the last number failed.
    ghost predicate Fine(first: nat, last: nat)
    {
      forall k | first <= k < last :: fate(k).None?
    }

    // The number of the first call that writes part of a record rather than the
    // trailer of a block.
    function FirstEmit(call: nat, offset: nat): nat
    {
      if offset < fmt.block < offset + HEADER_SIZE then call + 1 else call
    }

    // Length of the trailer it writes first.
    function Gap(offset: nat): nat
    {
      if offset < fmt.block < offset + HEADER_SIZE then fmt.block - offset else 0
    }

    // Payload bytes that fit after the next header, as the writer sees it.
    function Room(offset: nat): nat
      requires HEADER_SIZE < fmt.block && offset <= fmt.block
    {
      if fmt.block - offset < HEADER_SIZE then fmt.block - HEADER_SIZE else fmt.block - offset - HEADER_SIZE
    }

    // A writer on an empty file.
    constructor (fmt: Format, fate: nat -> Option<nat>)
      requires fmt.Ok()
      ensures Aligned() && this.fmt == fmt && this.fate == fate && dest == [] && IsLog(fmt, [], dest)
      ensures blockOffset == 0 && calls == 0
    {
      this.fmt := fmt;
      this.fate := fate;
      dest := [];
      blockOffset := 0;
      calls := 0;
    }

    // A writer that appends to a file already `dest.size()` bytes long.
    constructor Reopen(fmt: Format, fate: nat -> Option<nat>, dest: seq<Byte>)
      requires fmt.Ok()
      ensures Aligned() && this.fmt == fmt && this.fate == fate && this.dest == dest
    {
      this.fmt := fmt;
      this.fate := fate;
      this.dest := dest;
      blockOffset := |dest| % fmt.block;
      calls := 0;
    }

    // ---- the file ------------------------------------------------------------

    method Append(bytes: seq<Byte>) returns (ok: bool)
      modifies this`dest, this`calls
      ensures calls == old(calls) + 1 && ok == fate(old(calls)).None?
      ensures dest == old(dest) + if ok then bytes else bytes[..Min(fate(old(calls)).value, |bytes|)]
    {
      ok := fate(calls).None?;
      var n := if ok then |bytes| else Min(fate(calls).value, |bytes|);
      dest := dest + bytes[..n];
      calls := calls + 1;
    }

    method Flush() returns (ok: bool)
      modifies this`calls
      ensures calls == old(calls) + 1 && ok == fate(old(calls)).None?
    {
      ok := fate(calls).None?;
      calls := calls + 1;
    }

    // What the file takes of header and payload when they are written from this
    // call on.
    function Taken(call: nat, code: seq<Byte>): seq<Byte>
    {
      if fate(call).Some? then code[..Min(Min(fate(call).value, HEADER_SIZE), |code|)]
      else if fate(call + 1).Some? then code[..Min(HEADER_SIZE + fate(call + 1).value, |code|)]
      else code
    }

    // ---- records ----------------------------------------------------------------

    // Appends one record of any length. From an aligned offset, and unless the
    // trailer of a block fails, whose status nobody looks at, the file gets the
    // fragments of the record's layout in order, up to the first error: with OK
    // all of them, after an error some, and if in spite of it all bytes are
    // there the offset is still right. From any offset a record that the writer
    // believes to fit into the block goes out in one piece, and the fragments
    // that reach the file in full (`parts`) are the first ones of the record.
    method AddRecord(slice: seq<Byte>) returns (ok: bool, ghost parts: seq<Fragment>)
      requires Valid()
      modifies this
      ensures Valid() && old(dest) <= dest && old(calls) < calls
      ensures Begun(parts, slice, true) && (ok ==> Payloads(parts) == slice && parts != [])
      ensures (parts != [] ==> parts[0].start >= |old(dest)|) && forall f | f in parts :: Written(fmt, dest, f)
      ensures ok <==> Fine(FirstEmit(old(calls), old(blockOffset)), calls)
      ensures old(Aligned()) && Fine(old(calls), FirstEmit(old(calls), old(blockOffset))) ==>
                && Landed(fmt, old(dest), slice, dest) && (ok ==> Whole(fmt, old(dest), slice, dest))
                && (Whole(fmt, old(dest), slice, dest) ==> Aligned())
      ensures Fine(old(calls), FirstEmit(old(calls), old(blockOffset))) && |slice| <= Room(old(blockOffset)) ==>
                && dest == Sent(old(dest), old(calls), old(blockOffset), slice, true)
                && blockOffset == NextOffset(old(blockOffset), |slice|)
      ensures fate(FirstEmit(old(calls), old(blockOffset))).None? ==> FirstEmit(old(calls), old(blockOffset)) + 1 < calls
    {
      hide IsLog, Cut, Physical, Place, BlockEnd, BlockRoom, Progress, OffsetOk, HoldsAll, Holds, Landed, Whole, EndOf, Taken, Sent, Begun, Payloads, Written, InParts, KindOf;
      ghost var all := Cut(fmt.block, |dest|, slice, true);
      ghost var rest := all;
      ghost var first := FirstEmit(calls, blockOffset);
      ghost var sound := Aligned() && Fine(calls, first);
      var left := slice;
      var begin := true;
      NoProgress(fmt, dest, all);
      parts := [];
      NoParts(fmt, dest, slice);
      while true
        invariant Valid() && old(dest) <= dest
        invariant if begin then left == slice && calls == old(calls) && blockOffset == old(blockOffset) && dest == old(dest)
                  else first <= calls && (fate(first).None? ==> first + 1 < calls) && old(calls) < calls && blockOffset == fmt.block && Fine(first, calls) && |slice| > Room(old(blockOffset))
        invariant begin <==> parts == []
        invariant InParts(fmt, |old(dest)|, dest, slice, left, parts) && (!begin ==> left != [] && EndOf(0, parts) == |dest|)
        invariant sound ==> Aligned() && rest == Cut(fmt.block, |dest|, left, begin) && Progress(fmt, old(dest), dest, all, rest)
        decreases |left|, fmt.block - blockOffset == HEADER_SIZE
      {
        ghost var before, call, offset := dest, calls, blockOffset;
        var length;
        ghost var at;
        ok, length, at := AddFragment(left, begin);
        parts := OnePartMore(fmt, |old(dest)|, before, dest, slice, left, parts, at, length, ok);
        if sound {
          FragmentLands(old(dest), before, dest, slice, rest, left, begin, call, offset, ok);
          rest := rest[1..];
        }
        left := left[length..];
        begin := false;
        if !ok || left == [] { break; }
      }
      if sound && ok { Finished(fmt, old(dest), dest, slice); }
    }

    // The fragments so far lie in the file, and what is left comes behind them.
    static ghost predicate InParts(fmt: Format, from: nat, dest: seq<Byte>, slice: seq<Byte>, left: seq<Byte>, parts: seq<Fragment>)
    {
      && Begun(parts, slice, true) && slice == Payloads(parts) + left
      && (parts != [] ==> parts[0].start >= from) && forall f | f in parts :: Written(fmt, dest, f)
    }

    static lemma NoParts(fmt: Format, dest: seq<Byte>, slice: seq<Byte>)
      ensures InParts(fmt, |dest|, dest, slice, slice, [])
    {
      assert [] + slice == slice;
    }

    // A turn adds its fragment, unless the file took only some of it.
    static lemma OnePartMore(fmt: Format, from: nat, before: seq<Byte>, after: seq<Byte>, slice: seq<Byte>, left: seq<Byte>, parts: seq<Fragment>,
                             at: nat, length: nat, ok: bool) returns (more: seq<Fragment>)
      requires fmt.Ok() && InParts(fmt, from, before, slice, left, parts) && before <= after
      requires parts != [] ==> left != [] && EndOf(0, parts) == at
      requires from <= |before| <= at <= |after| && length <= |left| && length <= 0xffff
      requires after[at..] <= Physical(fmt, KindOf(parts == [], length == |left|), left[..length])
      requires ok ==> after[at..] == Physical(fmt, KindOf(parts == [], length == |left|), left[..length])
      ensures Begun(more, slice, true) && (more != [] ==> more[0].start >= from) && (forall f | f in more :: Written(fmt, after, f))
      ensures ok ==> InParts(fmt, from, after, slice, left[length..], more) && more != [] && EndOf(0, more) == |after|
      ensures ok && left[length..] == [] ==> Payloads(more) == slice
    {
      hide Physical, Begun, Payloads;
      var f := Fragment(at, KindOf(parts == [], length == |left|), left[..length]);
      forall g | g in parts ensures Written(fmt, after, g) {
        StillWritten(fmt, before, after, g);
      }
      more := parts;
      PhysicalLength(fmt, f.kind, f.payload);
      if |after| == f.End() {
        more := parts + [f];
        BegunMore(parts, slice, true, left, f);
        PayloadsMore(parts, f);
        assert left == left[..length] + left[length..];
        assert after[at..] == Physical(fmt, f.kind, f.payload);
        PartIsWritten(fmt, after, f);
      }
    }

    static lemma PartIsWritten(fmt: Format, file: seq<Byte>, f: Fragment)
      requires fmt.Ok() && |f.payload| <= 0xffff && f.start <= |file| && file[f.start..] == Physical(fmt, f.kind, f.payload)
      ensures Written(fmt, file, f)
    {
      hide Physical;
      PhysicalLength(fmt, f.kind, f.payload);
      assert forall i | 0 <= i < |file| - f.start :: file[f.start + i] == file[f.start..][i];
    }

    // A turn from an aligned offset makes progress, or breaks off in the layout.
    lemma FragmentLands(orig: seq<Byte>, before: seq<Byte>, after: seq<Byte>, slice: seq<Byte>, rest: seq<Fragment>,
                        left: seq<Byte>, begin: bool, call: nat, offset: nat, ok: bool)
      requires fmt.Ok() && offset <= fmt.block && OffsetOk(fmt.block, |before|, offset)
      requires rest == Cut(fmt.block, |before|, left, begin) && before <= after == Sent(before, call, offset, left, begin)
      requires Progress(fmt, orig, before, Cut(fmt.block, |orig|, slice, true), rest)
      requires var n := Min(|left|, Room(offset));
               ok ==> after == before + Zeros(Gap(offset)) + Physical(fmt, KindOf(begin, n == |left|), left[..n])
      ensures var n := Min(|left|, Room(offset));
              if ok then
                && Progress(fmt, orig, after, Cut(fmt.block, |orig|, slice, true), rest[1..])
                && OffsetOk(fmt.block, |after|, NextOffset(offset, n))
                && rest[1..] == if n == |left| then [] else Cut(fmt.block, |after|, left[n..], false)
              else
                && Landed(fmt, orig, slice, after)
                && (Whole(fmt, orig, slice, after) ==> OffsetOk(fmt.block, |after|, NextOffset(offset, n)))
    {
      hide Cut, Physical, Place, BlockEnd, BlockRoom, Progress, OffsetOk, HoldsAll, Holds, Landed, Whole, EndOf, Taken, Gap, Sent, Zeros;
      var n := Min(|left|, Room(offset));
      CutTurn(fmt, |before|, left, begin);
      PlacedAlike(before, offset, n);
      PhysicalLength(fmt, KindOf(begin, n == |left|), left[..n]);
      SentIsPrefix(before, call, offset, left, begin);
      if ok {
        MakeProgress(fmt, orig, before, after, Cut(fmt.block, |orig|, slice, true), rest);
        assert |after| == rest[0].End();
      } else {
        FailsPartWay(fmt, orig, before, after, slice, rest, left, begin);
      }
    }

    // The file after one turn of the loop whose trailer went well.
    ghost function Sent(before: seq<Byte>, call: nat, offset: nat, left: seq<Byte>, begin: bool): seq<Byte>
      requires fmt.Ok() && offset <= fmt.block
    {
      var length := Min(|left|, Room(offset));
      before + Zeros(Gap(offset)) + Taken(FirstEmit(call, offset), Physical(fmt, KindOf(begin, length == |left|), left[..length]))
    }

    // The offset after one turn, whatever became of the bytes.
    function NextOffset(offset: nat, length: nat): nat
    {
      (if offset + HEADER_SIZE > fmt.block then 0 else offset) + HEADER_SIZE + length
    }

    // One turn of the loop: the trailer of the block if a header does not fit
    // any more, and as much of the record as does fit.
    method AddFragment(left: seq<Byte>, begin: bool) returns (ok: bool, length: nat, ghost at: nat)
      requires Valid()
      modifies this
      ensures Valid() && length == Min(|left|, Room(old(blockOffset))) && blockOffset == NextOffset(old(blockOffset), length)
      ensures old(dest) <= dest && old(calls) < calls && FirstEmit(old(calls), old(blockOffset)) <= calls
      ensures ok <==> Fine(FirstEmit(old(calls), old(blockOffset)), calls)
      ensures fate(FirstEmit(old(calls), old(blockOffset))).None? ==> FirstEmit(old(calls), old(blockOffset)) + 1 < calls
      ensures Fine(old(calls), FirstEmit(old(calls), old(blockOffset))) ==>
                && dest == Sent(old(dest), old(calls), old(blockOffset), left, begin)
                && (ok ==> dest == old(dest) + Zeros(Gap(old(blockOffset))) + Physical(fmt, KindOf(begin, length == |left|), left[..length]))
      ensures |old(dest)| <= at <= |dest| && (Gap(old(blockOffset)) == 0 ==> at == |old(dest)|)
      ensures dest[at..] <= Physical(fmt, KindOf(begin, length == |left|), left[..length])
      ensures ok ==> dest[at..] == Physical(fmt, KindOf(begin, length == |left|), left[..length])
    {
      hide Physical, Taken;
      var leftover := fmt.block - blockOffset;
      if leftover < HEADER_SIZE {
        if leftover > 0 {
          var _ := Append(Zeros(leftover));
        }
        blockOffset := 0;
      }
      var avail := fmt.block - blockOffset - HEADER_SIZE;
      length := Min(|left|, avail);
      at := |dest|;
      ghost var code := Physical(fmt, KindOf(begin, |left| == length), left[..length]);
      TakenIsPrefix(dest, calls, code);
      ghost var before := dest;
      ok := EmitPhysicalRecord(KindOf(begin, |left| == length), left[..length]);
      assert dest <= before + code;
      assert (before + code)[at..] == code;
    }

    lemma SentIsPrefix(before: seq<Byte>, call: nat, offset: nat, left: seq<Byte>, begin: bool)
      requires fmt.Ok() && offset <= fmt.block
      ensures var length := Min(|left|, Room(offset));
              Sent(before, call, offset, left, begin) <= before + Zeros(Gap(offset)) + Physical(fmt, KindOf(begin, length == |left|), left[..length])
    {
      hide Physical, Zeros, Taken, Gap, FirstEmit, KindOf;
      var length := Min(|left|, Room(offset));
      TakenIsPrefix(before + Zeros(Gap(offset)), FirstEmit(call, offset), Physical(fmt, KindOf(begin, length == |left|), left[..length]));
    }

    // From an aligned offset the fragment goes where the layout wants it.
    lemma PlacedAlike(before: seq<Byte>, offset: nat, length: nat)
      requires fmt.Ok() && OffsetOk(fmt.block, |before|, offset) && offset <= fmt.block && length <= Room(offset)
      ensures Room(offset) == BlockRoom(fmt.block, |before|) && Place(fmt.block, |before|) == |before| + Gap(offset)
      ensures OffsetOk(fmt.block, Place(fmt.block, |before|) + HEADER_SIZE + length, NextOffset(offset, length))
    {
      hide Place, BlockEnd, BlockRoom, OffsetOk;
      WhereNext(fmt.block, |before|, offset);
      OffsetAfter(fmt.block, |before|, length);
    }

    lemma TakenIsPrefix(s: seq<Byte>, call: nat, code: seq<Byte>)
      ensures s + Taken(call, code) <= s + code
    {
    }

    static lemma PhysicalLength(fmt: Format, kind: Byte, payload: seq<Byte>)
      requires fmt.Ok() && |payload| <= 0xffff
      ensures |Physical(fmt, kind, payload)| == HEADER_SIZE + |payload|
    {
    }

    // From `orig` to `dest` every fragment of `all` but `rest` has been written.
    static ghost predicate Progress(fmt: Format, orig: seq<Byte>, dest: seq<Byte>, all: seq<Fragment>, rest: seq<Fragment>)
    {
      && orig <= dest
      && EndOf(|dest|, rest) == EndOf(|orig|, all)
      && (forall f | f in all :: f in rest || Written(fmt, dest, f))
      && (forall f | f in rest :: f in all)
      && (forall i | |orig| <= i < |dest| :: dest[i] == 0 || Covered(all, i))
    }

    static lemma NoProgress(fmt: Format, orig: seq<Byte>, all: seq<Fragment>)
      ensures Progress(fmt, orig, orig, all, all)
    {
    }

    static lemma Finished(fmt: Format, orig: seq<Byte>, dest: seq<Byte>, slice: seq<Byte>)
      requires fmt.Ok() && Progress(fmt, orig, dest, Cut(fmt.block, |orig|, slice, true), [])
      ensures Landed(fmt, orig, slice, dest) && Whole(fmt, orig, slice, dest)
    {
      hide Cut, Holds;
    }

    // The write of a fragment broke off: it and those after it are in the file
    // as far as the file goes.
    static lemma FailsPartWay(fmt: Format, orig: seq<Byte>, before: seq<Byte>, after: seq<Byte>, slice: seq<Byte>,
                              rest: seq<Fragment>, left: seq<Byte>, begin: bool)
      requires fmt.Ok() && Progress(fmt, orig, before, Cut(fmt.block, |orig|, slice, true), rest)
      requires rest == Cut(fmt.block, |before|, left, begin) && before <= after
      requires var f := rest[0];
               && |before| <= f.start && |f.payload| <= 0xffff
               && after <= before + Zeros(f.start - |before|) + Physical(fmt, f.kind, f.payload)
      ensures Landed(fmt, orig, slice, after)
      ensures Whole(fmt, orig, slice, after) ==> |after| == rest[0].End()
    {
      hide Cut, Physical, Chain, Place, BlockEnd, Holds;
      var all, f := Cut(fmt.block, |orig|, slice, true), rest[0];
      RestIsBehind(fmt, before, rest, left, begin);
      PhysicalLength(fmt, f.kind, f.payload);
      forall g | g in all ensures Holds(fmt, after, g) {
        if g in rest {
          HoldsSoFar(fmt, before, after, f, g);
        } else {
          StillWritten(fmt, before, after, g);
        }
      }
      assert f in rest && f in all;
      forall i | |orig| <= i < |after| ensures after[i] == 0 || Covered(all, i) {
        if i < |before| {
          assert after[i] == before[i];
        }
      }
    }

    static lemma RestIsBehind(fmt: Format, before: seq<Byte>, rest: seq<Fragment>, left: seq<Byte>, begin: bool)
      requires fmt.Ok() && rest == Cut(fmt.block, |before|, left, begin)
      ensures rest[0].End() <= EndOf(|before|, rest)
      ensures forall g | g in rest :: g == rest[0] || g.start >= rest[0].End()
      ensures forall g | g in rest :: |g.payload| <= 0xffff
    {
      hide Cut, Place;
      var f := rest[0];
      CutIsRecord(fmt, |before|, left, begin);
      assert EndOf(f.End(), rest[1..]) == EndOf(|before|, rest);
      ChainAscends(fmt, f.End(), rest[1..]);
      ChainFits(fmt, |before|, rest);
      assert rest == [f] + rest[1..];
    }

    static lemma {:induction false} ChainFits(fmt: Format, pos: nat, frags: seq<Fragment>)
      requires fmt.Ok() && Chain(fmt, pos, frags)
      ensures forall g | g in frags :: |g.payload| <= 0xffff
      decreases |frags|
    {
      if frags != [] {
        ChainFits(fmt, frags[0].End(), frags[1..]);
        assert frags == [frags[0]] + frags[1..];
      }
    }

    static lemma HoldsSoFar(fmt: Format, before: seq<Byte>, after: seq<Byte>, f: Fragment, g: Fragment)
      requires fmt.Ok() && before <= after && |before| <= f.start && |f.payload| <= 0xffff && |g.payload| <= 0xffff
      requires after <= before + Zeros(f.start - |before|) + Physical(fmt, f.kind, f.payload)
      requires g == f || g.start >= f.End()
      ensures Holds(fmt, after, g)
    {
      hide Physical, Zeros;
      PhysicalLength(fmt, f.kind, f.payload);
      var code := Physical(fmt, f.kind, f.payload);
      var lead := before + Zeros(f.start - |before|);
      assert |lead| == f.start && |after| <= |lead + code| == f.End();
      if g == f {
        forall i | 0 <= i < |code| && f.start + i < |after| ensures after[f.start + i] == code[i] {
          PrefixAt(after, lead, code, i);
        }
      }
    }

    static lemma PrefixAt(s: seq<Byte>, a: seq<Byte>, b: seq<Byte>, i: nat)
      requires s <= a + b && i < |b| && |a| + i < |s|
      ensures s[|a| + i] == b[i]
    {
      assert s[|a| + i] == (a + b)[|a| + i];
    }

    static lemma MakeProgress(fmt: Format, orig: seq<Byte>, before: seq<Byte>, after: seq<Byte>, all: seq<Fragment>, rest: seq<Fragment>)
      requires fmt.Ok() && Progress(fmt, orig, before, all, rest) && rest != []
      requires var f := rest[0];
               && |before| <= f.start && |f.payload| <= 0xffff
               && after == before + Zeros(f.start - |before|) + Physical(fmt, f.kind, f.payload)
               && EndOf(|before|, rest) == EndOf(f.End(), rest[1..])
      ensures Progress(fmt, orig, after, all, rest[1..])
    {
      hide Physical, Zeros, EndOf;
      var f := rest[0];
      PhysicalLength(fmt, f.kind, f.payload);
      assert after[f.start..] == Physical(fmt, f.kind, f.payload);
      PartIsWritten(fmt, after, f);
      forall g | g in all ensures g in rest[1..] || Written(fmt, after, g) {
        if g !in rest { StillWritten(fmt, before, after, g); }
      }
      assert f in all;
      forall i | |orig| <= i < |after| ensures after[i] == 0 || Covered(all, i) {
        if i < |before| {
          assert after[i] == before[i];
        }
      }
    }

    // The offset kept by the writer says where the next header goes.
    static lemma WhereNext(block: nat, pos: nat, offset: nat)
      requires block > HEADER_SIZE && OffsetOk(block, pos, offset)
      ensures offset <= block
      ensures var leftover := block - offset;
              if leftover < HEADER_SIZE then
                Place(block, pos) == pos + leftover && BlockRoom(block, pos) == block - HEADER_SIZE
              else
                Place(block, pos) == pos && BlockRoom(block, pos) == block - offset - HEADER_SIZE
    {
      BlockEndAligned(block, pos);
    }

    static lemma OffsetAfter(block: nat, pos: nat, length: nat)
      requires block > HEADER_SIZE && length <= BlockRoom(block, pos)
      ensures OffsetOk(block, Place(block, pos) + HEADER_SIZE + length, block - BlockRoom(block, pos) + length)
      ensures length < BlockRoom(block, pos) || BlockRoom(block, Place(block, pos) + HEADER_SIZE + length) == block - HEADER_SIZE
    {
      var start := Place(block, pos);
      var end := start + HEADER_SIZE + length;
      if end < BlockEnd(block, start) {
        SameBlock(block, start, end);
      } else {
        BlockEndAligned(block, start);
        NextBlockHasRoom(block, pos);
      }
    }

    lemma TakenIs(call: nat, header: seq<Byte>, payload: seq<Byte>)
      requires |header| == HEADER_SIZE
      ensures Taken(call, header + payload) ==
              if fate(call).Some? then header[..Min(fate(call).value, HEADER_SIZE)]
              else if fate(call + 1).Some? then header + payload[..Min(fate(call + 1).value, |payload|)]
              else header + payload
    {
    }

    // The block offset moves on even when the file did not take the bytes.
    method EmitPhysicalRecord(kind: Byte, payload: seq<Byte>) returns (ok: bool)
      requires fmt.Ok() && |payload| <= 0xffff && blockOffset + HEADER_SIZE + |payload| <= fmt.block
      modifies this
      ensures blockOffset == old(blockOffset) + HEADER_SIZE + |payload|
      ensures old(calls) < calls && (ok <==> Fine(old(calls), calls)) && (fate(old(calls)).None? ==> old(calls) + 1 < calls)
      ensures dest == old(dest) + Taken(old(calls), Physical(fmt, kind, payload))
      ensures ok ==> dest == old(dest) + Physical(fmt, kind, payload)
    {
      hide Taken;
      var header: seq<Byte> := fmt.crc([kind] + payload) + [|payload| % 256, |payload| / 256, kind];
      assert Physical(fmt, kind, payload) == header + payload && |header| == HEADER_SIZE;
      TakenIs(calls, header, payload);
      ok := Append(header);
      if ok {
        ok := Append(payload);
        if ok {
          ok := Flush();
        }
      }
      blockOffset := blockOffset + HEADER_SIZE + |payload|;
    }
  }
}
