// The decoder as it runs: a stream with a position and a limit, substreams
// that share the parent's bytes, and the loop over tags (nanopb: pb_decode.c).
module MessageDecoder {
  import opened Bytes
  import opened Varint
  import opened Messages
  import opened MessageDecoding
  import opened MessageTheorems
  import opened MessageSafety
  import FieldIterator

  class InputStream {
    const src: Octets
    var pos: nat
    var bytesLeft: nat

    ghost predicate Valid()
      reads this
    {
      pos + bytesLeft <= |src|
    }

    // What may still be read.
    ghost function Rest(): (s: Octets)
      requires Valid()
      reads this
      ensures |s| == bytesLeft
    {
      src[pos..pos + bytesLeft]
    }

    // Where the readable part ends; reading moves the start only.
    function End(): nat
      reads this
    {
      pos + bytesLeft
    }

    constructor (buf: Octets)
      ensures Valid() && Rest() == buf
    {
      src, pos, bytesLeft := buf, 0, |buf|;
    }

    constructor Part(parent: InputStream, size: nat)
      requires parent.Valid() && size <= parent.bytesLeft
      ensures Valid() && src == parent.src && pos == parent.pos && bytesLeft == size
    {
      src, pos, bytesLeft := parent.src, parent.pos, size;
    }

    // ---- bytes -------------------------------------------------------------

    method ReadByte() returns (ok: bool, byte: Byte)
      requires Valid()
      modifies this
      ensures End() == old(End())
      ensures Valid() && ok == (old(bytesLeft) > 0)
      ensures if ok then byte == old(Rest())[0] && Rest() == old(Rest())[1..] else Rest() == old(Rest())
    {
      if bytesLeft == 0 {
        return false, 0;
      }
      byte := src[pos];
      pos := pos + 1;
      bytesLeft := bytesLeft - 1;
      ok := true;
    }

    method ReadBytes(count: nat) returns (ok: bool, buf: Octets)
      requires Valid()
      modifies this
      ensures End() == old(End())
      ensures Valid() && ok == (count <= old(bytesLeft))
      ensures if ok then buf == old(Rest())[..count] && Rest() == old(Rest())[count..] else Rest() == old(Rest())
    {
      if count == 0 {
        return true, [];
      }
      if bytesLeft < count {
        return false, [];
      }
      buf := src[pos..pos + count];
      pos := pos + count;
      bytesLeft := bytesLeft - count;
      ok := true;
    }

    // ---- varints -----------------------------------------------------------------

    method ReadVarint32() returns (ok: bool, value: nat)
      requires Valid()
      modifies this
      ensures End() == old(End())
      ensures Valid() && TookNumber(Decode32(old(Rest())), old(Rest()), Rest(), ok, value)
    {
      ghost var s := Rest();
      var byte;
      ok, byte := ReadByte();
      if !ok {
        return false, 0;
      }
      if byte < 128 {
        return true, byte;
      }
      var bitpos: nat := 7;
      var bits: nat := byte % 128;
      ghost var at := 1;
      while true
        invariant Valid() && End() == old(End()) && 0 < at <= |s| && Rest() == s[at..]
        invariant Decode32(s) == Decode32From(s, at, bits, bitpos)
        decreases bytesLeft
      {
        ok, byte := ReadByte();
        if !ok {
          return false, 0;
        }
        if bitpos >= 32 {
          var signExtension := if bitpos < 63 then 0xFF else 0x01;
          if byte % 128 != 0 && (bits / 0x8000_0000 == 0 || byte != signExtension) {
            return false, 0;
          }
        } else {
          bits := ShiftedIn(bits, byte % 128, bitpos);
        }
        at := at + 1;
        bitpos := (bitpos + 7) % 256;
        if byte < 128 { break; }
      }
      if bitpos == 35 && (byte / 16) % 8 != 0 {
        return false, 0;
      }
      value := bits;
    }

    // A number was read where the bytes have one, and exactly its bytes.
    static predicate TookNumber(r: Option<(nat, nat)>, s: Octets, rest: Octets, ok: bool, value: nat)
    {
      && (ok <==> r.Some?)
      && (ok ==> r.value.1 <= |s| && value == r.value.0 && rest == s[r.value.1..])
    }

    method ReadVarint64() returns (ok: bool, value: nat)
      requires Valid()
      modifies this
      ensures End() == old(End())
      ensures Valid() && TookNumber(Decode64(old(Rest())), old(Rest()), Rest(), ok, value)
      ensures value < TWO64
    {
      hide Varint.Number, Shift;
      ghost var s := Rest();
      EmptyNumber();
      var bitpos := 0;
      value := 0;
      ghost var at := 0;
      assert s[..0] == [];
      while true
        invariant Valid() && End() == old(End()) && 0 <= at <= |s| && at <= 10 && Rest() == s[at..] && bitpos == 7 * at
        invariant (forall i | 0 <= i < at :: s[i] >= 128) && value == Varint.Number(s[..at]) % TWO64
        decreases bytesLeft
      {
        SizeFrom(s, at);
        if bitpos >= 64 {
          TooLong(s, at);
          return false, 0;
        }
        var byte;
        ok, byte := ReadByte();
        if !ok {
          assert s[at..] == [];
          return false, 0;
        }
        NextDigit(s, at);
        value := (value + (byte % 128) * Shift(bitpos)) % TWO64;
        assert s[at..][0] == byte;
        at := at + 1;
        bitpos := bitpos + 7;
        if byte < 128 { break; }
      }
    }

    static lemma EmptyNumber()
      ensures Varint.Number([]) == 0
    {
    }

    static lemma NextDigit(s: Octets, at: nat)
      requires at < |s|
      ensures Varint.Number(s[..at + 1]) % TWO64 == (Varint.Number(s[..at]) % TWO64 + (s[at] % 128) * Shift(7 * at)) % TWO64
    {
      assert s[..at + 1] == s[..at] + [s[at]];
      NumberAppend(s[..at], s[at]);
      ShiftIsPow(at);
      AddMod(Varint.Number(s[..at]), (s[at] % 128) * Shift(7 * at), TWO64);
    }

    static lemma TooLong(s: Octets, at: nat)
      requires at == 10 <= |s| && forall i | 0 <= i < at :: s[i] >= 128
      ensures Decode64(s) == None
    {
      SizeFrom(s, at);
      SizeBound(s[at..]);
    }

    // ---- skipping -----------------------------------------------------------------------

    // Some bytes were passed over: as many as the function says, or an error.
    static predicate Skipped(r: Option<nat>, s: Octets, rest: Octets, ok: bool)
    {
      && (ok <==> r.Some? && r.value <= |s|)
      && (ok ==> rest == s[r.value..])
    }

    method SkipVarint() returns (ok: bool)
      requires Valid()
      modifies this
      ensures End() == old(End())
      ensures Valid() && Skipped(VarintSize(old(Rest())), old(Rest()), Rest(), ok)
    {
      ghost var s := Rest();
      ghost var at := 0;
      while true
        invariant Valid() && End() == old(End()) && 0 <= at <= |s| && Rest() == s[at..] && forall i | 0 <= i < at :: s[i] >= 128
        decreases bytesLeft
      {
        SizeFrom(s, at);
        var byte;
        ok, byte := ReadByte();
        if !ok {
          assert s[at..] == [];
          return;
        }
        assert s[at..][0] == byte;
        at := at + 1;
        if byte < 128 { break; }
      }
    }

    method SkipString() returns (ok: bool)
      requires Valid()
      modifies this
      ensures End() == old(End())
      ensures Valid() && Skipped(SkipSize(WT_STRING, old(Rest())), old(Rest()), Rest(), ok)
    {
      hide Decode32;
      ghost var s := Rest();
      Decode32Reads(s);
      var length;
      ok, length := ReadVarint32();
      if !ok {
        return;
      }
      var buf;
      ok, buf := ReadBytes(length);
      assert ok ==> Rest() == s[Decode32(s).value.1 + length..];
    }

    method SkipField(wire: nat) returns (ok: bool)
      requires Valid()
      modifies this
      ensures End() == old(End())
      ensures Valid() && Skipped(SkipSize(wire, old(Rest())), old(Rest()), Rest(), ok)
    {
      hide Decode32, VarintSize, DecLength;
      var buf;
      if wire == WT_VARINT {
        ok := SkipVarint();
      } else if wire == WT_64BIT {
        ok, buf := ReadBytes(8);
      } else if wire == WT_STRING {
        ok := SkipString();
      } else if wire == WT_32BIT {
        ok, buf := ReadBytes(4);
      } else {
        ok := false;
      }
    }

    // ---- substreams -----------------------------------------------------------------------

    // A substream over a length-delimited value. Until it is closed the parent
    // stands before the value with what follows it still to read.
    method MakeSubstream() returns (ok: bool, sub: InputStream)
      requires Valid()
      modifies this
      ensures Valid() && End() <= old(End()) && (ok <==> DecLength(old(Rest())).Some?)
      ensures fresh(sub) && sub.Valid() && sub.src == src && sub.End() + bytesLeft <= |src|
      ensures ok ==>
                var (body, n) := DecLength(old(Rest())).value;
                && sub.Rest() == body && sub.End() + bytesLeft == old(End())
                && n <= old(bytesLeft) && src[sub.End()..sub.End() + bytesLeft] == old(Rest())[n..]
    {
      hide Decode32, DecLength;
      ghost var s := Rest();
      LengthParts(s);
      LengthSize(s);
      var size;
      ok, size := ReadVarint32();
      ok := ok && size <= bytesLeft;
      sub := new InputStream.Part(this, if ok then size else 0);
      if ok {
        bytesLeft := bytesLeft - size;
        ghost var n := Decode32(s).value.1;
        SliceOfSlice(src, old(pos), old(End()), n, n + size);
        SliceOfSlice(src, old(pos), old(End()), n + size, |s|);
      }
    }

    // What is left of the substream is passed over.
    method CloseSubstream(sub: InputStream)
      requires sub != this && sub.Valid() && sub.src == src && sub.End() + bytesLeft <= |src|
      modifies this, sub
      ensures Valid() && pos == old(sub.End()) && bytesLeft == old(bytesLeft)
    {
      if sub.bytesLeft > 0 {
        var ok, buf := sub.ReadBytes(sub.bytesLeft);
      }
      pos := sub.pos;
    }

    // ---- values ------------------------------------------------------------------------------

    // A value was read where the bytes have one, and exactly its bytes.
    static predicate Took<T(==)>(r: Read<T>, s: Octets, rest: Octets, ok: bool, value: T)
    {
      && (ok <==> r.Some? && r.value.1 <= |s|)
      && (ok ==> value == r.value.0 && rest == s[r.value.1..])
    }

    method ReadScalar(t: LType) returns (ok: bool, v: Value)
      requires Valid() && Packable(t)
      modifies this
      ensures Valid() && End() == old(End())
      ensures Took(DecScalar(t, old(Rest())), old(Rest()), Rest(), ok, v)
    {
      hide Decode32, Decode64;
      var n, buf;
      ScalarSize(t, Rest());
      v := Flag(false);
      match t {
        case BoolType =>
          ok, n := ReadVarint32();
          v := Flag(n != 0);
        case Fixed32Type =>
          ok, buf := ReadBytes(4);
          v := Word(FromLittleEndian(buf));
        case Fixed64Type =>
          ok, buf := ReadBytes(8);
          v := Word(FromLittleEndian(buf));
        case VarintType(w) =>
          ok, n := ReadVarint64();
          if ok {
            ok, v := ToSigned(w, n);
          }
        case UVarintType(w) =>
          ok, n := ReadVarint64();
          v := Number(n);
          ok := ok && w.FitsUnsigned(n);
        case SVarintType(w) =>
          ok, n := ReadVarint64();
          if ok {
            v := Number(UnZigZag(n));
            ok := w.FitsSigned(UnZigZag(n));
          }
      }
    }

    // The casts of pb_dec_varint.
    static method ToSigned(w: Width, n: nat) returns (ok: bool, v: Value)
      requires n < TWO64
      ensures ok <==> DecSigned(w, n).Some?
      ensures ok ==> DecSigned(w, n) == Some(v)
    {
      var svalue := if w.W64? then Signed(n, TWO64) else Signed(n % TWO32, TWO32);
      v := Number(svalue);
      ok := w.FitsSigned(svalue);
    }

    method ReadPlain(t: LType) returns (ok: bool, v: Value)
      requires Valid() && Plain(t)
      modifies this
      ensures Valid() && End() == old(End())
      ensures Took(DecPlain(t, old(Rest())), old(Rest()), Rest(), ok, v)
    {
      hide Decode32, DecLength;
      ghost var s := Rest();
      LengthParts(s);
      LengthSize(s);
      v := Blob([]);
      var size, buf;
      ok, size := ReadVarint32();
      if !ok {
        return;
      }
      match t {
        case BytesType(max) =>
          if size > max {
            return false, v;
          }
          ok, buf := ReadBytes(size);
          v := Blob(buf);
        case StringType(n) =>
          if size + 1 > n {
            return false, v;
          }
          ok, buf := ReadBytes(size);
          v := Text(UpToNul(buf));
        case FixedBytesType(n) =>
          if size == 0 {
            v := Blob(NoBytes(n));
          } else if size != n {
            return false, v;
          } else {
            ok, buf := ReadBytes(n);
            v := Blob(buf);
          }
      }
    }

    // A length, and then that many bytes if there are as many.
    static lemma LengthParts(s: Octets)
      ensures DecLength(s).Some? <==> Decode32(s).Some? && Decode32(s).value.1 + Decode32(s).value.0 <= |s|
      ensures Decode32(s).Some? ==> Decode32(s).value.1 <= |s|
      ensures DecLength(s).Some? ==>
                var (size, n) := Decode32(s).value;
                DecLength(s) == Some((s[n..n + size], n + size)) && s[n..][..size] == s[n..n + size] && s[n..][size..] == s[n + size..]
    {
      Decode32Reads(s);
    }

    // pb_dec_submessage: the fields of a submessage, from a substream. What is
    // left of it after a zero tag is passed over.
    method ReadSubmessage(t: LType, current: Value) returns (ok: bool, v: Value)
      requires Valid() && t.SubmessageType? && GoodType(t)
      modifies this
      ensures Valid() && End() <= old(End()) && (ok ==> End() == old(End()))
      ensures Took(DecValue(t, current, old(Rest())), old(Rest()), Rest(), ok, v)
      decreases t, 0
    {
      hide DecLength, DecFields;
      ghost var s := Rest();
      LengthSize(s);
      v := current;
      var sub;
      ok, sub := MakeSubstream();
      if !ok {
        return;
      }
      var slots := if current.Message? && |current.slots| == |t.fields| then current.slots else Defaults(t.fields);
      var read;
      ok, read := sub.DecodeNoinit(t.fields, slots);
      v := Message(read);
      CloseSubstream(sub);
    }

    method ReadValue(t: LType, current: Value) returns (ok: bool, v: Value)
      requires Valid() && GoodType(t)
      modifies this
      ensures Valid() && End() <= old(End()) && (ok ==> End() == old(End()))
      ensures Took(DecValue(t, current, old(Rest())), old(Rest()), Rest(), ok, v)
      decreases t, 1
    {
      hide DecScalar, DecPlain, DecFields, DecLength;
      if Packable(t) {
        ok, v := ReadScalar(t);
      } else if Plain(t) {
        ok, v := ReadPlain(t);
      } else {
        ok, v := ReadSubmessage(t, current);
      }
    }

    // ---- fields ---------------------------------------------------------------------------------

    // The packed branch of decode_static_field.
    method ReadPackedArray(t: LType, max: nat, items: seq<Value>) returns (ok: bool, all: seq<Value>)
      requires Valid() && Packable(t)
      modifies this
      ensures Valid() && End() <= old(End()) && (ok ==> End() == old(End()))
      ensures var r := DecLength(old(Rest()));
              && (ok <==> r.Some? && DecPacked(t, items, max, r.value.0).Some?)
              && (ok ==> r.value.1 <= |old(Rest())| && all == DecPacked(t, items, max, r.value.0).value && Rest() == old(Rest())[r.value.1..])
    {
      hide DecLength, DecScalar, DecPacked;
      ghost var s := Rest();
      LengthSize(s);
      all := items;
      var sub;
      ok, sub := MakeSubstream();
      if !ok {
        return;
      }
      ghost var body := sub.Rest();
      var status := true;
      while sub.bytesLeft > 0 && |all| < max
        invariant sub.Valid() && fresh(sub) && sub.src == src && sub.End() == sub.pos + sub.bytesLeft
        invariant Valid() && End() <= old(End()) && bytesLeft + sub.End() == old(End()) && status
        invariant DecPacked(t, items, max, body) == DecPacked(t, all, max, sub.Rest())
        invariant src[sub.End()..sub.End() + bytesLeft] == s[DecLength(s).value.1..]
        decreases sub.bytesLeft
      {
        PackedStep(t, all, max, sub.Rest());
        ScalarSize(t, sub.Rest());
        var good, v := sub.ReadScalar(t);
        if !good {
          status := false;
          break;
        }
        all := all + [v];
      }
      PackedStop(t, all, max, sub.Rest());
      if sub.bytesLeft != 0 {
        return false, all;
      }
      CloseSubstream(sub);
      ok := status;
    }

    static lemma PackedStep(t: LType, items: seq<Value>, max: nat, s: Octets)
      requires Packable(t) && s != [] && |items| < max
      ensures DecScalar(t, s).Some? ==>
                && 0 < DecScalar(t, s).value.1 <= |s|
                && DecPacked(t, items, max, s) == DecPacked(t, items + [DecScalar(t, s).value.0], max, s[DecScalar(t, s).value.1..])
      ensures DecScalar(t, s).None? ==> DecPacked(t, items, max, s) == None
    {
      hide DecScalar;
      ScalarSize(t, s);
    }

    static lemma PackedStop(t: LType, items: seq<Value>, max: nat, s: Octets)
      requires Packable(t)
      ensures s == [] ==> DecPacked(t, items, max, s) == Some(items)
      ensures s != [] && |items| >= max ==> DecPacked(t, items, max, s) == None
    {
    }

    // decode_static_field: where the value goes depends on the field's rule.
    method ReadField(f: Field, slot: Slot, wire: nat) returns (ok: bool, r: Slot)
      requires Valid() && GoodField(f)
      modifies this
      ensures Valid() && End() <= old(End()) && (ok ==> End() == old(End()))
      ensures Took(DecSlot(f, slot, wire, old(Rest())), old(Rest()), Rest(), ok, r)
      decreases f, 2
    {
      hide DecSlot, DecLength, DecPacked, DecValue, Default, GoodType;
      ghost var s := Rest();
      SlotSteps(f, slot, wire, s);
      r := slot;
      var v;
      match f.htype {
        case Required =>
          ok, v := ReadValue(f.ltype, Current(f, slot));
          r := One(v);
        case Optional(has) =>
          ok, v := ReadValue(f.ltype, Current(f, slot));
          r := if has then Maybe(Some(v)) else One(v);
        case Repeated(max) =>
          var items := if slot.Many? then slot.items else [];
          if wire == WT_STRING && Packable(f.ltype) {
            ok, items := ReadPackedArray(f.ltype, max, items);
            r := Many(items);
          } else if slot.Many? && |slot.items| >= max {
            ok := false;
          } else {
            ok, v := ReadValue(f.ltype, Default(f.ltype));
            r := Many(items + [v]);
          }
        case Oneof(_) =>
          ok, v := ReadValue(f.ltype, Default(f.ltype));
          r := Maybe(Some(v));
      }
    }

    // What one occurrence of a field is, by the branch that reads it.
    static lemma SlotSteps(f: Field, slot: Slot, wire: nat, s: Octets)
      ensures var d, items := DecSlot(f, slot, wire, s), if slot.Many? then slot.items else [];
              if f.htype.Repeated? && wire == WT_STRING && Packable(f.ltype) then
                var r := DecLength(s);
                d == (if r.Some? && DecPacked(f.ltype, items, f.htype.max, r.value.0).Some?
                      then Some((Many(DecPacked(f.ltype, items, f.htype.max, r.value.0).value), r.value.1)) else None)
              else if f.htype.Repeated? && slot.Many? && |slot.items| >= f.htype.max then d == None
              else
                var r := DecValue(f.ltype, Current(f, slot), s);
                d == (if r.Some? then Some((Stored(f, slot, r.value.0), r.value.1)) else None)
    {
      hide DecLength, DecPacked, DecValue, Default;
    }

    // ---- messages ----------------------------------------------------------------------------------

    // pb_decode_tag; `eof` also on a zero tag.
    method ReadTag() returns (ok: bool, eof: bool, tag: nat, wire: nat)
      requires Valid()
      modifies this
      ensures Valid() && End() == old(End())
      ensures var r := Decode32(old(Rest()));
              && (ok <==> r.Some? && r.value.0 != 0)
              && (eof <==> old(bytesLeft) == 0 || (r.Some? && r.value.0 == 0))
              && (ok || (eof && old(bytesLeft) > 0) ==> r.Some? && r.value.1 <= |old(Rest())| && Rest() == old(Rest())[r.value.1..])
              && (ok ==> tag == r.value.0 / 8 && wire == r.value.0 % 8)
    {
      hide Decode32;
      eof, tag, wire := bytesLeft == 0, 0, 0;
      NothingToDecode();
      var head;
      ok, head := ReadVarint32();
      if !ok {
        return;
      }
      if head == 0 {
        return false, true, 0, 0;
      }
      tag, wire := head / 8, head % 8;
    }

    static lemma NothingToDecode()
      ensures Decode32([]) == None
    {
    }

    // ---- the descriptor list as the iterator walks it ------------------------------------------

    static function RuleOf(h: HType): FieldIterator.Rule
    {
      match h
      case Required => FieldIterator.RequiredRule
      case Optional(_) => FieldIterator.OptionalRule
      case Repeated(_) => FieldIterator.RepeatedRule
      case Oneof(_) => FieldIterator.OneofRule
    }

    // Where the members lie in the struct plays no part in which one is found.
    static function Raw(fields: seq<Field>): (fs: FieldIterator.Fields)
      requires forall f | f in fields :: f.tag != 0
      ensures |fs| == |fields|
    {
      seq(|fields|, i requires 0 <= i < |fields| =>
        FieldIterator.Descriptor(fields[i].tag, false, RuleOf(fields[i].htype), FieldIterator.StaticField, 0, 0, 0, 0))
    }

    static lemma TagsAreSet(fields: seq<Field>)
      requires GoodFields(fields)
      ensures forall f | f in fields :: f.tag != 0
    {
    }

    static lemma {:induction false} RawCounts(fields: seq<Field>, pos: nat)
      requires (forall f | f in fields :: f.tag != 0) && pos <= |fields|
      ensures FieldIterator.RequiredBefore(Raw(fields), pos) == RequiredCount(fields[..pos])
    {
      if pos > 0 {
        RawCounts(fields, pos - 1);
        assert fields[..pos][..pos - 1] == fields[..pos - 1];
      }
    }

    // The field the iterator stops at is the one with the tag.
    static lemma FoundIs(fields: seq<Field>, tag: nat, found: bool, pos: nat)
      requires GoodFields(fields) && fields != [] && forall f | f in fields :: f.tag != 0
      requires found <==> exists i :: 0 <= i < |fields| && Raw(fields)[i].tag == tag && !Raw(fields)[i].extension
      requires found ==> pos < |fields| && Raw(fields)[pos].tag == tag
      ensures found <==> IndexOf(fields, tag).Some?
      ensures found ==> IndexOf(fields, tag) == Some(pos)
    {
      hide GoodField;
      if IndexOf(fields, tag).Some? {
        assert Raw(fields)[IndexOf(fields, tag).value].tag == tag;
      }
      if found {
        Unique(fields, tag, pos);
      }
    }

    static lemma Unique(fields: seq<Field>, tag: nat, i: nat)
      requires GoodFields(fields) && i < |fields| && fields[i].tag == tag
      ensures IndexOf(fields, tag) == Some(i)
    {
      hide GoodField;
      assert fields[i] in fields;
    }

    // The bits recorded are the places, among the required fields, of those seen.
    static ghost predicate Records(fields: seq<Field>, seen: set<nat>, words: seq<FieldIterator.Word>)
      requires |words| == 2
    {
      forall k :: FieldIterator.Seen(words, k) <==>
        exists i :: i in seen && i < |fields| && fields[i].htype.Required? && RequiredCount(fields[..i]) == k && k < 64
    }

    // pb_decode_noinit.
    method DecodeNoinit(fields: seq<Field>, slots: seq<Slot>) returns (ok: bool, r: seq<Slot>)
      requires Valid() && GoodFields(fields) && |slots| == |fields|
      modifies this
      ensures Valid() && End() <= old(End()) && (ok ==> End() == old(End()))
      ensures var d := DecFields(fields, State(slots, {}), old(Rest()));
              (ok <==> d.Some?) && (ok ==> r == d.value.0 && Rest() == d.value.1)
      ensures ok && AllFit(fields, slots) ==> AllFit(fields, r)
      decreases fields, 3
    {
      hide Decode32, DecFields, DecSlot, DecTagged, SkipSize, Records, AllSeen, GoodFields, GoodField, Finish, Put, AllFit;
      hide FieldIterator.Passed, FieldIterator.DataAt, FieldIterator.SizeAt, FieldIterator.RequiredBefore, FieldIterator.Seen, Raw, IndexOf, Decode64, VarintSize;
      ghost var goal := DecFields(fields, State(slots, {}), Rest());
      if AllFit(fields, slots) { FieldsFit(fields, State(slots, {}), Rest()); }
      r := slots;
      ghost var seen: set<nat> := {};
      var words: seq<FieldIterator.Word> := [{}, {}];
      NoneSeen(fields);
      TagsAreSet(fields);
      var iter := new FieldIterator.Iterator(Raw(fields), 0);
      while bytesLeft > 0
        invariant Valid() && End() == old(End()) && |r| == |fields| && |words| == 2 && Records(fields, seen, words)
        invariant goal == DecFields(fields, State(r, seen), Rest())
        invariant iter.Valid() && fresh(iter) && iter.fields == Raw(fields)
        decreases bytesLeft
      {
        DecodeStep(fields, State(r, seen), Rest());
        var eof, tag, wire;
        ok, eof, tag, wire := ReadTag();
        if !ok {
          if eof { break; } else { return false, r; }
        }
        TaggedStep(fields, State(r, seen), tag, wire, Rest());
        var found := iter.Find(tag);
        if fields != [] { FoundIs(fields, tag, found, iter.pos); } else { NoIndex(tag); }
        if !found {
          ok := SkipField(wire);
          if !ok { return false, r; }
        } else if fields == [] {
          // The terminator of an empty list is taken for a bool.
          var flag;
          ok, flag := ReadVarint32();
          if !ok { return false, r; }
        } else {
          var at := iter.pos;
          words := Mark(fields, seen, words, iter);
          FieldIsGood(fields, at);
          var slot;
          ok, slot := ReadField(fields[at], r[at], wire);
          if !ok { return false, r; }
          r := Put(fields, r, at, slot);
          seen := seen + {at};
        }
      }
      DecodeStep(fields, State(r, seen), Rest());
      assert goal == Finish(fields, State(r, seen), Rest());
      ok := CheckSeen(fields, seen, words, iter);
      FinishIs(fields, State(r, seen), Rest());
    }

    static lemma NoIndex(tag: nat)
      ensures IndexOf([], tag) == None
    {
    }

    // A required field sets the bit of its number among the required ones.
    static method Mark(fields: seq<Field>, ghost seen: set<nat>, words: seq<FieldIterator.Word>, iter: FieldIterator.Iterator)
        returns (marked: seq<FieldIterator.Word>)
      requires |words| == 2 && Records(fields, seen, words) && (forall f | f in fields :: f.tag != 0)
      requires iter.Valid() && iter.fields == Raw(fields) && iter.pos < |fields|
      ensures |marked| == 2 && Records(fields, seen + {iter.pos}, marked)
    {
      hide Records, RequiredCount, FieldIterator.Seen;
      marked := FieldIterator.MarkSeen(words, iter.requiredIndex, FieldIterator.At(iter.fields, iter.pos).rule);
      RawCounts(fields, iter.pos);
      MarksPlace(fields, seen, words, marked, iter.pos);
    }

    static lemma FinishIs(fields: seq<Field>, st: State, rest: Octets)
      ensures Finish(fields, st, rest) == if AllSeen(fields, st.seen) then Some((st.slots, rest)) else None
    {
    }

    static lemma FieldIsGood(fields: seq<Field>, i: nat)
      requires GoodFields(fields) && i < |fields|
      ensures GoodField(fields[i])
    {
    }

    static lemma DecodeStep(fields: seq<Field>, st: State, s: Octets)
      requires |st.slots| == |fields|
      ensures var d := DecFields(fields, st, s);
              if s == [] then d == Finish(fields, st, s)
              else if Decode32(s).None? then d == None
              else
                var (head, n) := Decode32(s).value;
                && 0 < n <= |s|
                && d == if head == 0 then Finish(fields, st, s[n..]) else DecTagged(fields, st, head / 8, head % 8, s[n..])
    {
      hide Decode32, DecTagged, Finish;
      Decode32Reads(s);
      SizeBound(s);
    }

    static lemma TaggedStep(fields: seq<Field>, st: State, tag: nat, wire: nat, s: Octets)
      requires |st.slots| == |fields|
      ensures var d := DecTagged(fields, st, tag, wire, s);
              match IndexOf(fields, tag)
              case None =>
                var k := if fields == [] && tag == 0 then SkipBool(s) else SkipSize(wire, s);
                d == if k.Some? && k.value <= |s| then DecFields(fields, st, s[k.value..]) else None
              case Some(i) =>
                var r := DecSlot(fields[i], st.slots[i], wire, s);
                d == if r.Some? && r.value.1 <= |s| then
                       DecFields(fields, State(Put(fields, st.slots, i, r.value.0), st.seen + {i}), s[r.value.1..])
                     else None
    {
      hide DecSlot, DecFields, SkipSize, SkipBool, Put;
    }

    // ---- the bitmap of required fields ----------------------------------------------------------

    static lemma NoneSeen(fields: seq<Field>)
      ensures Records(fields, {}, [{}, {}])
    {
    }

    static lemma MarksPlace(fields: seq<Field>, seen: set<nat>, words: seq<FieldIterator.Word>, marked: seq<FieldIterator.Word>, at: nat)
      requires |words| == 2 && |marked| == 2 && at < |fields| && Records(fields, seen, words)
      requires forall k :: FieldIterator.Seen(marked, k) <==>
                 FieldIterator.Seen(words, k) || (k == RequiredCount(fields[..at]) && fields[at].htype.Required? && RequiredCount(fields[..at]) < 64)
      ensures Records(fields, seen + {at}, marked)
    {
      hide FieldIterator.Seen, RequiredCount;
      forall k: nat ensures FieldIterator.Seen(marked, k) <==>
        exists i :: i in seen + {at} && i < |fields| && fields[i].htype.Required? && RequiredCount(fields[..i]) == k && k < 64
      {
        if FieldIterator.Seen(words, k) {
          var i :| i in seen && i < |fields| && fields[i].htype.Required? && RequiredCount(fields[..i]) == k && k < 64;
          assert i in seen + {at};
        } else if FieldIterator.Seen(marked, k) {
          assert at in seen + {at};
        }
        if i :| i in seen + {at} && i < |fields| && fields[i].htype.Required? && RequiredCount(fields[..i]) == k && k < 64 {
          if i in seen { assert FieldIterator.Seen(words, k); }
        }
      }
    }

    // Required fields are numbered in order, without gaps.
    static lemma {:induction false} CountsGrow(fields: seq<Field>, i: nat, j: nat)
      requires i <= j <= |fields|
      ensures RequiredCount(fields[..i]) <= RequiredCount(fields[..j])
      ensures i < j && fields[i].htype.Required? ==> RequiredCount(fields[..i]) < RequiredCount(fields[..j])
      decreases j
    {
      if i < j {
        assert fields[..j][..j - 1] == fields[..j - 1];
        if i < j - 1 { CountsGrow(fields, i, j - 1); }
      }
    }

    static lemma {:induction false} PlaceWithCount(fields: seq<Field>, n: nat, k: nat) returns (i: nat)
      requires n <= |fields| && k < RequiredCount(fields[..n])
      ensures i < n && fields[i].htype.Required? && RequiredCount(fields[..i]) == k
      decreases n
    {
      assert fields[..n][..n - 1] == fields[..n - 1];
      if k < RequiredCount(fields[..n - 1]) {
        i := PlaceWithCount(fields, n - 1, k);
      } else {
        i := n - 1;
      }
    }

    // The test on the bitmap, after seeking the end of the list, is the test that
    // every required field it has room for was seen.
    static method CheckSeen(fields: seq<Field>, ghost seen: set<nat>, words: seq<FieldIterator.Word>, iter: FieldIterator.Iterator)
        returns (ok: bool)
      requires |words| == 2 && Records(fields, seen, words) && (forall f | f in fields :: f.tag != 0)
      requires iter.Valid() && iter.fields == Raw(fields)
      modifies iter
      ensures ok <==> AllSeen(fields, seen)
    {
      hide FieldIterator.Seen, RequiredCount, AllSeen;
      ghost var count := RequiredCount(fields);
      assert fields[..|fields|] == fields;
      RawCounts(fields, |fields|);
      forall k: nat | FieldIterator.Seen(words, k) ensures k < count {
        var i :| i in seen && i < |fields| && fields[i].htype.Required? && RequiredCount(fields[..i]) == k && k < 64;
        CountsGrow(fields, i, |fields|);
      }
      ok := FieldIterator.CheckRequired(iter, words);
      SeenAll(fields, seen, words, Min(count, 64));
    }

    static lemma SeenAll(fields: seq<Field>, seen: set<nat>, words: seq<FieldIterator.Word>, count: nat)
      requires |words| == 2 && Records(fields, seen, words) && count == Min(RequiredCount(fields), 64)
      ensures AllSeen(fields, seen) <==> forall k | 0 <= k < count :: FieldIterator.Seen(words, k)
    {
      hide FieldIterator.Seen, RequiredCount;
      assert fields[..|fields|] == fields;
      if AllSeen(fields, seen) {
        forall k | 0 <= k < count ensures FieldIterator.Seen(words, k) {
          var i := PlaceWithCount(fields, |fields|, k);
          assert i in seen;
        }
      }
      if forall k | 0 <= k < count :: FieldIterator.Seen(words, k) {
        forall i | 0 <= i < |fields| && fields[i].htype.Required? && RequiredCount(fields[..i]) < 64 ensures i in seen {
          var k := RequiredCount(fields[..i]);
          CountsGrow(fields, i, |fields|);
          assert FieldIterator.Seen(words, k);
          var m :| m in seen && m < |fields| && fields[m].htype.Required? && RequiredCount(fields[..m]) == k && k < 64;
          if m < i { CountsGrow(fields, m, i); }
          if i < m { CountsGrow(fields, i, m); }
        }
      }
    }

    // pb_decode: defaults first.
    method Decode(fields: seq<Field>) returns (ok: bool, r: seq<Slot>)
      requires Valid() && GoodFields(fields)
      modifies this
      ensures Valid()
      ensures var d := DecFields(fields, State(Defaults(fields), {}), old(Rest()));
              (ok <==> d.Some?) && (ok ==> r == d.value.0 && Rest() == d.value.1)
      ensures ok ==> AllFit(fields, r)
    {
      hide DecFields, AllFit;
      DefaultsFit(fields);
      ok, r := DecodeNoinit(fields, Defaults(fields));
    }
  }
}
