// The encoder as it runs: a stream that writes, or only counts, and recursion
// that sizes a submessage before writing it (nanopb: pb_encode.c).
module MessageEncoder {
  import opened Bytes
  import opened Varint
  import opened Messages
  import opened MessageSizes
  import opened MessageFormat

  // Two encodings one after the other; an error in either is an error.
  function Then(a: Option<Octets>, b: Option<Octets>): Option<Octets>
  {
    if a.None? || b.None? then None else Some(a.value + b.value)
  }

  // What came of encoding something: it succeeds exactly when there is an
  // encoding and, on a writing stream, room for all of it; then exactly its
  // bytes are counted and written. Whatever happens, the pointer keeps step
  // with the count and never passes the limit.
  predicate Outcome(sizing: bool, max: nat, w: Octets, n: nat, w': Octets, n': nat, enc: Option<Octets>, ok: bool)
  {
    && (ok <==> enc.Some? && (sizing || n + |enc.value| <= max))
    && (ok ==> n' == n + |enc.value| && w' == if sizing then w else w + enc.value)
    && w <= w' && n <= n'
    && (if sizing then w' == w else |w'| - |w| == n' - n && (n <= max ==> n' <= max))
  }

  lemma OutcomeThen(sizing: bool, max: nat, w: Octets, n: nat, w1: Octets, n1: nat, w2: Octets, n2: nat,
                    a: Option<Octets>, b: Option<Octets>, ok: bool)
    requires Outcome(sizing, max, w, n, w1, n1, a, true) && Outcome(sizing, max, w1, n1, w2, n2, b, ok)
    ensures Outcome(sizing, max, w, n, w2, n2, Then(a, b), ok)
  {
    if b.Some? { assert w + a.value + b.value == w + (a.value + b.value); }
  }

  // A first part that fails settles it.
  lemma OutcomeFails(sizing: bool, max: nat, w: Octets, n: nat, w1: Octets, n1: nat, a: Option<Octets>, b: Option<Octets>)
    requires Outcome(sizing, max, w, n, w1, n1, a, false)
    ensures Outcome(sizing, max, w, n, w1, n1, Then(a, b), false)
  {
  }

  class OutputStream {
    // A stream without a callback only counts.
    const sizing: bool
    // The bytes before the destination pointer.
    var written: Octets
    var maxSize: nat
    var bytesWritten: nat

    ghost predicate Valid()
      reads this
    {
      sizing || bytesWritten <= maxSize
    }

    constructor (size: nat)
      ensures Valid() && !sizing && written == [] && maxSize == size && bytesWritten == 0
    {
      sizing, written, maxSize, bytesWritten := false, [], size, 0;
    }

    constructor Sizing()
      ensures Valid() && sizing && bytesWritten == 0
    {
      sizing, written, maxSize, bytesWritten := true, [], 0, 0;
    }

    // The substream for a submessage of known size.
    constructor Within(parent: OutputStream, size: nat)
      ensures Valid() && !sizing && written == parent.written && maxSize == size && bytesWritten == 0
    {
      sizing, written, maxSize, bytesWritten := false, parent.written, size, 0;
    }

    // pb_write.
    method Write(buf: Octets) returns (ok: bool)
      requires Valid()
      modifies this`written, this`bytesWritten
      ensures Valid() && Outcome(sizing, maxSize, old(written), old(bytesWritten), written, bytesWritten, Some(buf), ok)
    {
      if |buf| > 0 && !sizing {
        if bytesWritten + |buf| > maxSize {
          return false;
        }
        written := written + buf;
      }
      bytesWritten := bytesWritten + |buf|;
      ok := true;
    }

    // pb_write without a buffer: only on a stream that counts.
    method Count(ghost buf: Octets, size: nat) returns (ok: bool)
      requires Valid() && sizing && size == |buf|
      modifies this`bytesWritten
      ensures Valid() && ok && Outcome(sizing, maxSize, written, old(bytesWritten), written, bytesWritten, Some(buf), true)
    {
      bytesWritten := bytesWritten + size;
      ok := true;
    }

    method WriteVarint(value: nat) returns (ok: bool)
      requires Valid()
      modifies this`written, this`bytesWritten
      ensures Valid() && Outcome(sizing, maxSize, old(written), old(bytesWritten), written, bytesWritten, Some(VarintBytes(value)), ok)
    {
      var buffer := EncodeVarint(value);
      ok := Write(buffer);
    }

    method WriteTag(wire: nat, tag: nat) returns (ok: bool)
      requires Valid()
      modifies this`written, this`bytesWritten
      ensures Valid() && Outcome(sizing, maxSize, old(written), old(bytesWritten), written, bytesWritten, Some(TagBytes(wire, tag)), ok)
    {
      ok := WriteVarint(8 * tag + wire);
    }

    // pb_encode_string.
    method WriteString(buffer: Octets) returns (ok: bool)
      requires Valid()
      modifies this`written, this`bytesWritten
      ensures Valid() && Outcome(sizing, maxSize, old(written), old(bytesWritten), written, bytesWritten, Some(LengthPrefixed(buffer)), ok)
    {
      hide Outcome;
      ghost var w, n := written, bytesWritten;
      ghost var head := Some(VarintBytes(|buffer|));
      ok := WriteVarint(|buffer|);
      if !ok {
        OutcomeFails(sizing, maxSize, w, n, written, bytesWritten, head, Some(buffer));
        return;
      }
      ghost var w1, n1 := written, bytesWritten;
      ok := Write(buffer);
      OutcomeThen(sizing, maxSize, w, n, w1, n1, written, bytesWritten, head, Some(buffer), ok);
    }

    // The encoders for one value.
    method WriteScalar(t: LType, v: Value) returns (ok: bool)
      requires Valid() && Packable(t) && HasType(t, v)
      modifies this`written, this`bytesWritten
      ensures Valid() && Outcome(sizing, maxSize, old(written), old(bytesWritten), written, bytesWritten, Some(EncScalar(t, v)), ok)
    {
      hide Outcome;
      match t {
        case BoolType => ok := WriteVarint(if v.on then 1 else 0);
        case VarintType(w) => FitsWidest(w, v.n); ok := WriteVarint(Pattern(v.n));
        case UVarintType(_) => ok := WriteVarint(v.n);
        case SVarintType(w) => FitsWidest(w, v.n); ok := WriteVarint(ZigZag(v.n));
        case Fixed32Type => ok := Write(ToLittleEndian(v.bits, 4));
        case Fixed64Type => ok := Write(ToLittleEndian(v.bits, 8));
      }
    }

    method WriteValue(t: LType, v: Value) returns (ok: bool)
      requires Valid() && HasType(t, v)
      modifies this`written, this`bytesWritten
      ensures Valid() && Outcome(sizing, maxSize, old(written), old(bytesWritten), written, bytesWritten, EncValue(t, v), ok)
      decreases t, 1
    {
      hide Outcome, EncFields, EncScalar, LengthPrefixed;
      match t {
        case BytesType(max) =>
          if |v.bytes| > max {
            NoEncoding(sizing, maxSize, written, bytesWritten);
            return false;
          }
          ok := WriteString(v.bytes);
        case StringType(_) => ok := WriteString(v.chars);
        case FixedBytesType(_) => ok := WriteString(v.bytes);
        case SubmessageType(fields) => ok := WriteSubmessage(t, v);
        case _ => ok := WriteScalar(t, v);
      }
    }

    static lemma NoEncoding(sizing: bool, max: nat, w: Octets, n: nat)
      ensures Outcome(sizing, max, w, n, w, n, None, false)
    {
    }

    // pb_encode_submessage: the same fields are encoded twice, first only
    // counting, and both passes agree.
    method WriteSubmessage(t: LType, v: Value) returns (ok: bool)
      requires Valid() && t.SubmessageType? && HasType(t, v)
      modifies this`written, this`bytesWritten
      ensures Valid() && Outcome(sizing, maxSize, old(written), old(bytesWritten), written, bytesWritten, EncValue(t, v), ok)
      decreases t, 0
    {
      hide EncFields, Defaults, BareFields;
      ghost var enc := EncFields(t.fields, v.slots);
      var counter := new OutputStream.Sizing();
      ok := counter.Encode(t.fields, v.slots);
      if !ok {
        return;
      }
      var size := counter.bytesWritten;
      assert enc.Some? && size == |enc.value|;
      ok := WriteVarint(size);
      if !ok {
        return;
      }
      if sizing {
        ok := Count(enc.value, size);
        return;
      }
      if bytesWritten + size > maxSize {
        return false;
      }
      var substream := new OutputStream.Within(this, size);
      ok := substream.Encode(t.fields, v.slots);
      bytesWritten := bytesWritten + substream.bytesWritten;
      written := substream.written;
      assert substream.bytesWritten == size;
      if substream.bytesWritten != size {
        return false;
      }
    }

    method WriteTagged(f: Field, v: Value) returns (ok: bool)
      requires Valid() && HasType(f.ltype, v)
      modifies this`written, this`bytesWritten
      ensures Valid() && Outcome(sizing, maxSize, old(written), old(bytesWritten), written, bytesWritten, EncTagged(f, v), ok)
      decreases f, 0
    {
      hide Outcome, EncValue, TagBytes;
      ghost var w, n := written, bytesWritten;
      ghost var head := Some(TagBytes(WireType(f.ltype), f.tag));
      ok := WriteTag(WireType(f.ltype), f.tag);
      if !ok {
        OutcomeFails(sizing, maxSize, w, n, written, bytesWritten, head, EncValue(f.ltype, v));
        return;
      }
      ghost var w1, n1 := written, bytesWritten;
      ok := WriteValue(f.ltype, v);
      OutcomeThen(sizing, maxSize, w, n, w1, n1, written, bytesWritten, head, EncValue(f.ltype, v), ok);
    }

    // Items one after the other, untagged or each with its tag.
    method WritePacked(t: LType, items: seq<Value>) returns (ok: bool)
      requires Valid() && Packable(t) && forall v | v in items :: HasType(t, v)
      modifies this`written, this`bytesWritten
      ensures Valid() && Outcome(sizing, maxSize, old(written), old(bytesWritten), written, bytesWritten, Some(EncPacked(t, items)), ok)
    {
      hide Outcome, EncScalar, EncPacked;
      ghost var w, n := written, bytesWritten;
      ghost var done: Octets := [];
      NothingYet(sizing, maxSize, w, n);
      var i := 0;
      while i < |items|
        invariant 0 <= i <= |items| && Valid() && Outcome(sizing, maxSize, w, n, written, bytesWritten, Some(done), true)
        invariant EncPacked(t, items) == done + EncPacked(t, items[i..])
      {
        ghost var w1, n1 := written, bytesWritten;
        ghost var s, rest := EncScalar(t, items[i]), EncPacked(t, items[i + 1..]);
        PackedNext(t, items, i, done);
        ok := WriteScalar(t, items[i]);
        OutcomeThen(sizing, maxSize, w, n, w1, n1, written, bytesWritten, Some(done), Some(s), ok);
        if !ok {
          OutcomeFails(sizing, maxSize, w, n, written, bytesWritten, Then(Some(done), Some(s)), Some(rest));
          return;
        }
        done := done + s;
        i := i + 1;
      }
      PackedEnd(t, items, done);
      ok := true;
    }

    static lemma NothingYet(sizing: bool, max: nat, w: Octets, n: nat)
      requires sizing || n <= max
      ensures Outcome(sizing, max, w, n, w, n, Some([]), true)
    {
    }

    static lemma PackedNext(t: LType, items: seq<Value>, i: nat, done: Octets)
      requires Packable(t) && i < |items| && forall v | v in items :: HasType(t, v)
      ensures EncPacked(t, items[i..]) == EncScalar(t, items[i]) + EncPacked(t, items[i + 1..])
      ensures done + EncPacked(t, items[i..]) == done + EncScalar(t, items[i]) + EncPacked(t, items[i + 1..])
    {
      hide EncScalar;
      assert items[i..][1..] == items[i + 1..] && items[i..][0] == items[i];
    }

    static lemma PackedEnd(t: LType, items: seq<Value>, done: Octets)
      requires Packable(t)
      ensures items[|items|..] == [] && done + EncPacked(t, []) == done
    {
    }

    method WriteItems(f: Field, items: seq<Value>) returns (ok: bool)
      requires Valid() && forall v | v in items :: HasType(f.ltype, v)
      modifies this`written, this`bytesWritten
      ensures Valid() && Outcome(sizing, maxSize, old(written), old(bytesWritten), written, bytesWritten, EncItems(f, items), ok)
      decreases f, 1
    {
      hide Outcome, EncTagged, EncItems;
      ghost var w, n := written, bytesWritten;
      ghost var done: Octets := [];
      NothingYet(sizing, maxSize, w, n);
      ItemsStart(f, items);
      var i := 0;
      while i < |items|
        invariant 0 <= i <= |items| && Valid() && Outcome(sizing, maxSize, w, n, written, bytesWritten, Some(done), true)
        invariant EncItems(f, items) == Then(Some(done), EncItems(f, items[i..]))
      {
        ghost var w1, n1 := written, bytesWritten;
        ghost var s, rest := EncTagged(f, items[i]), EncItems(f, items[i + 1..]);
        ItemsNext(f, items, i, done);
        ok := WriteTagged(f, items[i]);
        OutcomeThen(sizing, maxSize, w, n, w1, n1, written, bytesWritten, Some(done), s, ok);
        if !ok {
          OutcomeFails(sizing, maxSize, w, n, written, bytesWritten, Then(Some(done), s), rest);
          return;
        }
        OutcomeMeansSome(sizing, maxSize, w1, n1, written, bytesWritten, s);
        done := done + s.value;
        i := i + 1;
      }
      ItemsEnd(f, items, done);
      ok := true;
    }

    static lemma OutcomeMeansSome(sizing: bool, max: nat, w: Octets, n: nat, w1: Octets, n1: nat, enc: Option<Octets>)
      requires Outcome(sizing, max, w, n, w1, n1, enc, true)
      ensures enc.Some?
    {
    }

    static lemma ItemsStart(f: Field, items: seq<Value>)
      requires forall v | v in items :: HasType(f.ltype, v)
      ensures items[0..] == items && EncItems(f, items) == Then(Some([]), EncItems(f, items))
    {
      hide EncTagged;
      assert EncItems(f, items).Some? ==> [] + EncItems(f, items).value == EncItems(f, items).value;
    }

    static lemma ItemsNext(f: Field, items: seq<Value>, i: nat, done: Octets)
      requires i < |items| && forall v | v in items :: HasType(f.ltype, v)
      ensures Then(Some(done), EncItems(f, items[i..])) ==
              Then(Then(Some(done), EncTagged(f, items[i])), EncItems(f, items[i + 1..]))
    {
      hide EncTagged, HasType;
      assert items[i..][1..] == items[i + 1..] && items[i..][0] == items[i];
      var a, b := EncTagged(f, items[i]), EncItems(f, items[i + 1..]);
      if a.Some? && b.Some? { assert done + (a.value + b.value) == done + a.value + b.value; }
    }

    static lemma ItemsEnd(f: Field, items: seq<Value>, done: Octets)
      ensures items[|items|..] == [] && Then(Some(done), EncItems(f, [])) == Some(done)
    {
      assert done + [] == done;
    }

    // encode_array for a packable type: the total size is known, or counted on
    // a stream of its own, before anything is written.
    method WritePackedArray(f: Field, items: seq<Value>) returns (ok: bool)
      requires Valid() && Packable(f.ltype) && forall v | v in items :: HasType(f.ltype, v)
      modifies this`written, this`bytesWritten
      ensures Valid() && Outcome(sizing, maxSize, old(written), old(bytesWritten), written, bytesWritten,
                                 Some(TagBytes(WT_STRING, f.tag) + LengthPrefixed(EncPacked(f.ltype, items))), ok)
    {
      hide EncPacked, VarintBytes, HasType;
      ghost var body := EncPacked(f.ltype, items);
      ok := WriteTag(WT_STRING, f.tag);
      if !ok {
        return;
      }
      var size: nat;
      if f.ltype.Fixed32Type? {
        size := 4 * |items|;
        FixedSize(f.ltype, items, 4);
      } else if f.ltype.Fixed64Type? {
        size := 8 * |items|;
        FixedSize(f.ltype, items, 8);
      } else {
        var counter := new OutputStream.Sizing();
        ok := counter.WritePacked(f.ltype, items);
        if !ok {
          return;
        }
        size := counter.bytesWritten;
      }
      assert size == |body|;
      ok := WriteVarint(size);
      if !ok {
        return;
      }
      if sizing {
        ok := Count(body, size);
      } else {
        ok := WritePacked(f.ltype, items);
      }
    }

    static lemma {:induction false} FixedSize(t: LType, items: seq<Value>, k: nat)
      requires t.Fixed32Type? || t.Fixed64Type?
      requires k == if t.Fixed32Type? then 4 else 8
      requires forall v | v in items :: HasType(t, v)
      ensures |EncPacked(t, items)| == k * |items|
      decreases |items|
    {
      if items != [] { FixedSize(t, items[1..], k); }
    }

    // encode_basic_field.
    method WriteField(f: Field, slot: Slot) returns (ok: bool)
      requires Valid() && SlotHasType(f, slot)
      modifies this`written, this`bytesWritten
      ensures Valid() && Outcome(sizing, maxSize, old(written), old(bytesWritten), written, bytesWritten, EncSlot(f, slot), ok)
      ensures slot == DefaultSlot(f) && BareField(f) ==> ok && written == old(written) && bytesWritten == old(bytesWritten)
      ensures ok && bytesWritten == old(bytesWritten) ==> slot == DefaultSlot(f) && BareField(f)
      decreases f, 2
    {
      SilentExactly(f, slot);
      hide DefaultSlot, BareField;
      hide Outcome, EncTagged, EncItems, EncPacked, IsZero, HasType;
      match f.htype {
        case Required =>
          ok := WriteTagged(f, slot.v);
        case Optional(has) =>
          if if has then slot.o.Some? else !IsZero(f.ltype, slot.v) {
            ok := WriteTagged(f, if has then slot.o.value else slot.v);
          } else {
            NothingYet(sizing, maxSize, written, bytesWritten);
            ok := true;
          }
        case Repeated(max) =>
          if slot.items == [] {
            NothingYet(sizing, maxSize, written, bytesWritten);
            return true;
          }
          if |slot.items| > max {
            NoEncoding(sizing, maxSize, written, bytesWritten);
            return false;
          }
          if Packable(f.ltype) {
            ok := WritePackedArray(f, slot.items);
          } else {
            ok := WriteItems(f, slot.items);
          }
        case Oneof(_) =>
          if slot.o.Some? {
            ok := WriteTagged(f, slot.o.value);
          } else {
            NothingYet(sizing, maxSize, written, bytesWritten);
            ok := true;
          }
      }
    }

    // pb_encode: every field in turn.
    method Encode(fields: seq<Field>, slots: seq<Slot>) returns (ok: bool)
      requires Valid() && HaveTypes(fields, slots)
      modifies this`written, this`bytesWritten
      ensures Valid() && Outcome(sizing, maxSize, old(written), old(bytesWritten), written, bytesWritten, EncFields(fields, slots), ok)
      ensures slots == Defaults(fields) && BareFields(fields) ==> ok && written == old(written) && bytesWritten == old(bytesWritten)
      ensures ok && bytesWritten == old(bytesWritten) ==> slots == Defaults(fields) && BareFields(fields)
      decreases fields, 3
    {
      MessageIsSilent(fields, slots);
      hide Defaults, BareFields;
      hide Outcome, EncSlot, EncFields, SlotHasType;
      ghost var w, n := written, bytesWritten;
      ghost var done: Octets := [];
      NothingYet(sizing, maxSize, w, n);
      FieldsStart(fields, slots);
      var i := 0;
      while i < |fields|
        invariant 0 <= i <= |fields| && Valid() && Outcome(sizing, maxSize, w, n, written, bytesWritten, Some(done), true)
        invariant HaveTypes(fields[i..], slots[i..])
        invariant EncFields(fields, slots) == Then(Some(done), EncFields(fields[i..], slots[i..]))
      {
        ghost var w1, n1 := written, bytesWritten;
        FieldsNext(fields, slots, i, done);
        ghost var s, rest := EncSlot(fields[i], slots[i]), EncFields(fields[i + 1..], slots[i + 1..]);
        ok := WriteField(fields[i], slots[i]);
        OutcomeThen(sizing, maxSize, w, n, w1, n1, written, bytesWritten, Some(done), s, ok);
        if !ok {
          OutcomeFails(sizing, maxSize, w, n, written, bytesWritten, Then(Some(done), s), rest);
          return;
        }
        OutcomeMeansSome(sizing, maxSize, w1, n1, written, bytesWritten, s);
        done := done + s.value;
        i := i + 1;
      }
      FieldsEnd(fields, slots, done);
      ok := true;
    }

    static lemma FieldsStart(fields: seq<Field>, slots: seq<Slot>)
      requires HaveTypes(fields, slots)
      ensures fields[0..] == fields && slots[0..] == slots && EncFields(fields, slots) == Then(Some([]), EncFields(fields, slots))
    {
      hide EncSlot;
      assert EncFields(fields, slots).Some? ==> [] + EncFields(fields, slots).value == EncFields(fields, slots).value;
    }

    static lemma FieldsNext(fields: seq<Field>, slots: seq<Slot>, i: nat, done: Octets)
      requires i < |fields| == |slots| && HaveTypes(fields[i..], slots[i..])
      ensures SlotHasType(fields[i], slots[i]) && HaveTypes(fields[i + 1..], slots[i + 1..])
      ensures Then(Some(done), EncFields(fields[i..], slots[i..])) ==
              Then(Then(Some(done), EncSlot(fields[i], slots[i])), EncFields(fields[i + 1..], slots[i + 1..]))
    {
      hide EncSlot;
      var fs, ss := fields[i..], slots[i..];
      assert fs[0] == fields[i] && ss[0] == slots[i] && fs[1..] == fields[i + 1..] && ss[1..] == slots[i + 1..];
      assert SlotHasType(fs[0], ss[0]);
      var a, b := EncSlot(fields[i], slots[i]), EncFields(fields[i + 1..], slots[i + 1..]);
      if a.Some? && b.Some? { assert done + (a.value + b.value) == done + a.value + b.value; }
    }

    static lemma FieldsEnd(fields: seq<Field>, slots: seq<Slot>, done: Octets)
      requires |fields| == |slots|
      ensures fields[|fields|..] == [] && slots[|fields|..] == []
      ensures HaveTypes([], []) && Then(Some(done), EncFields([], [])) == Some(done)
    {
      assert done + [] == done;
    }
  }

  // pb_get_encoded_size and pb_encode agree: if counting gives a size, writing
  // succeeds exactly when there is that much room, and writes that many bytes.
  method SizeThenWrite(fields: seq<Field>, slots: seq<Slot>, room: nat) returns (size: Option<nat>, bytes: Option<Octets>)
    requires HaveTypes(fields, slots)
    ensures size.Some? <==> EncFields(fields, slots).Some?
    ensures bytes.Some? <==> size.Some? && size.value <= room
    ensures bytes.Some? ==> |bytes.value| == size.value && bytes == EncFields(fields, slots)
    ensures bytes.Some? ==> SpellsFields(fields, slots, bytes.value)
    ensures size.None? ==> forall s :: !SpellsFields(fields, slots, s)
  {
    hide EncFields, SpellsFields;
    forall s ensures SpellsFields(fields, slots, s) <==> EncFields(fields, slots) == Some(s) {
      FieldsSpelledOnce(fields, slots, s);
    }
    var counter := new OutputStream.Sizing();
    var counted := counter.Encode(fields, slots);
    size := if counted then Some(counter.bytesWritten) else None;
    var stream := new OutputStream(room);
    var ok := stream.Encode(fields, slots);
    bytes := if ok then Some(stream.written) else None;
    assert ok ==> [] + EncFields(fields, slots).value == EncFields(fields, slots).value;
  }
}
