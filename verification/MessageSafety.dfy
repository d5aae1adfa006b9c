// What decoding can leave in a struct, whatever the bytes are: values that fit
// their members, arrays that are not overfull, and of a union one member at most.
module MessageSafety {
  import opened Bytes
  import opened Varint
  import opened Messages
  import opened MessageDecoding
  import opened MessageTheorems

  // The value has its member's type and stays inside the member's array, with
  // room for a string's NUL.
  predicate Fits(t: LType, v: Value)
    decreases t
  {
    && HasType(t, v)
    && match t
       case BytesType(max) => |v.bytes| <= max
       case StringType(size) => v.chars == [] || |v.chars| < size
       case SubmessageType(fields) => AllFit(fields, v.slots)
       case _ => true
  }

  predicate SlotFits(f: Field, slot: Slot)
    decreases f
  {
    && SlotHasType(f, slot)
    && match slot
       case One(v) => Fits(f.ltype, v)
       case Maybe(o) => o.Some? ==> Fits(f.ltype, o.value)
       case Many(items) => |items| <= f.htype.max && forall v | v in items :: Fits(f.ltype, v)
  }

  predicate AllFit(fields: seq<Field>, slots: seq<Slot>)
    decreases fields
  {
    && HaveTypes(fields, slots)
    && (forall i | 0 <= i < |fields| :: SlotFits(fields[i], slots[i]))
    && Exclusive(fields, slots)
  }

  // ---- defaults ------------------------------------------------------------------

  lemma {:induction false} DefaultFits(t: LType)
    ensures Fits(t, Default(t))
    decreases t, 1
  {
    if t.SubmessageType? { DefaultsFit(t.fields); }
  }

  lemma {:induction false} DefaultSlotFits(f: Field)
    ensures SlotFits(f, DefaultSlot(f))
    decreases f, 0
  {
    DefaultFits(f.ltype);
  }

  lemma {:induction false} DefaultsFit(fields: seq<Field>)
    ensures AllFit(fields, Defaults(fields))
    decreases fields, 0
  {
    hide SlotFits;
    forall i | 0 <= i < |fields| ensures SlotFits(fields[i], Defaults(fields)[i]) && SlotHasType(fields[i], Defaults(fields)[i]) {
      DefaultSlotFits(fields[i]);
      FitsHasType(fields[i], Defaults(fields)[i]);
    }
  }

  lemma FitsHasType(f: Field, slot: Slot)
    requires SlotFits(f, slot)
    ensures SlotHasType(f, slot)
  {
  }

  // ---- single values ----------------------------------------------------------------

  lemma ScalarFits(t: LType, s: Octets)
    requires Packable(t)
    ensures DecScalar(t, s).Some? ==> Fits(t, DecScalar(t, s).value.0)
  {
    hide Decode32, Decode64, FromLittleEndian;
    Pow256Values();
  }

  lemma PlainFits(t: LType, s: Octets)
    requires Plain(t)
    ensures DecPlain(t, s).Some? ==> Fits(t, DecPlain(t, s).value.0)
  {
    hide DecLength;
  }

  lemma {:induction false} PackedFits(t: LType, items: seq<Value>, max: nat, s: Octets)
    requires Packable(t) && |items| <= max && forall v | v in items :: Fits(t, v)
    ensures DecPacked(t, items, max, s).Some? ==>
              |DecPacked(t, items, max, s).value| <= max && forall v | v in DecPacked(t, items, max, s).value :: Fits(t, v)
    decreases |s|
  {
    hide Fits, DecScalar;
    if s != [] && |items| < max && DecScalar(t, s).Some? {
      var (v, n) := DecScalar(t, s).value;
      ScalarSize(t, s);
      ScalarFits(t, s);
      PackedFits(t, items + [v], max, s[n..]);
    }
  }

  lemma CurrentFits(f: Field, slot: Slot)
    requires SlotFits(f, slot)
    ensures Fits(f.ltype, Current(f, slot))
  {
    hide Fits;
    DefaultFits(f.ltype);
  }

  lemma StoredFits(f: Field, slot: Slot, v: Value)
    requires SlotFits(f, slot) && Fits(f.ltype, v) && (f.htype.Repeated? ==> |slot.items| < f.htype.max)
    ensures SlotFits(f, Stored(f, slot, v))
  {
    hide Fits;
    FitsIsTyped(f.ltype, v);
  }

  lemma FitsIsTyped(t: LType, v: Value)
    requires Fits(t, v)
    ensures HasType(t, v)
  {
  }

  // ---- a union --------------------------------------------------------------------------

  lemma PutFits(fields: seq<Field>, slots: seq<Slot>, i: nat, slot: Slot)
    requires AllFit(fields, slots) && i < |fields| && SlotFits(fields[i], slot)
    ensures AllFit(fields, Put(fields, slots, i, slot))
  {
    hide Fits, HasType, SlotFits;
    var r := Put(fields, slots, i, slot);
    forall k | 0 <= k < |fields| ensures SlotFits(fields[k], r[k]) && SlotHasType(fields[k], r[k]) {
      if r[k] == Maybe(None) && fields[k].htype.Oneof? { NoneFits(fields[k]); }
      FitsHasType(fields[k], r[k]);
    }
  }

  lemma NoneFits(f: Field)
    requires f.htype.Oneof?
    ensures SlotFits(f, Maybe(None))
  {
  }

  // ---- messages ----------------------------------------------------------------------------

  lemma {:induction false} ValueFits(t: LType, current: Value, s: Octets)
    requires Fits(t, current)
    ensures DecValue(t, current, s).Some? ==> Fits(t, DecValue(t, current, s).value.0)
    decreases t, |s|, 0
  {
    hide DecScalar, DecPlain, DecLength, DecFields;
    if Packable(t) {
      ScalarFits(t, s);
    } else if Plain(t) {
      PlainFits(t, s);
    } else if DecLength(s).Some? {
      FieldsFit(t.fields, State(current.slots, {}), DecLength(s).value.0);
    }
  }

  lemma {:induction false} OccurrenceFits(f: Field, slot: Slot, wire: nat, s: Octets)
    requires SlotFits(f, slot)
    ensures DecSlot(f, slot, wire, s).Some? ==> SlotFits(f, DecSlot(f, slot, wire, s).value.0)
    decreases f, |s|, 0
  {
    hide Fits, DecPacked, DecLength, DecValue, Current, Stored;
    if f.htype.Repeated? && wire == WT_STRING && Packable(f.ltype) {
      if DecLength(s).Some? {
        var body := DecLength(s).value.0;
        PackedFits(f.ltype, slot.items, f.htype.max, body);
        if DecPacked(f.ltype, slot.items, f.htype.max, body).Some? {
          ItemsFit(f, DecPacked(f.ltype, slot.items, f.htype.max, body).value);
        }
      }
    } else if !(f.htype.Repeated? && |slot.items| >= f.htype.max) {
      CurrentFits(f, slot);
      ValueFits(f.ltype, Current(f, slot), s);
      if DecValue(f.ltype, Current(f, slot), s).Some? {
        StoredFits(f, slot, DecValue(f.ltype, Current(f, slot), s).value.0);
      }
    }
  }

  lemma ItemsFit(f: Field, items: seq<Value>)
    requires f.htype.Repeated? && |items| <= f.htype.max && forall v | v in items :: Fits(f.ltype, v)
    ensures SlotFits(f, Many(items))
  {
    hide Fits;
    forall v | v in items ensures HasType(f.ltype, v) { FitsIsTyped(f.ltype, v); }
  }

  // Whatever the bytes, and whatever was there before.
  lemma {:induction false} FieldsFit(fields: seq<Field>, st: State, s: Octets)
    requires |st.slots| == |fields| && AllFit(fields, st.slots)
    ensures DecFields(fields, st, s).Some? ==> AllFit(fields, DecFields(fields, st, s).value.0)
    decreases fields, |s|, 0
  {
    hide AllFit, Decode32, DecTagged;
    if s != [] && Decode32(s).Some? {
      var (head, n) := Decode32(s).value;
      Decode32Reads(s);
      SizeBound(s);
      if head != 0 { TaggedFits(fields, st, head / 8, head % 8, s[n..]); }
    }
  }

  lemma {:induction false} TaggedFits(fields: seq<Field>, st: State, tag: nat, wire: nat, s: Octets)
    requires |st.slots| == |fields| && AllFit(fields, st.slots)
    ensures DecTagged(fields, st, tag, wire, s).Some? ==> AllFit(fields, DecTagged(fields, st, tag, wire, s).value.0)
    decreases fields, |s|, 1
  {
    hide AllFit, SkipSize, SkipBool, DecSlot, DecFields, Put;
    match IndexOf(fields, tag)
    case None =>
      var k := if fields == [] && tag == 0 then SkipBool(s) else SkipSize(wire, s);
      if k.Some? && k.value <= |s| { FieldsFit(fields, st, s[k.value..]); }
    case Some(i) =>
      FitsAt(fields, st.slots, i);
      OccurrenceFits(fields[i], st.slots[i], wire, s);
      if DecSlot(fields[i], st.slots[i], wire, s).Some? {
        var (slot, k) := DecSlot(fields[i], st.slots[i], wire, s).value;
        PutFits(fields, st.slots, i, slot);
        if k <= |s| { FieldsFit(fields, State(Put(fields, st.slots, i, slot), st.seen + {i}), s[k..]); }
      }
  }

  lemma FitsAt(fields: seq<Field>, slots: seq<Slot>, i: nat)
    requires AllFit(fields, slots) && i < |fields|
    ensures SlotFits(fields[i], slots[i])
  {
  }
}
