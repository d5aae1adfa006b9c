// Which fields cost nothing on the wire (nanopb: pb_check_proto3_default_value
// in pb_encode.c).
module MessageSizes {
  import opened Bytes
  import opened Varint
  import opened Messages
  import opened MessageTheorems

  // Nothing in a default value of this type has to be sent: no required field
  // and no array of fixed length at any depth.
  predicate Bare(t: LType)
    decreases t
  {
    match t
    case FixedBytesType(size) => size == 0
    case SubmessageType(fields) => BareFields(fields)
    case _ => true
  }

  predicate BareField(f: Field)
    decreases f
  {
    match f.htype
    case Required => false
    case Optional(has) => has || Bare(f.ltype)
    case Repeated(_) => true
    case Oneof(_) => true
  }

  predicate BareFields(fields: seq<Field>)
    decreases fields
  {
    forall i | 0 <= i < |fields| :: BareField(fields[i])
  }

  // The test finds exactly the default values of such types.
  lemma {:induction false} ZeroExactly(t: LType, v: Value)
    requires HasType(t, v)
    ensures IsZero(t, v) <==> v == Default(t) && Bare(t)
    decreases t
  {
    if t.SubmessageType? {
      forall i | 0 <= i < |t.fields|
        ensures SlotHasType(t.fields[i], v.slots[i])
        ensures SlotIsZero(t.fields[i], v.slots[i]) <==> v.slots[i] == DefaultSlot(t.fields[i]) && BareField(t.fields[i])
      {
        SlotZeroExactly(t.fields[i], v.slots[i]);
      }
      assert v.slots == Defaults(t.fields) <==> forall i | 0 <= i < |t.fields| :: v.slots[i] == DefaultSlot(t.fields[i]);
    } else if t.FixedBytesType? {
      if t.size == 0 { assert v.bytes == []; }
    }
  }

  lemma {:induction false} SlotZeroExactly(f: Field, slot: Slot)
    requires SlotHasType(f, slot)
    ensures SlotIsZero(f, slot) <==> slot == DefaultSlot(f) && BareField(f)
    decreases f
  {
    if f.htype.Optional? && !f.htype.has { ZeroExactly(f.ltype, slot.v); }
  }

  // A field adds no byte exactly when its slot is the default and that needs not
  // be sent.
  lemma SilentExactly(f: Field, slot: Slot)
    requires SlotHasType(f, slot)
    ensures EncSlot(f, slot) == Some([]) <==> slot == DefaultSlot(f) && BareField(f)
  {
    hide VarintBytes, IsZero, EncValue, EncPacked, HasType, Default, Bare;
    if f.htype.Optional? && !f.htype.has { ZeroExactly(f.ltype, slot.v); }
    if f.htype.Repeated? && slot.items != [] && !Packable(f.ltype) && EncItems(f, slot.items).Some? {
      assert EncTagged(f, slot.items[0]).Some?;
    }
  }

  // So does a message.
  lemma {:induction false} MessageIsSilent(fields: seq<Field>, slots: seq<Slot>)
    requires HaveTypes(fields, slots)
    ensures EncFields(fields, slots) == Some([]) <==> slots == Defaults(fields) && BareFields(fields)
    decreases |fields|
  {
    hide EncSlot, SlotHasType, DefaultSlot, BareField, BareFields;
    if fields != [] {
      TailHasTypes(fields, slots);
      SilentExactly(fields[0], slots[0]);
      MessageIsSilent(fields[1..], slots[1..]);
      DefaultsSplit(fields, slots);
      BareSplit(fields);
      FirstIsSilent(fields, slots);
    } else {
      NoFields(slots);
    }
  }

  lemma NoFields(slots: seq<Slot>)
    requires |slots| == 0
    ensures slots == Defaults([]) && BareFields([]) && EncFields([], slots) == Some([])
  {
  }

  lemma FirstIsSilent(fields: seq<Field>, slots: seq<Slot>)
    requires HaveTypes(fields, slots) && fields != [] && SlotHasType(fields[0], slots[0]) && HaveTypes(fields[1..], slots[1..])
    ensures EncFields(fields, slots) == Some([]) <==>
            EncSlot(fields[0], slots[0]) == Some([]) && EncFields(fields[1..], slots[1..]) == Some([])
  {
    hide EncSlot, SlotHasType;
    var a, b := EncSlot(fields[0], slots[0]), EncFields(fields[1..], slots[1..]);
    if a.Some? && b.Some? { assert |a.value + b.value| == |a.value| + |b.value|; }
  }

  lemma DefaultsSplit(fields: seq<Field>, slots: seq<Slot>)
    requires fields != [] && |fields| == |slots|
    ensures slots == Defaults(fields) <==> slots[0] == DefaultSlot(fields[0]) && slots[1..] == Defaults(fields[1..])
  {
    hide DefaultSlot;
    var d := Defaults(fields);
    assert d == [DefaultSlot(fields[0])] + Defaults(fields[1..]);
    assert d[0] == DefaultSlot(fields[0]) && d[1..] == Defaults(fields[1..]);
    hide Defaults;
    assert slots == [slots[0]] + slots[1..] && d == [d[0]] + d[1..];
  }

  lemma BareSplit(fields: seq<Field>)
    requires fields != []
    ensures BareFields(fields) <==> BareField(fields[0]) && BareFields(fields[1..])
  {
    hide BareField;
    if BareField(fields[0]) && BareFields(fields[1..]) {
      forall i | 0 <= i < |fields| ensures BareField(fields[i]) {
        if i > 0 { assert fields[1..][i - 1] == fields[i]; }
      }
    }
  }

  // Leaving a silent field out of descriptors and message changes no byte.
  lemma {:induction false} SilentFieldAddsNothing(fields: seq<Field>, slots: seq<Slot>, i: nat)
    requires HaveTypes(fields, slots) && i < |fields| && slots[i] == DefaultSlot(fields[i]) && BareField(fields[i])
    ensures HaveTypes(fields[..i] + fields[i + 1..], slots[..i] + slots[i + 1..])
    ensures EncFields(fields, slots) == EncFields(fields[..i] + fields[i + 1..], slots[..i] + slots[i + 1..])
    decreases i
  {
    hide EncSlot, SlotHasType, DefaultSlot, BareField;
    TailHasTypes(fields, slots);
    var fs, ss := fields[..i] + fields[i + 1..], slots[..i] + slots[i + 1..];
    if i == 0 {
      SilentExactly(fields[0], slots[0]);
      assert fs == fields[1..] && ss == slots[1..];
      assert EncFields(fs, ss).Some? ==> [] + EncFields(fs, ss).value == EncFields(fs, ss).value;
    } else {
      SilentFieldAddsNothing(fields[1..], slots[1..], i - 1);
      assert fs[0] == fields[0] && fs[1..] == fields[1..][..i - 1] + fields[1..][i..];
      assert ss[0] == slots[0] && ss[1..] == slots[1..][..i - 1] + slots[1..][i..];
    }
  }
}
