// Decoding inverts encoding, for a receiver that knows all of a message's
// fields or only some of them, at every level of nesting.
module MessageTheorems {
  import opened Bytes
  import opened Messages

  // ---- what is asked of descriptors and messages ------------------------------------

  const MAX_TAG: nat := 0x1FFF_FFFF

  predicate GoodType(t: LType)
    decreases t
  {
    t.SubmessageType? ==> GoodFields(t.fields)
  }

  predicate GoodField(f: Field)
    decreases f
  {
    1 <= f.tag <= MAX_TAG && GoodType(f.ltype)
  }

  predicate GoodFields(fields: seq<Field>)
    decreases fields
  {
    && (forall i | 0 <= i < |fields| :: GoodField(fields[i]))
    && (forall i, j | 0 <= i < j < |fields| :: fields[i].tag != fields[j].tag)
  }

  // Every string that is sent ends in a NUL, and no union has two members set.
  predicate GoodValue(t: LType, v: Value)
    requires HasType(t, v)
    decreases t
  {
    match t
    case StringType(size) => |v.chars| < size
    case SubmessageType(fields) => GoodSlots(fields, v.slots)
    case _ => true
  }

  predicate GoodSlot(f: Field, slot: Slot)
    requires SlotHasType(f, slot)
    decreases f
  {
    match f.htype
    case Required => GoodValue(f.ltype, slot.v)
    case Optional(has) =>
      if has then slot.o.Some? ==> GoodValue(f.ltype, slot.o.value)
      else IsZero(f.ltype, slot.v) || GoodValue(f.ltype, slot.v)
    case Repeated(_) => forall v | v in slot.items :: GoodValue(f.ltype, v)
    case Oneof(_) => slot.o.Some? ==> GoodValue(f.ltype, slot.o.value)
  }

  predicate Exclusive(fields: seq<Field>, slots: seq<Slot>)
    requires |fields| == |slots|
  {
    forall i, j | 0 <= i < j < |fields| && fields[i].htype.Oneof? && fields[i].htype == fields[j].htype ::
      slots[i] == Maybe(None) || slots[j] == Maybe(None)
  }

  predicate GoodSlots(fields: seq<Field>, slots: seq<Slot>)
    requires HaveTypes(fields, slots)
    decreases fields
  {
    && (forall i | 0 <= i < |fields| :: GoodSlot(fields[i], slots[i]))
    && Exclusive(fields, slots)
  }

  // ---- receivers that know less ---------------------------------------------------------

  // g describes what f does, but for fields of submessages it leaves out.
  predicate Knows(f: LType, g: LType)
    decreases f
  {
    if f.SubmessageType? then g.SubmessageType? && KnowsSome(f.fields, g.fields) else f == g
  }

  predicate SameField(f: Field, g: Field)
    decreases f
  {
    g.tag == f.tag && g.htype == f.htype && Knows(f.ltype, g.ltype)
  }

  // gs lists some of the fields of fs, in order.
  predicate KnowsSome(fs: seq<Field>, gs: seq<Field>)
    decreases fs
  {
    if fs == [] then gs == []
    else if gs != [] && gs[0].tag == fs[0].tag then
      SameField(fs[0], gs[0]) && KnowsSome(fs[1..], gs[1..])
    else KnowsSome(fs[1..], gs)
  }

  function ProjectValue(f: LType, g: LType, v: Value): Value
    requires HasType(f, v) && Knows(f, g)
    decreases f
  {
    if f.SubmessageType? then Message(Project(f.fields, g.fields, v.slots)) else v
  }

  function ProjectItems(f: Field, g: Field, items: seq<Value>): (r: seq<Value>)
    requires Knows(f.ltype, g.ltype) && forall v | v in items :: HasType(f.ltype, v)
    ensures |r| == |items|
    decreases f, 0, |items|
  {
    if items == [] then [] else [ProjectValue(f.ltype, g.ltype, items[0])] + ProjectItems(f, g, items[1..])
  }

  function ProjectSlot(f: Field, g: Field, slot: Slot): Slot
    requires SlotHasType(f, slot) && SameField(f, g)
    decreases f, 1
  {
    match slot
    case One(v) => One(ProjectValue(f.ltype, g.ltype, v))
    case Maybe(o) => Maybe(if o.None? then None else Some(ProjectValue(f.ltype, g.ltype, o.value)))
    case Many(items) => Many(ProjectItems(f, g, items))
  }

  // The part of a message that the receiver's descriptors can hold.
  function Project(fs: seq<Field>, gs: seq<Field>, slots: seq<Slot>): (r: seq<Slot>)
    requires HaveTypes(fs, slots) && KnowsSome(fs, gs)
    ensures |r| == |gs|
    decreases fs
  {
    if fs == [] then []
    else
      assert SlotHasType(fs[0], slots[0]);
      if gs != [] && gs[0].tag == fs[0].tag then
        [ProjectSlot(fs[0], gs[0], slots[0])] + Project(fs[1..], gs[1..], slots[1..])
      else Project(fs[1..], gs, slots[1..])
  }

  lemma TailHasTypes(fs: seq<Field>, slots: seq<Slot>)
    requires HaveTypes(fs, slots) && fs != []
    ensures SlotHasType(fs[0], slots[0]) && HaveTypes(fs[1..], slots[1..])
  {
  }

  // Knowing everything, the projection is the message itself.
  lemma {:induction false} KnowsItself(t: LType)
    ensures Knows(t, t)
    decreases t
  {
    if t.SubmessageType? { KnowsAll(t.fields); }
  }

  lemma {:induction false} KnowsAll(fs: seq<Field>)
    ensures KnowsSome(fs, fs)
    decreases fs
  {
    if fs != [] {
      KnowsItsField(fs[0]);
      KnowsAll(fs[1..]);
    }
  }

  lemma {:induction false} KnowsItsField(f: Field)
    ensures SameField(f, f)
    decreases f
  {
    KnowsItself(f.ltype);
  }

  lemma {:induction false} ProjectValueAll(t: LType, v: Value)
    requires HasType(t, v)
    ensures Knows(t, t) && ProjectValue(t, t, v) == v
    decreases t
  {
    KnowsItself(t);
    if t.SubmessageType? { ProjectAll(t.fields, v.slots); }
  }

  lemma {:induction false} ProjectItemsAll(f: Field, items: seq<Value>)
    requires forall v | v in items :: HasType(f.ltype, v)
    ensures Knows(f.ltype, f.ltype) && ProjectItems(f, f, items) == items
    decreases f, 0, |items|
  {
    KnowsItself(f.ltype);
    if items != [] {
      ProjectValueAll(f.ltype, items[0]);
      ProjectItemsAll(f, items[1..]);
    }
  }

  lemma {:induction false} ProjectSlotAll(f: Field, slot: Slot)
    requires SlotHasType(f, slot)
    ensures SameField(f, f) && ProjectSlot(f, f, slot) == slot
    decreases f, 1
  {
    KnowsItself(f.ltype);
    match slot
    case One(v) => ProjectValueAll(f.ltype, v);
    case Maybe(o) => if o.Some? { ProjectValueAll(f.ltype, o.value); }
    case Many(items) => ProjectItemsAll(f, items);
  }

  lemma {:induction false} ProjectAll(fs: seq<Field>, slots: seq<Slot>)
    requires HaveTypes(fs, slots)
    ensures KnowsSome(fs, fs) && Project(fs, fs, slots) == slots
    decreases fs
  {
    KnowsAll(fs);
    if fs != [] {
      TailHasTypes(fs, slots);
      ProjectSlotAll(fs[0], slots[0]);
      ProjectAll(fs[1..], slots[1..]);
    }
  }

  // A default value looks like the receiver's own.
  lemma {:induction false} ProjectDefault(f: LType, g: LType)
    requires Knows(f, g)
    ensures HasType(f, Default(f)) && ProjectValue(f, g, Default(f)) == Default(g)
    decreases f
  {
    if f.SubmessageType? {
      ProjectDefaults(f.fields, g.fields);
    } else if f.FixedBytesType? {
    }
  }

  lemma {:induction false} ProjectDefaultSlot(f: Field, g: Field)
    requires SameField(f, g)
    ensures SlotHasType(f, DefaultSlot(f)) && ProjectSlot(f, g, DefaultSlot(f)) == DefaultSlot(g)
    decreases f
  {
    ProjectDefault(f.ltype, g.ltype);
  }

  lemma {:induction false} DefaultHasType(f: Field)
    ensures HasType(f.ltype, Default(f.ltype)) && SlotHasType(f, DefaultSlot(f))
    decreases f, 1
  {
    if f.ltype.SubmessageType? { DefaultsHaveTypes(f.ltype.fields); }
  }

  lemma {:induction false} DefaultsHaveTypes(fs: seq<Field>)
    ensures HaveTypes(fs, Defaults(fs))
    decreases fs, 0
  {
    forall i | 0 <= i < |fs| ensures SlotHasType(fs[i], Defaults(fs)[i]) {
      DefaultHasType(fs[i]);
    }
  }

  lemma {:induction false} ProjectDefaults(fs: seq<Field>, gs: seq<Field>)
    requires KnowsSome(fs, gs)
    ensures HaveTypes(fs, Defaults(fs)) && Project(fs, gs, Defaults(fs)) == Defaults(gs)
    decreases fs
  {
    DefaultsHaveTypes(fs);
    if fs != [] {
      assert Defaults(fs)[1..] == Defaults(fs[1..]);
      if gs != [] && gs[0].tag == fs[0].tag {
        ProjectDefaultSlot(fs[0], gs[0]);
        ProjectDefaults(fs[1..], gs[1..]);
      } else {
        ProjectDefaults(fs[1..], gs);
      }
    }
  }
}
