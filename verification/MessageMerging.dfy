// Decoding on top of a message: the bytes of two messages one after the other
// stand for the first with the second merged into it (nanopb: pb_decode.c).
module MessageMerging {
  import opened Bytes
  import opened Varint
  import opened Messages
  import opened MessageDecoding
  import opened MessageTheorems
  import opened MessageRoundTrip

  // ---- merging ------------------------------------------------------------------

  // Submessages merge, everything else is overwritten.
  function MergeValue(t: LType, a: Value, b: Value): Value
    requires HasType(t, a) && HasType(t, b)
    decreases t
  {
    if t.SubmessageType? then Message(Merge(t.fields, a.slots, b.slots)) else b
  }

  // What is not sent leaves things as they were; arrays are appended.
  function MergeSlot(f: Field, x: Slot, y: Slot): Slot
    requires SlotHasType(f, x) && SlotHasType(f, y)
    decreases f
  {
    match f.htype
    case Required => One(MergeValue(f.ltype, x.v, y.v))
    case Optional(has) =>
      if has then (if y.o.None? then x else if x.o.None? then y else Maybe(Some(MergeValue(f.ltype, x.o.value, y.o.value))))
      else if IsZero(f.ltype, y.v) then x else One(MergeValue(f.ltype, x.v, y.v))
    case Repeated(_) => Many(x.items + y.items)
    case Oneof(_) => y
  }

  // Among the first n fields y sets one of this union other than k.
  predicate SetsAnother(fields: seq<Field>, y: seq<Slot>, n: nat, k: nat)
    requires n <= |fields| == |y| && k < |fields|
  {
    exists m :: 0 <= m < n && m != k && fields[m].htype == fields[k].htype && y[m] != Maybe(None)
  }

  // Of a union the member that y sets is left, or whatever x has set.
  function Merge(fields: seq<Field>, x: seq<Slot>, y: seq<Slot>): (r: seq<Slot>)
    requires HaveTypes(fields, x) && HaveTypes(fields, y)
    ensures |r| == |fields|
    decreases fields
  {
    MergeUpTo(fields, x, y, |fields|)
  }

  // After the first n fields of y.
  function MergeUpTo(fields: seq<Field>, x: seq<Slot>, y: seq<Slot>, n: nat): (r: seq<Slot>)
    requires HaveTypes(fields, x) && HaveTypes(fields, y) && n <= |fields|
    ensures |r| == |fields|
    decreases fields, 0
  {
    seq(|fields|, k requires 0 <= k < |fields| =>
      if fields[k].htype.Oneof? then
        if k < n && y[k] != Maybe(None) then y[k]
        else if SetsAnother(fields, y, n, k) then Maybe(None)
        else x[k]
      else if k < n then MergeSlot(fields[k], x[k], y[k])
      else x[k])
  }

  // Arrays have room for the items of both.
  predicate RoomInValue(t: LType, a: Value, b: Value)
    requires HasType(t, a) && HasType(t, b)
    decreases t
  {
    t.SubmessageType? ==> RoomForBoth(t.fields, a.slots, b.slots)
  }

  predicate RoomInSlot(f: Field, x: Slot, y: Slot)
    requires SlotHasType(f, x) && SlotHasType(f, y)
    decreases f
  {
    match f.htype
    case Required => RoomInValue(f.ltype, x.v, y.v)
    case Optional(has) =>
      if has then x.o.Some? && y.o.Some? ==> RoomInValue(f.ltype, x.o.value, y.o.value)
      else IsZero(f.ltype, y.v) || RoomInValue(f.ltype, x.v, y.v)
    case Repeated(max) => y.items == [] || |x.items| + |y.items| <= max
    case Oneof(_) => true
  }

  predicate RoomForBoth(fields: seq<Field>, x: seq<Slot>, y: seq<Slot>)
    requires HaveTypes(fields, x) && HaveTypes(fields, y)
    decreases fields
  {
    forall i | 0 <= i < |fields| :: RoomInSlot(fields[i], x[i], y[i])
  }

  // ---- one value on top of another ---------------------------------------------------

  lemma {:induction false} ValueMerges(t: LType, a: Value, b: Value, rest: Octets)
    requires GoodType(t) && HasType(t, a) && HasType(t, b) && GoodValue(t, b) && RoomInValue(t, a, b)
    requires EncValue(t, b).Some? && |EncValue(t, b).value| < TWO32
    ensures DecValue(t, a, EncValue(t, b).value + rest) == Some((MergeValue(t, a, b), |EncValue(t, b).value|))
    decreases t, 0
  {
    hide DecScalar, DecPlain, DecLength, DecFields, EncFields, EncScalar, Merge;
    if Packable(t) {
      ScalarRoundTrip(t, b, rest);
    } else if Plain(t) {
      PlainRoundTrip(t, b, rest);
    } else {
      var body := EncFields(t.fields, b.slots).value;
      LengthRoundTrip(body, rest);
      MessageMerges(t.fields, a.slots, b.slots);
    }
  }

  lemma PlaceOfField(fs: seq<Field>, i: nat)
    requires GoodFields(fs) && i < |fs|
    ensures PlaceOf(fs, i, fs[i])
  {
    KnowsItsField(fs[i]);
    IndexOfFirst(fs, i);
  }

  // A tagged value on top of what the slot holds.
  lemma TakeOnto(fs: seq<Field>, st: State, i: nat, a: Value, b: Value, more: Octets)
    requires GoodFields(fs) && |st.slots| == |fs| && i < |fs|
    requires var t := fs[i].ltype; HasType(t, a) && HasType(t, b) && GoodValue(t, b) && RoomInValue(t, a, b)
    requires fs[i].htype.Required? || fs[i].htype.Optional?
    requires Current(fs[i], st.slots[i]) == a
    requires EncTagged(fs[i], b).Some? && |EncTagged(fs[i], b).value| < TWO32
    ensures DecFields(fs, st, EncTagged(fs[i], b).value + more) ==
            DecFields(fs, State(st.slots[i := Stored(fs[i], st.slots[i], MergeValue(fs[i].ltype, a, b))], st.seen + {i}), more)
    decreases fs[i].ltype, 1
  {
    hide DecFields, DecTagged, EncValue, DecValue, MergeValue, Put, Stored, Current, GoodValue, HasType, RoomInValue;
    var f := fs[i];
    var body, wire := EncValue(f.ltype, b).value, WireType(f.ltype);
    GoodAt(fs, i);
    ValueMerges(f.ltype, a, b, more);
    PlaceOfField(fs, i);
    var slot := Stored(f, st.slots[i], MergeValue(f.ltype, a, b));
    TagStep(fs, st, wire, f.tag, body + more);
    TakeStep(fs, st, wire, f.tag, i, slot, body, more);
    PutIsUpdate(fs, st.slots, i, slot);
    assert EncTagged(f, b).value + more == TagBytes(wire, f.tag) + (body + more);
  }

  lemma GoodAt(fs: seq<Field>, i: nat)
    requires GoodFields(fs) && i < |fs|
    ensures GoodField(fs[i]) && GoodType(fs[i].ltype)
  {
  }

  // ---- one field -------------------------------------------------------------------------

  // What the slots are after y's field i has been read.
  function After(fs: seq<Field>, slots: seq<Slot>, i: nat, x: Slot, y: Slot): seq<Slot>
    requires |slots| == |fs| && i < |fs| && SlotHasType(fs[i], x) && SlotHasType(fs[i], y)
  {
    if fs[i].htype.Oneof? then (if y.o.Some? then Put(fs, slots, i, y) else slots)
    else slots[i := MergeSlot(fs[i], x, y)]
  }

  lemma FieldMerges(fs: seq<Field>, st: State, i: nat, y: Slot, more: Octets) returns (seen: set<nat>)
    requires GoodFields(fs) && |st.slots| == |fs| && i < |fs|
    requires SlotHasType(fs[i], st.slots[i]) && SlotHasType(fs[i], y) && GoodSlot(fs[i], y) && RoomInSlot(fs[i], st.slots[i], y)
    requires EncSlot(fs[i], y).Some? && |EncSlot(fs[i], y).value| < TWO32
    ensures st.seen <= seen && (fs[i].htype.Required? ==> i in seen)
    ensures DecFields(fs, st, EncSlot(fs[i], y).value + more) == DecFields(fs, State(After(fs, st.slots, i, st.slots[i], y), seen), more)
    decreases fs[i], 3
  {
    hide DecFields, EncTagged, EncItems, EncPacked, IsZero, GoodValue, HasType, MergeValue, Put, RoomInValue, ProjectValue, ProjectItems, GoodFields;
    var f, x := fs[i], st.slots[i];
    GoodAt(fs, i);
    PlaceOfField(fs, i);
    if !Sent(f, y) {
      NotSent(fs, st.slots, i, y);
      assert EncSlot(f, y).value + more == more;
      seen := st.seen;
    } else {
      seen := st.seen + {i};
      match f.htype {
        case Required => TakeOnto(fs, st, i, x.v, y.v, more);
        case Optional(has) =>
          if has && x.o.None? {
            TakeMember(f, y.o.value, fs, st, i, more);
            ProjectsToItself(f.ltype, y.o.value);
            PutIsUpdate(fs, st.slots, i, y);
          } else {
            TakeOnto(fs, st, i, if has then x.o.value else x.v, if has then y.o.value else y.v, more);
          }
        case Repeated(_) =>
          if Packable(f.ltype) {
            TakePacked(f, y.items, x.items, fs, st, i, more);
          } else {
            seen := TakeItems(f, y.items, x.items, fs, st, i, more);
            ProjectItemsAll(f, y.items);
          }
        case Oneof(_) =>
          TakeMember(f, y.o.value, fs, st, i, more);
          ProjectsToItself(f.ltype, y.o.value);
      }
    }
  }

  lemma ProjectsToItself(t: LType, v: Value)
    requires HasType(t, v)
    ensures Knows(t, t) && ProjectValue(t, t, v) == v
  {
    ProjectValueAll(t, v);
  }

  lemma NotSent(fs: seq<Field>, slots: seq<Slot>, i: nat, y: Slot)
    requires |slots| == |fs| && i < |fs| && SlotHasType(fs[i], slots[i]) && SlotHasType(fs[i], y) && !Sent(fs[i], y)
    ensures EncSlot(fs[i], y) == Some([]) && After(fs, slots, i, slots[i], y) == slots
  {
    hide IsZero, HasType;
    if fs[i].htype.Repeated? { assert slots[i].items + [] == slots[i].items; }
  }

  // ---- whole messages ------------------------------------------------------------------------

  // Reading y on from its field n.
  lemma {:induction false} RestMerges(fs: seq<Field>, x: seq<Slot>, y: seq<Slot>, n: nat, st: State, more: Octets) returns (seen: set<nat>)
    requires GoodFields(fs) && HaveTypes(fs, x) && HaveTypes(fs, y) && GoodSlots(fs, y) && RoomForBoth(fs, x, y)
    requires n <= |fs| == |y| && st.slots == MergeUpTo(fs, x, y, n)
    requires HaveTypes(fs[n..], y[n..]) && EncFields(fs[n..], y[n..]).Some? && |EncFields(fs[n..], y[n..]).value| < TWO32
    ensures st.seen <= seen && forall k | n <= k < |fs| && fs[k].htype.Required? :: k in seen
    ensures DecFields(fs, st, EncFields(fs[n..], y[n..]).value + more) == DecFields(fs, State(Merge(fs, x, y), seen), more)
    decreases fs, 4, |fs| - n
  {
    hide DecFields, EncSlot, GoodFields, HaveTypes, GoodSlots, RoomForBoth, MergeUpTo, After;
    if n == |fs| {
      NothingToMerge(fs, y, n, more);
      seen := st.seen;
    } else {
      FieldAt(fs, x, y, n, st.slots);
      var s, rest := EncSlot(fs[n], y[n]).value, EncFields(fs[n + 1..], y[n + 1..]).value;
      var here := FieldMerges(fs, st, n, y[n], rest + more);
      var next := State(After(fs, st.slots, n, st.slots[n], y[n]), here);
      OneFieldMore(fs, x, y, n);
      seen := RestMerges(fs, x, y, n + 1, next, more);
      assert EncFields(fs[n..], y[n..]).value + more == s + (rest + more);
    }
  }

  lemma NothingToMerge(fs: seq<Field>, y: seq<Slot>, n: nat, more: Octets)
    requires n == |fs| == |y|
    ensures HaveTypes(fs[n..], y[n..]) && EncFields(fs[n..], y[n..]) == Some([]) && [] + more == more
  {
  }

  lemma FieldAt(fs: seq<Field>, x: seq<Slot>, y: seq<Slot>, n: nat, slots: seq<Slot>)
    requires n < |fs| && HaveTypes(fs, x) && HaveTypes(fs, y) && GoodSlots(fs, y) && RoomForBoth(fs, x, y)
    requires slots == MergeUpTo(fs, x, y, n) && HaveTypes(fs[n..], y[n..]) && EncFields(fs[n..], y[n..]).Some?
    ensures SlotHasType(fs[n], slots[n]) && SlotHasType(fs[n], y[n]) && GoodSlot(fs[n], y[n]) && RoomInSlot(fs[n], slots[n], y[n])
    ensures HaveTypes(fs[n + 1..], y[n + 1..]) && EncSlot(fs[n], y[n]).Some? && EncFields(fs[n + 1..], y[n + 1..]).Some?
    ensures EncFields(fs[n..], y[n..]).value == EncSlot(fs[n], y[n]).value + EncFields(fs[n + 1..], y[n + 1..]).value
  {
    hide EncSlot, HasType, GoodValue, RoomInValue, SetsAnother;
    assert fs[n..][0] == fs[n] && y[n..][0] == y[n] && fs[n..][1..] == fs[n + 1..] && y[n..][1..] == y[n + 1..];
    assert SlotHasType(fs[n], x[n]) && SlotHasType(fs[n], y[n]) && GoodSlot(fs[n], y[n]) && RoomInSlot(fs[n], x[n], y[n]);
  }

  lemma OneFieldMore(fs: seq<Field>, x: seq<Slot>, y: seq<Slot>, n: nat)
    requires n < |fs| && HaveTypes(fs, x) && HaveTypes(fs, y) && GoodSlots(fs, y)
    ensures var slots := MergeUpTo(fs, x, y, n);
            SlotHasType(fs[n], slots[n]) && SlotHasType(fs[n], y[n]) && After(fs, slots, n, slots[n], y[n]) == MergeUpTo(fs, x, y, n + 1)
  {
    hide HasType, GoodSlot, MergeSlot;
    assert SlotHasType(fs[n], x[n]) && SlotHasType(fs[n], y[n]);
    var slots, more := MergeUpTo(fs, x, y, n), MergeUpTo(fs, x, y, n + 1);
    forall k | 0 <= k < |fs| ensures After(fs, slots, n, slots[n], y[n])[k] == more[k] {
      OneFieldMoreAt(fs, x, y, n, k);
    }
  }

  lemma OneFieldMoreAt(fs: seq<Field>, x: seq<Slot>, y: seq<Slot>, n: nat, k: nat)
    requires n < |fs| && k < |fs| && HaveTypes(fs, x) && HaveTypes(fs, y) && GoodSlots(fs, y)
    requires SlotHasType(fs[n], MergeUpTo(fs, x, y, n)[n]) && SlotHasType(fs[n], y[n])
    ensures var slots := MergeUpTo(fs, x, y, n);
            After(fs, slots, n, slots[n], y[n])[k] == MergeUpTo(fs, x, y, n + 1)[k]
  {
    hide HasType, GoodSlot, MergeSlot;
  }

  // A message read on top of another.
  lemma {:induction false} MessageMerges(fs: seq<Field>, x: seq<Slot>, y: seq<Slot>)
    requires GoodFields(fs) && HaveTypes(fs, x) && HaveTypes(fs, y) && GoodSlots(fs, y) && RoomForBoth(fs, x, y)
    requires EncFields(fs, y).Some? && |EncFields(fs, y).value| < TWO32
    ensures DecFields(fs, State(x, {}), EncFields(fs, y).value) == Some((Merge(fs, x, y), []))
    decreases fs, 5
  {
    hide DecFields, EncFields, GoodFields, GoodSlots, RoomForBoth, SlotHasType;
    NothingMerged(fs, x, y);
    assert fs[0..] == fs && y[0..] == y;
    var seen := RestMerges(fs, x, y, 0, State(x, {}), []);
    AtTheEnd(fs, State(Merge(fs, x, y), seen), []);
    assert EncFields(fs, y).value + [] == EncFields(fs, y).value;
  }

  lemma NothingMerged(fs: seq<Field>, x: seq<Slot>, y: seq<Slot>)
    requires HaveTypes(fs, x) && HaveTypes(fs, y)
    ensures MergeUpTo(fs, x, y, 0) == x
  {
  }

  // ---- two messages one after the other --------------------------------------------------

  lemma {:induction false} RoomOnDefault(t: LType, v: Value)
    requires HasType(t, v) && EncValue(t, v).Some?
    ensures HasType(t, Default(t)) && RoomInValue(t, Default(t), v)
    decreases t, 0
  {
    if t.SubmessageType? { RoomOnDefaults(t.fields, v.slots); }
  }

  lemma {:induction false} RoomOnDefaultSlot(f: Field, slot: Slot)
    requires SlotHasType(f, slot) && EncSlot(f, slot).Some?
    ensures SlotHasType(f, DefaultSlot(f)) && RoomInSlot(f, DefaultSlot(f), slot)
    decreases f, 1
  {
    hide EncValue, HasType, RoomInValue, IsZero, EncPacked, EncItems;
    DefaultHasType(f);
    if slot.One? && (f.htype.Required? || !IsZero(f.ltype, slot.v)) { RoomOnDefault(f.ltype, slot.v); }
  }

  lemma {:induction false} RoomOnDefaults(fs: seq<Field>, slots: seq<Slot>)
    requires HaveTypes(fs, slots) && EncFields(fs, slots).Some?
    ensures HaveTypes(fs, Defaults(fs)) && RoomForBoth(fs, Defaults(fs), slots)
    decreases fs, 2
  {
    hide EncSlot, RoomInSlot, DefaultSlot, SlotHasType;
    DefaultsHaveTypes(fs);
    forall i | 0 <= i < |fs| ensures RoomInSlot(fs[i], Defaults(fs)[i], slots[i]) {
      EachEncodes(fs, slots, i);
      RoomOnDefaultSlot(fs[i], slots[i]);
    }
  }

  lemma {:induction false} EachEncodes(fs: seq<Field>, slots: seq<Slot>, i: nat)
    requires HaveTypes(fs, slots) && EncFields(fs, slots).Some? && i < |fs|
    ensures SlotHasType(fs[i], slots[i]) && EncSlot(fs[i], slots[i]).Some?
    decreases |fs|
  {
    hide EncSlot, SlotHasType;
    TailHasTypes(fs, slots);
    if i > 0 {
      assert fs[1..][i - 1] == fs[i] && slots[1..][i - 1] == slots[i];
      EachEncodes(fs[1..], slots[1..], i - 1);
    }
  }

  // The bytes of two messages in a row decode to the first with the second
  // merged into it.
  lemma ConcatenationMerges(fs: seq<Field>, x: seq<Slot>, y: seq<Slot>)
    requires GoodFields(fs) && HaveTypes(fs, x) && GoodSlots(fs, x) && HaveTypes(fs, y) && GoodSlots(fs, y) && RoomForBoth(fs, x, y)
    requires EncFields(fs, x).Some? && |EncFields(fs, x).value| < TWO32
    requires EncFields(fs, y).Some? && |EncFields(fs, y).value| < TWO32
    ensures DecFields(fs, State(Defaults(fs), {}), EncFields(fs, x).value + EncFields(fs, y).value) == Some((Merge(fs, x, y), []))
  {
    hide DecFields, EncFields, GoodFields, GoodSlots, RoomForBoth, SlotHasType;
    var a, b := EncFields(fs, x).value, EncFields(fs, y).value;
    var seen := ReadsFirst(fs, x, b);
    NothingMerged(fs, x, y);
    assert fs[0..] == fs && y[0..] == y;
    var both := RestMerges(fs, x, y, 0, State(x, seen), []);
    AtTheEnd(fs, State(Merge(fs, x, y), both), []);
    assert b + [] == b;
  }

  // A whole message is read the same with anything behind it.
  lemma ReadsFirst(fs: seq<Field>, x: seq<Slot>, more: Octets) returns (seen: set<nat>)
    requires GoodFields(fs) && HaveTypes(fs, x) && GoodSlots(fs, x)
    requires EncFields(fs, x).Some? && |EncFields(fs, x).value| < TWO32
    ensures (forall k | 0 <= k < |fs| && fs[k].htype.Required? :: k in seen)
    ensures DecFields(fs, State(Defaults(fs), {}), EncFields(fs, x).value + more) == DecFields(fs, State(x, seen), more)
  {
    hide DecFields, EncFields, GoodFields, GoodSlots, RoomForBoth, SlotHasType;
    var st := State(Defaults(fs), {});
    RoomOnDefaults(fs, x);
    NothingMerged(fs, Defaults(fs), x);
    assert fs[0..] == fs && x[0..] == x;
    seen := RestMerges(fs, Defaults(fs), x, 0, st, more);
    MessageMerges(fs, Defaults(fs), x);
    MessageRoundTrips(fs, x);
  }

  // A member of a union that comes later on the wire: it alone is set.
  lemma LastMemberWins(fs: seq<Field>, x: seq<Slot>, y: seq<Slot>, i: nat, j: nat)
    requires HaveTypes(fs, x) && HaveTypes(fs, y) && i < |fs| && j < |fs| && i != j
    requires fs[i].htype.Oneof? && fs[j].htype == fs[i].htype && y[j] != Maybe(None) && y[i] == Maybe(None)
    ensures Merge(fs, x, y)[i] == Maybe(None) && Merge(fs, x, y)[j] == y[j]
  {
    hide SlotHasType, MergeSlot;
    assert SetsAnother(fs, y, |fs|, i);
  }
}
