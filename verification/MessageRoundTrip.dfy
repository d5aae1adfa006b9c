// The round trip through the wire, field by field.
module MessageRoundTrip {
  import opened Bytes
  import opened Varint
  import opened Messages
  import opened MessageDecoding
  import opened MessageTheorems

  // ---- values --------------------------------------------------------------------

  lemma SignedRoundTrip(w: Width, n: int)
    requires w.FitsSigned(n)
    ensures W64.FitsSigned(n) && DecSigned(w, Pattern(n)) == Some(Number(n))
  {
    FitsWidest(w, n);
    if !w.W64? {
      if n < 0 {
        assert Pattern(n) % TWO32 == n + TWO32 by { LowHalfOfNegative(n); }
      }
    }
  }

  lemma LowHalfOfNegative(n: int)
    requires -0x8000_0000 <= n < 0
    ensures (n + TWO64) % TWO32 == n + TWO32
  {
    assert n + TWO64 == (n + TWO32) + TWO32 * (TWO32 - 1);
    PlusMultiple(n + TWO32, TWO32 - 1, TWO32);
  }

  lemma ScalarRoundTrip(t: LType, v: Value, rest: Octets)
    requires Packable(t) && HasType(t, v)
    ensures DecScalar(t, EncScalar(t, v) + rest) == Some((v, |EncScalar(t, v)|))
  {
    hide Decode32, Decode64, VarintBytes;
    var s := EncScalar(t, v) + rest;
    if t.BoolType? {
      VarintRoundTrip32(if v.on then 1 else 0, rest);
    } else if t.Fixed32Type? || t.Fixed64Type? {
      Pow256Values();
      var k := if t.Fixed32Type? then 4 else 8;
      LittleEndianRoundTrip(v.bits, k);
      assert s[..k] == ToLittleEndian(v.bits, k);
    } else {
      FitsWidest(t.width, v.n);
      if t.VarintType? {
        SignedRoundTrip(t.width, v.n);
        VarintRoundTrip64(Pattern(v.n), rest);
      } else if t.UVarintType? {
        VarintRoundTrip64(v.n, rest);
      } else {
        ZigZagInverts(v.n);
        VarintRoundTrip64(ZigZag(v.n), rest);
      }
    }
  }

  lemma LengthRoundTrip(body: Octets, rest: Octets)
    requires |body| < TWO32
    ensures DecLength(LengthPrefixed(body) + rest) == Some((body, |LengthPrefixed(body)|))
  {
    hide Decode32, VarintBytes;
    var s, n := LengthPrefixed(body) + rest, |VarintBytes(|body|)|;
    assert s == VarintBytes(|body|) + (body + rest);
    VarintRoundTrip32(|body|, body + rest);
    assert s[n..n + |body|] == body;
  }

  lemma {:induction false} NoNulToStop(s: Octets)
    requires 0 !in s
    ensures UpToNul(s) == s
  {
    if s != [] {
      assert s[0] != 0 by { assert s[0] in s; }
      NoNulToStop(s[1..]);
    }
  }

  // A string that fills its array is sent, but comes back only if the array
  // has room for a NUL after it.
  lemma StringNeedsRoom(size: nat, chars: Octets, rest: Octets)
    requires |chars| <= size && 0 !in chars && |chars| < TWO32
    ensures EncValue(StringType(size), Text(chars)) == Some(LengthPrefixed(chars))
    ensures DecPlain(StringType(size), LengthPrefixed(chars) + rest) ==
            if |chars| < size then Some((Text(chars), |LengthPrefixed(chars)|)) else None
  {
    LengthRoundTrip(chars, rest);
    NoNulToStop(chars);
  }

  lemma PlainRoundTrip(t: LType, v: Value, rest: Octets)
    requires Plain(t) && HasType(t, v) && GoodValue(t, v)
    requires EncValue(t, v).Some? && |EncValue(t, v).value| < TWO32
    ensures DecPlain(t, EncValue(t, v).value + rest) == Some((v, |EncValue(t, v).value|))
  {
    hide DecLength;
    if t.StringType? {
      StringNeedsRoom(t.size, v.chars, rest);
    } else {
      LengthRoundTrip(v.bytes, rest);
    }
  }

  // ---- skipping ------------------------------------------------------------------------

  // pb_skip_field passes over exactly one encoded value of the wire type.
  lemma SkipsValue(t: LType, v: Value, rest: Octets)
    requires HasType(t, v) && EncValue(t, v).Some? && |EncValue(t, v).value| < TWO32
    ensures SkipSize(WireType(t), EncValue(t, v).value + rest) == Some(|EncValue(t, v).value|)
  {
    hide VarintBytes, VarintSize, EncFields;
    if Packable(t) {
      if WireType(t) == WT_VARINT {
        FitsNumber(t, v);
        BytesStandFor(NumberSent(t, v), rest);
      }
    } else {
      var body := BodySent(t, v);
      LengthRoundTrip(body, rest);
    }
  }

  function NumberSent(t: LType, v: Value): nat
    requires HasType(t, v) && Packable(t) && WireType(t) == WT_VARINT
  {
    if t.BoolType? then (if v.on then 1 else 0)
    else if t.VarintType? then FitsWidest(t.width, v.n); Pattern(v.n)
    else if t.UVarintType? then v.n
    else FitsWidest(t.width, v.n); ZigZag(v.n)
  }

  lemma FitsNumber(t: LType, v: Value)
    requires HasType(t, v) && Packable(t) && WireType(t) == WT_VARINT
    ensures EncScalar(t, v) == VarintBytes(NumberSent(t, v))
  {
    hide VarintBytes;
  }

  function BodySent(t: LType, v: Value): Octets
    requires HasType(t, v) && !Packable(t) && EncValue(t, v).Some?
    ensures EncValue(t, v) == Some(LengthPrefixed(BodySent(t, v)))
  {
    if t.SubmessageType? then EncFields(t.fields, v.slots).value
    else if t.StringType? then v.chars
    else v.bytes
  }

  // ---- one tag --------------------------------------------------------------------------

  lemma TagStep(gs: seq<Field>, st: State, wire: nat, tag: nat, rest: Octets)
    requires |st.slots| == |gs| && 1 <= tag <= MAX_TAG && wire < 8
    ensures DecFields(gs, st, TagBytes(wire, tag) + rest) == DecTagged(gs, st, tag, wire, rest)
  {
    hide Decode32, VarintBytes, DecTagged;
    var s := TagBytes(wire, tag) + rest;
    VarintRoundTrip32(8 * tag + wire, rest);
    assert s[|TagBytes(wire, tag)|..] == rest;
  }

  lemma SkipStep(gs: seq<Field>, st: State, wire: nat, tag: nat, body: Octets, more: Octets)
    requires |st.slots| == |gs| && tag >= 1 && IndexOf(gs, tag) == None
    requires SkipSize(wire, body + more) == Some(|body|)
    ensures DecTagged(gs, st, tag, wire, body + more) == DecFields(gs, st, more)
  {
    hide SkipSize, DecFields;
    assert (body + more)[|body|..] == more;
  }

  lemma TakeStep(gs: seq<Field>, st: State, wire: nat, tag: nat, i: nat, slot: Slot, body: Octets, more: Octets)
    requires |st.slots| == |gs| && i < |gs| && IndexOf(gs, tag) == Some(i)
    requires DecSlot(gs[i], st.slots[i], wire, body + more) == Some((slot, |body|))
    ensures DecTagged(gs, st, tag, wire, body + more) ==
            DecFields(gs, State(Put(gs, st.slots, i, slot), st.seen + {i}), more)
  {
    hide DecSlot, DecFields, Put;
    assert (body + more)[|body|..] == more;
  }

  // ---- fields the receiver does not know ----------------------------------------------------

  lemma SkipTagged(f: Field, v: Value, gs: seq<Field>, st: State, more: Octets)
    requires GoodField(f) && HasType(f.ltype, v) && |st.slots| == |gs| && IndexOf(gs, f.tag) == None
    requires EncTagged(f, v).Some? && |EncTagged(f, v).value| < TWO32
    ensures DecFields(gs, st, EncTagged(f, v).value + more) == DecFields(gs, st, more)
  {
    hide DecFields, DecTagged, SkipSize, EncValue;
    var body := EncValue(f.ltype, v).value;
    SkipsValue(f.ltype, v, more);
    TagStep(gs, st, WireType(f.ltype), f.tag, body + more);
    SkipStep(gs, st, WireType(f.ltype), f.tag, body, more);
    assert EncTagged(f, v).value + more == TagBytes(WireType(f.ltype), f.tag) + (body + more);
  }

  lemma {:induction false} SkipItems(f: Field, items: seq<Value>, gs: seq<Field>, st: State, more: Octets)
    requires GoodField(f) && (forall v | v in items :: HasType(f.ltype, v)) && |st.slots| == |gs| && IndexOf(gs, f.tag) == None
    requires EncItems(f, items).Some? && |EncItems(f, items).value| < TWO32
    ensures DecFields(gs, st, EncItems(f, items).value + more) == DecFields(gs, st, more)
    decreases |items|
  {
    hide DecFields, EncTagged;
    if items == [] {
      assert EncItems(f, items).value + more == more;
    } else {
      var first, rest := EncTagged(f, items[0]).value, EncItems(f, items[1..]).value;
      assert EncItems(f, items).value + more == first + (rest + more);
      SkipTagged(f, items[0], gs, st, rest + more);
      SkipItems(f, items[1..], gs, st, more);
    }
  }

  lemma SkipSlot(f: Field, slot: Slot, gs: seq<Field>, st: State, more: Octets)
    requires GoodField(f) && SlotHasType(f, slot) && |st.slots| == |gs| && IndexOf(gs, f.tag) == None
    requires EncSlot(f, slot).Some? && |EncSlot(f, slot).value| < TWO32
    ensures DecFields(gs, st, EncSlot(f, slot).value + more) == DecFields(gs, st, more)
  {
    hide DecFields, EncTagged, EncItems, EncPacked, IsZero;
    var s := EncSlot(f, slot).value;
    if s == [] {
      assert s + more == more;
    } else if f.htype.Repeated? {
      if Packable(f.ltype) {
        var body := EncPacked(f.ltype, slot.items);
        LengthRoundTrip(body, more);
        TagStep(gs, st, WT_STRING, f.tag, LengthPrefixed(body) + more);
        SkipStep(gs, st, WT_STRING, f.tag, LengthPrefixed(body), more);
        assert s + more == TagBytes(WT_STRING, f.tag) + (LengthPrefixed(body) + more);
      } else {
        SkipItems(f, slot.items, gs, st, more);
      }
    } else {
      SkipTagged(f, if slot.One? then slot.v else slot.o.value, gs, st, more);
    }
  }

  // ---- fields the receiver knows --------------------------------------------------------------

  lemma {:induction false} PackedRoundTrip(t: LType, items: seq<Value>, acc: seq<Value>, max: nat)
    requires Packable(t) && (forall v | v in items :: HasType(t, v)) && |acc| + |items| <= max
    ensures DecPacked(t, acc, max, EncPacked(t, items)) == Some(acc + items)
    decreases |items|
  {
    hide DecScalar, EncScalar;
    if items == [] {
      assert acc + items == acc;
    } else {
      var s, rest := EncScalar(t, items[0]), EncPacked(t, items[1..]);
      ScalarRoundTrip(t, items[0], rest);
      ScalarSize(t, s + rest);
      assert (s + rest)[|s|..] == rest;
      PackedRoundTrip(t, items[1..], acc + [items[0]], max);
      assert acc + [items[0]] + items[1..] == acc + items;
    }
  }

  // Position i is the receiver's only place for field f.
  ghost predicate PlaceOf(gs: seq<Field>, i: nat, f: Field)
  {
    i < |gs| && SameField(f, gs[i]) && IndexOf(gs, f.tag) == Some(i)
  }

  // No other member of a union is set where f's value goes.
  ghost predicate Free(gs: seq<Field>, slots: seq<Slot>, i: nat)
    requires |slots| == |gs| && i < |gs|
  {
    gs[i].htype.Oneof? ==> forall k | 0 <= k < |gs| && k != i && gs[k].htype == gs[i].htype :: slots[k] == Maybe(None)
  }

  lemma PutIsUpdate(gs: seq<Field>, slots: seq<Slot>, i: nat, slot: Slot)
    requires |slots| == |gs| && i < |gs| && Free(gs, slots, i)
    ensures Put(gs, slots, i, slot) == slots[i := slot]
  {
  }

  lemma {:induction false} ValueRoundTrip(f: LType, g: LType, v: Value, rest: Octets)
    requires GoodType(f) && HasType(f, v) && GoodValue(f, v) && Knows(f, g)
    requires EncValue(f, v).Some? && |EncValue(f, v).value| < TWO32
    ensures DecValue(g, Default(g), EncValue(f, v).value + rest) ==
            Some((ProjectValue(f, g, v), |EncValue(f, v).value|))
    decreases f, 0
  {
    hide DecScalar, DecPlain, DecLength, DecFields, EncFields, EncScalar;
    if Packable(f) {
      ScalarRoundTrip(f, v, rest);
    } else if Plain(f) {
      PlainRoundTrip(f, v, rest);
    } else {
      var body := EncFields(f.fields, v.slots).value;
      LengthRoundTrip(body, rest);
      RoundTrip(f.fields, g.fields, v.slots);
    }
  }

  // A tagged value is read on top of a default; of a union it clears the rest.
  lemma TakeMember(f: Field, v: Value, gs: seq<Field>, st: State, i: nat, more: Octets)
    requires GoodField(f) && HasType(f.ltype, v) && GoodValue(f.ltype, v)
    requires |st.slots| == |gs| && PlaceOf(gs, i, f)
    requires EncTagged(f, v).Some? && |EncTagged(f, v).value| < TWO32
    requires Current(gs[i], st.slots[i]) == Default(gs[i].ltype)
    requires f.htype.Repeated? ==> !Packable(f.ltype) && st.slots[i].Many? && |st.slots[i].items| < f.htype.max
    ensures DecFields(gs, st, EncTagged(f, v).value + more) ==
            DecFields(gs, State(Put(gs, st.slots, i, Stored(gs[i], st.slots[i], ProjectValue(f.ltype, gs[i].ltype, v))), st.seen + {i}), more)
    decreases f, 0
  {
    hide DecFields, DecTagged, EncValue, DecValue, ProjectValue, Put, Stored, Current, GoodValue, HasType;
    var body, wire := EncValue(f.ltype, v).value, WireType(f.ltype);
    ValueRoundTrip(f.ltype, gs[i].ltype, v, more);
    KnowsPackable(f.ltype, gs[i].ltype);
    var slot := Stored(gs[i], st.slots[i], ProjectValue(f.ltype, gs[i].ltype, v));
    TagStep(gs, st, wire, f.tag, body + more);
    TakeStep(gs, st, wire, f.tag, i, slot, body, more);
    assert EncTagged(f, v).value + more == TagBytes(wire, f.tag) + (body + more);
  }

  lemma TakeTagged(f: Field, v: Value, gs: seq<Field>, st: State, i: nat, more: Octets)
    requires GoodField(f) && HasType(f.ltype, v) && GoodValue(f.ltype, v)
    requires |st.slots| == |gs| && PlaceOf(gs, i, f) && Free(gs, st.slots, i)
    requires EncTagged(f, v).Some? && |EncTagged(f, v).value| < TWO32
    requires Current(gs[i], st.slots[i]) == Default(gs[i].ltype)
    requires f.htype.Repeated? ==> !Packable(f.ltype) && st.slots[i].Many? && |st.slots[i].items| < f.htype.max
    ensures DecFields(gs, st, EncTagged(f, v).value + more) ==
            DecFields(gs, State(st.slots[i := Stored(gs[i], st.slots[i], ProjectValue(f.ltype, gs[i].ltype, v))], st.seen + {i}), more)
    decreases f, 1
  {
    hide DecFields, EncTagged, ProjectValue, Put, Stored, Current, GoodValue, HasType;
    TakeMember(f, v, gs, st, i, more);
    PutIsUpdate(gs, st.slots, i, Stored(gs[i], st.slots[i], ProjectValue(f.ltype, gs[i].ltype, v)));
  }

  lemma KnowsPackable(f: LType, g: LType)
    requires Knows(f, g)
    ensures Packable(f) <==> Packable(g)
    ensures Packable(f) ==> f == g
  {
  }

  lemma {:induction false} TakeItems(f: Field, items: seq<Value>, acc: seq<Value>, gs: seq<Field>, st: State, i: nat, more: Octets)
      returns (seen: set<nat>)
    requires GoodField(f) && f.htype.Repeated? && !Packable(f.ltype)
    requires forall v | v in items :: HasType(f.ltype, v) && GoodValue(f.ltype, v)
    requires |st.slots| == |gs| && PlaceOf(gs, i, f)
    requires EncItems(f, items).Some? && |EncItems(f, items).value| < TWO32
    requires st.slots[i] == Many(acc) && |acc| + |items| <= f.htype.max
    ensures st.seen <= seen
    ensures DecFields(gs, st, EncItems(f, items).value + more) ==
            DecFields(gs, State(st.slots[i := Many(acc + ProjectItems(f, gs[i], items))], seen), more)
    decreases f, 2, |items|
  {
    hide DecFields, EncTagged, ProjectValue, HasType, GoodValue, Stored;
    if items == [] {
      assert EncItems(f, items).value + more == more;
      assert acc + ProjectItems(f, gs[i], items) == acc;
      assert st.slots[i := Many(acc)] == st.slots;
      seen := st.seen;
    } else {
      var first, rest := EncTagged(f, items[0]).value, EncItems(f, items[1..]).value;
      assert EncItems(f, items).value + more == first + (rest + more);
      TakeTagged(f, items[0], gs, st, i, rest + more);
      var v := ProjectValue(f.ltype, gs[i].ltype, items[0]);
      var next := State(st.slots[i := Many(acc + [v])], st.seen + {i});
      StoresItem(f, gs[i], acc, v);
      seen := TakeItems(f, items[1..], acc + [v], gs, next, i, more);
      assert next.slots[i := Many(acc + ProjectItems(f, gs[i], items))] == st.slots[i := Many(acc + ProjectItems(f, gs[i], items))];
      assert acc + [v] + ProjectItems(f, gs[i], items[1..]) == acc + ProjectItems(f, gs[i], items);
    }
  }

  lemma StoresItem(f: Field, g: Field, acc: seq<Value>, v: Value)
    requires SameField(f, g) && f.htype.Repeated?
    ensures Stored(g, Many(acc), v) == Many(acc + [v])
  {
  }

  lemma TakePacked(f: Field, items: seq<Value>, acc: seq<Value>, gs: seq<Field>, st: State, i: nat, more: Octets)
    requires GoodField(f) && f.htype.Repeated? && Packable(f.ltype) && |acc| + |items| <= f.htype.max
    requires forall v | v in items :: HasType(f.ltype, v)
    requires |st.slots| == |gs| && PlaceOf(gs, i, f) && st.slots[i] == Many(acc)
    requires |EncPacked(f.ltype, items)| < TWO32
    ensures DecFields(gs, st, TagBytes(WT_STRING, f.tag) + LengthPrefixed(EncPacked(f.ltype, items)) + more) ==
            DecFields(gs, State(st.slots[i := Many(acc + items)], st.seen + {i}), more)
  {
    hide DecFields, DecTagged, EncPacked, DecPacked, DecLength, LengthPrefixed, VarintBytes;
    var body := EncPacked(f.ltype, items);
    var sent := LengthPrefixed(body);
    LengthRoundTrip(body, more);
    PackedRoundTrip(f.ltype, items, acc, f.htype.max);
    KnowsPackable(f.ltype, gs[i].ltype);
    TagStep(gs, st, WT_STRING, f.tag, sent + more);
    TakeStep(gs, st, WT_STRING, f.tag, i, Many(acc + items), sent, more);
    PutIsUpdate(gs, st.slots, i, Many(acc + items));
    assert TagBytes(WT_STRING, f.tag) + sent + more == TagBytes(WT_STRING, f.tag) + (sent + more);
  }

  lemma {:induction false} PackedProjection(f: Field, g: Field, items: seq<Value>)
    requires SameField(f, g) && Packable(f.ltype) && forall v | v in items :: HasType(f.ltype, v)
    ensures ProjectItems(f, g, items) == items
    decreases |items|
  {
    if items != [] { PackedProjection(f, g, items[1..]); }
  }

  // One field of the sender: its slot ends up projected in the receiver's.
  lemma TakeSlot(f: Field, slot: Slot, gs: seq<Field>, st: State, i: nat, more: Octets) returns (seen: set<nat>)
    requires GoodField(f) && SlotHasType(f, slot) && GoodSlot(f, slot)
    requires |st.slots| == |gs| && PlaceOf(gs, i, f) && st.slots[i] == DefaultSlot(gs[i])
    requires slot.Maybe? && slot.o.Some? ==> Free(gs, st.slots, i)
    requires EncSlot(f, slot).Some? && |EncSlot(f, slot).value| < TWO32
    ensures st.seen <= seen && (f.htype.Required? ==> i in seen)
    ensures DecFields(gs, st, EncSlot(f, slot).value + more) ==
            DecFields(gs, State(st.slots[i := ProjectSlot(f, gs[i], slot)], seen), more)
    decreases f, 3
  {
    hide DecFields, EncTagged, EncItems, EncPacked, IsZero, ProjectValue, GoodValue, HasType, ProjectItems, Default;
    var s, g := EncSlot(f, slot).value, gs[i];
    if Sent(f, slot) {
      if f.htype.Repeated? {
        if Packable(f.ltype) {
          TakePacked(f, slot.items, [], gs, st, i, more);
          assert [] + slot.items == slot.items;
          PackedProjection(f, g, slot.items);
          seen := st.seen + {i};
        } else {
          seen := TakeItems(f, slot.items, [], gs, st, i, more);
          assert [] + ProjectItems(f, g, slot.items) == ProjectItems(f, g, slot.items);
        }
      } else {
        TakeTagged(f, if slot.One? then slot.v else slot.o.value, gs, st, i, more);
        seen := st.seen + {i};
      }
    } else {
      UnsentIsDefault(f, g, slot);
      assert s == [] && s + more == more;
      assert st.slots[i := DefaultSlot(g)] == st.slots;
      seen := st.seen;
    }
  }

  // Whether anything goes out for a slot.
  predicate Sent(f: Field, slot: Slot)
    requires SlotHasType(f, slot)
  {
    match f.htype
    case Required => true
    case Optional(has) => if has then slot.o.Some? else !IsZero(f.ltype, slot.v)
    case Repeated(_) => slot.items != []
    case Oneof(_) => slot.o.Some?
  }

  lemma UnsentIsDefault(f: Field, g: Field, slot: Slot)
    requires SlotHasType(f, slot) && !Sent(f, slot) && SameField(f, g)
    ensures EncSlot(f, slot) == Some([]) && ProjectSlot(f, g, slot) == DefaultSlot(g)
  {
    if f.htype.Optional? && !f.htype.has {
      ZeroIsDefault(f.ltype, slot.v);
      ProjectDefault(f.ltype, g.ltype);
    }
  }

  // ---- whole messages -------------------------------------------------------------------------

  // The state before the fields fs: the receiver's first j places are done,
  // none of them is a place for fs, and no union they belong to is set in fs.
  ghost predicate Midway(fs: seq<Field>, slots: seq<Slot>, gs: seq<Field>, j: nat, st: State)
    requires |fs| == |slots|
  {
    && |st.slots| == |gs| && j <= |gs| && st.slots[j..] == Defaults(gs[j..])
    && (forall k, i | 0 <= k < j && 0 <= i < |fs| :: gs[k].tag != fs[i].tag)
    && (forall k | 0 <= k < j && gs[k].htype.Required? :: k in st.seen)
    && (forall k, i | 0 <= k < j && 0 <= i < |fs| && gs[k].htype.Oneof? && gs[k].htype == fs[i].htype && slots[i] != Maybe(None) ::
          st.slots[k] == Maybe(None))
  }

  lemma {:induction false} IndexOfFirst(gs: seq<Field>, i: nat)
    requires i < |gs| && forall k | 0 <= k < i :: gs[k].tag != gs[i].tag
    ensures IndexOf(gs, gs[i].tag) == Some(i)
    decreases |gs|
  {
    if i > 0 {
      assert gs[1..][i - 1] == gs[i] && gs[0].tag != gs[i].tag;
      forall k | 0 <= k < i - 1 ensures gs[1..][k].tag != gs[i].tag { assert gs[1..][k] == gs[k + 1]; }
      IndexOfFirst(gs[1..], i - 1);
    }
  }

  lemma {:induction false} KnownTags(fs: seq<Field>, gs: seq<Field>)
    requires KnowsSome(fs, gs)
    ensures forall k | 0 <= k < |gs| :: exists i :: 0 <= i < |fs| && fs[i].tag == gs[k].tag
    decreases fs
  {
    if fs != [] {
      var kept := gs != [] && gs[0].tag == fs[0].tag;
      var gs' := if kept then gs[1..] else gs;
      KnownTags(fs[1..], gs');
      forall k | 0 <= k < |gs| ensures exists i :: 0 <= i < |fs| && fs[i].tag == gs[k].tag {
        if kept && k == 0 {
          assert fs[0].tag == gs[k].tag;
        } else {
          var m := if kept then k - 1 else k;
          assert gs'[m] == gs[k];
          var i :| 0 <= i < |fs[1..]| && fs[1..][i].tag == gs'[m].tag;
          assert fs[i + 1].tag == gs[k].tag;
        }
      }
    }
  }

  lemma TailIsGood(fs: seq<Field>, slots: seq<Slot>)
    requires fs != [] && GoodFields(fs) && HaveTypes(fs, slots) && GoodSlots(fs, slots)
    ensures GoodField(fs[0]) && SlotHasType(fs[0], slots[0]) && GoodSlot(fs[0], slots[0])
    ensures GoodFields(fs[1..]) && HaveTypes(fs[1..], slots[1..]) && GoodSlots(fs[1..], slots[1..])
    ensures forall i | 0 <= i < |fs[1..]| :: fs[1..][i].tag != fs[0].tag
  {
    hide GoodField, GoodSlot, SlotHasType;
    var gs, more := fs[1..], slots[1..];
    assert forall i | 0 <= i < |gs| :: gs[i] == fs[i + 1] && more[i] == slots[i + 1];
    assert GoodFields(gs) && HaveTypes(gs, more) && Exclusive(gs, more);
  }

  // A message ends where the bytes do or at a zero.
  predicate Ends(tail: Octets) { tail != [] ==> tail[0] == 0 }

  function Past(tail: Octets): Octets { if tail == [] then [] else tail[1..] }

  // Reading on from the middle of a message.
  lemma {:induction false} RestRoundTrip(fs: seq<Field>, slots: seq<Slot>, gs: seq<Field>, j: nat, st: State, tail: Octets)
    requires GoodFields(fs) && HaveTypes(fs, slots) && GoodSlots(fs, slots)
    requires Midway(fs, slots, gs, j, st) && KnowsSome(fs, gs[j..])
    requires EncFields(fs, slots).Some? && |EncFields(fs, slots).value| < TWO32 && Ends(tail)
    ensures DecFields(gs, st, EncFields(fs, slots).value + tail) == Some((st.slots[..j] + Project(fs, gs[j..], slots), Past(tail)))
    decreases fs, 4
  {
    hide DecFields, EncSlot, GoodField, GoodSlot, SlotHasType, Defaults, SameField, ProjectSlot;
    if fs == [] {
      assert gs[j..] == [];
      AtTheEnd(gs, st, tail);
      assert st.slots[..j] + [] == st.slots && [] + tail == tail;
    } else {
      TailIsGood(fs, slots);
      var f, slot := fs[0], slots[0];
      var s, more := EncSlot(f, slot).value, EncFields(fs[1..], slots[1..]).value;
      assert EncFields(fs, slots).value + tail == s + (more + tail);
      hide EncFields, Ends, Past, GoodFields, HaveTypes, GoodSlots, IndexOf;
      if gs[j..] != [] && gs[j..][0].tag == f.tag {
        assert gs[j..][0] == gs[j] && gs[j..][1..] == gs[j + 1..];
        IndexOfFirst(gs, j);
        SameTags(f, gs[j]);
        FreePlace(fs, slots, gs, j, st);
        var seen := TakeSlot(f, slot, gs, st, j, more + tail);
        var next := State(st.slots[j := ProjectSlot(f, gs[j], slot)], seen);
        StillMidway(fs, slots, gs, j, st, next);
        RestRoundTrip(fs[1..], slots[1..], gs, j + 1, next, tail);
        var last := Project(fs[1..], gs[j + 1..], slots[1..]);
        assert Project(fs, gs[j..], slots) == [ProjectSlot(f, gs[j], slot)] + last;
        OneMoreSlot(st.slots, j, ProjectSlot(f, gs[j], slot), last);
      } else {
        NotKnown(fs, slots, gs, j, st);
        SkipSlot(f, slot, gs, st, more + tail);
        SkippedMidway(fs, slots, gs, j, st);
        RestRoundTrip(fs[1..], slots[1..], gs, j, st, tail);
      }
    }
  }

  lemma OneMoreSlot(slots: seq<Slot>, j: nat, slot: Slot, last: seq<Slot>)
    requires j < |slots|
    ensures slots[j := slot][..j + 1] + last == slots[..j] + ([slot] + last)
  {
  }

  lemma AtTheEnd(gs: seq<Field>, st: State, tail: Octets)
    requires |st.slots| == |gs| && forall k | 0 <= k < |gs| && gs[k].htype.Required? :: k in st.seen
    requires Ends(tail)
    ensures DecFields(gs, st, tail) == Some((st.slots, Past(tail)))
  {
  }

  lemma FreePlace(fs: seq<Field>, slots: seq<Slot>, gs: seq<Field>, j: nat, st: State)
    requires fs != [] && |fs| == |slots| && Midway(fs, slots, gs, j, st) && j < |gs| && gs[j].htype == fs[0].htype
    ensures st.slots[j] == DefaultSlot(gs[j])
    ensures slots[0].Maybe? && slots[0].o.Some? ==> Free(gs, st.slots, j)
  {
    assert st.slots[j..][0] == st.slots[j] && gs[j..][0] == gs[j];
    if slots[0].Maybe? && slots[0].o.Some? && gs[j].htype.Oneof? {
      forall k | 0 <= k < |gs| && k != j && gs[k].htype == gs[j].htype ensures st.slots[k] == Maybe(None) {
        if k > j {
          assert st.slots[j..][k - j] == st.slots[k] && gs[j..][k - j] == gs[k];
        }
      }
    }
  }

  lemma StillMidway(fs: seq<Field>, slots: seq<Slot>, gs: seq<Field>, j: nat, st: State, next: State)
    requires fs != [] && HaveTypes(fs, slots) && GoodFields(fs) && GoodSlots(fs, slots)
    requires Midway(fs, slots, gs, j, st) && j < |gs| && SlotHasType(fs[0], slots[0]) && SameField(fs[0], gs[j])
    requires next.slots == st.slots[j := ProjectSlot(fs[0], gs[j], slots[0])] && st.seen <= next.seen
    requires gs[j].htype.Required? ==> j in next.seen
    ensures Midway(fs[1..], slots[1..], gs, j + 1, next)
  {
    hide GoodField, GoodSlot, SlotHasType, GoodType;
    assert next.slots[j + 1..] == st.slots[j..][1..];
    assert Defaults(gs[j..])[1..] == Defaults(gs[j + 1..]) by { assert gs[j..][1..] == gs[j + 1..]; }
    forall k, i | 0 <= k < j + 1 && 0 <= i < |fs[1..]| && gs[k].htype.Oneof? && gs[k].htype == fs[1..][i].htype && slots[1..][i] != Maybe(None)
      ensures next.slots[k] == Maybe(None)
    {
      assert fs[1..][i] == fs[i + 1] && slots[1..][i] == slots[i + 1];
      if k == j {
        assert slots[0] == Maybe(None);
        ProjectNothing(fs[0], gs[j], slots[0]);
      }
    }
    forall k, i | 0 <= k < j + 1 && 0 <= i < |fs[1..]| ensures gs[k].tag != fs[1..][i].tag {
      assert fs[1..][i] == fs[i + 1];
      if k == j { SameTags(fs[0], gs[j]); }
    }
  }

  lemma SameTags(f: Field, g: Field)
    requires SameField(f, g)
    ensures f.tag == g.tag && f.htype == g.htype
  {
  }

  lemma ProjectNothing(f: Field, g: Field, slot: Slot)
    requires SlotHasType(f, slot) && SameField(f, g) && slot == Maybe(None)
    ensures ProjectSlot(f, g, slot) == Maybe(None)
  {
  }

  lemma SkippedMidway(fs: seq<Field>, slots: seq<Slot>, gs: seq<Field>, j: nat, st: State)
    requires fs != [] && |fs| == |slots| && Midway(fs, slots, gs, j, st)
    ensures Midway(fs[1..], slots[1..], gs, j, st)
  {
    hide Defaults;
    forall i | 0 <= i < |fs[1..]| ensures fs[1..][i] == fs[i + 1] && slots[1..][i] == slots[i + 1] {
    }
  }

  lemma NotKnown(fs: seq<Field>, slots: seq<Slot>, gs: seq<Field>, j: nat, st: State)
    requires fs != [] && |fs| == |slots| && GoodFields(fs) && Midway(fs, slots, gs, j, st) && KnowsSome(fs[1..], gs[j..])
    ensures IndexOf(gs, fs[0].tag) == None
  {
    hide Defaults, GoodField;
    KnownTags(fs[1..], gs[j..]);
    forall k | 0 <= k < |gs| ensures gs[k].tag != fs[0].tag {
      if k >= j { assert gs[j..][k - j] == gs[k]; }
    }
  }

  // Round trip and forward compatibility in one: a receiver that knows all or
  // some of the sender's fields, at every level, decodes exactly the part of
  // the message it can hold. The bytes are consumed to the end, and the checks
  // for required fields pass.
  lemma {:induction false} RoundTrip(fs: seq<Field>, gs: seq<Field>, slots: seq<Slot>)
    requires GoodFields(fs) && HaveTypes(fs, slots) && GoodSlots(fs, slots) && KnowsSome(fs, gs)
    requires EncFields(fs, slots).Some? && |EncFields(fs, slots).value| < TWO32
    ensures DecFields(gs, State(Defaults(gs), {}), EncFields(fs, slots).value) == Some((Project(fs, gs, slots), []))
    decreases fs, 5
  {
    hide DecFields, EncFields, GoodFields, HaveTypes, GoodSlots;
    var st := State(Defaults(gs), {});
    assert gs[0..] == gs && st.slots[0..] == st.slots;
    RestRoundTrip(fs, slots, gs, 0, st, []);
    assert EncFields(fs, slots).value + [] == EncFields(fs, slots).value;
    assert st.slots[..0] + Project(fs, gs, slots) == Project(fs, gs, slots);
  }

  // A receiver with the sender's own descriptors gets the message itself.
  lemma MessageRoundTrips(fs: seq<Field>, slots: seq<Slot>)
    requires GoodFields(fs) && HaveTypes(fs, slots) && GoodSlots(fs, slots)
    requires EncFields(fs, slots).Some? && |EncFields(fs, slots).value| < TWO32
    ensures DecFields(fs, State(Defaults(fs), {}), EncFields(fs, slots).value) == Some((slots, []))
  {
    ProjectAll(fs, slots);
    RoundTrip(fs, fs, slots);
  }

  // A zero ends a message, and what follows is left for the next reader.
  lemma ZeroEndsMessage(fs: seq<Field>, gs: seq<Field>, slots: seq<Slot>, more: Octets)
    requires GoodFields(fs) && HaveTypes(fs, slots) && GoodSlots(fs, slots) && KnowsSome(fs, gs)
    requires EncFields(fs, slots).Some? && |EncFields(fs, slots).value| < TWO32
    ensures DecFields(gs, State(Defaults(gs), {}), EncFields(fs, slots).value + ([0] + more)) == Some((Project(fs, gs, slots), more))
  {
    hide DecFields, EncFields, GoodFields, HaveTypes, GoodSlots;
    var st := State(Defaults(gs), {});
    assert gs[0..] == gs && st.slots[0..] == st.slots;
    RestRoundTrip(fs, slots, gs, 0, st, [0] + more);
    assert st.slots[..0] + Project(fs, gs, slots) == Project(fs, gs, slots);
  }
}
