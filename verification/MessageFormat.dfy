// The wire format of Protocol Buffers in plain numbers: which bytes stand for a
// message, said without reference to how they are made.
module MessageFormat {
  import opened Bytes
  import opened Varint
  import opened Messages
  import opened MessageTheorems
  import opened MessageSizes

  // s spells n: seven bits a byte from the lowest up, 128 added to every byte but
  // the last, and no byte more than needed.
  predicate SpellsVarint(s: Octets, n: nat)
  {
    && s != []
    && (forall i | 0 <= i < |s| :: s[i] == n / Pow128(i) % 128 + if i < |s| - 1 then 128 else 0)
    && n < Pow128(|s|)
    && (|s| > 1 ==> n >= Pow128(|s| - 1))
  }

  predicate SpellsBytes(s: Octets, bytes: Octets)
  {
    exists k | 0 <= k <= |s| :: SpellsVarint(s[..k], |bytes|) && s[k..] == bytes
  }

  predicate SpellsNumber(t: LType, v: Value, s: Octets)
    requires Packable(t) && HasType(t, v)
  {
    match t
    case BoolType => s == [if v.on then 1 else 0]
    case VarintType(_) => SpellsVarint(s, if v.n < 0 then v.n + 0x1_0000_0000_0000_0000 else v.n)
    case UVarintType(_) => SpellsVarint(s, v.n)
    case SVarintType(_) => SpellsVarint(s, if v.n < 0 then -2 * v.n - 1 else 2 * v.n)
    case Fixed32Type => SpellsWord(s, 4, v.bits)
    case Fixed64Type => SpellsWord(s, 8, v.bits)
  }

  predicate SpellsValue(t: LType, v: Value, s: Octets)
    requires HasType(t, v)
    decreases t, 0
  {
    match t
    case BytesType(max) => |v.bytes| <= max && SpellsBytes(s, v.bytes)
    case StringType(_) => SpellsBytes(s, v.chars)
    case FixedBytesType(_) => SpellsBytes(s, v.bytes)
    case SubmessageType(fields) =>
      exists k | 0 <= k <= |s| :: SpellsVarint(s[..k], |s| - k) && SpellsFields(fields, v.slots, s[k..])
    case _ => SpellsNumber(t, v, s)
  }

  // The low three bits of a tag: how the value's end is found.
  function Kind(t: LType): nat
  {
    match t
    case BoolType => 0
    case VarintType(_) => 0
    case UVarintType(_) => 0
    case SVarintType(_) => 0
    case Fixed64Type => 1
    case BytesType(_) => 2
    case StringType(_) => 2
    case FixedBytesType(_) => 2
    case SubmessageType(_) => 2
    case Fixed32Type => 5
  }

  predicate SpellsTagged(f: Field, v: Value, s: Octets)
    requires HasType(f.ltype, v)
    decreases f, 0
  {
    exists k | 0 <= k <= |s| :: SpellsVarint(s[..k], 8 * f.tag + Kind(f.ltype)) && SpellsValue(f.ltype, v, s[k..])
  }

  predicate SpellsItems(f: Field, items: seq<Value>, s: Octets)
    requires forall v | v in items :: HasType(f.ltype, v)
    decreases f, 1, |items|
  {
    if items == [] then s == []
    else exists k | 0 <= k <= |s| :: SpellsTagged(f, items[0], s[..k]) && SpellsItems(f, items[1..], s[k..])
  }

  predicate SpellsNumbers(t: LType, items: seq<Value>, s: Octets)
    requires Packable(t) && forall v | v in items :: HasType(t, v)
    decreases |items|
  {
    if items == [] then s == []
    else exists k | 0 <= k <= |s| :: SpellsNumber(t, items[0], s[..k]) && SpellsNumbers(t, items[1..], s[k..])
  }

  predicate SpellsPacked(f: Field, items: seq<Value>, s: Octets)
    requires Packable(f.ltype) && forall v | v in items :: HasType(f.ltype, v)
  {
    exists k, m | 0 <= k <= m <= |s| ::
      SpellsVarint(s[..k], 8 * f.tag + 2) && SpellsVarint(s[k..m], |s| - m) && SpellsNumbers(f.ltype, items, s[m..])
  }

  // A default value that needs not be sent is spelled by nothing.
  predicate SpellsSlot(f: Field, slot: Slot, s: Octets)
    requires SlotHasType(f, slot)
    decreases f, 2
  {
    if slot == DefaultSlot(f) && BareField(f) then s == []
    else
      match slot
      case One(v) => SpellsTagged(f, v, s)
      case Maybe(o) => SpellsTagged(f, o.value, s)
      case Many(items) =>
        && |items| <= f.htype.max
        && if Packable(f.ltype) then SpellsPacked(f, items, s) else SpellsItems(f, items, s)
  }

  predicate SpellsFields(fields: seq<Field>, slots: seq<Slot>, s: Octets)
    requires HaveTypes(fields, slots)
    decreases fields
  {
    if fields == [] then s == []
    else
      assert SlotHasType(fields[0], slots[0]);
      exists k | 0 <= k <= |s| :: SpellsSlot(fields[0], slots[0], s[..k]) && SpellsFields(fields[1..], slots[1..], s[k..])
  }

  // ---- numbers ----------------------------------------------------------------------

  lemma Pow128Grows(a: nat, b: nat)
    requires a <= b
    ensures Pow128(a) <= Pow128(b)
  {
    if a < b { Pow128Grows(a, b - 1); }
  }

  lemma {:induction false} VarintIsSpelled(n: nat)
    ensures SpellsVarint(VarintBytes(n), n)
  {
    assert Pow128(0) == 1 && Pow128(1) == 128;
    if n >= 128 {
      VarintIsSpelled(n / 128);
      var s, more := VarintBytes(n), VarintBytes(n / 128);
      assert s == [n % 128 + 128] + more;
      hide VarintBytes, Pow128;
      forall i | 0 < i < |s| ensures s[i] == n / Pow128(i) % 128 + if i < |s| - 1 then 128 else 0 {
        NextDigit(n, i - 1);
        assert s[i] == more[i - 1];
      }
      assert n / 1 == n;
      NextBound(n, |more|);
      NextBound(n, |more| - 1);
    }
  }

  lemma NextDigit(n: nat, i: nat)
    ensures n / Pow128(i + 1) == n / 128 / Pow128(i)
  {
    DivDiv(n, 128, Pow128(i));
  }

  lemma NextBound(n: nat, i: nat)
    ensures n / 128 < Pow128(i) <==> n < Pow128(i + 1)
  {
    var p := Pow128(i);
    assert Pow128(i + 1) == 128 * p;
  }

  // No other bytes spell the number.
  lemma VarintSpelledOnce(s: Octets, n: nat)
    ensures SpellsVarint(s, n) <==> s == VarintBytes(n)
  {
    hide VarintBytes, Pow128;
    VarintIsSpelled(n);
    var t := VarintBytes(n);
    if SpellsVarint(s, n) {
      if |s| < |t| {
        Pow128Grows(|s|, |t| - 1);
        assert false;
      } else if |t| < |s| {
        Pow128Grows(|t|, |s| - 1);
        assert false;
      }
      forall i | 0 <= i < |s| ensures s[i] == t[i] {
      }
    }
  }

  lemma NumberSpelledOnce(t: LType, v: Value, s: Octets)
    requires Packable(t) && HasType(t, v)
    ensures SpellsNumber(t, v, s) <==> s == EncScalar(t, v)
  {
    hide SpellsVarint, SpellsWord, VarintBytes, ToLittleEndian;
    match t
    case BoolType => OneByte(v.on);
    case VarintType(w) => FitsWidest(w, v.n); VarintSpelledOnce(s, Pattern(v.n));
    case UVarintType(_) => VarintSpelledOnce(s, v.n);
    case SVarintType(w) => FitsWidest(w, v.n); VarintSpelledOnce(s, ZigZag(v.n));
    case Fixed32Type => WordSpelledOnce(s, 4, v.bits);
    case Fixed64Type => WordSpelledOnce(s, 8, v.bits);
  }

  lemma OneByte(on: bool)
    ensures VarintBytes(if on then 1 else 0) == [if on then 1 else 0]
  {
  }

  // ---- messages ---------------------------------------------------------------------

  // Where s is cut in two.
  lemma CutAt(s: Octets, a: Octets, b: Octets)
    ensures |a| <= |s| && s[..|a|] == a && s[|a|..] == b <==> s == a + b
  {
  }

  lemma BytesSpelledOnce(s: Octets, bytes: Octets)
    ensures SpellsBytes(s, bytes) <==> s == LengthPrefixed(bytes)
  {
    hide SpellsVarint, VarintBytes;
    forall k | 0 <= k <= |s| ensures SpellsVarint(s[..k], |bytes|) <==> s[..k] == VarintBytes(|bytes|) {
      VarintSpelledOnce(s[..k], |bytes|);
    }
    CutAt(s, VarintBytes(|bytes|), bytes);
  }

  lemma {:induction false} ValueSpelledOnce(t: LType, v: Value, s: Octets)
    requires HasType(t, v)
    ensures SpellsValue(t, v, s) <==> EncValue(t, v) == Some(s)
    decreases t, 0
  {
    hide SpellsBytes, LengthPrefixed, SpellsNumber, EncScalar, SpellsFields, EncFields;
    match t
    case BytesType(_) => BytesSpelledOnce(s, v.bytes);
    case StringType(_) => BytesSpelledOnce(s, v.chars);
    case FixedBytesType(_) => BytesSpelledOnce(s, v.bytes);
    case SubmessageType(fields) =>
      forall k | 0 <= k <= |s| ensures SpellsFields(fields, v.slots, s[k..]) <==> EncFields(fields, v.slots) == Some(s[k..]) {
        FieldsSpelledOnce(fields, v.slots, s[k..]);
      }
      NestedSpelledOnce(fields, v.slots, s);
    case _ => NumberSpelledOnce(t, v, s);
  }

  lemma NestedSpelledOnce(fields: seq<Field>, slots: seq<Slot>, s: Octets)
    requires HaveTypes(fields, slots)
    requires forall k | 0 <= k <= |s| :: SpellsFields(fields, slots, s[k..]) <==> EncFields(fields, slots) == Some(s[k..])
    ensures (exists k | 0 <= k <= |s| :: SpellsVarint(s[..k], |s| - k) && SpellsFields(fields, slots, s[k..])) <==>
            EncFields(fields, slots).Some? && s == LengthPrefixed(EncFields(fields, slots).value)
  {
    hide SpellsVarint, VarintBytes, SpellsFields, EncFields;
    var code := EncFields(fields, slots);
    if k :| 0 <= k <= |s| && SpellsVarint(s[..k], |s| - k) && SpellsFields(fields, slots, s[k..]) {
      VarintSpelledOnce(s[..k], |s| - k);
      CutAt(s, s[..k], s[k..]);
    }
    if code.Some? && s == LengthPrefixed(code.value) {
      var a := VarintBytes(|code.value|);
      CutAt(s, a, code.value);
      VarintSpelledOnce(a, |code.value|);
      assert SpellsVarint(s[..|a|], |s| - |a|) && SpellsFields(fields, slots, s[|a|..]);
    }
  }

  lemma {:induction false} TaggedSpelledOnce(f: Field, v: Value, s: Octets)
    requires HasType(f.ltype, v)
    ensures SpellsTagged(f, v, s) <==> EncTagged(f, v) == Some(s)
    decreases f, 0
  {
    hide SpellsVarint, VarintBytes, SpellsValue, EncValue;
    var a, code := VarintBytes(8 * f.tag + Kind(f.ltype)), EncValue(f.ltype, v);
    forall k | 0 <= k <= |s|
      ensures SpellsVarint(s[..k], 8 * f.tag + Kind(f.ltype)) <==> s[..k] == a
      ensures SpellsValue(f.ltype, v, s[k..]) <==> code == Some(s[k..])
    {
      VarintSpelledOnce(s[..k], 8 * f.tag + Kind(f.ltype));
      ValueSpelledOnce(f.ltype, v, s[k..]);
    }
    if code.Some? { CutAt(s, a, code.value); }
  }

  lemma {:induction false} ItemsSpelledOnce(f: Field, items: seq<Value>, s: Octets)
    requires forall v | v in items :: HasType(f.ltype, v)
    ensures SpellsItems(f, items, s) <==> EncItems(f, items) == Some(s)
    decreases f, 1, |items|
  {
    if items != [] {
      hide SpellsTagged, EncTagged;
      var a, b := EncTagged(f, items[0]), EncItems(f, items[1..]);
      forall k | 0 <= k <= |s|
        ensures SpellsTagged(f, items[0], s[..k]) <==> a == Some(s[..k])
        ensures SpellsItems(f, items[1..], s[k..]) <==> b == Some(s[k..])
      {
        TaggedSpelledOnce(f, items[0], s[..k]);
        ItemsSpelledOnce(f, items[1..], s[k..]);
      }
      if a.Some? && b.Some? { CutAt(s, a.value, b.value); }
    }
  }

  lemma {:induction false} NumbersSpelledOnce(t: LType, items: seq<Value>, s: Octets)
    requires Packable(t) && forall v | v in items :: HasType(t, v)
    ensures SpellsNumbers(t, items, s) <==> s == EncPacked(t, items)
    decreases |items|
  {
    if items != [] {
      hide SpellsNumber, EncScalar;
      var a, b := EncScalar(t, items[0]), EncPacked(t, items[1..]);
      forall k | 0 <= k <= |s|
        ensures SpellsNumber(t, items[0], s[..k]) <==> s[..k] == a
        ensures SpellsNumbers(t, items[1..], s[k..]) <==> s[k..] == b
      {
        NumberSpelledOnce(t, items[0], s[..k]);
        NumbersSpelledOnce(t, items[1..], s[k..]);
      }
      CutAt(s, a, b);
    }
  }

  lemma PackedSpelledOnce(f: Field, items: seq<Value>, s: Octets)
    requires Packable(f.ltype) && forall v | v in items :: HasType(f.ltype, v)
    ensures SpellsPacked(f, items, s) <==> s == TagBytes(WT_STRING, f.tag) + LengthPrefixed(EncPacked(f.ltype, items))
  {
    hide SpellsVarint, VarintBytes, SpellsNumbers, EncPacked;
    var a, body := VarintBytes(8 * f.tag + 2), EncPacked(f.ltype, items);
    var b := VarintBytes(|body|);
    if k, m :| 0 <= k <= m <= |s| && SpellsVarint(s[..k], 8 * f.tag + 2) && SpellsVarint(s[k..m], |s| - m) && SpellsNumbers(f.ltype, items, s[m..]) {
      VarintSpelledOnce(s[..k], 8 * f.tag + 2);
      VarintSpelledOnce(s[k..m], |s| - m);
      NumbersSpelledOnce(f.ltype, items, s[m..]);
      assert s == s[..k] + (s[k..m] + s[m..]);
    }
    if s == a + (b + body) {
      var k, m := |a|, |a| + |b|;
      assert s[..k] == a && s[k..m] == b && s[m..] == body;
      VarintSpelledOnce(a, 8 * f.tag + 2);
      VarintSpelledOnce(b, |body|);
      NumbersSpelledOnce(f.ltype, items, body);
    }
  }

  lemma {:induction false} SlotSpelledOnce(f: Field, slot: Slot, s: Octets)
    requires SlotHasType(f, slot)
    ensures SpellsSlot(f, slot, s) <==> EncSlot(f, slot) == Some(s)
    decreases f, 2
  {
    hide SpellsTagged, EncTagged, SpellsItems, EncItems, SpellsPacked, EncPacked, Default, Bare, IsZero, HasType, TagBytes, LengthPrefixed;
    SilentExactly(f, slot);
    if !(slot == DefaultSlot(f) && BareField(f)) {
      match slot
      case One(v) => TaggedSpelledOnce(f, v, s); if f.htype.Optional? { ZeroExactly(f.ltype, v); }
      case Maybe(o) => TaggedSpelledOnce(f, o.value, s);
      case Many(items) =>
        if Packable(f.ltype) { PackedSpelledOnce(f, items, s); } else { ItemsSpelledOnce(f, items, s); }
    }
  }

  // These are the bytes that the encoder makes, and no others: what it refuses
  // has no spelling.
  lemma {:induction false} FieldsSpelledOnce(fields: seq<Field>, slots: seq<Slot>, s: Octets)
    requires HaveTypes(fields, slots)
    ensures SpellsFields(fields, slots, s) <==> EncFields(fields, slots) == Some(s)
    decreases fields
  {
    if fields != [] {
      hide SpellsSlot, EncSlot, SlotHasType;
      TailHasTypes(fields, slots);
      var a, b := EncSlot(fields[0], slots[0]), EncFields(fields[1..], slots[1..]);
      forall k | 0 <= k <= |s|
        ensures SpellsSlot(fields[0], slots[0], s[..k]) <==> a == Some(s[..k])
        ensures SpellsFields(fields[1..], slots[1..], s[k..]) <==> b == Some(s[k..])
      {
        SlotSpelledOnce(fields[0], slots[0], s[..k]);
        FieldsSpelledOnce(fields[1..], slots[1..], s[k..]);
      }
      if a.Some? && b.Some? { CutAt(s, a.value, b.value); }
    }
  }
}
