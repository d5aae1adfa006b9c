// Protocol Buffers messages as nanopb sees them: descriptors, typed values,
// and the bytes they stand for (nanopb: pb.h, pb_encode.c).
module Messages {
  import opened Bytes
  import opened Varint

  // Bytes of an integer member.
  datatype Width = W8 | W16 | W32 | W64
  {
    function Modulus(): (m: nat)
      ensures m >= 256
    {
      match this
      case W8 => 0x100
      case W16 => 0x1_0000
      case W32 => TWO32
      case W64 => TWO64
    }

    predicate FitsSigned(n: int) { 0 <= 2 * n + Modulus() < 2 * Modulus() }

    predicate FitsUnsigned(n: int) { 0 <= n < Modulus() }
  }

  // BytesType: room for `max` bytes and their count. StringType: a character
  // array of `size` bytes. FixedBytesType: exactly `size` bytes.
  datatype LType = BoolType | VarintType(width: Width) | UVarintType(width: Width) | SVarintType(width: Width)
                 | Fixed32Type | Fixed64Type
                 | BytesType(max: nat) | StringType(size: nat) | FixedBytesType(size: nat)
                 | SubmessageType(fields: seq<Field>)

  // Optional(false) is a proto3 field: present when it is not zero.
  datatype HType = Required | Optional(has: bool) | Repeated(max: nat) | Oneof(union: nat)

  datatype Field = Field(tag: nat, ltype: LType, htype: HType)

  // Text holds what precedes the first NUL of the array, or all of it.
  datatype Value = Flag(on: bool) | Number(n: int) | Word(bits: nat) | Blob(bytes: Octets) | Text(chars: Octets)
                 | Message(slots: seq<Slot>)

  // The part of a struct a descriptor entry stands for. A member of a union is
  // there when the union's which-tag names it.
  datatype Slot = One(v: Value) | Maybe(o: Option<Value>) | Many(items: seq<Value>)

  const WT_VARINT: nat := 0
  const WT_64BIT: nat := 1
  const WT_STRING: nat := 2
  const WT_32BIT: nat := 5

  predicate Packable(t: LType)
  {
    t.BoolType? || t.VarintType? || t.UVarintType? || t.SVarintType? || t.Fixed32Type? || t.Fixed64Type?
  }

  function WireType(t: LType): nat
  {
    match t
    case Fixed32Type => WT_32BIT
    case Fixed64Type => WT_64BIT
    case BytesType(_) => WT_STRING
    case StringType(_) => WT_STRING
    case FixedBytesType(_) => WT_STRING
    case SubmessageType(_) => WT_STRING
    case _ => WT_VARINT
  }

  // ---- values in range ---------------------------------------------------------

  predicate HasType(t: LType, v: Value)
    decreases t
  {
    match t
    case BoolType => v.Flag?
    case VarintType(w) => v.Number? && w.FitsSigned(v.n)
    case UVarintType(w) => v.Number? && w.FitsUnsigned(v.n)
    case SVarintType(w) => v.Number? && w.FitsSigned(v.n)
    case Fixed32Type => v.Word? && v.bits < TWO32
    case Fixed64Type => v.Word? && v.bits < TWO64
    case BytesType(_) => v.Blob?
    case StringType(size) => v.Text? && |v.chars| <= size && 0 !in v.chars
    case FixedBytesType(size) => v.Blob? && |v.bytes| == size
    case SubmessageType(fields) => v.Message? && HaveTypes(fields, v.slots)
  }

  predicate SlotHasType(f: Field, slot: Slot)
    decreases f
  {
    match f.htype
    case Required => slot.One? && HasType(f.ltype, slot.v)
    case Optional(has) =>
      if has then slot.Maybe? && (slot.o.Some? ==> HasType(f.ltype, slot.o.value))
      else slot.One? && HasType(f.ltype, slot.v)
    case Repeated(_) => slot.Many? && forall v | v in slot.items :: HasType(f.ltype, v)
    case Oneof(_) => slot.Maybe? && (slot.o.Some? ==> HasType(f.ltype, slot.o.value))
  }

  predicate HaveTypes(fields: seq<Field>, slots: seq<Slot>)
    decreases fields
  {
    |fields| == |slots| && forall i | 0 <= i < |fields| :: SlotHasType(fields[i], slots[i])
  }

  // ---- defaults -------------------------------------------------------------------

  function NoBytes(n: nat): (s: Octets)
    ensures |s| == n
  {
    if n == 0 then [] else [0] + NoBytes(n - 1)
  }

  function Default(t: LType): Value
    decreases t
  {
    match t
    case BoolType => Flag(false)
    case Fixed32Type => Word(0)
    case Fixed64Type => Word(0)
    case BytesType(_) => Blob([])
    case StringType(_) => Text([])
    case FixedBytesType(size) => Blob(NoBytes(size))
    case SubmessageType(fields) => Message(Defaults(fields))
    case _ => Number(0)
  }

  function DefaultSlot(f: Field): Slot
    decreases f
  {
    match f.htype
    case Required => One(Default(f.ltype))
    case Optional(has) => if has then Maybe(None) else One(Default(f.ltype))
    case Repeated(_) => Many([])
    case Oneof(_) => Maybe(None)
  }

  // pb_message_set_to_defaults, with zero for every default value.
  function Defaults(fields: seq<Field>): (slots: seq<Slot>)
    ensures |slots| == |fields|
    ensures forall i | 0 <= i < |fields| :: slots[i] == DefaultSlot(fields[i])
    decreases fields
  {
    if fields == [] then [] else [DefaultSlot(fields[0])] + Defaults(fields[1..])
  }

  // pb_check_proto3_default_value of a value: nothing in it needs to be sent.
  predicate IsZero(t: LType, v: Value)
    requires HasType(t, v)
    decreases t
  {
    match t
    case BoolType => !v.on
    case Fixed32Type => v.bits == 0
    case Fixed64Type => v.bits == 0
    case BytesType(_) => |v.bytes| == 0
    case StringType(_) => |v.chars| == 0
    case FixedBytesType(size) => size == 0
    case SubmessageType(fields) => AreZero(fields, v.slots)
    case _ => v.n == 0
  }

  predicate AreZero(fields: seq<Field>, slots: seq<Slot>)
    requires HaveTypes(fields, slots)
    decreases fields
  {
    forall i | 0 <= i < |fields| :: SlotIsZero(fields[i], slots[i])
  }

  predicate SlotIsZero(f: Field, slot: Slot)
    requires SlotHasType(f, slot)
    decreases f
  {
    match f.htype
    case Required => false
    case Optional(has) => if has then slot.o.None? else IsZero(f.ltype, slot.v)
    case Repeated(_) => slot.items == []
    case Oneof(_) => slot.o.None?
  }

  // What is not sent is what the receiver starts from.
  lemma {:induction false} ZeroIsDefault(t: LType, v: Value)
    requires HasType(t, v) && IsZero(t, v)
    ensures v == Default(t)
    decreases t
  {
    if t.SubmessageType? {
      forall i | 0 <= i < |t.fields| ensures v.slots[i] == DefaultSlot(t.fields[i]) {
        var f := t.fields[i];
        assert SlotHasType(f, v.slots[i]) && SlotIsZero(f, v.slots[i]);
        if f.htype.Optional? && !f.htype.has {
          ZeroIsDefault(f.ltype, v.slots[i].v);
        }
      }
      assert v.slots == Defaults(t.fields);
    } else if t.FixedBytesType? {
      assert v.bytes == [];
    }
  }

  // ---- the bytes of a message ---------------------------------------------------------

  function TagBytes(wire: nat, tag: nat): Octets
  {
    VarintBytes(8 * tag + wire)
  }

  function LengthPrefixed(s: Octets): Octets
  {
    VarintBytes(|s|) + s
  }

  // A signed number as a 64-bit pattern.
  function Pattern(n: int): (p: nat)
    requires W64.FitsSigned(n)
    ensures p < TWO64 && Signed(p, TWO64) == n
  {
    if n < 0 then n + TWO64 else n
  }

  lemma FitsWidest(w: Width, n: int)
    ensures w.FitsSigned(n) ==> W64.FitsSigned(n)
    ensures w.FitsUnsigned(n) ==> n < TWO64
  {
  }

  function EncScalar(t: LType, v: Value): Octets
    requires Packable(t) && HasType(t, v)
  {
    if t.BoolType? then VarintBytes(if v.on then 1 else 0)
    else if t.VarintType? then FitsWidest(t.width, v.n); VarintBytes(Pattern(v.n))
    else if t.UVarintType? then VarintBytes(v.n)
    else if t.SVarintType? then FitsWidest(t.width, v.n); VarintBytes(ZigZag(v.n))
    else ToLittleEndian(v.bits, if t.Fixed32Type? then 4 else 8)
  }

  // None where the encoder reports an error.
  function EncValue(t: LType, v: Value): Option<Octets>
    requires HasType(t, v)
    decreases t, 0
  {
    match t
    case BytesType(max) => if |v.bytes| > max then None else Some(LengthPrefixed(v.bytes))
    case StringType(_) => Some(LengthPrefixed(v.chars))
    case FixedBytesType(_) => Some(LengthPrefixed(v.bytes))
    case SubmessageType(fields) =>
      (match EncFields(fields, v.slots)
       case None => None
       case Some(s) => Some(LengthPrefixed(s)))
    case _ => Some(EncScalar(t, v))
  }

  function EncTagged(f: Field, v: Value): Option<Octets>
    requires HasType(f.ltype, v)
    decreases f, 0
  {
    match EncValue(f.ltype, v)
    case None => None
    case Some(s) => Some(TagBytes(WireType(f.ltype), f.tag) + s)
  }

  function EncPacked(t: LType, items: seq<Value>): Octets
    requires Packable(t) && forall v | v in items :: HasType(t, v)
  {
    if items == [] then [] else EncScalar(t, items[0]) + EncPacked(t, items[1..])
  }

  function EncItems(f: Field, items: seq<Value>): Option<Octets>
    requires forall v | v in items :: HasType(f.ltype, v)
    decreases f, 1, |items|
  {
    if items == [] then Some([])
    else
      match EncTagged(f, items[0])
      case None => None
      case Some(s) =>
        match EncItems(f, items[1..])
        case None => None
        case Some(more) => Some(s + more)
  }

  function EncSlot(f: Field, slot: Slot): Option<Octets>
    requires SlotHasType(f, slot)
    decreases f, 2
  {
    match f.htype
    case Required => EncTagged(f, slot.v)
    case Optional(has) =>
      if has then (if slot.o.None? then Some([]) else EncTagged(f, slot.o.value))
      else if IsZero(f.ltype, slot.v) then Some([]) else EncTagged(f, slot.v)
    case Repeated(max) =>
      if slot.items == [] then Some([])
      else if |slot.items| > max then None
      else if Packable(f.ltype) then Some(TagBytes(WT_STRING, f.tag) + LengthPrefixed(EncPacked(f.ltype, slot.items)))
      else EncItems(f, slot.items)
    case Oneof(_) => if slot.o.None? then Some([]) else EncTagged(f, slot.o.value)
  }

  function EncFields(fields: seq<Field>, slots: seq<Slot>): Option<Octets>
    requires HaveTypes(fields, slots)
    decreases fields
  {
    if fields == [] then Some([])
    else
      assert SlotHasType(fields[0], slots[0]);
      match EncSlot(fields[0], slots[0])
      case None => None
      case Some(s) =>
        match EncFields(fields[1..], slots[1..])
        case None => None
        case Some(more) => Some(s + more)
  }
}
