// What the decoder accepts and what it refuses (nanopb: pb_decode.c).
module MessageChecks {
  import opened Bytes
  import Varint
  import opened Messages
  import opened MessageTheorems
  import opened MessageDecoding

  type Octets = Varint.Octets

  // ---- numbers -------------------------------------------------------------------

  predicate InRange(t: LType, n: int)
    requires t.VarintType? || t.UVarintType? || t.SVarintType?
  {
    match t.width
    case W8 => if t.UVarintType? then 0 <= n < 0x100 else -0x80 <= n < 0x80
    case W16 => if t.UVarintType? then 0 <= n < 0x1_0000 else -0x8000 <= n < 0x8000
    case W32 => if t.UVarintType? then 0 <= n < 0x1_0000_0000 else -0x8000_0000 <= n < 0x8000_0000
    case W64 => if t.UVarintType? then 0 <= n < 0x1_0000_0000_0000_0000 else -0x8000_0000_0000_0000 <= n < 0x8000_0000_0000_0000
  }

  // The 64-bit number w on the wire stands for n in a field of this type. Of a
  // signed number narrower than 64 bits only the low 32 bits are looked at.
  predicate StandsFor(t: LType, w: nat, n: int)
    requires t.VarintType? || t.UVarintType? || t.SVarintType?
  {
    match t
    case UVarintType(_) => w == n
    case SVarintType(_) => w == if n < 0 then -2 * n - 1 else 2 * n
    case VarintType(width) =>
      if width.W64? then w == n || w == n + 0x1_0000_0000_0000_0000
      else (w - n) % 0x1_0000_0000 == 0
  }

  lemma LowBits(p: nat, n: int)
    requires p < TWO32 && 0 <= 2 * n + TWO32 < 2 * TWO32
    ensures n == Varint.Signed(p, TWO32) <==> (p - n) % TWO32 == 0
  {
  }

  lemma LowBitsOf(w: nat, n: int)
    ensures (w % TWO32 - n) % TWO32 == 0 <==> (w - n) % TWO32 == 0
  {
    var q := w / TWO32;
    assert w == q * TWO32 + w % TWO32;
    assert w - n == q * TWO32 + (w % TWO32 - n);
  }

  lemma SignedExactly(w: Width, p: nat, n: int)
    requires p < TWO64
    ensures DecSigned(w, p) == Some(Value.Number(n)) <==> StandsFor(VarintType(w), p, n) && InRange(VarintType(w), n)
  {
    if !w.W64? && InRange(VarintType(w), n) {
      LowBits(p % TWO32, n);
      LowBitsOf(p, n);
    }
    if !w.W64? {
      var m := Varint.Signed(p % TWO32, TWO32);
      LowBits(p % TWO32, m);
      LowBitsOf(p, m);
    }
  }

  lemma ZigZagExactly(w: Width, p: nat, n: int)
    requires p < TWO64
    ensures (w.FitsSigned(Varint.UnZigZag(p)) && n == Varint.UnZigZag(p)) <==> StandsFor(SVarintType(w), p, n) && InRange(SVarintType(w), n)
  {
  }

  // A number is accepted exactly when it is a varint of at most ten bytes whose
  // value, modulo 2^64, stands for it in its range.
  lemma NumberExactly(t: LType, s: Octets, n: int, k: nat)
    requires t.VarintType? || t.UVarintType? || t.SVarintType?
    ensures DecScalar(t, s) == Some((Value.Number(n), k)) <==>
            && Varint.VarintSize(s) == Some(k) && k <= 10 && k <= |s|
            && StandsFor(t, Varint.Number(s[..k]) % 0x1_0000_0000_0000_0000, n) && InRange(t, n)
  {
    hide DecSigned, StandsFor, Varint.UnZigZag, Varint.Number, Varint.VarintSize;
    Varint.SizeBound(s);
    var d := Varint.Decode64(s);
    if d.Some? {
      var p := d.value.0;
      match t
      case VarintType(w) => SignedExactly(w, p, n);
      case SVarintType(w) => ZigZagExactly(w, p, n);
      case UVarintType(w) => PlainNumber(w, p, n);
    }
  }

  lemma PlainNumber(w: Width, p: nat, n: int)
    requires p < TWO64
    ensures w.FitsUnsigned(p) && n == p <==> StandsFor(UVarintType(w), p, n) && InRange(UVarintType(w), n)
  {
  }

  // A flag is set by any number but 0.
  lemma BoolExactly(s: Octets, on: bool, k: nat)
    requires Varint.OneVarint(s, k) && k <= 37
    ensures DecScalar(BoolType, s).None? <==> Varint.Decode32(s).None?
    ensures DecScalar(BoolType, s) == Some((Flag(on), k)) ==> (on <==> Varint.Number(s[..k]) % 0x1_0000_0000 != 0)
  {
    hide Varint.Decode32, Varint.Number;
    Varint.Decode32Reads(s);
  }

  // Four or eight bytes, whatever they are.
  lemma WordExactly(t: LType, s: Octets, bits: nat, k: nat)
    requires t.Fixed32Type? || t.Fixed64Type?
    ensures DecScalar(t, s) == Some((Word(bits), k)) <==>
            && k == (if t.Fixed32Type? then 4 else 8) && k <= |s| && bits < Pow256(k) && SpellsWord(s[..k], k, bits)
  {
    hide ToLittleEndian, FromLittleEndian, SpellsWord, Pow256;
    var size := if t.Fixed32Type? then 4 else 8;
    if size <= |s| {
      WordSpelledOnce(s[..size], size, bits);
      LittleEndianInverse(s[..size]);
      if bits < Pow256(size) { LittleEndianRoundTrip(bits, size); }
    }
  }

  // ---- bytes and strings -------------------------------------------------------------

  // What a body of bytes puts into a field; a string ends at its first NUL, and
  // must leave room for one.
  predicate Fills(t: LType, body: Octets, v: Value)
    requires Plain(t)
  {
    match t
    case BytesType(max) => v == Blob(body) && |body| <= max
    case StringType(size) =>
      v.Text? && |body| < size && v.chars <= body && 0 !in v.chars && (|v.chars| < |body| ==> body[|v.chars|] == 0)
    case FixedBytesType(size) =>
      v.Blob? && |v.bytes| == size && (body == v.bytes || (body == [] && forall b | b in v.bytes :: b == 0))
  }

  lemma {:induction false} FirstNul(body: Octets, chars: Octets)
    ensures chars == UpToNul(body) <==> chars <= body && 0 !in chars && (|chars| < |body| ==> body[|chars|] == 0)
  {
    if body != [] && body[0] != 0 {
      if chars == [] {
        assert UpToNul(body) != [];
      } else {
        FirstNul(body[1..], chars[1..]);
        assert chars == [chars[0]] + chars[1..] && body == [body[0]] + body[1..];
        assert chars == UpToNul(body) <==> chars[0] == body[0] && chars[1..] == UpToNul(body[1..]);
      }
    } else if chars != [] {
      assert chars[0] in chars;
    }
  }

  lemma {:induction false} AllZero(s: Octets)
    ensures s == NoBytes(|s|) <==> forall b | b in s :: b == 0
  {
    if s != [] {
      AllZero(s[1..]);
      var t := NoBytes(|s|);
      assert t == [0] + NoBytes(|s[1..]|) && t[1..] == NoBytes(|s[1..]|);
      assert s == [s[0]] + s[1..] && s[0] in s && forall b | b in s[1..] :: b in s;
    }
  }

  // Bytes and strings are accepted exactly when all of the length announced is
  // there and fits.
  lemma BytesExactly(t: LType, s: Octets, v: Value, k: nat)
    requires Plain(t)
    ensures DecPlain(t, s) == Some((v, k)) <==>
            exists m | 0 <= m <= k <= |s| :: Varint.Decode32(s) == Some((k - m, m)) && Fills(t, s[m..k], v)
  {
    hide Varint.Decode32, UpToNul, NoBytes;
    Varint.Decode32Reads(s);
    var d := DecLength(s);
    if d.Some? {
      var body := d.value.0;
      BodyExactly(t, body, v);
    }
  }

  lemma BodyExactly(t: LType, body: Octets, v: Value)
    requires Plain(t)
    ensures Fills(t, body, v) <==>
            match t
            case BytesType(max) => |body| <= max && v == Blob(body)
            case StringType(size) => |body| + 1 <= size && v == Text(UpToNul(body))
            case FixedBytesType(size) => if body == [] then v == Blob(NoBytes(size)) else |body| == size && v == Blob(body)
  {
    hide UpToNul, NoBytes;
    if v.Text? { FirstNul(body, v.chars); }
    if v.Blob? { AllZero(v.bytes); }
  }

  // ---- packed arrays -------------------------------------------------------------------

  // All the numbers in a body, however many.
  function AllNumbers(t: LType, s: Octets): Option<seq<Value>>
    requires Packable(t)
    decreases |s|
  {
    if s == [] then Some([])
    else
      match DecScalar(t, s)
      case None => None
      case Some((v, n)) =>
        ScalarSize(t, s);
        match AllNumbers(t, s[n..])
        case None => None
        case Some(more) => Some([v] + more)
  }

  // They are stored behind what is there, or refused when there is no room for
  // all of them.
  lemma {:induction false} PackedExactly(t: LType, items: seq<Value>, max: nat, s: Octets)
    requires Packable(t) && |items| <= max
    ensures DecPacked(t, items, max, s) ==
            match AllNumbers(t, s)
            case None => None
            case Some(more) => if |items| + |more| <= max then Some(items + more) else None
    decreases |s|
  {
    hide DecScalar;
    assert items + [] == items;
    if s != [] && DecScalar(t, s).Some? {
      ScalarSize(t, s);
      var (v, n) := DecScalar(t, s).value;
      var more := AllNumbers(t, s[n..]);
      assert AllNumbers(t, s) == if more.None? then None else Some([v] + more.value);
      if |items| < max {
        PackedExactly(t, items + [v], max, s[n..]);
        assert DecPacked(t, items, max, s) == DecPacked(t, items + [v], max, s[n..]);
        if more.Some? { assert items + [v] + more.value == items + ([v] + more.value); }
      }
    }
  }

  // An item that arrives is stored behind the others; none is dropped.
  lemma ArrayGrows(f: Field, items: seq<Value>, wire: nat, s: Octets)
    requires f.htype.Repeated? && DecSlot(f, Many(items), wire, s).Some?
    ensures var slot := DecSlot(f, Many(items), wire, s).value.0;
            slot.Many? && items <= slot.items && (wire != 2 || !Packable(f.ltype) ==> |slot.items| == |items| + 1 <= f.htype.max)
  {
    hide DecValue, AllNumbers;
    if wire == 2 && Packable(f.ltype) {
      var body := DecLength(s).value.0;
      if |items| <= f.htype.max { PackedExactly(f.ltype, items, f.htype.max, body); }
    }
  }

  // ---- required fields and wire types ------------------------------------------------

  // The field number in front, unless the message ends here.
  function FrontTag(s: Octets): Option<nat>
  {
    if s == [] || Varint.Decode32(s).None? || Varint.Decode32(s).value.0 == 0 then None
    else Some(Varint.Decode32(s).value.0 / 8)
  }

  // What is known, and the bytes left, after the value behind that tag.
  function Onward(fields: seq<Field>, st: State, s: Octets): (r: Option<(State, Octets)>)
    requires |st.slots| == |fields| && FrontTag(s).Some?
    ensures r.Some? ==> |r.value.0.slots| == |fields| && |r.value.1| < |s|
  {
    Varint.Decode32Reads(s);
    Varint.SizeBound(s);
    var (head, n) := Varint.Decode32(s).value;
    var body, i := s[n..], IndexOf(fields, head / 8);
    if i.Some? then
      match DecSlot(fields[i.value], st.slots[i.value], head % 8, body)
      case None => None
      case Some((slot, k)) =>
        if k > |body| then None
        else Some((State(Put(fields, st.slots, i.value, slot), st.seen + {i.value}), body[k..]))
    else
      match if fields == [] && head / 8 == 0 then SkipBool(body) else SkipSize(head % 8, body)
      case None => None
      case Some(k) => if k > |body| then None else Some((st, body[k..]))
  }

  // Going from tag to tag one comes to this one.
  predicate Occurs(fields: seq<Field>, st: State, s: Octets, tag: nat)
    requires |st.slots| == |fields|
    decreases |s|
  {
    FrontTag(s).Some? &&
    (FrontTag(s).value == tag ||
     (Onward(fields, st, s).Some? && Occurs(fields, Onward(fields, st, s).value.0, Onward(fields, st, s).value.1, tag)))
  }

  lemma GoesOnward(fields: seq<Field>, st: State, s: Octets)
    requires |st.slots| == |fields| && DecFields(fields, st, s).Some? && FrontTag(s).Some?
    ensures Onward(fields, st, s).Some?
    ensures var (next, rest) := Onward(fields, st, s).value;
            && DecFields(fields, st, s) == DecFields(fields, next, rest)
            && next.seen == match IndexOf(fields, FrontTag(s).value) case None => st.seen case Some(i) => st.seen + {i}
  {
    hide DecSlot, SkipSize, Put, Varint.Decode32, SkipBool;
    Varint.Decode32Reads(s);
    Varint.SizeBound(s);
  }

  // A message is accepted only with each of its first 64 required fields in it.
  lemma {:induction false} RequiredIsThere(fields: seq<Field>, st: State, s: Octets, i: nat)
    requires |st.slots| == |fields| && DecFields(fields, st, s).Some?
    requires i < |fields| && fields[i].htype.Required? && RequiredCount(fields[..i]) < 64
    ensures i in st.seen || Occurs(fields, st, s, fields[i].tag)
    decreases |s|
  {
    hide RequiredCount, Varint.Decode32, Onward, DecTagged;
    if FrontTag(s).Some? {
      GoesOnward(fields, st, s);
      var (next, rest) := Onward(fields, st, s).value;
      RequiredIsThere(fields, next, rest, i);
    }
  }

  // The decoder looks no further than the varint it takes.
  lemma {:induction false} LocalFrom(s: Octets, k: nat, at: nat, result: nat, bitpos: nat)
    requires at <= k <= |s|
    ensures var a, b := Varint.Decode32From(s, at, result, bitpos), Varint.Decode32From(s[..k], at, result, bitpos);
            b == if a.Some? && a.value.1 <= k then a else None
    decreases k - at
  {
    hide Varint.ShiftedIn;
    Varint.Decode32FromTakes(s, at, result, bitpos);
    if at < k {
      var more := if bitpos >= 32 then result else Varint.ShiftedIn(result, s[at] % 128, bitpos);
      LocalFrom(s, k, at + 1, more, (bitpos + 7) % 256);
    }
  }

  lemma Local(s: Octets, k: nat)
    requires k <= |s|
    ensures Varint.Decode32(s[..k]) == if Varint.Decode32(s).Some? && Varint.Decode32(s).value.1 <= k then Varint.Decode32(s) else None
  {
    hide Varint.Decode32From;
    Varint.Decode32Reads(s);
    if k > 0 { LocalFrom(s, k, 1, s[0] % 128, 7); }
  }

  lemma {:induction false} VarintExactly(s: Octets, k: nat)
    requires k <= |s|
    ensures Varint.VarintSize(s) == Some(k) <==> OneValue(0, s[..k])
  {
    if s != [] && s[0] >= 128 {
      if k > 0 {
        VarintExactly(s[1..], k - 1);
        var a, b := s[..k], s[1..][..k - 1];
        assert a == [s[0]] + b;
        if OneValue(0, b) {
          forall i | 0 <= i < k - 1 ensures a[i] >= 128 { if i > 0 { assert a[i] == b[i - 1]; } }
        }
      } else {
        Varint.SizeBound(s);
      }
    }
  }

  lemma SkipsOne(wire: nat, s: Octets)
    ensures forall k | 0 <= k <= |s| :: SkipSize(wire, s) == Some(k) <==> OneValue(wire, s[..k])
  {
    hide Varint.Decode32, Varint.VarintSize;
    Varint.Decode32Reads(s);
    forall k | 0 <= k <= |s| ensures SkipSize(wire, s) == Some(k) <==> OneValue(wire, s[..k]) {
      Local(s, k);
      VarintExactly(s, k);
    }
  }

  // A field that the receiver does not know is passed over when exactly one value
  // of its wire type follows.
  lemma UnknownIsPassed(fields: seq<Field>, st: State, s: Octets, head: nat, n: nat, k: nat)
    requires |st.slots| == |fields| && fields != [] && s != [] && Varint.Decode32(s) == Some((head, n)) && head != 0
    requires forall f | f in fields :: f.tag != head / 8
    requires n <= k <= |s| && OneValue(head % 8, s[n..k])
    ensures DecFields(fields, st, s) == DecFields(fields, st, s[k..])
  {
    UnknownStep(fields, st, s, head, n);
    hide DecFields, SkipSize, Varint.Decode32, OneValue;
    SkipsOne(head % 8, s[n..]);
    assert s[n..][..k - n] == s[n..k] && s[n..][k - n..] == s[k..];
  }

  // Else, as for a wire type other than 0, 1, 2 and 5, the message is refused.
  lemma UnknownIsRefused(fields: seq<Field>, st: State, s: Octets, head: nat, n: nat)
    requires |st.slots| == |fields| && fields != [] && s != [] && Varint.Decode32(s) == Some((head, n)) && head != 0
    requires forall f | f in fields :: f.tag != head / 8
    requires n <= |s| && forall k | 0 <= k <= |s| - n :: !OneValue(head % 8, s[n..][..k])
    ensures DecFields(fields, st, s) == None
  {
    UnknownStep(fields, st, s, head, n);
    hide DecFields, SkipSize, Varint.Decode32, OneValue;
    SkipsOne(head % 8, s[n..]);
  }

  lemma UnknownStep(fields: seq<Field>, st: State, s: Octets, head: nat, n: nat)
    requires |st.slots| == |fields| && fields != [] && s != [] && Varint.Decode32(s) == Some((head, n)) && head != 0
    requires forall f | f in fields :: f.tag != head / 8
    ensures n <= |s|
    ensures DecFields(fields, st, s) ==
            match SkipSize(head % 8, s[n..])
            case None => None
            case Some(k) => if k > |s[n..]| then None else DecFields(fields, st, s[n..][k..])
  {
    hide Varint.Decode32, SkipSize;
    Varint.Decode32Reads(s);
    Varint.SizeBound(s);
    assert IndexOf(fields, head / 8) == None;
  }

  // The bytes are one value of the wire type.
  predicate OneValue(wire: nat, s: Octets)
  {
    match wire
    case 0 => s != [] && s[|s| - 1] < 128 && forall i | 0 <= i < |s| - 1 :: s[i] >= 128
    case 1 => |s| == 8
    case 2 => Varint.Decode32(s).Some? && Varint.Decode32(s).value.0 + Varint.Decode32(s).value.1 == |s|
    case 5 => |s| == 4
    case _ => false
  }
}
