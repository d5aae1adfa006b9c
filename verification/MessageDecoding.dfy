// What bytes stand for: the decoder of nanopb as a function (pb_decode.c).
module MessageDecoding {
  import opened Bytes
  import opened Varint
  import opened Messages

  // ---- scalars -------------------------------------------------------------------

  // A value and the bytes it took.
  type Read<T> = Option<(T, nat)>

  function DecSigned(w: Width, pattern: nat): Option<Value>
    requires pattern < TWO64
  {
    // Narrow fields look at the low 32 bits only.
    var n := if w.W64? then Signed(pattern, TWO64) else Signed(pattern % TWO32, TWO32);
    if w.FitsSigned(n) then Some(Number(n)) else None
  }

  function DecScalar(t: LType, s: Octets): Read<Value>
    requires Packable(t)
  {
    if t.BoolType? then
      match Decode32(s)
      case None => None
      case Some((v, n)) => Some((Flag(v != 0), n))
    else if t.Fixed32Type? then
      if |s| < 4 then None else Some((Word(FromLittleEndian(s[..4])), 4))
    else if t.Fixed64Type? then
      if |s| < 8 then None else Some((Word(FromLittleEndian(s[..8])), 8))
    else
      match Decode64(s)
      case None => None
      case Some((v, n)) =>
        var value :=
          if t.VarintType? then DecSigned(t.width, v)
          else if t.UVarintType? then (if t.width.FitsUnsigned(v) then Some(Number(v)) else None)
          else if t.width.FitsSigned(UnZigZag(v)) then Some(Number(UnZigZag(v))) else None;
        if value.None? then None else Some((value.value, n))
  }

  // ---- length-delimited values ------------------------------------------------------

  // A length and that many bytes after it.
  function DecLength(s: Octets): Read<Octets>
  {
    match Decode32(s)
    case None => None
    case Some((size, n)) =>
      Decode32Reads(s);
      if size > |s| - n then None else Some((s[n..n + size], n + size))
  }

  function UpToNul(s: Octets): (t: Octets)
    ensures |t| <= |s| && 0 !in t
  {
    if s == [] || s[0] == 0 then [] else [s[0]] + UpToNul(s[1..])
  }

  predicate Plain(t: LType)
  {
    t.BytesType? || t.StringType? || t.FixedBytesType?
  }

  function DecPlain(t: LType, s: Octets): Read<Value>
    requires Plain(t)
  {
    match DecLength(s)
    case None => None
    case Some((body, n)) =>
      if t.BytesType? then
        if |body| > t.max then None else Some((Blob(body), n))
      else if t.StringType? then
        // Room for the terminator.
        if |body| + 1 > t.size then None else Some((Text(UpToNul(body)), n))
      else if body == [] then Some((Blob(NoBytes(t.size)), n))
      else if |body| != t.size then None
      else Some((Blob(body), n))
  }

  // ---- skipping what is not known ------------------------------------------------------

  // Bytes pb_skip_field passes over for each wire type.
  function SkipSize(wire: nat, s: Octets): Option<nat>
  {
    if wire == WT_VARINT then VarintSize(s)
    else if wire == WT_64BIT then (if |s| < 8 then None else Some(8))
    else if wire == WT_STRING then
      match DecLength(s)
      case None => None
      case Some((_, n)) => Some(n)
    else if wire == WT_32BIT then (if |s| < 4 then None else Some(4))
    else None
  }

  // ---- messages ---------------------------------------------------------------------------

  function IndexOf(fields: seq<Field>, tag: nat): (i: Option<nat>)
    ensures i.Some? ==> i.value < |fields| && fields[i.value].tag == tag
    ensures i.None? ==> forall f | f in fields :: f.tag != tag
  {
    if fields == [] then None
    else if fields[0].tag == tag then Some(0)
    else
      match IndexOf(fields[1..], tag)
      case None => None
      case Some(i) => Some(i + 1)
  }

  // The slots of a message, and which required fields were seen.
  datatype State = State(slots: seq<Slot>, seen: set<nat>)

  function RequiredCount(fields: seq<Field>): nat
  {
    if fields == [] then 0
    else RequiredCount(fields[..|fields| - 1]) + if fields[|fields| - 1].htype.Required? then 1 else 0
  }

  // The bitmap has room for the first 64 required fields.
  predicate AllSeen(fields: seq<Field>, seen: set<nat>)
  {
    forall i | 0 <= i < |fields| && fields[i].htype.Required? && RequiredCount(fields[..i]) < 64 :: i in seen
  }

  // What a slot holds before a value is read into it.
  function Current(f: Field, slot: Slot): Value
  {
    if f.htype.Oneof? || f.htype.Repeated? then Default(f.ltype)
    else if slot.One? then slot.v
    else if slot.Maybe? && slot.o.Some? then slot.o.value
    else Default(f.ltype)
  }

  function Stored(f: Field, slot: Slot, v: Value): Slot
  {
    match f.htype
    case Required => One(v)
    case Optional(has) => if has then Maybe(Some(v)) else One(v)
    case Repeated(_) => Many((if slot.Many? then slot.items else []) + [v])
    case Oneof(_) => Maybe(Some(v))
  }

  // Setting a member of a union unsets the others.
  function Put(fields: seq<Field>, slots: seq<Slot>, i: nat, slot: Slot): (r: seq<Slot>)
    requires |fields| == |slots| && i < |fields|
    ensures |r| == |slots|
  {
    seq(|slots|, k requires 0 <= k < |slots| =>
      if k == i then slot
      else if fields[i].htype.Oneof? && fields[k].htype == fields[i].htype then Maybe(None)
      else slots[k])
  }

  // Items of a packed array, while there is room for them.
  function DecPacked(t: LType, items: seq<Value>, max: nat, s: Octets): Option<seq<Value>>
    requires Packable(t)
    decreases |s|
  {
    if s == [] then Some(items)
    else if |items| >= max then None
    else
      match DecScalar(t, s)
      case None => None
      case Some((v, n)) =>
        ScalarSize(t, s);
        DecPacked(t, items + [v], max, s[n..])
  }

  lemma ScalarSize(t: LType, s: Octets)
    requires Packable(t)
    ensures DecScalar(t, s).Some? ==> 0 < DecScalar(t, s).value.1 <= |s|
  {
    hide Decode32;
    Decode32Reads(s);
    SizeBound(s);
  }

  lemma LengthSize(s: Octets)
    ensures DecLength(s).Some? ==>
              var (body, n) := DecLength(s).value;
              0 < n <= |s| && |body| < n && body == s[n - |body|..n]
  {
    Decode32Reads(s);
    SizeBound(s);
  }

  function DecValue(t: LType, current: Value, s: Octets): Read<Value>
    decreases t, |s|, 0
  {
    if Packable(t) then DecScalar(t, s)
    else if Plain(t) then DecPlain(t, s)
    else
      match DecLength(s)
      case None => None
      case Some((body, n)) =>
        var slots := if current.Message? && |current.slots| == |t.fields| then current.slots else Defaults(t.fields);
        match DecFields(t.fields, State(slots, {}), body)
        case None => None
        case Some((m, _)) => Some((Message(m), n))
  }

  // One occurrence of a field.
  function DecSlot(f: Field, slot: Slot, wire: nat, s: Octets): Read<Slot>
    decreases f, |s|, 0
  {
    if f.htype.Repeated? && wire == WT_STRING && Packable(f.ltype) then
      match DecLength(s)
      case None => None
      case Some((body, n)) =>
        match DecPacked(f.ltype, if slot.Many? then slot.items else [], f.htype.max, body)
        case None => None
        case Some(items) => Some((Many(items), n))
    else if f.htype.Repeated? && slot.Many? && |slot.items| >= f.htype.max then None
    else
      match DecValue(f.ltype, Current(f, slot), s)
      case None => None
      case Some((v, n)) => Some((Stored(f, slot, v), n))
  }

  // pb_decode_noinit: tags and values until the end or a zero tag; the slots
  // and what is left of the bytes. An empty descriptor list takes tag zero for
  // a field of its terminator's type.
  function DecFields(fields: seq<Field>, st: State, s: Octets): Option<(seq<Slot>, Octets)>
    requires |st.slots| == |fields|
    decreases fields, |s|, 0
  {
    if s == [] then Finish(fields, st, s)
    else
      match Decode32(s)
      case None => None
      case Some((head, n)) =>
        Decode32Reads(s);
        SizeBound(s);
        if head == 0 then Finish(fields, st, s[n..]) else DecTagged(fields, st, head / 8, head % 8, s[n..])
  }

  // The rest of a message once a tag has been read.
  function DecTagged(fields: seq<Field>, st: State, tag: nat, wire: nat, s: Octets): Option<(seq<Slot>, Octets)>
    requires |st.slots| == |fields|
    decreases fields, |s|, 1
  {
    match IndexOf(fields, tag)
    case None =>
      (match if fields == [] && tag == 0 then SkipBool(s) else SkipSize(wire, s)
       case None => None
       case Some(k) => if k > |s| then None else DecFields(fields, st, s[k..]))
    case Some(i) =>
      match DecSlot(fields[i], st.slots[i], wire, s)
      case None => None
      case Some((slot, k)) =>
        if k > |s| then None
        else DecFields(fields, State(Put(fields, st.slots, i, slot), st.seen + {i}), s[k..])
  }

  function Finish(fields: seq<Field>, st: State, rest: Octets): Option<(seq<Slot>, Octets)>
  {
    if AllSeen(fields, st.seen) then Some((st.slots, rest)) else None
  }

  function SkipBool(s: Octets): Option<nat>
  {
    match Decode32(s)
    case None => None
    case Some((_, n)) => Some(n)
  }
}
