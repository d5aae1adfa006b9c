// Internal keys: user key, sequence number and value type, packed into bytes
// and ordered (db/dbformat.h, db/dbformat.cc).
module DbFormat {
  import opened Bytes

  type Key = seq<Byte>
  type Value = seq<Byte>

  const TYPE_DELETION: Byte := 0
  const TYPE_VALUE: Byte := 1
  // Sequence numbers are packed descending, so a seek uses the largest type.
  const TYPE_FOR_SEEK: Byte := TYPE_VALUE
  const MAX_SEQUENCE: nat := 0xff_ffff_ffff_ffff

  type Comparator = (Key, Key) -> int

  // What LevelDB asks of a user comparator: a total order in which only equal
  // keys compare equal.
  ghost predicate TotalOrder(cmp: Comparator)
  {
    && (forall a, b :: cmp(a, b) == 0 <==> a == b)
    && (forall a, b :: cmp(a, b) < 0 <==> cmp(b, a) > 0)
    && (forall a, b, c :: cmp(a, b) < 0 && cmp(b, c) < 0 ==> cmp(a, c) < 0)
  }

  // A parsed internal key. `kind` is the raw type byte: only 0 and 1 are valid.
  datatype ParsedKey = ParsedKey(user: Key, seqno: nat, kind: Byte)
  {
    predicate Packable() { seqno <= MAX_SEQUENCE }

    predicate WellFormed() { Packable() && kind <= TYPE_VALUE }
  }

  function PackSequenceAndType(seqno: nat, kind: Byte): (tag: nat)
    requires seqno <= MAX_SEQUENCE
    ensures tag < TWO64
  {
    seqno * 256 + kind
  }

  function Encode(k: ParsedKey): seq<Byte>
    requires k.Packable()
  {
    k.user + ToLittleEndian(PackSequenceAndType(k.seqno, k.kind), 8)
  }

  function ExtractUserKey(internal: seq<Byte>): Key
    requires |internal| >= 8
  {
    internal[..|internal| - 8]
  }

  function ExtractTag(internal: seq<Byte>): nat
    requires |internal| >= 8
  {
    FromLittleEndian(internal[|internal| - 8..])
  }

  function ParseInternalKey(internal: seq<Byte>): Option<ParsedKey>
  {
    if |internal| < 8 then None
    else
      var tag := ExtractTag(internal);
      var kind := tag % 256;
      if kind > TYPE_VALUE then None
      else Some(ParsedKey(ExtractUserKey(internal), tag / 256, kind))
  }

  function CompareInternal(cmp: Comparator, a: seq<Byte>, b: seq<Byte>): int
    requires |a| >= 8 && |b| >= 8
  {
    var r := cmp(ExtractUserKey(a), ExtractUserKey(b));
    if r != 0 then r
    else if ExtractTag(a) > ExtractTag(b) then -1
    else if ExtractTag(a) < ExtractTag(b) then 1
    else 0
  }

  // The order the comment in dbformat.cc promises: user key ascending, then
  // sequence number descending, then type descending.
  ghost predicate Before(cmp: Comparator, a: ParsedKey, b: ParsedKey)
  {
    || cmp(a.user, b.user) < 0
    || (a.user == b.user && a.seqno > b.seqno)
    || (a.user == b.user && a.seqno == b.seqno && a.kind > b.kind)
  }

  lemma EncodeParts(k: ParsedKey)
    requires k.Packable()
    ensures |Encode(k)| == |k.user| + 8
    ensures ExtractUserKey(Encode(k)) == k.user
    ensures ExtractTag(Encode(k)) == PackSequenceAndType(k.seqno, k.kind)
  {
    Pow256Values();
    var tag := PackSequenceAndType(k.seqno, k.kind);
    LittleEndianRoundTrip(tag, 8);
    assert Encode(k)[|k.user|..] == ToLittleEndian(tag, 8);
  }

  // The bytes of an internal key: the user key, the type, and the sequence number
  // in seven bytes from the lowest up.
  lemma KeyIsSpelled(k: ParsedKey)
    requires k.Packable()
    ensures var s, n := Encode(k), |k.user|;
            && |s| == n + 8 && s[..n] == k.user && s[n] == k.kind
            && SpellsWord(s[n + 1..], 7, k.seqno)
  {
    var tag := PackSequenceAndType(k.seqno, k.kind);
    LowByte(k.kind, k.seqno);
    WordIsSpelled(k.seqno, 7);
    assert ToLittleEndian(tag, 8) == [k.kind] + ToLittleEndian(k.seqno, 7);
    assert Encode(k)[|k.user| + 1..] == ToLittleEndian(k.seqno, 7);
  }

  // Parsing inverts encoding exactly on the keys whose type byte is valid.
  lemma ParseInvertsEncode(k: ParsedKey)
    requires k.Packable()
    ensures ParseInternalKey(Encode(k)) == if k.kind <= 1 then Some(k) else None
  {
    hide Encode, ExtractUserKey, ExtractTag;
    EncodeParts(k);
    LowByte(k.kind, k.seqno);
  }

  // Conversely a byte string that parses is the encoding of what it parses to.
  lemma EncodeInvertsParse(internal: seq<Byte>)
    ensures ParseInternalKey(internal).Some? ==>
              var k := ParseInternalKey(internal).value;
              k.WellFormed() && Encode(k) == internal
  {
    if ParseInternalKey(internal).Some? {
      Pow256Values();
      var tagBytes := internal[|internal| - 8..];
      LittleEndianInverse(tagBytes);
      assert ExtractTag(internal) < TWO64;
      assert internal == ExtractUserKey(internal) + tagBytes;
    }
  }

  lemma CompareIsBefore(cmp: Comparator, a: ParsedKey, b: ParsedKey)
    requires TotalOrder(cmp) && a.Packable() && b.Packable()
    ensures |Encode(a)| >= 8 && |Encode(b)| >= 8
    ensures CompareInternal(cmp, Encode(a), Encode(b)) < 0 <==> Before(cmp, a, b)
    ensures CompareInternal(cmp, Encode(a), Encode(b)) > 0 <==> Before(cmp, b, a)
    ensures CompareInternal(cmp, Encode(a), Encode(b)) == 0 <==> a == b
  {
    EncodeParts(a);
    EncodeParts(b);
    assert cmp(a.user, b.user) == 0 <==> a.user == b.user;
    assert cmp(a.user, b.user) < 0 <==> cmp(b.user, a.user) > 0;
    assert cmp(b.user, a.user) < 0 <==> cmp(a.user, b.user) > 0;
  }

  lemma BeforeTransitive(cmp: Comparator, a: ParsedKey, b: ParsedKey, c: ParsedKey)
    requires TotalOrder(cmp) && Before(cmp, a, b) && Before(cmp, b, c)
    ensures Before(cmp, a, c)
  {
    assert cmp(a.user, c.user) == 0 <==> a.user == c.user;
    assert cmp(a.user, b.user) == 0 <==> a.user == b.user;
    assert cmp(b.user, c.user) == 0 <==> b.user == c.user;
  }

  // The key a lookup seeks to sorts at or before exactly those well-formed
  // entries of its user key that the snapshot may see, and after no other
  // entry of a greater user key.
  lemma SeekKeySplitsVersions(cmp: Comparator, target: Key, snapshot: nat, k: ParsedKey)
    requires TotalOrder(cmp) && snapshot <= MAX_SEQUENCE && k.WellFormed()
    ensures var seekKey := ParsedKey(target, snapshot, TYPE_FOR_SEEK);
            !Before(cmp, k, seekKey) <==>
            (cmp(k.user, target) > 0 || (k.user == target && k.seqno <= snapshot))
  {
    assert cmp(k.user, target) == 0 <==> k.user == target;
  }
}
