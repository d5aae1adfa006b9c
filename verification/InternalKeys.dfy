// Keys built for lookups and for table indexes (db/dbformat.h, db/dbformat.cc).
module InternalKeys {
  import opened Bytes
  import opened DbFormat
  import opened Varint

  // The key a lookup takes to a memtable: a length, the user key and the tag
  // that sorts before every version the snapshot may see.
  class LookupKey {
    const space: array<Byte>
    const kstart: nat
    const end: nat

    ghost predicate Valid()
      reads this, space
    {
      kstart + 8 <= end <= space.Length
    }

    // The buffer is allocated by an estimate, which is always enough.
    constructor (user: Key, snapshot: nat)
      requires snapshot <= MAX_SEQUENCE && |user| + 8 < TWO32
      ensures Valid() && fresh(space)
      ensures MemtableKey() == VarintBytes(|user| + 8) + Encode(ParsedKey(user, snapshot, TYPE_FOR_SEEK))
      ensures InternalKey() == Encode(ParsedKey(user, snapshot, TYPE_FOR_SEEK))
      ensures UserKey() == user
    {
      hide VarintBytes, ToLittleEndian;
      var length := EncodeVarint(|user| + 8);
      var tag := ToLittleEndian(PackSequenceAndType(snapshot, TYPE_FOR_SEEK), 8);
      FiveBytes(|user| + 8);
      var buffer := new Byte[|user| + 13](_ => 0);
      var total := length + user + tag;
      forall i | 0 <= i < |total| {
        buffer[i] := total[i];
      }
      space := buffer;
      kstart := |length|;
      end := |length| + |user| + 8;
      new;
      assert space[..end] == total;
      Parts(space[..], length, user, tag);
    }

    static lemma Parts(space: seq<Byte>, length: seq<Byte>, user: seq<Byte>, tag: seq<Byte>)
      requires |length| + |user| + |tag| <= |space| && space[..|length| + |user| + |tag|] == length + user + tag
      ensures space[|length|..|length| + |user| + |tag|] == user + tag
      ensures space[|length|..|length| + |user|] == user
    {
      var total := length + user + tag;
      assert space[|length|..|total|] == total[|length|..];
      assert space[|length|..|length| + |user|] == total[|length|..|length| + |user|];
    }

    function MemtableKey(): seq<Byte>
      requires Valid()
      reads this, space
    {
      space[..end]
    }

    function InternalKey(): seq<Byte>
      requires Valid()
      reads this, space
    {
      space[kstart..end]
    }

    function UserKey(): Key
      requires Valid()
      reads this, space
    {
      space[kstart..end - 8]
    }

    static lemma FiveBytes(v: nat)
      requires v < TWO32
      ensures |VarintBytes(v)| <= 5
    {
      TenBytes();
      VarintLength(v, 5);
    }
  }

  // The tag that sorts before all others.
  lemma LargestTag()
    ensures ToLittleEndian(PackSequenceAndType(MAX_SEQUENCE, TYPE_FOR_SEEK), 8) == [1, 255, 255, 255, 255, 255, 255, 255]
  {
    var ones: nat := 0xff_ffff_ffff_ffff;
    assert ToLittleEndian(255, 1) == [255] + ToLittleEndian(0, 0);
    assert ToLittleEndian(0xffff, 2) == [255] + ToLittleEndian(255, 1);
    assert ToLittleEndian(0xff_ffff, 3) == [255] + ToLittleEndian(0xffff, 2);
    assert ToLittleEndian(0xffff_ffff, 4) == [255] + ToLittleEndian(0xff_ffff, 3);
    assert ToLittleEndian(0xff_ffff_ffff, 5) == [255] + ToLittleEndian(0xffff_ffff, 4);
    assert ToLittleEndian(0xffff_ffff_ffff, 6) == [255] + ToLittleEndian(0xff_ffff_ffff, 5);
    assert ToLittleEndian(ones, 7) == [255] + ToLittleEndian(0xffff_ffff_ffff, 6);
    assert ToLittleEndian(ones * 256 + 1, 8) == [1] + ToLittleEndian(ones, 7);
  }

  // What is asked of a comparator's FindShortestSeparator: a key from start up
  // to limit when start is less, and start itself otherwise.
  ghost predicate Separates(cmp: Comparator, shorten: (Key, Key) -> Key)
  {
    forall a, b ::
      if cmp(a, b) < 0 then (a == shorten(a, b) || cmp(a, shorten(a, b)) < 0) && cmp(shorten(a, b), b) < 0
      else shorten(a, b) == a
  }

  // A key that still separates start from limit and is shorter than start, or
  // start itself; always start when it is not below limit.
  method FindShortestSeparator(cmp: Comparator, shorten: (Key, Key) -> Key, start: seq<Byte>, limit: seq<Byte>) returns (r: seq<Byte>)
    requires TotalOrder(cmp) && Separates(cmp, shorten) && |start| >= 8 && |limit| >= 8
    ensures |r| >= 8 && (r == start || |r| < |start|)
    ensures CompareInternal(cmp, start, r) <= 0
    ensures if CompareInternal(cmp, start, limit) < 0 then CompareInternal(cmp, r, limit) < 0 else r == start
    ensures var user, tmp := start[..|start| - 8], shorten(start[..|start| - 8], limit[..|limit| - 8]);
            r == if |tmp| < |user| && cmp(user, tmp) < 0 then tmp + [1, 255, 255, 255, 255, 255, 255, 255] else start
  {
    var userStart, userLimit := ExtractUserKey(start), ExtractUserKey(limit);
    var tmp := shorten(userStart, userLimit);
    if |tmp| < |userStart| && cmp(userStart, tmp) < 0 {
      var k := ParsedKey(tmp, MAX_SEQUENCE, TYPE_FOR_SEEK);
      EncodeParts(k);
      r := Encode(k);
      LargestTag();
      assert cmp(userStart, userLimit) < 0;
      assert cmp(tmp, userLimit) < 0;
    } else {
      r := start;
      assert cmp(userStart, userStart) == 0;
    }
  }
}
