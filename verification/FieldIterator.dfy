// The circular field iterator and the bitmap of required fields
// (nanopb: pb_common.c, pb_decode.c, pb.h).
module FieldIterator {
  import opened Bytes

  datatype Rule = RequiredRule | OptionalRule | RepeatedRule | OneofRule
  datatype Allocation = StaticField | PointerField | CallbackField

  // An entry of a descriptor list: offsets are relative to the field before.
  datatype Descriptor = Descriptor(tag: nat, extension: bool, rule: Rule, allocation: Allocation,
                                   dataOffset: nat, sizeOffset: int, dataSize: nat, arraySize: nat)

  // pb_size_t is 32 bits wide; its largest value marks a member of a union.
  const SIZE_MAX: nat := 0xFFFF_FFFF
  const POINTER_SIZE: nat := 8

  // The entry that ends a list.
  const LAST_FIELD: Descriptor := Descriptor(0, false, RequiredRule, StaticField, 0, 0, 0, 0)

  type Fields = fs: seq<Descriptor> | forall f | f in fs :: f.tag != 0

  function At(fs: Fields, pos: nat): Descriptor
    requires pos <= |fs|
  {
    if pos < |fs| then fs[pos] else LAST_FIELD
  }

  // Bytes a field takes in the struct.
  function MemberSize(f: Descriptor): nat
  {
    if f.allocation.StaticField? && f.rule.RepeatedRule? then f.dataSize * f.arraySize
    else if f.allocation.PointerField? then POINTER_SIZE
    else f.dataSize
  }

  predicate SharesUnion(prev: Descriptor, next: Descriptor)
  {
    prev.rule.OneofRule? && next.rule.OneofRule? && next.dataOffset == SIZE_MAX
  }

  // Where field `pos` lies in a struct at address `base`.
  function DataAt(fs: Fields, base: int, pos: nat): int
    requires pos <= |fs|
  {
    if pos == 0 then base + At(fs, 0).dataOffset
    else if SharesUnion(fs[pos - 1], At(fs, pos)) then DataAt(fs, base, pos - 1)
    else DataAt(fs, base, pos - 1) + MemberSize(fs[pos - 1]) + At(fs, pos).dataOffset
  }

  // Where its count, has-flag or which-tag lies: a later member of a union
  // uses its predecessor's.
  function SizeAt(fs: Fields, base: int, pos: nat): int
    requires pos <= |fs|
  {
    if pos > 0 && SharesUnion(fs[pos - 1], At(fs, pos)) then SizeAt(fs, base, pos - 1)
    else DataAt(fs, base, pos) + At(fs, pos).sizeOffset
  }

  // How many of the first `pos` fields are required.
  function RequiredBefore(fs: Fields, pos: nat): (n: nat)
    requires pos <= |fs|
    ensures n <= pos
  {
    if pos == 0 then 0
    else RequiredBefore(fs, pos - 1) + if fs[pos - 1].rule.RequiredRule? then 1 else 0
  }

  // Position i is passed on the way from `from` round to `to`.
  predicate Passed(from: nat, to: nat, i: nat)
  {
    if from <= to then from <= i < to else i >= from || i < to
  }

  class Iterator {
    const fields: Fields
    const base: int
    var pos: nat
    var requiredIndex: nat
    var data: int
    var size: int

    // The position alone decides everything else.
    ghost predicate Valid()
      reads this
    {
      && pos <= |fields| && (pos == |fields| ==> fields == [])
      && requiredIndex == RequiredBefore(fields, pos)
      && data == DataAt(fields, base, pos)
      && size == SizeAt(fields, base, pos)
    }

    constructor (fields: Fields, base: int)
      ensures Valid() && pos == 0 && this.fields == fields && this.base == base
    {
      this.fields := fields;
      this.base := base;
      pos := 0;
      requiredIndex := 0;
      data := base + At(fields, 0).dataOffset;
      size := base + At(fields, 0).dataOffset + At(fields, 0).sizeOffset;
    }

    method Begin() returns (nonempty: bool)
      modifies this
      ensures Valid() && pos == 0 && nonempty == (fields != [])
    {
      pos := 0;
      requiredIndex := 0;
      data := base + At(fields, 0).dataOffset;
      size := data + At(fields, 0).sizeOffset;
      nonempty := At(fields, 0).tag != 0;
    }

    // One field on; false when that wraps round to the first.
    method Next() returns (more: bool)
      requires Valid()
      modifies this
      ensures Valid() && more == (old(pos) + 1 < |fields|)
      ensures pos == if more then old(pos) + 1 else 0
    {
      var prev := At(fields, pos);
      if prev.tag == 0 {
        return false;
      }
      pos := pos + 1;
      if At(fields, pos).tag == 0 {
        var _ := Begin();
        return false;
      }
      var prevSize := prev.dataSize;
      if prev.rule.OneofRule? && fields[pos].rule.OneofRule? && fields[pos].dataOffset == SIZE_MAX {
        return true;
      } else if prev.allocation.StaticField? && prev.rule.RepeatedRule? {
        prevSize := prevSize * prev.arraySize;
      } else if prev.allocation.PointerField? {
        prevSize := POINTER_SIZE;
      }
      if prev.rule.RequiredRule? {
        requiredIndex := requiredIndex + 1;
      }
      data := data + prevSize + fields[pos].dataOffset;
      size := data + fields[pos].sizeOffset;
      more := true;
    }

    // Searches from the current position round the list. On a list with fields
    // it finds the first match on the way if there is any, and otherwise ends
    // where it began; an empty list "matches" only the tag of its terminator.
    method Find(tag: nat) returns (found: bool)
      requires Valid()
      modifies this
      ensures Valid()
      ensures fields != [] ==> (found <==> exists i :: 0 <= i < |fields| && fields[i].tag == tag && !fields[i].extension)
      ensures fields == [] ==> (found <==> tag == 0)
      ensures found && fields != [] ==>
                pos < |fields| && fields[pos].tag == tag && !fields[pos].extension &&
                forall i | 0 <= i < |fields| && Passed(old(pos), pos, i) :: fields[i].tag != tag || fields[i].extension
      ensures !found ==> pos == old(pos)
    {
      var start := pos;
      ghost var turned := false;
      while true
        invariant Valid() && (turned ==> fields != [] && pos <= start) && (!turned ==> pos >= start)
        invariant turned || pos != start ==> pos < |fields|
        invariant forall i | 0 <= i < |fields| && (if turned then i >= start || i < pos else start <= i < pos) ::
                    fields[i].tag != tag || fields[i].extension
        invariant fields == [] ==> !turned
        invariant turned ==> pos < start
        decreases if turned then start - pos else |fields| + start - pos + 1
      {
        if At(fields, pos).tag == tag && !At(fields, pos).extension {
          return true;
        }
        var more := Next();
        if !more { turned := true; }
        if pos == start { return false; }
      }
    }
  }

  // ---- the layout a descriptor list describes ---------------------------------

  // The generator's macros: the first member's offset, the gap between two
  // members, or the mark of a shared union, whose members lie at one place.
  ghost predicate Describes(fs: Fields, offsets: seq<nat>)
  {
    && |offsets| == |fs|
    && (forall k | 0 <= k < |fs| :: Placed(fs, offsets, k))
  }

  ghost predicate Placed(fs: Fields, offsets: seq<nat>, k: nat)
    requires k < |fs| == |offsets|
  {
    if k == 0 then fs[0].dataOffset == offsets[0]
    else
      var prev, f := fs[k - 1], fs[k];
      if prev.rule.OneofRule? && f.rule.OneofRule? && f.dataOffset == 0xFFFF_FFFF then
        offsets[k] == offsets[k - 1] && f.sizeOffset == prev.sizeOffset
      else
        var size := if prev.allocation.PointerField? then 8
                    else if prev.allocation.StaticField? && prev.rule.RepeatedRule? then prev.dataSize * prev.arraySize
                    else prev.dataSize;
        f.dataOffset == offsets[k] - offsets[k - 1] - size
  }

  // Walking the list finds every member at its offset in the struct.
  lemma {:induction false} FindsMembers(fs: Fields, base: int, offsets: seq<nat>, pos: nat)
    requires Describes(fs, offsets) && pos < |fs|
    ensures DataAt(fs, base, pos) == base + offsets[pos]
    ensures SizeAt(fs, base, pos) == base + offsets[pos] + fs[pos].sizeOffset
  {
    assert Placed(fs, offsets, pos);
    if pos > 0 {
      FindsMembers(fs, base, offsets, pos - 1);
    }
  }

  // ---- required fields ------------------------------------------------------------

  // A 32-bit word as the set of its one bits.
  type Word = w: set<nat> | forall b | b in w :: b < 32

  const MAX_REQUIRED: nat := 64

  function FirstBits(n: nat): (w: Word)
    requires n <= 32
    ensures forall b: nat :: b in w <==> b < n
  {
    if n == 0 then {} else FirstBits(n - 1) + {n - 1}
  }

  function ShiftRight(w: Word, n: nat): Word
  {
    set b | b in w && b >= n :: b - n
  }

  // The field numbers, among the required ones, that two words record.
  ghost predicate Seen(words: seq<Word>, k: nat)
    requires |words| == 2
  {
    k < 64 && k % 32 in words[k / 32]
  }

  method MarkSeen(words: seq<Word>, index: nat, rule: Rule) returns (marked: seq<Word>)
    requires |words| == 2
    ensures |marked| == 2
    ensures forall k :: Seen(marked, k) <==> Seen(words, k) || (k == index && rule.RequiredRule? && index < 64)
  {
    marked := words;
    if rule.RequiredRule? && index < MAX_REQUIRED {
      marked := marked[index / 32 := marked[index / 32] + {index % 32}];
    }
  }

  function CountRequired(fs: Fields): nat
  {
    RequiredBefore(fs, |fs|)
  }

  lemma AllBits(n: nat)
    requires 0 < n <= 32
    ensures ShiftRight(FirstBits(32), 32 - n) == FirstBits(n)
  {
    hide FirstBits;
    forall b | b in FirstBits(n) ensures b in ShiftRight(FirstBits(32), 32 - n) {
      assert b + 32 - n in FirstBits(32);
    }
  }

  // The test at the end of pb_decode_noinit passes exactly when each of the
  // first 64 required fields was seen, wherever the iterator happens to stand.
  method CheckRequired(iter: Iterator, words: seq<Word>) returns (ok: bool)
    requires iter.Valid() && |words| == 2
    requires forall k: nat | Seen(words, k) :: k < CountRequired(iter.fields)
    modifies iter
    ensures ok <==> forall k | 0 <= k < Min(CountRequired(iter.fields), 64) :: Seen(words, k)
  {
    var count := LastRequired(iter);
    if count > MAX_REQUIRED {
      count := MAX_REQUIRED;
    }
    ok := CheckWords(words, count);
  }

  // Seeks the end of the list to learn how many required fields it has.
  method LastRequired(iter: Iterator) returns (count: nat)
    requires iter.Valid()
    modifies iter
    ensures count == CountRequired(iter.fields)
  {
    var lastRule := RequiredRule;
    while true
      invariant iter.Valid() && (iter.fields != [] ==> iter.pos < |iter.fields|)
      decreases |iter.fields| - iter.pos
    {
      count := iter.requiredIndex;
      lastRule := At(iter.fields, iter.pos).rule;
      var more := iter.Next();
      if !more { break; }
    }
    if lastRule.RequiredRule? && At(iter.fields, iter.pos).tag != 0 {
      count := count + 1;
    }
  }

  method CheckWords(words: seq<Word>, count: nat) returns (ok: bool)
    requires |words| == 2 && count <= MAX_REQUIRED
    requires forall k: nat | Seen(words, k) :: k < count
    ensures ok <==> forall k | 0 <= k < count :: Seen(words, k)
  {
    hide Seen, FirstBits, ShiftRight;
    ok := true;
    if count > 0 {
      var i := 0;
      while i < count / 32
        invariant 0 <= i <= count / 32
        invariant forall k | 0 <= k < 32 * i :: Seen(words, k)
      {
        if words[i] != FirstBits(32) {
          MissingBit(words, i, 32, count);
          return false;
        }
        WholeWord(words, i);
        i := i + 1;
      }
      if count % 32 != 0 {
        AllBits(count % 32);
        if words[count / 32] != ShiftRight(FirstBits(32), 32 - count % 32) {
          MissingBit(words, count / 32, count % 32, count);
          return false;
        }
        assert forall k | 32 * (count / 32) <= k < count :: Seen(words, k) by { PartWord(words, count); }
      }
    }
  }

  lemma WholeWord(words: seq<Word>, i: nat)
    requires |words| == 2 && i < 2 && words[i] == FirstBits(32)
    ensures forall k | 32 * i <= k < 32 * (i + 1) :: Seen(words, k)
  {
    forall k | 32 * i <= k < 32 * (i + 1) ensures Seen(words, k) {
      assert k / 32 == i && k % 32 in FirstBits(32);
    }
  }

  lemma PartWord(words: seq<Word>, count: nat)
    requires |words| == 2 && count < 64 && words[count / 32] == FirstBits(count % 32)
    ensures forall k | 32 * (count / 32) <= k < count :: Seen(words, k)
  {
    forall k | 32 * (count / 32) <= k < count ensures Seen(words, k) {
      assert k / 32 == count / 32 && k % 32 < count % 32 && k % 32 in FirstBits(count % 32);
    }
  }

  // A word that is not full misses one of the fields asked for.
  lemma MissingBit(words: seq<Word>, i: nat, n: nat, count: nat)
    requires |words| == 2 && i < 2 && n <= 32 && 32 * i + n <= count <= 64 && (n == 32 || 32 * i + n == count)
    requires words[i] != FirstBits(n) && forall k: nat | Seen(words, k) :: k < count
    ensures exists k :: 0 <= k < count && !Seen(words, k)
  {
    hide FirstBits;
    forall b | b in words[i] ensures b < n {
      assert (32 * i + b) / 32 == i && (32 * i + b) % 32 == b;
      assert Seen(words, 32 * i + b);
    }
    forall b: nat | b in words[i] ensures b in FirstBits(n) {
    }
    assert words[i] <= FirstBits(n);
    var b: nat :| b in FirstBits(n) && b !in words[i];
    assert (32 * i + b) / 32 == i && (32 * i + b) % 32 == b;
    assert !Seen(words, 32 * i + b);
  }
}
