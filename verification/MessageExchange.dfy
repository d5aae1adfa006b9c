// Sender and receiver together: what the running encoder writes, the running
// decoder reads back.
module MessageExchange {
  import opened Bytes
  import opened Messages
  import opened MessageDecoding
  import opened MessageTheorems
  import opened MessageRoundTrip
  import opened MessageSafety
  import opened MessageMerging
  import opened MessageFormat
  import MessageEncoder
  import MessageDecoder

  lemma {:induction false} KnownTypeIsGood(f: LType, g: LType)
    requires GoodType(f) && Knows(f, g)
    ensures GoodType(g)
    decreases f
  {
    if f.SubmessageType? { KnownIsGood(f.fields, g.fields); }
  }

  lemma {:induction false} KnownFieldIsGood(f: Field, g: Field)
    requires GoodField(f) && SameField(f, g)
    ensures GoodField(g)
    decreases f
  {
    KnownTypeIsGood(f.ltype, g.ltype);
  }

  // A receiver that lists some of a sender's fields has good descriptors too.
  lemma {:induction false} KnownIsGood(fs: seq<Field>, gs: seq<Field>)
    requires GoodFields(fs) && KnowsSome(fs, gs)
    ensures GoodFields(gs)
    decreases fs
  {
    if fs != [] {
      hide GoodField, SameField;
      assert forall i | 0 <= i < |fs[1..]| :: fs[1..][i] == fs[i + 1];
      assert GoodFields(fs[1..]);
      if gs != [] && gs[0].tag == fs[0].tag {
        KnownFieldIsGood(fs[0], gs[0]);
        KnownIsGood(fs[1..], gs[1..]);
        KnownTags(fs[1..], gs[1..]);
        forall i | 0 < i < |gs| ensures GoodField(gs[i]) && gs[i].tag != gs[0].tag {
          assert gs[i] == gs[1..][i - 1];
        }
        forall i, j | 0 <= i < j < |gs| ensures gs[i].tag != gs[j].tag {
          if i > 0 { assert gs[i] == gs[1..][i - 1] && gs[j] == gs[1..][j - 1]; }
        }
      } else {
        KnownIsGood(fs[1..], gs);
      }
    }
  }

  // A message goes through a buffer with enough room, and the receiver ends up
  // with exactly the part of it that its descriptors know.
  method SendAndReceive(fs: seq<Field>, gs: seq<Field>, slots: seq<Slot>, room: nat) returns (received: Option<seq<Slot>>)
    requires GoodFields(fs) && HaveTypes(fs, slots) && GoodSlots(fs, slots) && KnowsSome(fs, gs)
    requires EncFields(fs, slots).Some? && |EncFields(fs, slots).value| < TWO32 && |EncFields(fs, slots).value| <= room
    ensures received == Some(Project(fs, gs, slots))
  {
    hide EncFields, DecFields, GoodFields, HaveTypes, GoodSlots, KnowsSome;
    var output := new MessageEncoder.OutputStream(room);
    var sent := output.Encode(fs, slots);
    assert [] + EncFields(fs, slots).value == EncFields(fs, slots).value;
    KnownIsGood(fs, gs);
    RoundTrip(fs, gs, slots);
    var input := new MessageDecoder.InputStream(output.written);
    var ok, r := input.Decode(gs);
    received := if ok then Some(r) else None;
  }

  // Bytes that spell a message, wherever they come from, are read as it.
  method ReadSpelled(fs: seq<Field>, gs: seq<Field>, slots: seq<Slot>, bytes: seq<Byte>) returns (received: Option<seq<Slot>>)
    requires GoodFields(fs) && HaveTypes(fs, slots) && GoodSlots(fs, slots) && KnowsSome(fs, gs)
    requires SpellsFields(fs, slots, bytes) && |bytes| < TWO32
    ensures received == Some(Project(fs, gs, slots))
  {
    hide EncFields, DecFields, GoodFields, HaveTypes, GoodSlots, KnowsSome, SpellsFields;
    FieldsSpelledOnce(fs, slots, bytes);
    KnownIsGood(fs, gs);
    RoundTrip(fs, gs, slots);
    var input := new MessageDecoder.InputStream(bytes);
    var ok, r := input.Decode(gs);
    received := if ok then Some(r) else None;
  }

  // Where the later message sets a member of a union, that member is set and the
  // others are not.
  predicate LastMembersSet(fs: seq<Field>, y: seq<Slot>, r: seq<Slot>)
  {
    && |r| == |y| == |fs|
    && forall i, j | 0 <= i < |fs| && 0 <= j < |fs| && i != j && fs[j].htype.Oneof? && fs[i].htype == fs[j].htype && y[j] != Maybe(None) ::
         r[j] == y[j] && r[i] == Maybe(None)
  }

  // Two messages sent one after the other on one stream come back as one: the
  // second is merged into the first, of a union the member set last is left, and
  // the result fits the receiver's struct.
  method SendTwice(fs: seq<Field>, x: seq<Slot>, y: seq<Slot>, room: nat) returns (received: Option<seq<Slot>>)
    requires GoodFields(fs) && HaveTypes(fs, x) && GoodSlots(fs, x) && HaveTypes(fs, y) && GoodSlots(fs, y) && RoomForBoth(fs, x, y)
    requires EncFields(fs, x).Some? && EncFields(fs, y).Some?
    requires |EncFields(fs, x).value| < TWO32 && |EncFields(fs, y).value| < TWO32
    requires |EncFields(fs, x).value| + |EncFields(fs, y).value| <= room
    ensures received == Some(Merge(fs, x, y)) && AllFit(fs, received.value)
    ensures LastMembersSet(fs, y, received.value)
  {
    hide LastMembersSet, EncFields, DecFields, GoodFields, GoodSlots, RoomForBoth, HaveTypes, AllFit, Merge;
    var bytes := WriteBoth(fs, x, y, room);
    ConcatenationMerges(fs, x, y);
    OneMemberLeft(fs, x, y);
    var input := new MessageDecoder.InputStream(bytes);
    var ok, r := input.Decode(fs);
    received := if ok then Some(r) else None;
  }

  method WriteBoth(fs: seq<Field>, x: seq<Slot>, y: seq<Slot>, room: nat) returns (bytes: seq<Byte>)
    requires HaveTypes(fs, x) && HaveTypes(fs, y) && EncFields(fs, x).Some? && EncFields(fs, y).Some?
    requires |EncFields(fs, x).value| + |EncFields(fs, y).value| <= room
    ensures bytes == EncFields(fs, x).value + EncFields(fs, y).value
  {
    hide EncFields, HaveTypes;
    var output := new MessageEncoder.OutputStream(room);
    var first := output.Encode(fs, x);
    assert [] + EncFields(fs, x).value == EncFields(fs, x).value;
    var second := output.Encode(fs, y);
    bytes := output.written;
  }

  lemma OneMemberLeft(fs: seq<Field>, x: seq<Slot>, y: seq<Slot>)
    requires HaveTypes(fs, x) && HaveTypes(fs, y) && GoodSlots(fs, y)
    ensures LastMembersSet(fs, y, Merge(fs, x, y))
  {
    hide GoodSlots, SlotHasType, Merge;
    forall i, j | 0 <= i < |fs| && 0 <= j < |fs| && i != j && fs[j].htype.Oneof? && fs[i].htype == fs[j].htype && y[j] != Maybe(None)
      ensures Merge(fs, x, y)[j] == y[j] && Merge(fs, x, y)[i] == Maybe(None)
    {
      OnlyOneSet(fs, y, i, j);
      LastMemberWins(fs, x, y, i, j);
    }
  }

  lemma OnlyOneSet(fs: seq<Field>, y: seq<Slot>, i: nat, j: nat)
    requires HaveTypes(fs, y) && GoodSlots(fs, y) && i < |fs| && j < |fs| && i != j
    requires fs[j].htype.Oneof? && fs[i].htype == fs[j].htype && y[j] != Maybe(None)
    ensures y[i] == Maybe(None)
  {
    hide SlotHasType, GoodSlot;
  }
}
