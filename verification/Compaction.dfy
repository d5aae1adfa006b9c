// Compaction of table files (db/db_impl.cc, DoCompactionWork): which entries
// may be dropped, how the survivors are cut into output files, and why every
// read a snapshot may still make is preserved.
module Compaction {
  import opened Bytes
  import opened DbFormat
  import opened Entries
  import opened DbIter

  // ---- the drop rule ----------------------------------------------------

  // The sequence number of the entry just before entry i, when that entry is
  // a well-formed newer version of the same key.
  function LastSequenceForKey(input: seq<Entry>, i: nat): nat
    requires i < |input|
  {
    if i > 0 && input[i - 1].Parses() && input[i - 1].user == input[i].user
    then input[i - 1].seqno
    else MAX_SEQUENCE
  }

  predicate Drops(input: seq<Entry>, smallest: nat, isBase: Key -> bool, i: nat)
    requires i < |input|
  {
    var e := input[i];
    && e.Parses()
    && (|| LastSequenceForKey(input, i) <= smallest
        || (e.kind == TYPE_DELETION && e.seqno <= smallest && isBase(e.user)))
  }

  function Survivors(input: seq<Entry>, smallest: nat, isBase: Key -> bool, n: nat): seq<Entry>
    requires n <= |input|
  {
    if n == 0 then []
    else
      var rest := Survivors(input, smallest, isBase, n - 1);
      if Drops(input, smallest, isBase, n - 1) then rest else rest + [input[n - 1]]
  }

  // The same rule without positions: an entry is superseded when the inputs
  // hold a newer version that every permitted snapshot sees.
  ghost predicate Superseded(input: set<Entry>, smallest: nat, e: Entry)
  {
    exists f :: f in input && f.user == e.user && f.Tag() > e.Tag() && f.seqno <= smallest
  }

  ghost predicate Obsolete(input: set<Entry>, smallest: nat, isBase: Key -> bool, e: Entry)
  {
    || Superseded(input, smallest, e)
    || (e.kind == TYPE_DELETION && e.seqno <= smallest && isBase(e.user))
  }

  ghost function Kept(input: set<Entry>, smallest: nat, isBase: Key -> bool): set<Entry>
  {
    set e | e in input && !Obsolete(input, smallest, isBase, e)
  }

  ghost predicate AllParse(s: set<Entry>)
  {
    forall e | e in s :: e.Parses()
  }

  lemma DropsOnlySuperseded(cmp: Comparator, input: seq<Entry>, smallest: nat, i: nat)
    requires TotalOrder(cmp) && Sorted(cmp, input)
    requires smallest < MAX_SEQUENCE && i < |input| && LastSequenceForKey(input, i) <= smallest
    ensures Superseded(EntrySet(input), smallest, input[i])
  {
    var s, e, f := EntrySet(input), input[i], input[i - 1];
    VersionOrder(cmp, input, i - 1, i);
    assert f in s && f.Tag() > e.Tag();
  }

  lemma SupersededIsDropped(cmp: Comparator, input: seq<Entry>, smallest: nat, i: nat)
    requires TotalOrder(cmp) && Sorted(cmp, input) && AllParse(EntrySet(input)) && i < |input|
    requires Superseded(EntrySet(input), smallest, input[i])
    ensures LastSequenceForKey(input, i) <= smallest
  {
    hide Sorted, TotalOrder;
    var s, e := EntrySet(input), input[i];
    var f :| f in s && f.user == e.user && f.Tag() > e.Tag() && f.seqno <= smallest;
    var j :| 0 <= j < |input| && input[j] == f;
    VersionOrder(cmp, input, i, j);
    var g := input[i - 1];
    Between(cmp, input, j, i - 1, i);
    VersionOrder(cmp, input, j, i - 1);
    assert g in s;
  }

  lemma DropsIsObsolete(cmp: Comparator, input: seq<Entry>, smallest: nat, isBase: Key -> bool, i: nat)
    requires TotalOrder(cmp) && Sorted(cmp, input) && AllParse(EntrySet(input))
    requires smallest < MAX_SEQUENCE && i < |input|
    ensures Drops(input, smallest, isBase, i) <==> Obsolete(EntrySet(input), smallest, isBase, input[i])
  {
    hide Sorted, TotalOrder, Superseded, LastSequenceForKey;
    assert input[i] in EntrySet(input);
    if LastSequenceForKey(input, i) <= smallest { DropsOnlySuperseded(cmp, input, smallest, i); }
    if Superseded(EntrySet(input), smallest, input[i]) { SupersededIsDropped(cmp, input, smallest, i); }
  }

  lemma {:induction false} SurvivorsAreKept(cmp: Comparator, input: seq<Entry>, smallest: nat, isBase: Key -> bool, n: nat)
    requires TotalOrder(cmp) && Sorted(cmp, input) && AllParse(EntrySet(input))
    requires smallest < MAX_SEQUENCE && n <= |input|
    ensures EntrySet(Survivors(input, smallest, isBase, n)) ==
              EntrySet(input[..n]) * Kept(EntrySet(input), smallest, isBase)
  {
    hide Sorted, TotalOrder, Drops, Obsolete;
    if n > 0 {
      var e := input[n - 1];
      SurvivorsAreKept(cmp, input, smallest, isBase, n - 1);
      DropsIsObsolete(cmp, input, smallest, isBase, n - 1);
      assert input[..n] == input[..n - 1] + [e];
      assert EntrySet(input[..n]) == EntrySet(input[..n - 1]) + {e};
      assert e in EntrySet(input);
      var rest := Survivors(input, smallest, isBase, n - 1);
      assert EntrySet(rest + [e]) == EntrySet(rest) + {e};
    }
  }

  // Whole input: the loop keeps exactly the entries that are not obsolete.
  lemma SurvivorsMeetRule(cmp: Comparator, input: seq<Entry>, smallest: nat, isBase: Key -> bool)
    requires TotalOrder(cmp) && Sorted(cmp, input) && AllParse(EntrySet(input)) && smallest < MAX_SEQUENCE
    ensures EntrySet(Survivors(input, smallest, isBase, |input|)) == Kept(EntrySet(input), smallest, isBase)
  {
    SurvivorsAreKept(cmp, input, smallest, isBase, |input|);
    assert input[..|input|] == input;
    assert Kept(EntrySet(input), smallest, isBase) <= EntrySet(input);
  }

  // ---- permitted reads are preserved ---------------------------------------

  // How the inputs of a compaction sit between the layers above and below.
  ghost predicate Layered(newer: set<Entry>, input: set<Entry>, deeper: set<Entry>, isBase: Key -> bool)
  {
    && (forall e, f | e in newer && f in input && e.user == f.user :: e.seqno > f.seqno)
    && (forall e | e in deeper :: !isBase(e.user))
  }

  lemma CompactionPreservesRead(newer: set<Entry>, input: set<Entry>, deeper: set<Entry>,
                                smallest: nat, isBase: Key -> bool, k: Key, snapshot: nat)
    requires Layered(newer, input, deeper, isBase) && AllParse(input)
    requires UniqueVersions(newer + input + deeper)
    requires smallest <= snapshot
    ensures Read(newer + Kept(input, smallest, isBase) + deeper, k, snapshot) ==
            Read(newer + input + deeper, k, snapshot)
  {
    var before := newer + input + deeper;
    var after := newer + Kept(input, smallest, isBase) + deeper;
    assert after <= before;
    if HasVersion(before, k, snapshot) {
      NewestExists(before, k, snapshot);
      var e :| Newest(before, k, snapshot, e);
      ReadIs(before, k, snapshot, e);
      if e in after {
        assert Newest(after, k, snapshot, e);
        ReadIs(after, k, snapshot, e);
      } else {
        assert !Superseded(input, smallest, e);
        forall g | g in before && g.user == k && g.VisibleAt(snapshot) && g != e
          ensures g !in newer && g !in deeper && Superseded(input, smallest, g)
        {
          assert g.Tag() <= e.Tag();
        }
        ReadMiss(after, k, snapshot);
      }
    } else {
      ReadMiss(before, k, snapshot);
      ReadMiss(after, k, snapshot);
    }
  }

  // ---- the loop and its output files ---------------------------------------

  // One output file: recorded bounds and the entries added to its builder.
  datatype Output = Output(smallest: seq<Byte>, largest: seq<Byte>, entries: seq<Entry>)
  {
    // What a finished file must satisfy.
    ghost predicate Finished()
    {
      && entries != []
      && entries[0].Parsed().Packable() && Last(entries).Parsed().Packable()
      && smallest == Encode(entries[0].Parsed())
      && largest == Encode(Last(entries).Parsed())
    }
  }

  function Last(es: seq<Entry>): Entry
    requires es != []
  {
    es[|es| - 1]
  }

  function Concat(outputs: seq<Output>): seq<Entry>
  {
    if outputs == [] then []
    else Concat(outputs[..|outputs| - 1]) + outputs[|outputs| - 1].entries
  }

  // What the environment decides at each input entry: where the level below
  // wants a cut, when a file is big enough, whether file operations succeed.
  datatype Environment = Environment(stopBefore: nat -> bool, bigEnough: nat -> bool,
                                     openOk: nat -> bool, finishOk: nat -> bool, shutdown: nat -> bool)
  {
    ghost predicate Quiet()
    {
      forall i: nat :: openOk(i) && finishOk(i) && !shutdown(i)
    }
  }

  ghost predicate AllFinished(outputs: seq<Output>)
  {
    forall o | o in outputs :: o.Finished()
  }

  lemma NoOutputs()
    ensures AllFinished([]) && Concat([]) == []
  {
  }

  lemma OpenedOutput(outputs: seq<Output>, e: Entry)
    requires AllFinished(outputs) && e.Parsed().Packable()
    ensures var code := Encode(e.Parsed());
            var longer := outputs + [Output(code, code, [e])];
            AllFinished(longer) && Concat(longer) == Concat(outputs) + [e]
  {
    var code := Encode(e.Parsed());
    var longer := outputs + [Output(code, code, [e])];
    assert longer[..|longer| - 1] == outputs;
  }

  lemma GrownOutput(outputs: seq<Output>, e: Entry)
    requires AllFinished(outputs) && outputs != [] && e.Parsed().Packable()
    ensures var current := outputs[|outputs| - 1];
            var grown := outputs[..|outputs| - 1] +
                         [current.(largest := Encode(e.Parsed()), entries := current.entries + [e])];
            AllFinished(grown) && Concat(grown) == Concat(outputs) + [e]
  {
    var current := outputs[|outputs| - 1];
    assert current in outputs;
    var done := outputs[..|outputs| - 1];
    var grown := done + [current.(largest := Encode(e.Parsed()), entries := current.entries + [e])];
    assert grown[..|grown| - 1] == done;
  }

  // What the loop remembers of the entries before i.
  ghost predicate Remembers(input: seq<Entry>, i: nat, currentUserKey: Option<Key>, lastSequence: nat)
    requires i <= |input|
  {
    && currentUserKey == (if i > 0 && input[i - 1].Parses() then Some(input[i - 1].user) else None)
    && lastSequence == if i > 0 && input[i - 1].Parses() then input[i - 1].seqno else MAX_SEQUENCE
  }

  // The drop decision for the next entry.
  method Decide(ghost input: seq<Entry>, ghost i: nat, e: Entry, currentUserKey: Option<Key>, lastSequence: nat,
                smallest: nat, isBase: Key -> bool)
      returns (drop: bool, userKey: Option<Key>, last: nat)
    requires i < |input| && e == input[i] && Remembers(input, i, currentUserKey, lastSequence)
    ensures drop == Drops(input, smallest, isBase, i) && Remembers(input, i + 1, userKey, last)
  {
    drop, userKey, last := false, currentUserKey, lastSequence;
    if e.kind > TYPE_VALUE {
      userKey := None;
      last := MAX_SEQUENCE;
    } else {
      if userKey != Some(e.user) {
        userKey := Some(e.user);
        last := MAX_SEQUENCE;
      }
      if last <= smallest {
        drop := true;
      } else if e.kind == TYPE_DELETION && e.seqno <= smallest && isBase(e.user) {
        drop := true;
      }
      last := e.seqno;
    }
  }

  method DoCompactionWork(input: seq<Entry>, smallest: nat, isBase: Key -> bool, env: Environment)
      returns (ok: bool, outputs: seq<Output>)
    requires forall e | e in input :: e.Parsed().Packable()
    ensures ok ==> Concat(outputs) == Survivors(input, smallest, isBase, |input|)
    ensures ok ==> AllFinished(outputs)
    ensures env.Quiet() ==> ok
  {
    hide Concat, AllFinished;
    NoOutputs();
    ok, outputs := true, [];
    var building := false;
    var currentUserKey: Option<Key> := None;
    var lastSequence := MAX_SEQUENCE;
    var i := 0;
    while i < |input| && !env.shutdown(i)
      invariant 0 <= i <= |input|
      invariant Concat(outputs) == Survivors(input, smallest, isBase, i)
      invariant AllFinished(outputs)
      invariant building ==> outputs != []
      invariant Remembers(input, i, currentUserKey, lastSequence)
    {
      var e := input[i];
      assert e in input;
      if env.stopBefore(i) && building {
        building := false;
        if !env.finishOk(i) { ok := false; return; }
      }

      var drop;
      drop, currentUserKey, lastSequence := Decide(input, i, e, currentUserKey, lastSequence, smallest, isBase);

      if !drop {
        var code := Encode(e.Parsed());
        if !building {
          if !env.openOk(i) { ok := false; return; }
          OpenedOutput(outputs, e);
          outputs := outputs + [Output(code, code, [e])];
          building := true;
        } else {
          GrownOutput(outputs, e);
          var current := outputs[|outputs| - 1];
          outputs := outputs[..|outputs| - 1] + [current.(largest := code, entries := current.entries + [e])];
        }
        if env.bigEnough(i) {
          building := false;
          if !env.finishOk(i) { ok := false; return; }
        }
      }
      i := i + 1;
    }
    if env.shutdown(i) {
      ok := false;
      return;
    }
    if building && !env.finishOk(i) { ok := false; }
  }

  lemma {:induction false} ConcatMember(outputs: seq<Output>, o: Output, e: Entry)
    requires o in outputs && e in o.entries
    ensures e in Concat(outputs)
  {
    if o != outputs[|outputs| - 1] {
      ConcatMember(outputs[..|outputs| - 1], o, e);
    }
  }

  lemma {:induction false} ConcatAscends(cmp: Comparator, outputs: seq<Output>, a: nat, b: nat, e: Entry, f: Entry)
    requires a < b < |outputs| && e in outputs[a].entries && f in outputs[b].entries
    requires Sorted(cmp, Concat(outputs))
    ensures Before(cmp, e.Parsed(), f.Parsed())
  {
    var n := |outputs| - 1;
    var front := outputs[..n];
    if b < n {
      assert forall i, j | 0 <= i < j < |Concat(front)| ::
          Concat(outputs)[i] == Concat(front)[i] && Concat(outputs)[j] == Concat(front)[j];
      assert Sorted(cmp, Concat(front));
      ConcatAscends(cmp, front, a, b, e, f);
    } else {
      assert front[a] in front;
      ConcatMember(front, front[a], e);
      var i :| 0 <= i < |Concat(front)| && Concat(front)[i] == e;
      var j :| 0 <= j < |outputs[n].entries| && outputs[n].entries[j] == f;
      assert Concat(outputs)[i] == e && Concat(outputs)[|Concat(front)| + j] == f;
    }
  }

  lemma {:induction false} SurvivorsSorted(cmp: Comparator, input: seq<Entry>, smallest: nat, isBase: Key -> bool, n: nat)
    requires Sorted(cmp, input) && n <= |input|
    ensures Sorted(cmp, Survivors(input, smallest, isBase, n))
    ensures forall e | e in Survivors(input, smallest, isBase, n) :: e in input[..n]
  {
    if n > 0 {
      SurvivorsSorted(cmp, input, smallest, isBase, n - 1);
      var rest := Survivors(input, smallest, isBase, n - 1);
      assert input[..n] == input[..n - 1] + [input[n - 1]];
      forall i | 0 <= i < |rest| ensures Before(cmp, rest[i].Parsed(), input[n - 1].Parsed()) {
        assert rest[i] in input[..n - 1];
        var j :| 0 <= j < n - 1 && input[j] == rest[i];
      }
    }
  }

  // The finished files cover disjoint ranges of internal keys, in order,
  // wherever the cuts fell.
  lemma OutputsAreDisjoint(cmp: Comparator, input: seq<Entry>, smallest: nat, isBase: Key -> bool,
                           outputs: seq<Output>, a: nat, b: nat)
    requires TotalOrder(cmp) && Sorted(cmp, input)
    requires Concat(outputs) == Survivors(input, smallest, isBase, |input|)
    requires AllFinished(outputs)
    requires a < b < |outputs|
    ensures outputs[a].Finished() && outputs[b].Finished()
    ensures |outputs[a].largest| >= 8 && |outputs[b].smallest| >= 8
    ensures CompareInternal(cmp, outputs[a].largest, outputs[b].smallest) < 0
  {
    SurvivorsSorted(cmp, input, smallest, isBase, |input|);
    assert outputs[a] in outputs && outputs[b] in outputs;
    var e, f := Last(outputs[a].entries), outputs[b].entries[0];
    ConcatAscends(cmp, outputs, a, b, e, f);
    CompareIsBefore(cmp, e.Parsed(), f.Parsed());
  }
}
