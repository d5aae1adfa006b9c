// Versioned entries and the one-line meaning of a read: of the entries of a
// key that the snapshot may see, the newest decides; a deletion hides.
module Entries {
  import opened Bytes
  import opened DbFormat

  datatype Entry = Entry(user: Key, seqno: nat, kind: Byte, value: Value)
  {
    function Parsed(): ParsedKey { ParsedKey(user, seqno, kind) }

    function Tag(): nat { seqno * 256 + kind }

    predicate Parses() { kind <= TYPE_VALUE }

    predicate VisibleAt(snapshot: nat) { Parses() && seqno <= snapshot }
  }

  predicate Newest(s: set<Entry>, k: Key, snapshot: nat, e: Entry)
  {
    && e in s && e.user == k && e.VisibleAt(snapshot)
    && forall f | f in s && f.user == k && f.VisibleAt(snapshot) :: f.Tag() <= e.Tag()
  }

  predicate HasVersion(s: set<Entry>, k: Key, snapshot: nat)
  {
    exists e :: e in s && e.user == k && e.VisibleAt(snapshot)
  }

  function Outcome(e: Entry): Option<Value>
  {
    if e.kind == TYPE_VALUE then Some(e.value) else None
  }

  ghost function Read(s: set<Entry>, k: Key, snapshot: nat): Option<Value>
  {
    if exists e :: Newest(s, k, snapshot, e) then
      var e :| Newest(s, k, snapshot, e);
      Outcome(e)
    else None
  }

  // No two entries of one key carry the same sequence number and type.
  ghost predicate UniqueVersions(s: set<Entry>)
  {
    forall e, f | e in s && f in s && e.user == f.user && e.Tag() == f.Tag() :: e == f
  }

  lemma ReadIs(s: set<Entry>, k: Key, snapshot: nat, e: Entry)
    requires UniqueVersions(s) && Newest(s, k, snapshot, e)
    ensures Read(s, k, snapshot) == Outcome(e)
  {
    var f :| Newest(s, k, snapshot, f) && Read(s, k, snapshot) == Outcome(f);
    assert Newest(s, k, snapshot, f);
    assert f.Tag() <= e.Tag() && e.Tag() <= f.Tag();
  }

  lemma {:induction false} NewestExists(s: set<Entry>, k: Key, snapshot: nat)
    requires HasVersion(s, k, snapshot)
    ensures exists e :: Newest(s, k, snapshot, e)
    decreases s
  {
    var e :| e in s && e.user == k && e.VisibleAt(snapshot);
    var rest := s - {e};
    if HasVersion(rest, k, snapshot) {
      NewestExists(rest, k, snapshot);
      var f :| Newest(rest, k, snapshot, f);
      if f.Tag() <= e.Tag() {
        assert Newest(s, k, snapshot, e);
      } else {
        assert Newest(s, k, snapshot, f);
      }
    } else {
      forall f | f in s && f.user == k && f.VisibleAt(snapshot) ensures f == e {
        assert f == e || f in rest;
      }
      assert Newest(s, k, snapshot, e);
    }
  }

  // A read that finds nothing visible is a miss.
  lemma ReadMiss(s: set<Entry>, k: Key, snapshot: nat)
    requires !HasVersion(s, k, snapshot)
    ensures Read(s, k, snapshot) == None
  {
  }
}
