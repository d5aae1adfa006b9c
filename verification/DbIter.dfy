// The user-facing iterator (db/db_iter.cc): a bidirectional cursor over the
// internal entries that shows, per user key, the newest value the snapshot
// may see.
module DbIter {
  import opened Bytes
  import opened DbFormat
  import opened Entries

  ghost predicate Sorted(cmp: Comparator, es: seq<Entry>)
  {
    && (forall i | 0 <= i < |es| :: es[i].seqno <= MAX_SEQUENCE)
    && (forall i, j | 0 <= i < j < |es| :: Before(cmp, es[i].Parsed(), es[j].Parsed()))
  }

  ghost function EntrySet(es: seq<Entry>): set<Entry>
  {
    set e | e in es
  }

  // Entry i is shown: it is a visible value and no entry of its key before it
  // (that is, no newer one) is visible.
  ghost predicate Shown(es: seq<Entry>, snapshot: nat, i: nat)
    requires i < |es|
  {
    && es[i].VisibleAt(snapshot) && es[i].kind == TYPE_VALUE
    && forall j | 0 <= j < i && es[j].user == es[i].user :: !es[j].VisibleAt(snapshot)
  }

  ghost predicate Invisible(es: seq<Entry>, snapshot: nat, lo: nat, hi: nat)
    requires hi <= |es|
  {
    forall j | lo <= j < hi :: !es[j].VisibleAt(snapshot)
  }

  // What a plain cursor walks over: the shown pairs among the first n entries.
  ghost function Table(es: seq<Entry>, snapshot: nat, n: nat): seq<(Key, Value)>
    requires n <= |es|
  {
    if n == 0 then []
    else if Shown(es, snapshot, n - 1) then
      Table(es, snapshot, n - 1) + [(es[n - 1].user, es[n - 1].value)]
    else Table(es, snapshot, n - 1)
  }

  lemma {:induction false} TableSkips(es: seq<Entry>, snapshot: nat, lo: nat, hi: nat)
    requires lo <= hi <= |es|
    requires forall i | lo <= i < hi :: !Shown(es, snapshot, i)
    ensures Table(es, snapshot, hi) == Table(es, snapshot, lo)
    decreases hi
  {
    if lo < hi { TableSkips(es, snapshot, lo, hi - 1); }
  }

  lemma {:induction false} TableAt(es: seq<Entry>, snapshot: nat, i: nat, n: nat)
    requires i < n <= |es| && Shown(es, snapshot, i)
    ensures Table(es, snapshot, i) < Table(es, snapshot, n)
    ensures Table(es, snapshot, n)[|Table(es, snapshot, i)|] == (es[i].user, es[i].value)
    decreases n
  {
    if i + 1 < n { TableAt(es, snapshot, i, n - 1); }
  }

  // ---- the plain specification is the right one -------------------------

  lemma UserOrder(cmp: Comparator, es: seq<Entry>, i: nat, j: nat)
    requires TotalOrder(cmp) && Sorted(cmp, es) && i <= j < |es|
    ensures cmp(es[i].user, es[j].user) <= 0
  {
    if i < j {
      assert Before(cmp, es[i].Parsed(), es[j].Parsed());
    }
    assert cmp(es[i].user, es[i].user) == 0;
  }

  lemma NotBelowIsSame(cmp: Comparator, es: seq<Entry>, i: nat, j: nat)
    requires TotalOrder(cmp) && Sorted(cmp, es) && i <= j < |es|
    requires cmp(es[i].user, es[j].user) >= 0
    ensures es[i].user == es[j].user
  {
    UserOrder(cmp, es, i, j);
    assert cmp(es[i].user, es[j].user) == 0 <==> es[i].user == es[j].user;
  }

  // Versions of one key come newest first.
  lemma VersionOrder(cmp: Comparator, es: seq<Entry>, i: nat, j: nat)
    requires TotalOrder(cmp) && Sorted(cmp, es) && i < |es| && j < |es|
    requires es[i].user == es[j].user
    ensures i < j <==> es[i].Tag() > es[j].Tag()
  {
    assert cmp(es[i].user, es[j].user) == 0;
    assert i < j ==> Before(cmp, es[i].Parsed(), es[j].Parsed());
    assert j < i ==> Before(cmp, es[j].Parsed(), es[i].Parsed());
  }

  // Entries between two entries of one key are of that key.
  lemma Between(cmp: Comparator, es: seq<Entry>, i: nat, j: nat, k: nat)
    requires TotalOrder(cmp) && Sorted(cmp, es) && i <= j <= k < |es|
    requires es[i].user == es[k].user
    ensures es[j].user == es[i].user
  {
    UserOrder(cmp, es, i, j);
    UserOrder(cmp, es, j, k);
    assert cmp(es[i].user, es[j].user) == 0 <==> es[i].user == es[j].user;
    assert cmp(es[j].user, es[i].user) == 0 <==> es[i].user == es[j].user;
    assert cmp(es[i].user, es[j].user) < 0 <==> cmp(es[j].user, es[i].user) > 0;
  }

  lemma {:induction false} TableMember(es: seq<Entry>, snapshot: nat, n: nat, p: (Key, Value))
    requires n <= |es|
    ensures p in Table(es, snapshot, n) <==>
            exists i :: 0 <= i < n && Shown(es, snapshot, i) && p == (es[i].user, es[i].value)
  {
    if n > 0 {
      TableMember(es, snapshot, n - 1, p);
      if exists i :: 0 <= i < n - 1 && Shown(es, snapshot, i) && p == (es[i].user, es[i].value) {
        var i :| 0 <= i < n - 1 && Shown(es, snapshot, i) && p == (es[i].user, es[i].value);
        assert 0 <= i < n && Shown(es, snapshot, i) && p == (es[i].user, es[i].value);
      }
    }
  }

  lemma SortedUnique(cmp: Comparator, es: seq<Entry>)
    requires TotalOrder(cmp) && Sorted(cmp, es)
    ensures UniqueVersions(EntrySet(es))
  {
    hide TotalOrder, Sorted;
    forall e, f | e in es && f in es && e.user == f.user && e.Tag() == f.Tag()
      ensures e == f
    {
      var i :| 0 <= i < |es| && es[i] == e;
      var j :| 0 <= j < |es| && es[j] == f;
      VersionOrder(cmp, es, i, j);
      VersionOrder(cmp, es, j, i);
    }
  }

  // An entry that is shown is the newest visible one of its key.
  lemma ShownIsNewest(cmp: Comparator, es: seq<Entry>, snapshot: nat, i: nat)
    requires TotalOrder(cmp) && Sorted(cmp, es) && i < |es| && Shown(es, snapshot, i)
    ensures Newest(EntrySet(es), es[i].user, snapshot, es[i])
  {
    forall f | f in es && f.user == es[i].user && f.VisibleAt(snapshot)
      ensures f.Tag() <= es[i].Tag()
    {
      var j :| 0 <= j < |es| && es[j] == f;
      VersionOrder(cmp, es, i, j);
      VersionOrder(cmp, es, j, i);
    }
  }

  lemma NewestValueIsShown(cmp: Comparator, es: seq<Entry>, snapshot: nat, i: nat)
    requires TotalOrder(cmp) && Sorted(cmp, es) && i < |es|
    requires Newest(EntrySet(es), es[i].user, snapshot, es[i]) && es[i].kind == TYPE_VALUE
    ensures Shown(es, snapshot, i)
  {
    forall j | 0 <= j < i && es[j].user == es[i].user
      ensures !es[j].VisibleAt(snapshot)
    {
      VersionOrder(cmp, es, j, i);
      assert es[j] in EntrySet(es);
    }
  }

  // The table the cursor walks holds exactly what reads at the snapshot find.
  lemma TableIsReads(cmp: Comparator, es: seq<Entry>, snapshot: nat, k: Key, v: Value)
    requires TotalOrder(cmp) && Sorted(cmp, es)
    ensures (k, v) in Table(es, snapshot, |es|) <==> Read(EntrySet(es), k, snapshot) == Some(v)
  {
    var s := EntrySet(es);
    SortedUnique(cmp, es);
    TableMember(es, snapshot, |es|, (k, v));
    if (k, v) in Table(es, snapshot, |es|) {
      var i :| 0 <= i < |es| && Shown(es, snapshot, i) && (k, v) == (es[i].user, es[i].value);
      ShownIsNewest(cmp, es, snapshot, i);
      ReadIs(s, k, snapshot, es[i]);
    }
    if Read(s, k, snapshot) == Some(v) {
      var e :| Newest(s, k, snapshot, e) && Outcome(e) == Some(v);
      var i :| 0 <= i < |es| && es[i] == e;
      NewestValueIsShown(cmp, es, snapshot, i);
    }
  }

  // ... and lists them in strictly ascending key order.
  lemma {:induction false} TableAscends(cmp: Comparator, es: seq<Entry>, snapshot: nat, n: nat)
    requires TotalOrder(cmp) && Sorted(cmp, es) && n <= |es|
    ensures forall a, b | 0 <= a < b < |Table(es, snapshot, n)| ::
              cmp(Table(es, snapshot, n)[a].0, Table(es, snapshot, n)[b].0) < 0
  {
    if n > 0 {
      TableAscends(cmp, es, snapshot, n - 1);
      if Shown(es, snapshot, n - 1) {
        var t := Table(es, snapshot, n - 1);
        forall a | 0 <= a < |t| ensures cmp(t[a].0, es[n - 1].user) < 0 {
          TableMember(es, snapshot, n - 1, t[a]);
          var i :| 0 <= i < n - 1 && Shown(es, snapshot, i) && t[a] == (es[i].user, es[i].value);
          UserOrder(cmp, es, i, n - 1);
          assert cmp(es[i].user, es[n - 1].user) == 0 <==> es[i].user == es[n - 1].user;
        }
      }
    }
  }

  // ---- the forward scan ------------------------------------------------

  // Of the entries from n on, those of a key already seen visibly are exactly
  // the ones the comparison with `skip` hides.
  ghost predicate SkipCatches(cmp: Comparator, es: seq<Entry>, snapshot: nat, n: nat, skipping: bool, skip: Key)
    requires n <= |es|
  {
    && (skipping ==> exists j :: 0 <= j < n && es[j].VisibleAt(snapshot) && es[j].user == skip)
    && (forall j, i | 0 <= j < n <= i < |es| && es[j].VisibleAt(snapshot) && es[j].user == es[i].user ::
          skipping && cmp(es[i].user, skip) <= 0)
  }

  lemma SkippedIsSameKey(cmp: Comparator, es: seq<Entry>, snapshot: nat, p: nat, skip: Key)
    requires TotalOrder(cmp) && Sorted(cmp, es) && p < |es|
    requires SkipCatches(cmp, es, snapshot, p, true, skip) && cmp(es[p].user, skip) <= 0
    ensures es[p].user == skip && !Shown(es, snapshot, p)
    ensures SkipCatches(cmp, es, snapshot, p + 1, true, skip)
  {
    var j :| 0 <= j < p && es[j].VisibleAt(snapshot) && es[j].user == skip;
    UserOrder(cmp, es, j, p);
    assert cmp(es[p].user, skip) == 0 <==> es[p].user == skip;
    assert cmp(skip, es[p].user) == 0 <==> es[p].user == skip;
    assert cmp(skip, es[p].user) < 0 <==> cmp(es[p].user, skip) > 0;
  }

  lemma NotSkippedIsShown(cmp: Comparator, es: seq<Entry>, snapshot: nat, p: nat, skipping: bool, skip: Key)
    requires p < |es| && SkipCatches(cmp, es, snapshot, p, skipping, skip)
    requires es[p].VisibleAt(snapshot) && es[p].kind == TYPE_VALUE
    requires !(skipping && cmp(es[p].user, skip) <= 0)
    ensures Shown(es, snapshot, p)
  {
  }

  lemma InvisiblePasses(cmp: Comparator, es: seq<Entry>, snapshot: nat, p: nat, skipping: bool, skip: Key)
    requires p < |es| && SkipCatches(cmp, es, snapshot, p, skipping, skip) && !es[p].VisibleAt(snapshot)
    ensures SkipCatches(cmp, es, snapshot, p + 1, skipping, skip) && !Shown(es, snapshot, p)
  {
  }

  // A scan that starts at p to leave the entry shown at base - 1 first passes
  // invisible entries and then that entry, which `skip` hides.
  ghost predicate Leaving(es: seq<Entry>, snapshot: nat, p: nat, base: nat, skipping: bool, skip: Key)
    requires base <= |es|
  {
    p < base ==>
      && skipping && Shown(es, snapshot, base - 1) && skip == es[base - 1].user
      && Invisible(es, snapshot, p, base - 1)
  }

  lemma LeavingDone(es: seq<Entry>, snapshot: nat, p: nat, base: nat, skipping: bool, skip: Key)
    requires base <= p && base <= |es|
    ensures Leaving(es, snapshot, p, base, skipping, skip)
  {
  }

  lemma LeavingPasses(cmp: Comparator, es: seq<Entry>, snapshot: nat, p: nat, base: nat, skipping: bool, skip: Key)
    requires TotalOrder(cmp) && base <= |es| && p < base && Leaving(es, snapshot, p, base, skipping, skip)
    ensures Leaving(es, snapshot, p + 1, base, skipping, skip)
    ensures es[p].VisibleAt(snapshot) ==>
              es[p].kind == TYPE_VALUE && skipping && cmp(es[p].user, skip) <= 0
  {
    assert cmp(skip, skip) == 0;
  }

  lemma NothingSkipped(cmp: Comparator, es: seq<Entry>, snapshot: nat, p: nat, skip: Key, other: Key)
    requires p <= |es| && SkipCatches(cmp, es, snapshot, p, false, skip)
    ensures SkipCatches(cmp, es, snapshot, p, false, other)
  {
  }

  lemma VersionCatches(cmp: Comparator, es: seq<Entry>, snapshot: nat, p: nat)
    requires TotalOrder(cmp) && Sorted(cmp, es) && p < |es| && es[p].VisibleAt(snapshot)
    ensures SkipCatches(cmp, es, snapshot, p + 1, true, es[p].user)
  {
    forall j, i | 0 <= j < p + 1 <= i < |es| && es[j].VisibleAt(snapshot) && es[j].user == es[i].user
      ensures cmp(es[i].user, es[p].user) <= 0
    {
      Between(cmp, es, j, p, i);
      assert cmp(es[p].user, es[p].user) == 0;
    }
  }

  // Leaving a shown entry: the scan starts after it with its key as the one to
  // skip, and the table grows by its row.
  lemma ShownCatches(cmp: Comparator, es: seq<Entry>, snapshot: nat, p: nat)
    requires TotalOrder(cmp) && Sorted(cmp, es) && p < |es| && Shown(es, snapshot, p)
    ensures SkipCatches(cmp, es, snapshot, p + 1, true, es[p].user)
    ensures |Table(es, snapshot, p + 1)| == |Table(es, snapshot, p)| + 1
    ensures |Table(es, snapshot, p)| < |Table(es, snapshot, |es|)|
  {
    VersionCatches(cmp, es, snapshot, p);
    TableAt(es, snapshot, p, |es|);
  }

  lemma DeletionNotShown(es: seq<Entry>, snapshot: nat, p: nat)
    requires p < |es| && es[p].kind == TYPE_DELETION
    ensures !Shown(es, snapshot, p)
  {
  }

  // Entries of one key before a shown entry are invisible, so a forward scan
  // may start anywhere among them to leave it.
  lemma LeavingFrom(es: seq<Entry>, snapshot: nat, below: nat, cur: nat)
    requires below <= cur < |es| && Shown(es, snapshot, cur)
    requires Invisible(es, snapshot, below, cur)
    ensures Leaving(es, snapshot, below, cur + 1, true, es[cur].user)
  {
  }

  // ---- the backward scan ------------------------------------------------

  // The entries in [lo, base) have been scanned downwards: either none of them
  // can be shown, or entry `found` is the newest visible one of its key so far
  // and nothing above it can be shown.
  ghost predicate Scanned(es: seq<Entry>, snapshot: nat, lo: nat, base: nat, found: Option<nat>)
    requires base <= |es|
  {
    match found
    case None => forall j | lo <= j < base :: !Shown(es, snapshot, j)
    case Some(f) =>
      && lo <= f < base && es[f].VisibleAt(snapshot) && es[f].kind == TYPE_VALUE
      && (Invisible(es, snapshot, lo, f))
      && (forall j | f < j < base :: !Shown(es, snapshot, j))
  }

  lemma ScanInvisible(es: seq<Entry>, snapshot: nat, p: nat, base: nat, found: Option<nat>)
    requires p < base <= |es| && Scanned(es, snapshot, p + 1, base, found) && !es[p].VisibleAt(snapshot)
    ensures Scanned(es, snapshot, p, base, found)
  {
  }

  lemma ScanVersion(cmp: Comparator, es: seq<Entry>, snapshot: nat, p: nat, base: nat, found: Option<nat>)
    requires TotalOrder(cmp) && Sorted(cmp, es)
    requires p < base <= |es| && Scanned(es, snapshot, p + 1, base, found) && es[p].VisibleAt(snapshot)
    requires found.Some? ==> cmp(es[p].user, es[found.value].user) >= 0
    ensures es[p].kind == TYPE_DELETION ==> Scanned(es, snapshot, p, base, None)
    ensures es[p].kind == TYPE_VALUE ==> Scanned(es, snapshot, p, base, Some(p))
  {
    if found.Some? {
      UserOrder(cmp, es, p, found.value);
      assert cmp(es[p].user, es[found.value].user) == 0 <==> es[p].user == es[found.value].user;
    }
  }

  lemma ScanBreaks(cmp: Comparator, es: seq<Entry>, snapshot: nat, p: nat, base: nat, f: nat)
    requires TotalOrder(cmp) && Sorted(cmp, es)
    requires p < base <= |es| && Scanned(es, snapshot, p + 1, base, Some(f))
    requires cmp(es[p].user, es[f].user) < 0
    ensures Shown(es, snapshot, f)
  {
    forall j | 0 <= j < f && es[j].user == es[f].user ensures !es[j].VisibleAt(snapshot) {
      if j <= p {
        assert cmp(es[f].user, es[f].user) == 0;
        Between(cmp, es, j, p, f);
        assert false;
      }
    }
  }

  lemma ScanEnds(es: seq<Entry>, snapshot: nat, base: nat, f: nat)
    requires base <= |es| && Scanned(es, snapshot, 0, base, Some(f))
    ensures Shown(es, snapshot, f)
  {
  }

  lemma ScannedTable(es: seq<Entry>, snapshot: nat, lo: nat, base: nat, found: Option<nat>)
    requires lo <= base <= |es| && Scanned(es, snapshot, lo, base, found)
    requires found.Some? ==> Shown(es, snapshot, found.value)
    ensures found.Some? ==>
              Table(es, snapshot, base) ==
              Table(es, snapshot, found.value) + [(es[found.value].user, es[found.value].value)]
    ensures found.Some? ==> Invisible(es, snapshot, lo, found.value)
    ensures found.None? ==> Table(es, snapshot, base) == Table(es, snapshot, lo)
  {
    TableSkips(es, snapshot, if found.Some? then found.value + 1 else lo, base);
  }

  lemma ScanStarts(es: seq<Entry>, snapshot: nat, base: nat)
    requires base <= |es|
    ensures Scanned(es, snapshot, base, base, None)
    ensures Table(es, snapshot, 0) == []
  {
  }

  // Leaving a shown entry backwards: every entry of its key before it is
  // invisible, and if that is all there is no row is left.
  lemma ScanFrom(es: seq<Entry>, snapshot: nat, lo: nat, cur: nat)
    requires lo <= cur < |es| && Shown(es, snapshot, cur)
    requires forall j | lo <= j <= cur :: es[j].user == es[cur].user
    ensures Scanned(es, snapshot, lo, cur, None)
    ensures lo == 0 ==> Table(es, snapshot, cur) == []
    ensures |Table(es, snapshot, cur)| < |Table(es, snapshot, |es|)|
  {
    if lo == 0 { TableSkips(es, snapshot, 0, cur); }
    TableAt(es, snapshot, cur, |es|);
  }

  lemma ScanFromReverse(es: seq<Entry>, snapshot: nat, lo: nat, cur: nat)
    requires lo <= cur < |es| && Shown(es, snapshot, cur)
    requires Invisible(es, snapshot, lo, cur)
    ensures Scanned(es, snapshot, lo, cur, None)
    ensures |Table(es, snapshot, cur)| < |Table(es, snapshot, |es|)|
  {
    TableAt(es, snapshot, cur, |es|);
  }

  // ---- seeking -----------------------------------------------------------

  ghost predicate SoughtTo(cmp: Comparator, es: seq<Entry>, seekKey: ParsedKey, p: nat)
    requires p <= |es|
  {
    && (forall i | 0 <= i < p :: Before(cmp, es[i].Parsed(), seekKey))
    && (forall i | p <= i < |es| :: !Before(cmp, es[i].Parsed(), seekKey))
  }

  lemma EntryPackable(cmp: Comparator, es: seq<Entry>, i: nat)
    requires Sorted(cmp, es) && i < |es|
    ensures es[i].Parsed().Packable()
  {
  }

  lemma FirstNotBefore(cmp: Comparator, es: seq<Entry>, seekKey: ParsedKey, p: nat)
    requires TotalOrder(cmp) && Sorted(cmp, es) && p <= |es|
    requires forall i | 0 <= i < p :: Before(cmp, es[i].Parsed(), seekKey)
    requires p < |es| ==> !Before(cmp, es[p].Parsed(), seekKey)
    ensures SoughtTo(cmp, es, seekKey, p)
  {
    forall i | p < i < |es| && Before(cmp, es[i].Parsed(), seekKey) ensures false {
      BeforeTransitive(cmp, es[p].Parsed(), es[i].Parsed(), seekKey);
    }
  }

  lemma SeekSplitsKeys(cmp: Comparator, es: seq<Entry>, snapshot: nat, target: Key, p: nat)
    requires TotalOrder(cmp) && Sorted(cmp, es) && snapshot <= MAX_SEQUENCE && p <= |es|
    requires SoughtTo(cmp, es, ParsedKey(target, snapshot, TYPE_FOR_SEEK), p)
    ensures forall i | 0 <= i < p && es[i].VisibleAt(snapshot) :: cmp(es[i].user, target) < 0
    ensures forall i | p <= i < |es| :: cmp(es[i].user, target) >= 0
    ensures SkipCatches(cmp, es, snapshot, p, false, [])
  {
    forall i | 0 <= i < |es| && es[i].VisibleAt(snapshot)
      ensures i < p ==> cmp(es[i].user, target) < 0
    {
      SeekKeySplitsVersions(cmp, target, snapshot, es[i].Parsed());
      assert cmp(es[i].user, target) == 0 <==> es[i].user == target;
    }
  }

  // The row shows an entry at an index in [lo, hi).
  ghost predicate RowOf(es: seq<Entry>, snapshot: nat, row: (Key, Value), lo: nat, hi: nat)
    requires hi <= |es|
  {
    exists k :: lo <= k < hi && Shown(es, snapshot, k) && row == (es[k].user, es[k].value)
  }

  lemma {:induction false} TableSplit(es: seq<Entry>, snapshot: nat, p: nat, n: nat)
    requires p <= n <= |es|
    ensures Table(es, snapshot, p) <= Table(es, snapshot, n)
    ensures forall i | |Table(es, snapshot, p)| <= i < |Table(es, snapshot, n)| ::
              RowOf(es, snapshot, Table(es, snapshot, n)[i], p, n)
  {
    if p < n {
      TableSplit(es, snapshot, p, n - 1);
      var shorter, t := Table(es, snapshot, n - 1), Table(es, snapshot, n);
      forall i | |Table(es, snapshot, p)| <= i < |t| ensures RowOf(es, snapshot, t[i], p, n) {
        if i < |shorter| {
          assert RowOf(es, snapshot, shorter[i], p, n - 1) && t[i] == shorter[i];
        } else {
          assert Shown(es, snapshot, n - 1) && t[i] == (es[n - 1].user, es[n - 1].value);
        }
      }
    }
  }

  // The rows before the sought position have smaller keys, the others do not.
  lemma SeekSplitsRows(cmp: Comparator, es: seq<Entry>, snapshot: nat, target: Key, p: nat)
    requires TotalOrder(cmp) && Sorted(cmp, es) && snapshot <= MAX_SEQUENCE && p <= |es|
    requires SoughtTo(cmp, es, ParsedKey(target, snapshot, TYPE_FOR_SEEK), p)
    ensures var rows := Table(es, snapshot, |es|);
            var c := |Table(es, snapshot, p)|;
            && c <= |rows|
            && (forall i | 0 <= i < c :: cmp(rows[i].0, target) < 0)
            && (forall i | c <= i < |rows| :: cmp(rows[i].0, target) >= 0)
  {
    SeekSplitsKeys(cmp, es, snapshot, target, p);
    TableSplit(es, snapshot, p, |es|);
    TableSplit(es, snapshot, 0, p);
    assert Table(es, snapshot, 0) == [];
    var rows := Table(es, snapshot, |es|);
    forall i | 0 <= i < |Table(es, snapshot, p)| ensures cmp(rows[i].0, target) < 0 {
      assert RowOf(es, snapshot, Table(es, snapshot, p)[i], 0, p);
    }
    forall i | |Table(es, snapshot, p)| <= i < |rows| ensures cmp(rows[i].0, target) >= 0 {
      assert RowOf(es, snapshot, rows[i], p, |es|);
    }
  }

  // ---- the internal iterator --------------------------------------------

  // The merged iterator underneath. One invalid position stands for both
  // ends, so after running off an end only a seek recovers.
  class InternalIterator {
    const entries: seq<Entry>
    const cmp: Comparator
    var pos: nat

    ghost predicate Ok()
      reads this
    {
      TotalOrder(cmp) && Sorted(cmp, entries) && pos <= |entries|
    }

    constructor (cmp: Comparator, entries: seq<Entry>)
      requires TotalOrder(cmp) && Sorted(cmp, entries)
      ensures Ok() && this.cmp == cmp && this.entries == entries && pos == |entries|
    {
      this.cmp := cmp;
      this.entries := entries;
      pos := |entries|;
    }

    predicate Valid()
      reads this
    {
      pos < |entries|
    }

    method SeekToFirst()
      requires Ok()
      modifies this
      ensures Ok() && pos == 0
    {
      pos := 0;
    }

    method SeekToLast()
      requires Ok()
      modifies this
      ensures Ok() && pos == if |entries| == 0 then 0 else |entries| - 1
    {
      pos := if |entries| == 0 then 0 else |entries| - 1;
    }

    method Next()
      requires Ok() && Valid()
      modifies this
      ensures Ok() && pos == old(pos) + 1
    {
      pos := pos + 1;
    }

    method Prev()
      requires Ok() && Valid()
      modifies this
      ensures Ok() && pos == if old(pos) == 0 then |entries| else old(pos) - 1
    {
      pos := if pos == 0 then |entries| else pos - 1;
    }

    // First entry at or past the encoded internal key.
    method Seek(target: seq<Byte>, ghost seekKey: ParsedKey)
      requires Ok() && seekKey.Packable() && target == Encode(seekKey)
      modifies this
      ensures Ok() && SoughtTo(cmp, entries, seekKey, pos)
    {
      hide Sorted, TotalOrder;
      pos := 0;
      while pos < |entries|
        invariant Ok()
        invariant forall i | 0 <= i < pos :: Before(cmp, entries[i].Parsed(), seekKey)
      {
        EntryPackable(cmp, entries, pos);
        CompareIsBefore(cmp, entries[pos].Parsed(), seekKey);
        if CompareInternal(cmp, Encode(entries[pos].Parsed()), target) >= 0 { break; }
        pos := pos + 1;
      }
      FirstNotBefore(cmp, entries, seekKey, pos);
    }
  }

  // ---- DBIter --------------------------------------------------------------

  datatype Direction = Forward | Reverse

  class DBIter {
    const iter: InternalIterator
    const cmp: Comparator
    const sequence: nat
    var corrupt: bool
    var savedKey: seq<Byte>
    var savedValue: Value
    var direction: Direction
    var valid: bool
    // Index of the entry being shown, when there is one.
    ghost var shown: nat

    // In reverse, the entries from here to `shown` have all been passed.
    ghost function Below(): nat
      reads iter
    {
      if iter.Valid() then iter.pos + 1 else 0
    }

    ghost predicate Ok()
      reads this, iter
    {
      var es := iter.entries;
      && iter.Ok() && iter.cmp == cmp && sequence <= MAX_SEQUENCE
      && (valid ==> shown < |es| && Shown(es, sequence, shown))
      && (valid && direction == Forward ==> iter.pos == shown)
      && (valid && direction == Reverse ==>
            && Below() <= shown
            && Invisible(es, sequence, Below(), shown)
            && savedKey == es[shown].user && savedValue == es[shown].value)
    }

    ghost function Rows(): seq<(Key, Value)>
    {
      Table(iter.entries, sequence, |iter.entries|)
    }

    // The plain cursor's index; one past the end when not valid.
    ghost function Cursor(): nat
      requires Ok()
      reads this, iter
    {
      if valid then |Table(iter.entries, sequence, shown)| else |Rows()|
    }

    constructor (iter: InternalIterator, sequence: nat)
      requires iter.Ok() && sequence <= MAX_SEQUENCE
      ensures Ok() && !valid && !corrupt && this.iter == iter && this.sequence == sequence
    {
      this.iter := iter;
      this.cmp := iter.cmp;
      this.sequence := sequence;
      corrupt := false;
      savedKey := [];
      savedValue := [];
      direction := Forward;
      valid := false;
      shown := 0;
    }

    function GetKey(): (k: Key)
      requires Ok() && valid
      reads this, iter
      ensures Cursor() < |Rows()| && k == Rows()[Cursor()].0
    {
      TableAt(iter.entries, sequence, shown, |iter.entries|);
      if direction == Forward then iter.entries[iter.pos].user else savedKey
    }

    function GetValue(): (v: Value)
      requires Ok() && valid
      reads this, iter
      ensures Cursor() < |Rows()| && v == Rows()[Cursor()].1
    {
      TableAt(iter.entries, sequence, shown, |iter.entries|);
      if direction == Forward then iter.entries[iter.pos].value else savedValue
    }

    // Parses the key under iter; a malformed one only marks the status.
    method ParseKey() returns (parsed: bool)
      requires iter.Ok() && iter.Valid()
      modifies this`corrupt
      ensures parsed == iter.entries[iter.pos].Parses()
      ensures corrupt == (old(corrupt) || !parsed)
    {
      parsed := iter.entries[iter.pos].kind <= TYPE_VALUE;
      if !parsed { corrupt := true; }
    }

    // `base` is where the search for the next entry really starts: the entries
    // from iter up to it belong to the entry being left.
    method FindNextUserEntry(skip0: bool, ghost base: nat)
      requires iter.Ok() && iter.cmp == cmp && sequence <= MAX_SEQUENCE
      requires direction == Forward && iter.Valid() && iter.pos <= base <= |iter.entries|
      requires Leaving(iter.entries, sequence, iter.pos, base, skip0, savedKey)
      requires SkipCatches(cmp, iter.entries, sequence, base, skip0, savedKey)
      modifies this, iter
      ensures Ok() && savedKey == [] && direction == Forward
      ensures Cursor() == |Table(iter.entries, sequence, base)|
      ensures valid <==> Cursor() < |Rows()|
    {
      hide Sorted, TotalOrder, Shown, SkipCatches, Leaving, Invisible;
      var skipping := skip0;
      ghost var es := iter.entries;
      while true
        invariant iter.Ok() && iter.cmp == cmp && iter.Valid() && direction == Forward
        invariant SkipCatches(cmp, es, sequence, Max(base, iter.pos), skipping, savedKey)
        invariant Leaving(es, sequence, iter.pos, base, skipping, savedKey)
        invariant forall j | base <= j < iter.pos :: !Shown(es, sequence, j)
        decreases |es| - iter.pos
      {
        ghost var p := iter.pos;
        if p < base { LeavingPasses(cmp, es, sequence, p, base, skipping, savedKey); }
        var e := iter.entries[iter.pos];
        var parsed := ParseKey();
        if parsed && e.seqno <= sequence {
          if e.kind == TYPE_DELETION {
            VersionCatches(cmp, es, sequence, p);
            DeletionNotShown(es, sequence, p);
            savedKey := e.user;
            skipping := true;
          } else if skipping && cmp(e.user, savedKey) <= 0 {
            if base <= p { SkippedIsSameKey(cmp, es, sequence, p, savedKey); }
          } else {
            NotSkippedIsShown(cmp, es, sequence, p, skipping, savedKey);
            valid := true;
            shown := p;
            savedKey := [];
            TableSkips(es, sequence, base, p);
            TableAt(es, sequence, p, |es|);
            return;
          }
        } else if base <= p {
          InvisiblePasses(cmp, es, sequence, p, skipping, savedKey);
        }
        iter.Next();
        if !iter.Valid() { break; }
        if base <= p { LeavingDone(es, sequence, p + 1, base, skipping, savedKey); }
      }
      savedKey := [];
      valid := false;
      TableSkips(es, sequence, base, |es|);
    }

    // Moves to the next row of the table, or past its end.
    method Next()
      requires Ok() && valid
      modifies this, iter
      ensures Ok() && direction == Forward
      ensures Cursor() == old(Cursor()) + 1
      ensures valid <==> Cursor() < |Rows()|
    {
      hide Sorted, TotalOrder, Shown, SkipCatches, Leaving, Table, Invisible;
      ghost var cur := shown;
      ShownCatches(cmp, iter.entries, sequence, cur);
      if direction == Reverse {
        SwitchForward();
      } else {
        savedKey := iter.entries[iter.pos].user;
        LeavingFrom(iter.entries, sequence, cur, cur);
      }
      FindNextUserEntry(true, cur + 1);
    }

    // From just before the entries of the current key into them; savedKey
    // already holds the key to skip.
    method SwitchForward()
      requires Ok() && valid && direction == Reverse
      modifies this`direction, iter
      ensures iter.Ok() && iter.Valid() && iter.pos <= shown && direction == Forward
      ensures Leaving(iter.entries, sequence, iter.pos, shown + 1, true, savedKey)
    {
      hide Sorted, TotalOrder, Shown, Leaving, Invisible;
      direction := Forward;
      LeavingFrom(iter.entries, sequence, Below(), shown);
      if !iter.Valid() {
        iter.SeekToFirst();
      } else {
        iter.Next();
      }
    }

    // Moves to the previous row; before the first row the cursor is invalid.
    method Prev()
      requires Ok() && valid
      modifies this, iter
      ensures Ok()
      ensures valid <==> old(Cursor()) > 0
      ensures Cursor() == if old(Cursor()) > 0 then old(Cursor()) - 1 else |Rows()|
    {
      hide Sorted, TotalOrder, Shown, Scanned, Table, Invisible;
      ghost var cur := shown;
      if direction == Forward {
        SwitchReverse();
        if !valid { return; }
      } else {
        ScanFromReverse(iter.entries, sequence, Below(), cur);
      }
      FindPrevUserEntry(cur);
    }

    // Scans backwards out of the entries of the current key.
    method SwitchReverse()
      requires Ok() && valid && direction == Forward
      modifies this, iter
      ensures iter.Ok()
      ensures valid ==>
                && shown == old(shown) && direction == Reverse && Below() <= shown
                && Scanned(iter.entries, sequence, Below(), shown, None)
      ensures !valid ==> Ok() && Table(iter.entries, sequence, old(shown)) == []
      ensures |Table(iter.entries, sequence, old(shown))| <= |Rows()|
    {
      hide Sorted, TotalOrder, Shown, Scanned, Table, Invisible;
      savedKey := iter.entries[iter.pos].user;
      while true
        invariant iter.Ok() && iter.Valid() && iter.pos <= shown && valid && direction == Forward
        invariant shown == old(shown) < |iter.entries| && Shown(iter.entries, sequence, shown)
        invariant savedKey == iter.entries[shown].user
        invariant forall j | iter.pos <= j <= shown :: iter.entries[j].user == savedKey
        decreases iter.pos
      {
        iter.Prev();
        if !iter.Valid() {
          valid := false;
          savedKey := [];
          savedValue := [];
          ScanFrom(iter.entries, sequence, 0, shown);
          return;
        }
        if cmp(iter.entries[iter.pos].user, savedKey) < 0 { break; }
        NotBelowIsSame(cmp, iter.entries, iter.pos, shown);
      }
      ScanFrom(iter.entries, sequence, iter.pos + 1, shown);
      direction := Reverse;
    }

    method FindPrevUserEntry(ghost base: nat)
      requires iter.Ok() && iter.cmp == cmp && sequence <= MAX_SEQUENCE
      requires direction == Reverse && Below() <= base <= |iter.entries|
      requires Scanned(iter.entries, sequence, Below(), base, None)
      modifies this, iter
      ensures Ok()
      ensures var n := |Table(iter.entries, sequence, base)|;
              (valid <==> n > 0) && Cursor() == if valid then n - 1 else |Rows()|
    {
      hide Sorted, TotalOrder, Shown, Scanned, Table, Invisible;
      ghost var es := iter.entries;
      ghost var found: Option<nat> := None;
      var valueType := TYPE_DELETION;
      if iter.Valid() {
        while true
          invariant iter.Ok() && iter.Valid() && Below() <= base && direction == Reverse
          invariant Scanned(es, sequence, Below(), base, found)
          invariant valueType == if found.Some? then TYPE_VALUE else TYPE_DELETION
          invariant found.Some? ==>
                      && Below() <= found.value < base
                      && savedKey == es[found.value].user && savedValue == es[found.value].value
          decreases iter.pos
        {
          ghost var p := iter.pos;
          var e := iter.entries[iter.pos];
          var parsed := ParseKey();
          if parsed && e.seqno <= sequence {
            if valueType != TYPE_DELETION && cmp(e.user, savedKey) < 0 {
              ScanBreaks(cmp, es, sequence, p, base, found.value);
              break;
            }
            ScanVersion(cmp, es, sequence, p, base, found);
            valueType := e.kind;
            if valueType == TYPE_DELETION {
              savedKey := [];
              savedValue := [];
              found := None;
            } else {
              savedKey := e.user;
              savedValue := e.value;
              found := Some(p);
            }
          } else {
            ScanInvisible(es, sequence, p, base, found);
          }
          iter.Prev();
          if !iter.Valid() {
            if found.Some? { ScanEnds(es, sequence, base, found.value); }
            break;
          }
        }
      }
      ScanStarts(es, sequence, base);
      ScannedTable(es, sequence, Below(), base, found);
      if valueType == TYPE_DELETION {
        valid := false;
        savedKey := [];
        savedValue := [];
        direction := Forward;
      } else {
        valid := true;
        shown := found.value;
      }
    }

    // First row whose key is at or past the target.
    method Seek(target: Key)
      requires Ok()
      modifies this, iter
      ensures Ok() && direction == Forward
      ensures valid <==> Cursor() < |Rows()|
      ensures forall i | 0 <= i < Cursor() :: cmp(Rows()[i].0, target) < 0
      ensures forall i | Cursor() <= i < |Rows()| :: cmp(Rows()[i].0, target) >= 0
    {
      hide Sorted, TotalOrder, Shown, SkipCatches, SoughtTo, Invisible;
      ghost var es := iter.entries;
      var seekKey := ParsedKey(target, sequence, TYPE_FOR_SEEK);
      direction := Forward;
      savedValue := [];
      savedKey := Encode(seekKey);
      iter.Seek(savedKey, seekKey);
      ghost var p := iter.pos;
      SeekSplitsKeys(cmp, es, sequence, target, p);
      SeekSplitsRows(cmp, es, sequence, target, p);
      if iter.Valid() {
        NothingSkipped(cmp, es, sequence, p, [], savedKey);
        LeavingDone(es, sequence, p, p, false, savedKey);
        FindNextUserEntry(false, p);
      } else {
        valid := false;
      }
    }

    method SeekToFirst()
      requires Ok()
      modifies this, iter
      ensures Ok() && direction == Forward
      ensures Cursor() == 0 && (valid <==> |Rows()| > 0)
    {
      direction := Forward;
      savedValue := [];
      iter.SeekToFirst();
      if iter.Valid() {
        FindNextUserEntry(false, 0);
      } else {
        valid := false;
      }
    }

    method SeekToLast()
      requires Ok()
      modifies this, iter
      ensures Ok()
      ensures valid <==> |Rows()| > 0
      ensures valid ==> Cursor() == |Rows()| - 1
    {
      direction := Reverse;
      savedValue := [];
      iter.SeekToLast();
      ScanStarts(iter.entries, sequence, |iter.entries|);
      FindPrevUserEntry(|iter.entries|);
    }
  }
}
