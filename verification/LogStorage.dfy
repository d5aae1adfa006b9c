// The two views of a log file: the bytes that log::Writer and log::Reader
// (db/log_writer.cc, db/log_reader.cc) deal in, and the log of batches in the
// store's state. A write keeps them in step, and what a crash leaves of the
// bytes reads back as what the store says may remain; behind a tear, as some of
// what was sent there, unless a stretch of payload passes for a record.
module LogStorage {
  import opened Bytes
  import opened Storage
  import opened LogFormat
  import opened LogEvents
  import opened LogTheorems
  import opened LogBehind
  import opened LogWriter

  type Encoding = Batch -> seq<Byte>

  // WriteBatch's contents determine the batch.
  ghost predicate Injective(enc: Encoding)
  {
    forall a, b | enc(a) == enc(b) :: a == b
  }

  function Encoded(enc: Encoding, batches: seq<Batch>): seq<seq<Byte>>
  {
    seq(|batches|, i requires 0 <= i < |batches| => enc(batches[i]))
  }

  // Where the log's records end in its file.
  function RecordsEnd(fmt: Format, enc: Encoding, log: Storage.Log): nat
    requires fmt.block > HEADER_SIZE
  {
    EndOf(0, CutAll(fmt.block, 0, Encoded(enc, log.records)))
  }

  // The file stands for the log: it holds the log's records, and nothing more
  // unless it is torn. Behind the tear, these parts are fragments of the records
  // sent there that it got in full.
  ghost predicate StandsFor(fmt: Format, enc: Encoding, log: Storage.Log, file: seq<Byte>, parts: seq<Part>)
    requires fmt.Ok()
  {
    var n := RecordsEnd(fmt, enc, log);
    && n <= |file| && IsLog(fmt, Encoded(enc, log.records), file[..n]) && (!log.Torn() ==> n == |file|)
    && Traced(fmt, file, n, Encoded(enc, log.Behind()), parts) && Reached(parts, |file|)
  }

  // Its synced records lie in the first n bytes.
  ghost predicate SyncedWithin(fmt: Format, enc: Encoding, log: Storage.Log, n: nat)
    requires fmt.Ok()
  {
    EndOf(0, CutAll(fmt.block, 0, Encoded(enc, log.records[..Min(log.synced, |log.records|)]))) <= n
  }

  // ---- writing ---------------------------------------------------------------

  lemma NewLogStands(fmt: Format, enc: Encoding)
    requires fmt.Ok()
    ensures StandsFor(fmt, enc, NEW_LOG, [], [])
  {
    assert Encoded(enc, []) == [];
    var file: seq<Byte> := [];
    assert file[..0] == [];
  }

  lemma EncodedMore(enc: Encoding, batches: seq<Batch>, b: Batch)
    ensures Encoded(enc, batches + [b]) == Encoded(enc, batches) + [enc(b)]
  {
  }

  // AddRecord is the store's Append: with `tears` exactly when a call of the
  // file failed before the record was all there, the file stands for the log
  // with the batch added. An error that tears nothing leaves a whole record.
  method SendBatch(fmt: Format, enc: Encoding, w: LogWriter.Writer, ghost log: Storage.Log, ghost parts: seq<Part>, b: Batch)
      returns (ok: bool, ghost tears: bool, ghost more: seq<Part>)
    requires fmt.Ok() && w.fmt == fmt && w.Valid() && (!log.Torn() ==> w.Aligned()) && StandsFor(fmt, enc, log, w.dest, parts)
    modifies w
    ensures w.Valid() && StandsFor(fmt, enc, log.Add(b, tears), w.dest, more)
    ensures !log.Add(b, tears).Torn() ==> w.Aligned()
    ensures w.Fine(old(w.calls), w.calls) ==> ok && !tears
    ensures ok && w.Fine(old(w.calls), w.FirstEmit(old(w.calls), old(w.blockOffset))) ==> !tears
  {
    hide IsLog, LogFormat.Landed, Whole, LogWriter.Writer.OffsetOk, StandsFor, Begun;
    ghost var before := w.dest;
    ghost var led := w.Fine(w.calls, w.FirstEmit(w.calls, w.blockOffset));
    ghost var frags;
    ok, frags := w.AddRecord(enc(b));
    tears := !led || (if log.Torn() then !ok else !Whole(fmt, before, enc(b), w.dest));
    if log.Torn() || tears {
      more := StillStands(fmt, enc, log, b, before, w.dest, parts, frags);
    } else {
      more := [];
      WholeStands(fmt, enc, log, b, before, w.dest, parts);
    }
  }

  // Bytes behind the records leave a torn log what it is, and what they hold of
  // the record can be traced.
  lemma StillStands(fmt: Format, enc: Encoding, log: Storage.Log, b: Batch, before: seq<Byte>, after: seq<Byte>,
                    parts: seq<Part>, frags: seq<Fragment>) returns (more: seq<Part>)
    requires fmt.Ok() && StandsFor(fmt, enc, log, before, parts) && before <= after
    requires Begun(frags, enc(b), true) && (frags != [] ==> frags[0].start >= |before|) && forall f | f in frags :: Written(fmt, after, f)
    ensures StandsFor(fmt, enc, log.Add(b, true), after, more)
    ensures log.Torn() ==> log.Add(b, false) == log.Add(b, true)
  {
    hide IsLog, Traced, Reached, Begun, Written;
    var n, sent := RecordsEnd(fmt, enc, log), Encoded(enc, log.Behind());
    assert after[..n] == before[..n];
    TraceMore(fmt, before, after, n, sent, parts, enc(b), frags);
    EncodedMore(enc, log.Behind(), b);
    more := parts + PartsOf(frags, |sent|, []);
  }

  lemma WholeStands(fmt: Format, enc: Encoding, log: Storage.Log, b: Batch, before: seq<Byte>, after: seq<Byte>, parts: seq<Part>)
    requires fmt.Ok() && StandsFor(fmt, enc, log, before, parts) && !log.Torn()
    requires LogFormat.Landed(fmt, before, enc(b), after) && Whole(fmt, before, enc(b), after)
    ensures StandsFor(fmt, enc, log.Add(b, false), after, [])
  {
    hide LogFormat.Landed, Whole, HoldsAll, CutAll;
    assert before[..|before|] == before && after[..|after|] == after;
    AppendExtendsLog(fmt, Encoded(enc, log.records), before, enc(b), after);
    EncodedMore(enc, log.records, b);
  }

  ghost predicate NoFailure(fate: nat -> Option<nat>)
  {
    forall k :: fate(k).None?
  }

  lemma AllFine(w: LogWriter.Writer, call: nat)
    requires NoFailure(w.fate)
    ensures w.Fine(call, w.calls)
  {
  }

  lemma AddSends(log: Storage.Log, b: Batch, tears: bool)
    ensures log.Add(b, tears).Sent() == log.Sent() + [b]
    ensures log.Add(b, tears).Torn() == (log.Torn() || tears)
  {
  }

  // A new log file and any list of batches sent to it, whatever its calls come to.
  method SendAll(fmt: Format, enc: Encoding, fate: nat -> Option<nat>, batches: seq<Batch>)
      returns (w: LogWriter.Writer, statuses: seq<bool>, ghost log: Storage.Log, ghost parts: seq<Part>)
    requires fmt.Ok()
    ensures StandsFor(fmt, enc, log, w.dest, parts) && log.Sent() == batches && |statuses| == |batches|
    ensures NoFailure(fate) ==> !log.Torn() && forall ok | ok in statuses :: ok
  {
    hide StandsFor, LogWriter.Writer.OffsetOk, LogWriter.Writer.Fine, NoFailure, Storage.Log.Add;
    w := new LogWriter.Writer(fmt, fate);
    NewLogStands(fmt, enc);
    statuses, log, parts := [], NEW_LOG, [];
    var i := 0;
    while i < |batches|
      invariant 0 <= i <= |batches| && fresh(w) && w.fmt == fmt && w.fate == fate && w.Valid() && (!log.Torn() ==> w.Aligned())
      invariant StandsFor(fmt, enc, log, w.dest, parts) && log.Sent() == batches[..i] && |statuses| == i
      invariant NoFailure(fate) ==> !log.Torn() && forall ok | ok in statuses :: ok
    {
      ghost var tears, call := false, w.calls;
      var ok;
      ok, tears, parts := SendBatch(fmt, enc, w, log, parts, batches[i]);
      if NoFailure(fate) { AllFine(w, call); }
      AddSends(log, batches[i], tears);
      log := log.Add(batches[i], tears);
      statuses := statuses + [ok];
      i := i + 1;
    }
  }

  // ---- reading back after a crash -----------------------------------------------

  // The reader finds exactly these batches, in order.
  ghost predicate Finds(enc: Encoding, found: seq<Record>, batches: seq<Batch>)
  {
    |found| == |batches| && forall i | 0 <= i < |found| :: found[i].0 == enc(batches[i])
  }

  ghost function ReadBack(fmt: Format, file: seq<Byte>): seq<Record>
    requires fmt.Ok()
  {
    ReadAll(Source(fmt, file, true, 0).Scan(0), false, 0).0
  }

  lemma FoundOnce(enc: Encoding, found: seq<Record>, a: seq<Batch>, b: seq<Batch>)
    requires Injective(enc) && Finds(enc, found, a) && Finds(enc, found, b)
    ensures a == b
  {
    forall i | 0 <= i < |a| ensures a[i] == b[i] {
      assert enc(a[i]) == enc(b[i]);
    }
  }

  // A crash keeps n bytes of the file, none from behind a tear and at least those
  // that were synced: what is read back is the log cut short as the store allows
  // it, and no other list of batches would read like that.
  lemma CutLogRemains(fmt: Format, enc: Encoding, log: Storage.Log, file: seq<Byte>, parts: seq<Part>, n: nat) returns (left: Storage.Log)
    requires fmt.Ok() && Injective(enc) && StandsFor(fmt, enc, log, file, parts)
    requires n <= RecordsEnd(fmt, enc, log) && SyncedWithin(fmt, enc, log, n)
    ensures Remains(left, log) && Finds(enc, ReadBack(fmt, file[..n]), left.Sent()) && left.Behind() == []
    ensures forall batches | Finds(enc, ReadBack(fmt, file[..n]), batches) :: batches == left.Sent()
  {
    hide IsLog, CutAll, Injective, Recovered, ReadAll, Source.Scan, Traced;
    var records, m := Encoded(enc, log.records), RecordsEnd(fmt, enc, log);
    var found := ReadBack(fmt, file[..n]);
    assert file[..m][..n] == file[..n];
    TruncatedLogReadsBack(fmt, records, file[..m], n, true);
    RecoveredIsPrefix(fmt.block, 0, records, n);
    var synced := Min(log.synced, |log.records|);
    assert records[..synced] == Encoded(enc, log.records[..synced]);
    SyncedRecordsSurvive(fmt, 0, records, synced, n);
    left := Storage.Log(log.records[..|found|], synced, if log.Torn() then Some([]) else None);
    assert left.Sent() == left.records;
    forall batches | Finds(enc, found, batches) ensures batches == left.Sent() {
      FoundOnce(enc, found, batches, left.Sent());
    }
  }

  // A torn log of which the crash keeps n bytes, some from behind the tear: all
  // records from before it are found first, and whatever is found after them is
  // something the store expects.
  lemma TornLogRemains(fmt: Format, enc: Encoding, log: Storage.Log, file: seq<Byte>, parts: seq<Part>, n: nat, behind: seq<Batch>)
      returns (left: Storage.Log)
    requires fmt.Ok() && log.Torn() && StandsFor(fmt, enc, log, file, parts) && RecordsEnd(fmt, enc, log) <= n <= |file|
    ensures var found := ReadBack(fmt, file[..n]);
            && |found| >= |log.records| && Finds(enc, found[..|log.records|], log.records)
            && (Finds(enc, found[|log.records|..], behind) ==>
                  Remains(left, log) && left.Behind() == behind && Finds(enc, found, left.Sent()))
  {
    hide CutAll, ReadAll, Source.Scan, IsLog, Traced;
    var records, m := Encoded(enc, log.records), RecordsEnd(fmt, enc, log);
    assert file[..n][..m] == file[..m] && file[..n] == file[..m] + file[..n][m..];
    RecordsComeFirst(fmt, records, file[..m], file[..n][m..], true);
    left := Storage.Log(log.records, Min(log.synced, |log.records|), Some(behind));
  }

  // If nothing there parses as a record but what was written as one, a reader
  // finds behind the tear some of what was sent there, in order: no crash makes
  // up a record.
  lemma NoStrayNothingForged(fmt: Format, enc: Encoding, log: Storage.Log, file: seq<Byte>, parts: seq<Part>, n: nat) returns (left: Storage.Log)
    requires fmt.Ok() && log.Torn() && StandsFor(fmt, enc, log, file, parts) && RecordsEnd(fmt, enc, log) <= n <= |file|
    requires NoStray(Source(fmt, file[..n], true, 0), RecordsEnd(fmt, enc, log), parts)
    ensures Remains(left, log) && PartOf(left.Behind(), log.Behind()) && Finds(enc, ReadBack(fmt, file[..n]), left.Sent())
  {
    hide CutAll, ReadAll, Source.Scan, IsLog, Traced, NoStray, PartOf;
    var m, survives := RecordsEnd(fmt, enc, log), file[..n];
    assert survives[..m] == file[..m];
    TracedInPart(fmt, file, n, m, Encoded(enc, log.Behind()), parts);
    NothingIsForged(fmt, Encoded(enc, log.records), file[..m], survives, Encoded(enc, log.Behind()), parts, true);
    var later := ReadBack(fmt, survives)[|log.records|..];
    assert Data(later) == Data(ReadBack(fmt, survives))[|log.records|..];
    var behind := Decoded(enc, Data(later), log.Behind());
    FindsDecoded(enc, later, behind);
    left := TornLogRemains(fmt, enc, log, file, parts, n, behind);
  }

  lemma FindsDecoded(enc: Encoding, found: seq<Record>, batches: seq<Batch>)
    requires Encoded(enc, batches) == Data(found)
    ensures Finds(enc, found, batches)
  {
    forall i | 0 <= i < |found| ensures |batches| == |found| && found[i].0 == enc(batches[i]) {
      assert Data(found)[i] == Encoded(enc, batches)[i];
    }
  }

  // Records that are part of those of some batches are those of part of them.
  lemma {:induction false} Decoded(enc: Encoding, found: seq<seq<Byte>>, batches: seq<Batch>) returns (some: seq<Batch>)
    requires PartOf(found, Encoded(enc, batches))
    ensures PartOf(some, batches) && Encoded(enc, some) == found
    decreases |batches|
  {
    some := [];
    if found != [] {
      assert Encoded(enc, batches)[1..] == Encoded(enc, batches[1..]);
      if found[0] == enc(batches[0]) && PartOf(found[1..], Encoded(enc, batches[1..])) {
        some := Decoded(enc, found[1..], batches[1..]);
        EncodedFirst(enc, batches[0], some);
        some := [batches[0]] + some;
        assert some[1..] + [] == some[1..];
      } else {
        some := Decoded(enc, found, batches[1..]);
      }
    }
  }

  lemma EncodedFirst(enc: Encoding, b: Batch, more: seq<Batch>)
    ensures Encoded(enc, [b] + more) == [enc(b)] + Encoded(enc, more)
  {
  }
}
