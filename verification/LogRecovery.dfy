// Replaying a log at start-up: the loop of DBImpl::RecoverLogFile
// (db/db_impl.cc) over the reader, and what it returns after a crash.
module LogRecovery {
  import opened Bytes
  import opened LogFormat
  import opened LogEvents
  import opened LogReader
  import opened LogTheorems

  // Reads until ReadRecord returns false. Termination is part of the claim.
  method ReadToEnd(r: Reader) returns (records: seq<Record>)
    requires r.Usable()
    modifies r
    ensures (records, r.drops) == Told(old(r.drops), ReadAll(old(r.Ahead()), old(r.resyncing), r.src.initial))
  {
    hide NextRecord, Source.Scan, Reader.Consistent, Reader.EventsLeft;
    ghost var goal := Told(r.drops, ReadAll(r.Ahead(), r.resyncing, r.src.initial));
    records := [];
    assert [] + goal.0 == goal.0;
    while true
      invariant r.Usable()
      invariant goal == After(records, Told(r.drops, ReadAll(r.Ahead(), r.resyncing, r.src.initial)))
      decreases |r.Ahead()|
    {
      ghost var ahead, resyncing, told := r.Ahead(), r.resyncing, r.drops;
      NextRecordShrinks(ahead, resyncing, NOTHING, r.src.initial);
      var ok, record := r.ReadRecord();
      ReadAllUnfolds(ahead, resyncing, r.src.initial, told, records);
      if !ok { return; }
      records := records + [(record, r.lastRecordOffset)];
    }
  }

  ghost function Told(drops: seq<nat>, outcome: (seq<Record>, seq<nat>)): (seq<Record>, seq<nat>)
  {
    (outcome.0, drops + outcome.1)
  }

  ghost function After(records: seq<Record>, outcome: (seq<Record>, seq<nat>)): (seq<Record>, seq<nat>)
  {
    (records + outcome.0, outcome.1)
  }

  lemma ReadAllUnfolds(events: seq<Event>, resyncing: bool, initial: nat, told: seq<nat>, records: seq<Record>)
    ensures var s := NextRecord(events, resyncing, NOTHING, initial);
            After(records, Told(told, ReadAll(events, resyncing, initial))) ==
            if s.found.None? then (records, told + s.drops)
            else After(records + [s.found.value], Told(told + s.drops, ReadAll(s.rest, s.resyncing, initial)))
  {
    hide NextRecord;
    NextRecordShrinks(events, resyncing, NOTHING, initial);
    var s := NextRecord(events, resyncing, NOTHING, initial);
    if s.found.Some? {
      var (more, drops) := ReadAll(s.rest, s.resyncing, initial);
      assert records + ([s.found.value] + more) == records + [s.found.value] + more;
      assert told + (s.drops + drops) == told + s.drops + drops;
    } else {
      assert records + [] == records;
    }
  }

  // Start-up after a crash: whatever prefix of the log survived, the loop
  // ends, replays exactly the complete records and reports no corruption.
  method ReplayAfterCrash(fmt: Format, ghost records: seq<seq<Byte>>, log: seq<Byte>, n: nat, checksum: bool)
      returns (replayed: seq<Record>, reported: seq<nat>)
    requires fmt.Ok() && IsLog(fmt, records, log) && n <= |log|
    ensures replayed == Recovered(fmt.block, 0, records, n) && reported == []
  {
    var reader := new Reader(Source(fmt, log[..n], checksum, 0));
    TruncatedLogReadsBack(fmt, records, log, n, checksum);
    replayed := ReadToEnd(reader);
    reported := reader.drops;
  }
}
