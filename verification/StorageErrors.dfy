// Background errors: what makes the database read-only until it is opened again
// (RecordBackgroundError in db/db_impl.cc).
module StorageErrors {
  import opened Compaction
  import opened Storage
  import opened StorageRuns

  // A failed sync of the log, a table or a version that could not be written, a
  // compaction given up.
  predicate Fails(step: Step)
  {
    match step
    case SyncLog(ok) => !ok
    case BuiltFlush(ok) => !ok
    case InstalledFlush(ok) => !ok
    case InstalledCompact(ok) => !ok
    case AbortCompact => true
    case _ => false
  }

  // There is a background error, or the group at work will leave one.
  predicate Halted(s: Store)
  {
    s.bgError || (s.group.Some? && s.group.value.stage == Broken(true))
  }

  // Exactly the failures halt it, and only the end of the process undoes that.
  lemma StepHalts(s: Store, step: Step)
    requires Enabled(s, step) && !step.Die?
    ensures Halted(Apply(s, step)) <==> Halted(s) || Fails(step)
    ensures Halted(s) ==> !step.Begin? && !step.Switch?
  {
    hide Store.Imm, Store.Live, Pickable, Kept, Contents, CanOpen, CanOpenUnsaved, CanCrash, CanRecoverTable, CanRead, SmallestSnapshot, LogsFrom, Recoverable;
  }

  // Along every run without a crash: once something failed, no group begins and
  // no memtable is switched; and without a failure nothing stands in their way.
  lemma {:induction false} HaltsExactly(s: Store, steps: seq<Step>, t: Store)
    requires Lives(s, steps, t)
    ensures Halted(t) <==> Halted(s) || exists step :: step in steps && Fails(step)
    ensures Halted(s) ==> forall step | step in steps :: !step.Begin? && !step.Switch?
    decreases |steps|
  {
    hide Enabled, Apply, Halted, Fails;
    if steps != [] {
      var rest := steps[1..];
      assert steps[0] in steps && forall step :: step in steps <==> step == steps[0] || step in rest;
      StepHalts(s, steps[0]);
      HaltsExactly(Apply(s, steps[0]), rest, t);
    }
  }

  lemma {:induction false} FailuresStopWrites(s: Store, steps: seq<Step>, t: Store, i: nat, j: nat)
    requires Lives(s, steps, t) && i < j < |steps| && Fails(steps[i])
    ensures !steps[j].Begin? && !steps[j].Switch?
    decreases i
  {
    hide Enabled, Apply, Halted, Fails;
    var next, rest := Apply(s, steps[0]), steps[1..];
    assert steps[0] in steps && forall step | step in rest :: step in steps;
    if i == 0 {
      StepHalts(s, steps[0]);
      HaltsExactly(next, rest, t);
      assert steps[j] == rest[j - 1];
    } else {
      FailuresStopWrites(next, rest, t, i - 1, j - 1);
    }
  }

  // After an open without a failure since, an idle database takes a write.
  lemma HealthyTakesWrites(s: Store, steps: seq<Step>, t: Store)
    requires Lives(s, steps, t) && !Halted(s) && t.mode.Up? && t.group.None?
    requires forall step | step in steps :: !Fails(step)
    ensures CanBegin(t)
  {
    HaltsExactly(s, steps, t);
  }
}
