// The queue of writers and group commit (DBImpl::Write and BuildBatchGroup in
// db/db_impl.cc): who waits, who leads, and which writers ride along.
module WriteQueue {
  import opened Bytes
  import opened Storage

  // A call of Write: a null batch asks only for room. `bytes` is the size of
  // the batch's encoding.
  datatype Request = Request(ops: Option<seq<Op>>, sync: bool, bytes: nat)

  // Checking: about to test the loop condition, after arriving or being
  // signalled. Asleep: waiting on the condition variable.
  datatype Phase = Checking | Asleep | Leading | Returned(ok: bool)

  datatype Writer = Writer(request: Request, phase: Phase, done: Option<bool>)

  // Once the group is built, whether its batch is the scratch batch.
  datatype Lead = MakingRoom | Writing(end: nat, scratch: bool)

  // Writers are numbered by arrival; those from `head` on are in the queue, the
  // first of them in front. A leader writes for the writers [head, end). `tmp`
  // is what the scratch batch holds.
  datatype Queue = Queue(writers: seq<Writer>, head: nat, lead: Option<Lead>, tmp: seq<Op>)

  const EMPTY: Queue := Queue([], 0, None, [])

  // ---- which writers form a group -------------------------------------------

  const MAX_GROUP: nat := 0x100000
  const SMALL_WRITE: nat := 0x20000

  function MaxSize(first: nat): nat
  {
    if first <= SMALL_WRITE then first + SMALL_WRITE else MAX_GROUP
  }

  function Requests(ws: seq<Writer>): seq<Request>
  {
    seq(|ws|, i requires 0 <= i < |ws| => ws[i].request)
  }

  // Bytes of the batches among the requests.
  function TotalBytes(rs: seq<Request>): nat
  {
    if rs == [] then 0
    else TotalBytes(rs[..|rs| - 1]) + if rs[|rs| - 1].ops.Some? then rs[|rs| - 1].bytes else 0
  }

  // The operations of the batches among the requests, in order.
  function Merged(rs: seq<Request>): seq<Op>
  {
    if rs == [] then []
    else Merged(rs[..|rs| - 1]) + if rs[|rs| - 1].ops.Some? then rs[|rs| - 1].ops.value else []
  }

  // Request i may ride behind the requests before it.
  predicate Admits(rs: seq<Request>, i: nat)
    requires 0 < i < |rs|
  {
    && (rs[i].sync ==> rs[0].sync)
    && (rs[i].ops.Some? ==> TotalBytes(rs[..i + 1]) <= MaxSize(rs[0].bytes))
  }

  // The group is the longest prefix of the queue in which every request may
  // ride behind those before it.
  ghost predicate IsGroup(rs: seq<Request>, n: nat)
  {
    && 0 < n <= |rs|
    && (forall i | 0 < i < n :: Admits(rs, i))
    && (n < |rs| ==> !Admits(rs, n))
  }

  lemma GroupIsUnique(rs: seq<Request>, m: nat, n: nat)
    requires IsGroup(rs, m) && IsGroup(rs, n)
    ensures m == n
  {
  }

  // No writer that asked for a sync rides behind a leader that did not.
  lemma NoSyncRides(rs: seq<Request>, n: nat)
    requires IsGroup(rs, n) && !rs[0].sync
    ensures forall i | 0 <= i < n :: !rs[i].sync
  {
    forall i | 0 < i < n ensures !rs[i].sync {
      assert Admits(rs, i);
    }
  }

  // A second batch makes the leader switch to the scratch batch.
  predicate UsesScratch(rs: seq<Request>, n: nat)
    requires n <= |rs|
  {
    exists i :: 0 < i < n && rs[i].ops.Some?
  }

  lemma {:induction false} AloneIsMerged(rs: seq<Request>, n: nat)
    requires 0 < n <= |rs| && rs[0].ops.Some? && !UsesScratch(rs, n)
    ensures Merged(rs[..n]) == rs[0].ops.value
    decreases n
  {
    if n == 1 {
      assert rs[..1] == [rs[0]] && Merged([]) == [];
    } else {
      assert !UsesScratch(rs, n - 1);
      AloneIsMerged(rs, n - 1);
      assert rs[..n][..n - 1] == rs[..n - 1] && rs[n - 1].ops.None?;
    }
  }

  // BuildBatchGroup over the requests in the queue. The scratch batch must come
  // in empty, as the code asserts when it starts to use it.
  method BuildBatchGroup(queue: seq<Request>, tmpBatch: seq<Op>) returns (n: nat, ops: seq<Op>, tmp: seq<Op>, scratch: bool)
    requires queue != [] && queue[0].ops.Some? && tmpBatch == []
    ensures IsGroup(queue, n) && ops == Merged(queue[..n])
    ensures scratch <==> exists i :: 0 < i < n && queue[i].ops.Some?
    ensures tmp == if scratch then ops else []
    ensures var limit := if queue[0].bytes <= 131072 then queue[0].bytes + 131072 else 1048576;
            && (scratch ==> TotalBytes(queue[..n]) <= limit)
            && (n < |queue| ==> (queue[n].sync && !queue[0].sync) || (queue[n].ops.Some? && TotalBytes(queue[..n + 1]) > limit))
  {
    var first := queue[0];
    var size := first.bytes;
    var maxSize := 1048576;
    if size <= 131072 {
      maxSize := size + 131072;
    }
    ops, tmp, scratch := first.ops.value, tmpBatch, false;
    n := 1;
    assert queue[..1] == [first];
    while n < |queue|
      invariant 1 <= n <= |queue|
      invariant size == TotalBytes(queue[..n]) && ops == Merged(queue[..n]) && (scratch ==> size <= maxSize)
      invariant scratch == UsesScratch(queue, n) && tmp == if scratch then ops else []
      invariant forall i | 0 < i < n :: Admits(queue, i)
    {
      assert queue[..n + 1][..n] == queue[..n];
      var w := queue[n];
      if w.sync && !first.sync {
        break;
      }
      if w.ops.Some? {
        size := size + w.bytes;
        if size > maxSize {
          break;
        }
        if !scratch {
          scratch := true;
          assert tmp == [];
          AloneIsMerged(queue, n);
          tmp := tmp + first.ops.value;
        }
        tmp := tmp + w.ops.value;
        ops := tmp;
      }
      n := n + 1;
    }
  }

  // ---- steps ------------------------------------------------------------------

  function Arrive(q: Queue, r: Request): Queue
  {
    q.(writers := q.writers + [Writer(r, Checking, None)])
  }

  // A condition variable may wake its waiters for no reason.
  predicate CanWake(q: Queue, i: nat)
  {
    i < |q.writers| && q.writers[i].phase.Asleep?
  }

  function Wake(q: Queue, i: nat): Queue
    requires CanWake(q, i)
  {
    q.(writers := q.writers[i := q.writers[i].(phase := Checking)])
  }

  predicate CanCheck(q: Queue, i: nat)
  {
    i < |q.writers| && q.writers[i].phase.Checking?
  }

  // The loop at the top of Write: return if another writer did the work, lead
  // if in front, sleep otherwise.
  function Check(q: Queue, i: nat): Queue
    requires CanCheck(q, i)
  {
    var w := q.writers[i];
    if w.done.Some? then q.(writers := q.writers[i := w.(phase := Returned(w.done.value))])
    else if i == q.head then q.(writers := q.writers[i := w.(phase := Leading)], lead := Some(MakingRoom))
    else q.(writers := q.writers[i := w.(phase := Asleep)])
  }

  function Waiting(q: Queue): seq<Request>
    requires q.head <= |q.writers|
  {
    Requests(q.writers[q.head..])
  }

  predicate MakesRoom(q: Queue)
  {
    q.lead == Some(MakingRoom) && q.head < |q.writers|
  }

  ghost predicate CanLead(q: Queue, n: nat)
  {
    && MakesRoom(q) && q.writers[q.head].request.ops.Some?
    && IsGroup(Waiting(q), n)
  }

  // The batch that goes out: the leader's own, or the scratch batch with
  // whatever it held before.
  function GroupOps(q: Queue, n: nat): seq<Op>
    requires q.head < |q.writers| && n <= |Waiting(q)| && q.writers[q.head].request.ops.Some?
  {
    if UsesScratch(Waiting(q), n) then q.tmp + Merged(Waiting(q)[..n]) else q.writers[q.head].request.ops.value
  }

  function Build(q: Queue, n: nat): Queue
    requires q.head < |q.writers| && n <= |Waiting(q)| && q.writers[q.head].request.ops.Some?
  {
    var scratch := UsesScratch(Waiting(q), n);
    q.(lead := Some(Writing(q.head + n, scratch)), tmp := if scratch then GroupOps(q, n) else q.tmp)
  }

  // What goes out is what the group asked for, and nothing left over.
  lemma GroupOpsAreMerged(q: Queue, n: nat)
    requires QueueInv(q) && CanLead(q, n)
    ensures q.tmp == [] && GroupOps(q, n) == Merged(Waiting(q)[..n])
  {
    if !UsesScratch(Waiting(q), n) {
      AloneIsMerged(Waiting(q), n);
    }
  }

  // Signalling wakes a sleeping writer and nobody else.
  function Signalled(w: Writer): Writer
  {
    if w.phase.Asleep? then w.(phase := Checking) else w
  }

  // The scratch batch is emptied if it was the one that went out.
  function Cleared(q: Queue): seq<Op>
  {
    if q.lead.Some? && q.lead.value.Writing? && q.lead.value.scratch then [] else q.tmp
  }

  // Pops the writers [head, end): all but the leader are told the status and
  // signalled, and so is the new front.
  function Complete(q: Queue, end: nat, ok: bool): Queue
    requires q.head < end <= |q.writers|
  {
    var writers := seq(|q.writers|, i requires 0 <= i < |q.writers| =>
      var w := q.writers[i];
      if i == q.head then w.(phase := Returned(ok))
      else if q.head < i < end then Signalled(w.(done := Some(ok)))
      else if i == end then Signalled(w)
      else w);
    Queue(writers, end, None, Cleared(q))
  }

  // ---- invariant -----------------------------------------------------------------

  // A writer that has left the queue has returned, or is on its way to.
  predicate Left(w: Writer)
  {
    w.phase.Returned? || (w.phase.Checking? && w.done.Some?)
  }

  predicate InQueue(w: Writer)
  {
    w.done.None? && !w.phase.Returned?
  }

  ghost predicate QueueInv(q: Queue)
  {
    && q.head <= |q.writers|
    && (forall i | 0 <= i < q.head :: Left(q.writers[i]))
    && (forall i | q.head <= i < |q.writers| :: InQueue(q.writers[i]))
    && (forall i | q.head <= i < |q.writers| && q.writers[i].phase.Leading? :: i == q.head && q.lead.Some?)
    && (q.lead.Some? ==> q.head < |q.writers| && q.writers[q.head].phase.Leading?)
    && (q.lead.Some? && q.lead.value.Writing? ==> q.head < q.lead.value.end <= |q.writers|)
    && (q.tmp != [] ==> q.lead.Some? && q.lead.value.Writing? && q.lead.value.scratch)
    && (q.lead.None? && q.head < |q.writers| ==> q.writers[q.head].phase.Checking?)
  }

  lemma ArriveKeeps(q: Queue, r: Request)
    requires QueueInv(q)
    ensures QueueInv(Arrive(q, r))
  {
  }

  lemma WakeKeeps(q: Queue, i: nat)
    requires QueueInv(q) && CanWake(q, i)
    ensures QueueInv(Wake(q, i))
  {
  }

  lemma CheckKeeps(q: Queue, i: nat)
    requires QueueInv(q) && CanCheck(q, i)
    ensures QueueInv(Check(q, i))
  {
  }

  lemma BuildKeeps(q: Queue, n: nat)
    requires QueueInv(q) && CanLead(q, n)
    ensures QueueInv(Build(q, n))
  {
  }

  lemma CompleteKeeps(q: Queue, end: nat, ok: bool)
    requires QueueInv(q) && q.lead.Some? && q.head < end <= |q.writers|
    ensures QueueInv(Complete(q, end, ok))
  {
  }

  // No wakeup is lost: with no leader at work, a queue that is not empty has a
  // front about to check its turn, and a writer whose work is done is never asleep.
  lemma NoLostWakeup(q: Queue, i: nat)
    requires QueueInv(q) && i < |q.writers| && q.writers[i].phase.Asleep?
    ensures q.writers[i].done.None? && q.head <= i
    ensures q.lead.Some? || (i != q.head && q.writers[q.head].phase.Checking?)
  {
  }

  // ---- popping the group, as the code does it ----------------------------------------

  // The end of Write: empties the scratch batch if it was used, pops one writer
  // after the other up to the last of the group, and signals the new front.
  method CompleteGroup(q: Queue, end: nat, ok: bool) returns (r: Queue)
    requires QueueInv(q) && q.lead.Some? && q.head < end <= |q.writers|
    ensures r == Complete(q, end, ok)
  {
    var tmp := q.tmp;
    if q.lead.value.Writing? && q.lead.value.scratch {
      tmp := [];
    }
    var writers := q.writers;
    var front := q.head;
    while true
      invariant q.head <= front < end && |writers| == |q.writers|
      invariant forall i | 0 <= i < |writers| ::
        writers[i] == if q.head <= i < front then Complete(q, end, ok).writers[i] else q.writers[i]
      decreases end - front
    {
      var ready := front;
      front := front + 1;
      if ready != q.head {
        writers := writers[ready := Signalled(writers[ready].(done := Some(ok)))];
      } else {
        writers := writers[ready := writers[ready].(phase := Returned(ok))];
      }
      if ready == end - 1 { break; }
    }
    if front < |writers| {
      writers := writers[front := Signalled(writers[front])];
    }
    r := Queue(writers, front, None, tmp);
    assert writers == Complete(q, end, ok).writers;
  }
}
