/**
 The dispatcher and the worker on one work queue as a state machine of atomic steps, and what every
 interleaving of them keeps: each request completes at most once and never before its target time,
 and the worker's cursor never reaches a slot that was never allocated.
 */
module QueueProtocol {
  import opened Wrappers
  import opened WorkQueue

  // struct nvmev_io_work, as far as the protocol goes; id numbers the requests ever enqueued.
  datatype Work = Work(target: nat, copied: bool, completed: bool, id: nat)

  datatype Completion = Completion(id: nat, time: nat)

  /** One worker: its lists, its slots, those ever allocated, its cursor (NIL when a sweep is over)
      and clock, the target times of the requests enqueued and the completions posted. */
  datatype Queue = Queue(free: seq<nat>, io: seq<nat>, work: seq<Work>, used: set<nat>, cursor: nat, latest: nat,
                         issued: seq<nat>, done: seq<Completion>)

  function Targets(work: seq<Work>): (r: seq<nat>)
    ensures |r| == |work| && forall i :: 0 <= i < |work| ==> r[i] == work[i].target
  {
    seq(|work|, i requires 0 <= i < |work| => work[i].target)
  }

  ghost predicate IsDone(done: seq<Completion>, id: nat) {
    exists i :: 0 <= i < |done| && done[i].id == id
  }

  // The lists partition the slots, and the free list keeps an entry.
  ghost predicate Partitioned(q: Queue) {
    && Slots(q.free, |q.work|) && Slots(q.io, |q.work|) && |q.work| < NIL
    && (forall s :: 0 <= s < |q.work| ==> (s in q.free <==> s !in q.io))
    && q.free != []
  }

  // In the free list, slots never used come before reclaimed ones, whose requests have completed;
  // the in-flight list and the cursor have nothing but slots once used; what has completed was copied.
  ghost predicate UsedLast(q: Queue) {
    && (forall i, j :: 0 <= i < j < |q.free| && q.free[i] in q.used ==> q.free[j] in q.used)
    && (forall i :: 0 <= i < |q.free| && q.free[i] in q.used && q.free[i] < |q.work| ==> q.work[q.free[i]].completed)
    && (forall i :: 0 <= i < |q.io| ==> q.io[i] in q.used)
    && (forall s :: s in q.used ==> s < |q.work| && (q.work[s].completed ==> q.work[s].copied))
    && (q.cursor == NIL || q.cursor in q.used)
  }

  ghost predicate ListsOk(q: Queue) { Partitioned(q) && UsedLast(q) }

  // The in-flight list is in order of max(nsecs_target, latest_nsecs).
  ghost predicate InOrder(q: Queue) { ListsOk(q) && Sorted(q.io, Targets(q.work), q.latest) }

  // Every slot ever used holds a request of its own; it is marked completed exactly when its
  // completion was posted. No completion was posted twice, or early.
  ghost predicate HistoryOk(q: Queue) {
    && (forall s :: s in q.used && s < |q.work| ==>
          && q.work[s].id < |q.issued| && q.work[s].target == q.issued[q.work[s].id]
          && (q.work[s].completed <==> IsDone(q.done, q.work[s].id)))
    && (forall s, t :: s in q.used && t in q.used && s < |q.work| && t < |q.work| && s != t ==>
          q.work[s].id != q.work[t].id)
    && (forall i :: 0 <= i < |q.done| ==> q.done[i].id < |q.issued| && q.done[i].time >= q.issued[q.done[i].id])
    && (forall i, j :: 0 <= i < j < |q.done| ==> q.done[i].id != q.done[j].id)
  }

  ghost predicate Ok(q: Queue) { ListsOk(q) && HistoryOk(q) }

  // NVMEV_IO_WORKER_INIT (io.c:738-760) with n slots.
  function Init(n: nat): Queue {
    Queue(seq(n, i => i), [], seq(n, _ => Work(0, false, false, 0)), {}, NIL, 0, [], [])
  }

  lemma InitOk(n: nat)
    requires 0 < n < NIL
    ensures Ok(Init(n))
  {
    forall s | 0 <= s < n ensures s in Init(n).free {
      assert Init(n).free[s] == s;
    }
  }

  // ----- the steps -----

  // Where a request due at `target` is inserted: the scan of __insert_req_sorted from the tail.
  function Place(io: seq<nat>, targets: seq<nat>, now: nat, target: nat, p: nat): (r: nat)
    requires p <= |io| && forall i :: 0 <= i < |io| ==> io[i] < |targets|
    ensures r <= p
  {
    if p == 0 || targets[io[p - 1]] <= now || targets[io[p - 1]] <= target then p
    else Place(io, targets, now, target, p - 1)
  }

  lemma {:induction false} PlaceIs(io: seq<nat>, targets: seq<nat>, now: nat, target: nat, p: nat)
    requires Sorted(io, targets, now) && p <= |io|
    requires forall i :: p <= i < |io| ==> targets[io[i]] > now && targets[io[i]] > target
    ensures PlaceFor(io, targets, now, target, Place(io, targets, now, target, p))
  {
    if p == 0 || targets[io[p - 1]] <= now || targets[io[p - 1]] <= target {
      TailScan(io, targets, now, target, p);
    } else {
      PlaceIs(io, targets, now, target, p - 1);
    }
  }

  /** __enqueue_io_req and schedule_internal_operation (io.c:317-386): with only one free slot the
      request is dropped. */
  function Enqueue(q: Queue, target: nat, internal: bool): Queue
    requires ListsOk(q)
  {
    if |q.free| == 1 then q
    else
      var e := q.free[0];
      var work := q.work[e := Work(target, internal, false, |q.issued|)];
      var p := Place(q.io, Targets(work), q.latest, target, |q.io|);
      q.(free := q.free[1..], io := Insert(q.io, p, e), work := work,
         used := q.used + {e}, issued := q.issued + [target])
  }

  // Whether the request at the head of a chain can be reclaimed.
  predicate Reclaimable(w: Work, latest: nat) { w.completed && w.copied && w.target <= latest }

  // How many requests at the head can be (io.c:406-416).
  function Reclaimed(io: seq<nat>, work: seq<Work>, latest: nat): (k: nat)
    requires forall i :: 0 <= i < |io| ==> io[i] < |work|
    ensures k <= |io| && forall i :: 0 <= i < k ==> Reclaimable(work[io[i]], latest)
    ensures k < |io| ==> !Reclaimable(work[io[k]], latest)
  {
    if io == [] || !Reclaimable(work[io[0]], latest) then 0 else 1 + Reclaimed(io[1..], work, latest)
  }

  /** __reclaim_completed_reqs (io.c:388-437). */
  function Reclaim(q: Queue): Queue
    requires ListsOk(q)
  {
    var k := Reclaimed(q.io, q.work, q.latest);
    q.(free := q.free + q.io[..k], io := q.io[k..])
  }

  // A sweep of the worker starts (io.c:619).
  function Begin(q: Queue): Queue {
    q.(cursor := if q.io == [] then NIL else q.io[0])
  }

  ghost predicate At(q: seq<nat>, i: nat, s: nat) { i < |q| && q[i] == s }

  // The link that the slot holds in whichever list it is in.
  ghost function Next(q: Queue, s: nat): nat
  {
    if exists i :: At(q.io, i, s) then var i :| At(q.io, i, s); NextOf(q.io, i)
    else if exists i :: At(q.free, i, s) then var i :| At(q.free, i, s); NextOf(q.free, i)
    else NIL
  }

  /** The worker looks at the slot under its cursor at time now and moves on (io.c:622-693). */
  ghost function WorkStep(q: Queue, now: nat): Queue
    requires ListsOk(q) && q.cursor != NIL
  {
    var s := q.cursor;
    var w := q.work[s];
    var next := Next(q, s);
    if w.completed then q.(latest := now, cursor := next)
    else if w.target <= now then
      q.(latest := now, cursor := next, work := q.work[s := w.(copied := true, completed := true)],
         done := q.done + [Completion(w.id, now)])
    else q.(latest := now, cursor := next, work := q.work[s := w.(copied := true)])
  }

  // ----- what they keep -----

  lemma EnqueueSorted(q: Queue, target: nat, internal: bool)
    requires InOrder(q) && |q.free| > 1
    ensures var t := Enqueue(q, target, internal); Sorted(t.io, Targets(t.work), t.latest)
    ensures var t := Enqueue(q, target, internal);
            exists p :: PlaceFor(q.io, Targets(t.work), q.latest, target, p) && t.io == Insert(q.io, p, q.free[0])
    ensures var t := Enqueue(q, target, internal);
            && t.work == q.work[q.free[0] := Work(target, internal, false, |q.issued|)]
            && t.issued == q.issued + [target] && t.free == q.free[1..]
  {
    hide UsedLast;
    var e, t := q.free[0], Enqueue(q, target, internal);
    var p := Place(q.io, Targets(t.work), q.latest, target, |q.io|);
    assert e in q.free && e !in q.io;
    SortedFrame(q.io, Targets(q.work), Targets(t.work), q.latest);
    PlaceIs(q.io, Targets(t.work), q.latest, target, |q.io|);
    InsertSorted(q.io, Targets(t.work), q.latest, target, p, e);
  }

  lemma EnqueuePartition(q: Queue, target: nat, internal: bool)
    requires ListsOk(q) && |q.free| > 1
    ensures Partitioned(Enqueue(q, target, internal))
  {
    hide UsedLast;
    var e, t := q.free[0], Enqueue(q, target, internal);
    var p := Place(q.io, Targets(t.work), q.latest, target, |q.io|);
    assert e in q.free && e !in q.io;
    InsertSlots(q.io, p, e, |q.work|);
    EnqueueMembers(q.free, q.io, p);
  }

  lemma EnqueueUsed(q: Queue, target: nat, internal: bool)
    requires ListsOk(q) && |q.free| > 1
    ensures UsedLast(Enqueue(q, target, internal))
  {
    var e, t := q.free[0], Enqueue(q, target, internal);
    assert forall i :: 0 <= i < |t.free| ==> t.free[i] == q.free[i + 1] && t.free[i] != e;
  }

  lemma EnqueueLists(q: Queue, target: nat, internal: bool)
    requires ListsOk(q)
    ensures ListsOk(Enqueue(q, target, internal))
  {
    hide UsedLast, Slots;
    if |q.free| > 1 {
      EnqueuePartition(q, target, internal);
      EnqueueUsed(q, target, internal);
    }
  }

  lemma EnqueueMembers(free: seq<nat>, io: seq<nat>, p: nat)
    requires free != [] && p <= |io| && forall i, j :: 0 <= i < j < |free| ==> free[i] != free[j]
    ensures forall s: nat :: s in free[1..] <==> s in free && s != free[0]
    ensures forall s: nat :: s in Insert(io, p, free[0]) <==> s in io || s == free[0]
  {
    var r := Insert(io, p, free[0]);
    assert r[p] == free[0];
    forall i | 0 <= i < |io| ensures io[i] in r {
      assert r[if i < p then i else i + 1] == io[i];
    }
    assert free == [free[0]] + free[1..];
  }

  lemma EnqueueHistory(q: Queue, target: nat, internal: bool)
    requires ListsOk(q) && HistoryOk(q)
    ensures HistoryOk(Enqueue(q, target, internal))
  {
    if |q.free| > 1 {
      assert !IsDone(q.done, |q.issued|);
    }
  }

  lemma ReclaimSlots(free: seq<nat>, io: seq<nat>, k: nat, n: nat)
    requires Slots(free, n) && Slots(io, n) && k <= |io|
    requires forall s: nat :: s < n ==> (s in free <==> s !in io)
    ensures Slots(free + io[..k], n) && Slots(io[k..], n)
    ensures forall s: nat :: s < n ==> (s in free + io[..k] <==> s !in io[k..])
  {
    var f, g := free + io[..k], io[k..];
    forall i, j | 0 <= i < j < |f| ensures f[i] != f[j] {
      if i < |free| <= j {
        assert f[i] in free && f[j] in io;
      }
    }
    forall s: nat | s < n ensures s in f <==> s !in g {
      assert io == io[..k] + g;
      if s in io {
        var i :| 0 <= i < |io| && io[i] == s;
        assert i < k ==> f[|free| + i] == s;
        assert i >= k ==> g[i - k] == s;
      }
    }
  }

  lemma ReclaimUsed(q: Queue)
    requires ListsOk(q)
    ensures UsedLast(Reclaim(q))
  {
    var k, t := Reclaimed(q.io, q.work, q.latest), Reclaim(q);
    assert forall i :: 0 <= i < k ==> q.io[i] in q.used && q.work[q.io[i]].completed;
    assert forall i :: 0 <= i < |t.free| ==> t.free[i] == if i < |q.free| then q.free[i] else q.io[i - |q.free|];
  }

  lemma ReclaimLists(q: Queue)
    requires ListsOk(q)
    ensures ListsOk(Reclaim(q))
    ensures var t := Reclaim(q); var k := |q.io| - |t.io|;
            && 0 <= k && t.free == q.free + q.io[..k] && t.io == q.io[k..]
            && (forall i :: 0 <= i < k ==>
                  var w := q.work[q.io[i]]; w.completed && w.copied && w.target <= q.latest)
            && (k < |q.io| ==> var w := q.work[q.io[k]]; !w.completed || !w.copied || w.target > q.latest)
  {
    hide UsedLast;
    ReclaimSlots(q.free, q.io, Reclaimed(q.io, q.work, q.latest), |q.work|);
    ReclaimUsed(q);
  }

  lemma NextIs(q: Queue, s: nat)
    requires ListsOk(q)
    ensures forall i :: At(q.io, i, s) ==> Next(q, s) == NextOf(q.io, i)
    ensures forall i :: At(q.free, i, s) ==> Next(q, s) == NextOf(q.free, i)
  {
    if i :| At(q.free, i, s) {
      assert s in q.free && s !in q.io;
    }
  }

  // From a slot once used, a link leads to a slot once used.
  lemma NextUsed(q: Queue, s: nat)
    requires ListsOk(q) && s in q.used
    ensures Next(q, s) == NIL || Next(q, s) in q.used
  {
    NextIs(q, s);
    if s in q.io {
      var i :| 0 <= i < |q.io| && q.io[i] == s;
      assert At(q.io, i, s);
    } else {
      var i :| 0 <= i < |q.free| && q.free[i] == s;
      assert At(q.free, i, s);
    }
  }

  lemma WorkStepLists(q: Queue, now: nat)
    requires ListsOk(q) && q.cursor != NIL
    ensures ListsOk(WorkStep(q, now))
  {
    hide Next, Slots;
    NextUsed(q, q.cursor);
  }

  lemma WorkStepHistory(q: Queue, now: nat)
    requires ListsOk(q) && HistoryOk(q) && q.cursor != NIL
    ensures HistoryOk(WorkStep(q, now))
  {
    hide Next;
    var t := WorkStep(q, now);
    if t.done != q.done {
      var id := q.work[q.cursor].id;
      assert t.done[|q.done|] == Completion(id, now);
      forall x ensures IsDone(t.done, x) <==> IsDone(q.done, x) || x == id {
        if i :| 0 <= i < |q.done| && q.done[i].id == x {
          assert t.done[i].id == x;
        }
      }
    }
  }

  // ----- runs -----

  datatype Step = ToEnqueue(target: nat, internal: bool) | ToReclaim | ToBegin | ToWork(now: nat)

  // One atomic step of either side. The worker starts a sweep when the last one is over; its clock
  // reads anything.
  ghost function Apply(q: Queue, step: Step): Queue
    requires ListsOk(q)
  {
    match step
    case ToEnqueue(target, internal) => Enqueue(q, target, internal)
    case ToReclaim => Reclaim(q)
    case ToBegin => if q.cursor == NIL then Begin(q) else q
    case ToWork(now) => if q.cursor != NIL then WorkStep(q, now) else q
  }

  lemma ApplyKeeps(q: Queue, step: Step)
    requires Ok(q)
    ensures Ok(Apply(q, step))
    ensures q.done <= Apply(q, step).done && q.issued <= Apply(q, step).issued
  {
    hide ListsOk, HistoryOk, WorkStep;
    match step {
      case ToEnqueue(target, internal) =>
        EnqueueLists(q, target, internal);
        EnqueueHistory(q, target, internal);
      case ToReclaim =>
        ReclaimLists(q);
        ReclaimHistory(q);
      case ToBegin =>
        BeginKeeps(q);
      case ToWork(now) =>
        if q.cursor != NIL {
          WorkStepLists(q, now);
          WorkStepHistory(q, now);
          WorkStepGrows(q, now);
        }
    }
  }

  lemma ReclaimHistory(q: Queue)
    requires ListsOk(q) && HistoryOk(q)
    ensures HistoryOk(Reclaim(q))
  {
    hide ListsOk;
  }

  lemma BeginKeeps(q: Queue)
    requires ListsOk(q)
    ensures ListsOk(Begin(q)) && (HistoryOk(q) ==> HistoryOk(Begin(q)))
  {
    hide Slots;
  }

  lemma WorkStepGrows(q: Queue, now: nat)
    requires ListsOk(q) && q.cursor != NIL
    ensures q.done <= WorkStep(q, now).done && q.issued == WorkStep(q, now).issued
  {
    hide Next;
  }

  // The state after the given steps, in the order in which they happened.
  ghost function Run(n: nat, steps: seq<Step>): (q: Queue)
    requires 0 < n < NIL
    ensures Ok(q)
  {
    if steps == [] then
      InitOk(n);
      Init(n)
    else
      var q := Run(n, steps[..|steps| - 1]);
      ApplyKeeps(q, steps[|steps| - 1]);
      Apply(q, steps[|steps| - 1])
  }

  /** Under any interleaving of dispatcher and worker steps, whatever the clock: every completion belongs
      to an enqueued request, comes no earlier than its target time, and is the only one for it; the
      cursor is on a slot that was allocated, or nowhere; the lists partition the slots, a slot is
      always free, and among the free slots those never used come first. */
  lemma AnyInterleaving(n: nat, steps: seq<Step>)
    requires 0 < n < NIL
    ensures var q := Run(n, steps);
            && (forall i :: 0 <= i < |q.done| ==> q.done[i].id < |q.issued| && q.done[i].time >= q.issued[q.done[i].id])
            && (forall i, j :: 0 <= i < |q.done| && 0 <= j < |q.done| && q.done[i].id == q.done[j].id ==> i == j)
            && (q.cursor == NIL || q.cursor in q.used)
            && Partitioned(q) && UsedLast(q)
  {
    hide Run;
    var q := Run(n, steps);
    assert Ok(q);
    forall i, j | 0 <= i < |q.done| && 0 <= j < |q.done| && i != j ensures q.done[i].id != q.done[j].id {
      if j < i {
        assert q.done[j].id != q.done[i].id;
      }
    }
  }

  // ----- the order of the in-flight list -----

  // The worker's last reading of its clock.
  function LastReading(steps: seq<Step>): nat {
    if steps == [] then 0
    else if steps[|steps| - 1].ToWork? then steps[|steps| - 1].now
    else LastReading(steps[..|steps| - 1])
  }

  /** The worker's clock does not go back. */
  predicate Ticks(steps: seq<Step>) {
    steps == []
    || var n := |steps| - 1;
       Ticks(steps[..n]) && (steps[n].ToWork? ==> LastReading(steps[..n]) <= steps[n].now)
  }

  lemma ApplyInOrder(q: Queue, step: Step)
    requires InOrder(q) && (step.ToWork? ==> q.latest <= step.now)
    ensures InOrder(Apply(q, step))
  {
    hide ListsOk, Sorted, WorkStep;
    match step {
      case ToEnqueue(target, internal) =>
        EnqueueInOrder(q, target, internal);
      case ToReclaim =>
        ReclaimLists(q);
        ReclaimSorted(q);
      case ToBegin =>
        BeginKeeps(q);
      case ToWork(now) =>
        if q.cursor != NIL {
          WorkStepLists(q, now);
          WorkStepSorted(q, now);
        }
    }
  }

  lemma EnqueueInOrder(q: Queue, target: nat, internal: bool)
    requires InOrder(q)
    ensures InOrder(Enqueue(q, target, internal))
  {
    hide UsedLast, Sorted, Slots;
    EnqueueLists(q, target, internal);
    if |q.free| > 1 {
      EnqueueSorted(q, target, internal);
    }
  }

  lemma ReclaimSorted(q: Queue)
    requires InOrder(q)
    ensures Sorted(Reclaim(q).io, Targets(Reclaim(q).work), Reclaim(q).latest)
  {
    hide Slots, UsedLast;
  }

  lemma WorkStepSorted(q: Queue, now: nat)
    requires InOrder(q) && q.cursor != NIL && q.latest <= now
    ensures var t := WorkStep(q, now); Sorted(t.io, Targets(t.work), t.latest)
  {
    hide Next, Slots, Sorted;
    var t := WorkStep(q, now);
    SortedFrame(q.io, Targets(q.work), Targets(t.work), q.latest);
    SortedLater(q.io, Targets(t.work), q.latest, now);
  }

  lemma ApplyReads(q: Queue, step: Step)
    requires ListsOk(q)
    ensures Apply(q, step).latest == if step.ToWork? && q.cursor != NIL then step.now else q.latest
  {
    hide Next;
  }

  /** With a clock that does not go back the in-flight list stays in order of
      max(nsecs_target, latest_nsecs). */
  lemma {:induction false} StaysInOrder(n: nat, steps: seq<Step>)
    requires 0 < n < NIL && Ticks(steps)
    ensures InOrder(Run(n, steps)) && Run(n, steps).latest <= LastReading(steps)
  {
    hide ListsOk, HistoryOk, Apply;
    if steps == [] {
      NothingInFlight(n);
    } else {
      var k := |steps| - 1;
      StaysInOrder(n, steps[..k]);
      ApplyInOrder(Run(n, steps[..k]), steps[k]);
      ApplyReads(Run(n, steps[..k]), steps[k]);
    }
  }

  lemma NothingInFlight(n: nat)
    requires 0 < n < NIL
    ensures InOrder(Init(n)) && Init(n).latest == 0
  {
    InitOk(n);
  }

  // ----- a sweep of the worker -----

  // The worker's sweep from its start (io.c:619-690), with its readings of the clock.
  ghost function Sweep(q: Queue, readings: seq<nat>): (r: Queue)
    requires ListsOk(q)
    ensures ListsOk(r)
  {
    if readings == [] then
      BeginKeeps(q);
      Begin(q)
    else
      var n := |readings| - 1;
      var r := Sweep(q, readings[..n]);
      if r.cursor == NIL then r
      else
        WorkStepLists(r, readings[n]);
        WorkStep(r, readings[n])
  }

  // A request that the worker has looked at: copied, and completed once it is due.
  predicate LookedAt(before: Work, after: Work, now: nat) {
    && after.target == before.target && after.id == before.id && after.copied
    && (after.completed <==> before.completed || before.target <= now)
  }

  // The completions of the requests that are due when the worker comes to them, in list order.
  function Due(io: seq<nat>, work: seq<Work>, readings: seq<nat>): seq<Completion>
    requires |readings| <= |io| && forall i :: 0 <= i < |io| ==> io[i] < |work|
  {
    if readings == [] then []
    else
      var n := |readings| - 1;
      var w := work[io[n]];
      Due(io, work, readings[..n])
      + if !w.completed && w.target <= readings[n] then [Completion(w.id, readings[n])] else []
  }

  // After a part of a sweep.
  ghost predicate SweptTo(q: Queue, r: Queue, readings: seq<nat>) {
    var n := |readings|;
    && n <= |q.io| && ListsOk(q)
    && r.io == q.io && r.free == q.free && r.used == q.used && r.issued == q.issued && |r.work| == |q.work|
    && r.cursor == (if n < |q.io| then q.io[n] else NIL)
    && (forall i :: 0 <= i < n ==> LookedAt(q.work[q.io[i]], r.work[q.io[i]], readings[i]))
    && (forall s :: 0 <= s < |q.work| && s !in q.io[..n] ==> r.work[s] == q.work[s])
    && r.done == q.done + Due(q.io, q.work, readings)
    && r.latest == if n == 0 then q.latest else readings[n - 1]
  }

  lemma {:induction false} SweepTo(q: Queue, readings: seq<nat>)
    requires ListsOk(q) && |readings| <= |q.io|
    ensures SweptTo(q, Sweep(q, readings), readings)
  {
    hide SweptTo, UsedLast, Slots;
    var n := |readings|;
    if n == 0 {
      SweepBegins(q);
    } else {
      var r := Sweep(q, readings[..n - 1]);
      SweepTo(q, readings[..n - 1]);
      CursorAt(q, r, readings[..n - 1]);
      SweepOn(q, r, readings);
    }
  }

  lemma SweepBegins(q: Queue)
    requires ListsOk(q)
    ensures SweptTo(q, Begin(q), [])
  {
    hide UsedLast;
  }

  lemma CursorAt(q: Queue, r: Queue, readings: seq<nat>)
    requires SweptTo(q, r, readings) && ListsOk(r) && |readings| < |q.io|
    ensures r.cursor == q.io[|readings|] != NIL
  {
    hide UsedLast;
  }

  // One step more.
  lemma SweepOn(q: Queue, r: Queue, readings: seq<nat>)
    requires readings != [] && |readings| <= |q.io| && ListsOk(r)
    requires SweptTo(q, r, readings[..|readings| - 1]) && r.cursor == q.io[|readings| - 1] != NIL
    ensures SweptTo(q, WorkStep(r, readings[|readings| - 1]), readings)
  {
    hide Next;
    var n := |readings| - 1;
    NextIs(r, r.cursor);
    assert At(r.io, n, r.cursor);
    assert q.io[..n + 1] == q.io[..n] + [q.io[n]];
    assert r.cursor !in q.io[..n];
    assert r.work[q.io[n]] == q.work[q.io[n]];
  }

  // The steps of a sweep are steps of the worker.
  lemma SweepIsSteps(q: Queue, readings: seq<nat>, now: nat)
    requires ListsOk(q) && q.cursor == NIL
    ensures Apply(q, ToBegin) == Sweep(q, [])
    ensures Apply(Sweep(q, readings), ToWork(now)) == Sweep(q, readings + [now])
  {
    hide Next, ListsOk, Begin, WorkStep;
    assert (readings + [now])[..|readings|] == readings;
  }

  /** A sweep that the dispatcher leaves alone takes one step for each request in flight. Then every one of
      them has been copied, and completed just those that were before or were due when the worker
      came to them; their completions were posted in the order of the list, and no others. */
  lemma SweepReachesAll(q: Queue, readings: seq<nat>)
    requires Ok(q) && q.cursor == NIL && |readings| == |q.io|
    ensures forall k :: 0 <= k < |q.io| ==> Sweep(q, readings[..k]).cursor == q.io[k]
    ensures var r := Sweep(q, readings);
            && r.cursor == NIL && r.io == q.io && r.free == q.free && |r.work| == |q.work|
            && (forall i :: 0 <= i < |q.io| ==>
                  q.io[i] < |q.work| && LookedAt(q.work[q.io[i]], r.work[q.io[i]], readings[i]))
            && (forall s :: 0 <= s < |q.work| && s !in q.io ==> r.work[s] == q.work[s])
            && r.done == q.done + Due(q.io, q.work, readings)
  {
    hide Sweep, UsedLast, HistoryOk, LookedAt, Due;
    SweepTo(q, readings);
    assert q.io[..|q.io|] == q.io;
    forall k | 0 <= k < |q.io| ensures Sweep(q, readings[..k]).cursor == q.io[k] {
      SweepTo(q, readings[..k]);
    }
  }

  /** When all requests in flight are due, a sweep and a reclaim free all their slots. */
  lemma SweepDrains(q: Queue, readings: seq<nat>)
    requires Ok(q) && q.cursor == NIL && |readings| == |q.io|
    requires forall i, j :: 0 <= i < |q.io| && 0 <= j < |q.io| && q.io[i] < |q.work| ==>
               q.work[q.io[i]].target <= readings[j]
    ensures var r := Reclaim(Sweep(q, readings)); r.io == [] && forall s :: 0 <= s < |r.work| ==> s in r.free
  {
    hide Sweep, HistoryOk, Reclaim;
    SweepTo(q, readings);
    var r := Sweep(q, readings);
    ReclaimLists(r);
    AllReclaimed(r);
  }

  lemma AllReclaimed(r: Queue)
    requires ListsOk(r)
    requires forall i :: 0 <= i < |r.io| && r.io[i] < |r.work| ==> Reclaimable(r.work[r.io[i]], r.latest)
    ensures Reclaim(r).io == []
  {
    hide UsedLast;
    assert Reclaimed(r.io, r.work, r.latest) == |r.io|;
  }
}
