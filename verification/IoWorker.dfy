/**
 One worker's queue in place (struct nvmev_io_worker, nvmev.h:237-284): slots chained by index arrays.
 Each method is proved to be the step of QueueProtocol that it is named after, so everything proved
 about the steps holds of the arrays.
 */
module IoWorker {
  import opened Wrappers
  import opened WorkQueue
  import opened QueueProtocol

  // The links of a queue, and the ends of its lists.
  ghost predicate Linked(next: seq<nat>, prev: seq<nat>, q: Queue, freeSeq: nat,
                         freeSeqEnd: nat, ioSeq: nat, ioSeqEnd: nat) {
    && |next| == |prev| == |q.work|
    && Forward(next, q.free) && Forward(next, q.io) && Backward(prev, q.io)
    && q.free != [] && freeSeq == q.free[0] && freeSeqEnd == q.free[|q.free| - 1]
    && (q.io == [] ==> ioSeq == NIL)
    && (q.io != [] ==> ioSeq == q.io[0] && ioSeqEnd == q.io[|q.io| - 1])
  }

  lemma LinkedFrame(next: seq<nat>, prev: seq<nat>, q: Queue, t: Queue, f: nat, fe: nat, h: nat, he: nat)
    requires Linked(next, prev, q, f, fe, h, he) && t.free == q.free && t.io == q.io && |t.work| == |q.work|
    ensures Linked(next, prev, t, f, fe, h, he)
  {
  }

  // What a worker's step is, given the link it reads.
  lemma WorkStepIs(q: Queue, now: nat, next: nat)
    requires ListsOk(q) && q.cursor != NIL && next == Next(q, q.cursor)
    ensures q.cursor < |q.work|
    ensures var w := q.work[q.cursor]; var t := q.(latest := now, cursor := next);
            WorkStep(q, now) ==
            if w.completed then t
            else if w.target <= now then
              t.(work := q.work[q.cursor := w.(copied := true, completed := true)],
                   done := q.done + [Completion(w.id, now)])
            else t.(work := q.work[q.cursor := w.(copied := true)])
  {
    hide Next;
  }

  // The links after an enqueue, given those before it with the new entry cut out.
  lemma EnqueueLinked(n: seq<nat>, p: seq<nat>, q: Queue, f: nat, fe: nat, h: nat, he: nat, target: nat, internal: bool)
    requires ListsOk(q) && |q.free| > 1 && Linked(n, p, q, f, fe, h, he)
    ensures var e := q.free[0]; var t := Enqueue(q, target, internal);
            var at := Place(q.io, Targets(t.work), q.latest, target, |q.io|);
            && e < |n| && at <= |q.io| && t.io == Insert(q.io, at, e)
            && var n1, p1 := LinkNext(n[e := NIL], q.io, at, e), LinkPrev(p[e := NIL], q.io, at, e);
               Linked(n1, p1, t, q.free[1], fe, t.io[0], t.io[|t.io| - 1])
  {
    hide LinkNext, LinkPrev, Forward, Backward, Sorted, Place;
    var e := q.free[0];
    var t := Enqueue(q, target, internal);
    var at := Place(q.io, Targets(t.work), q.latest, target, |q.io|);
    var n0: seq<nat>, p0: seq<nat> := n[e := NIL], p[e := NIL];
    assert e in q.free && e !in q.io;
    Apart(n, n0, q.io);
    ApartBack(p, p0, q.io);
    InsertForward(n0, q.io, at, e);
    InsertBackward(p0, q.io, at, e);
    LinkNextIs(n0, q.io, at, e);
    DropFirst(n, q.free);
    assert forall i :: 0 <= i < |q.free| ==> q.free[i] in q.free && q.free[i] !in q.io;
    Apart(n, LinkNext(n0, q.io, at, e), q.free[1..]);
  }

  // The links after the first k requests moved to the free list.
  function CutNext(n: seq<nat>, q: Queue, k: nat): (r: seq<nat>)
    requires 0 < k <= |q.io| && q.free != [] && q.io[k - 1] < |n| && q.free[|q.free| - 1] < |n|
    ensures |r| == |n|
  {
    var cut: seq<nat> := n[q.io[k - 1] := NIL];
    cut[q.free[|q.free| - 1] := q.io[0]]
  }

  function CutPrev(p: seq<nat>, q: Queue, k: nat): (r: seq<nat>)
    requires 0 < k <= |q.io| && q.free != [] && q.io[0] < |p| && (k < |q.io| ==> q.io[k] < |p|)
    ensures |r| == |p|
  {
    var cut: seq<nat> := if k < |q.io| then p[q.io[k] := NIL] else p;
    cut[q.io[0] := q.free[|q.free| - 1]]
  }

  ghost predicate ListsApart(q: Queue) {
    && Slots(q.free, |q.work|) && Slots(q.io, |q.work|) && q.free != []
    && (forall i, j :: 0 <= i < |q.free| && 0 <= j < |q.io| ==> q.free[i] != q.io[j])
  }

  lemma AreApart(q: Queue)
    requires ListsOk(q)
    ensures ListsApart(q)
  {
    hide Sorted, UsedLast;
    forall i, j | 0 <= i < |q.free| && 0 <= j < |q.io| ensures q.free[i] != q.io[j] {
      assert q.free[i] in q.free && q.io[j] in q.io;
    }
  }

  lemma CutFree(n: seq<nat>, q: Queue, k: nat)
    requires ListsApart(q) && |n| == |q.work| && 0 < k <= |q.io| && Forward(n, q.free) && Forward(n, q.io)
    ensures Forward(CutNext(n, q, k), q.free + q.io[..k])
  {
    var r, f := CutNext(n, q, k), q.free + q.io[..k];
    forall i | 0 <= i < |f| ensures f[i] < |r| && r[f[i]] == NextOf(f, i) {
      if i < |q.free| {
        assert f[i] == q.free[i] && n[q.free[i]] == NextOf(q.free, i);
      } else {
        assert f[i] == q.io[i - |q.free|] && n[q.io[i - |q.free|]] == NextOf(q.io, i - |q.free|);
      }
    }
  }

  lemma CutIo(n: seq<nat>, p: seq<nat>, q: Queue, k: nat)
    requires ListsApart(q) && |n| == |p| == |q.work| && 0 < k <= |q.io| && Forward(n, q.io) && Backward(p, q.io)
    ensures Forward(CutNext(n, q, k), q.io[k..]) && Backward(CutPrev(p, q, k), q.io[k..])
  {
    var r, s, g := CutNext(n, q, k), CutPrev(p, q, k), q.io[k..];
    forall i | 0 <= i < |g| ensures g[i] < |r| && r[g[i]] == NextOf(g, i) && s[g[i]] == PrevOf(g, i) {
      assert g[i] == q.io[k + i];
      assert n[q.io[k + i]] == NextOf(q.io, k + i) && p[q.io[k + i]] == PrevOf(q.io, k + i);
    }
  }

  lemma ReclaimLinked(n: seq<nat>, p: seq<nat>, q: Queue, f: nat, fe: nat, h: nat, he: nat, k: nat)
    requires ListsOk(q) && Linked(n, p, q, f, fe, h, he) && 0 < k == Reclaimed(q.io, q.work, q.latest)
    ensures ListsApart(q) && |n| == |p| == |q.work|
    ensures Linked(CutNext(n, q, k), CutPrev(p, q, k), Reclaim(q), f, q.io[k - 1],
                   if k < |q.io| then q.io[k] else NIL, he)
    ensures ListsOk(Reclaim(q))
  {
    hide Forward, Backward, Sorted, UsedLast, Slots, Reclaimed, CutNext, CutPrev;
    AreApart(q);
    CutSizes(n, p, q, k);
    CutFree(n, q, k);
    CutIo(n, p, q, k);
    ReclaimLists(q);
  }

  lemma CutSizes(n: seq<nat>, p: seq<nat>, q: Queue, k: nat)
    requires ListsApart(q) && |n| == |p| == |q.work| && 0 < k <= |q.io|
    ensures |CutNext(n, q, k)| == |n| && |CutPrev(p, q, k)| == |p|
  {
  }

  class IoWorker {
    const next: array<nat>
    const prev: array<nat>
    const work: array<Work>
    var freeSeq: nat
    var freeSeqEnd: nat
    var ioSeq: nat
    var ioSeqEnd: nat
    var latest: nat
    var cursor: nat
    var count: nat                    // how many requests were enqueued
    ghost var free: seq<nat>
    ghost var io: seq<nat>
    ghost var used: set<nat>
    ghost var issued: seq<nat>
    ghost var done: seq<Completion>

    ghost function View(): Queue
      reads this, work
    {
      Queue(free, io, work[..], used, cursor, latest, issued, done)
    }

    ghost predicate Rep()
      reads this, next, prev, work
    {
      && next != prev && count == |issued|
      && ListsOk(View())
      && Linked(next[..], prev[..], View(), freeSeq, freeSeqEnd, ioSeq, ioSeqEnd)
    }

    /** NVMEV_IO_WORKER_INIT (io.c:738-760). */
    constructor (n: nat)
      requires 0 < n < NIL
      ensures Rep() && View() == QueueProtocol.Init(n)
    {
      next := new nat[n](i => if i + 1 < n then i + 1 else NIL);
      prev := new nat[n](i => if 0 < i < n then i - 1 else NIL);
      work := new Work[n](_ => Work(0, false, false, 0));
      freeSeq, freeSeqEnd, ioSeq, ioSeqEnd := 0, n - 1, NIL, NIL;
      latest, cursor, count := 0, NIL, 0;
      free, io, used, issued, done := seq(n, i => i), [], {}, [], [];
      new;
      InitOk(n);
      assert work[..] == seq(n, _ => Work(0, false, false, 0));
    }

    // ----- the worker -----

    // The head of the in-flight list (io.c:619).
    method BeginSweep()
      requires Rep()
      modifies this`cursor
      ensures Rep() && View() == Begin(old(View()))
      ensures cursor == if io == [] then NIL else io[0]
    {
      BeginKeeps(View());
      hide Slots, Sorted, HistoryOk, Forward, Backward;
      cursor := ioSeq;
    }

    // The link read from a slot is the one of the list it is in.
    lemma NextRead(s: nat)
      requires Rep() && s < work.Length
      ensures next[s] == Next(View(), s)
    {
      NextIs(View(), s);
      hide Sorted, UsedLast, Next;
      if s in io {
        var i :| 0 <= i < |io| && io[i] == s;
        assert At(View().io, i, s);
      } else {
        var i :| 0 <= i < |free| && free[i] == s;
        assert At(View().free, i, s);
      }
    }

    /** One iteration of the worker's inner loop (io.c:622-693): `now` is its clock. */
    method WorkerStep(now: nat)
      requires Rep() && cursor != NIL
      modifies this`latest, this`cursor, this`done, work
      ensures Rep() && View() == WorkStep(old(View()), now)
    {
      hide ListsOk, Linked, Next, WorkStep;
      ghost var q, s := View(), cursor;
      CursorInRange();
      NextRead(cursor);
      WorkStepLists(q, now);
      WorkStepIs(q, now, next[cursor]);
      latest := now;
      var w := work[cursor];
      if !w.completed {
        if !w.copied {
          work[cursor] := work[cursor].(copied := true);
        }
        if w.target <= now {
          work[cursor] := work[cursor].(completed := true);
          done := done + [Completion(w.id, now)];
        }
        assert work[..] == q.work[s := w.(copied := true, completed := w.target <= now)];
      }
      cursor := next[cursor];
      LinkedFrame(next[..], prev[..], q, View(), freeSeq, freeSeqEnd, ioSeq, ioSeqEnd);
    }

    /** A sweep of the worker (io.c:619-690) that the dispatcher leaves alone: it comes to every request in
        flight, with the clock readings that it takes on the way, and ends. */
    method WorkerSweep() returns (ghost readings: seq<nat>)
      requires Rep()
      modifies this`latest, this`cursor, this`done, work
      ensures Rep() && cursor == NIL && |readings| == |io| && View() == Sweep(old(View()), readings)
      ensures SweptTo(old(View()), View(), readings)
    {
      hide Sweep, SweptTo, WorkStep, UsedLast, Linked, Slots, Begin;
      ghost var q := View();
      readings := [];
      BeginSweep();
      SweepStart(q);
      SweepTo(q, readings);
      SweptCursor(q, View(), readings);
      while cursor != NIL
        invariant Rep() && View() == Sweep(q, readings) && SweptTo(q, View(), readings)
        invariant |readings| <= |io| == |q.io| && (cursor == NIL <==> |readings| == |io|)
        decreases |io| - |readings|
      {
        var now: nat := *;
        SweepMore(q, readings, now);
        WorkerStep(now);
        readings := readings + [now];
        SweepTo(q, readings);
        SweptCursor(q, View(), readings);
      }
    }

    static lemma SweptCursor(q: Queue, r: Queue, readings: seq<nat>)
      requires SweptTo(q, r, readings)
      ensures r.io == q.io && |readings| <= |q.io| && (r.cursor == NIL <==> |readings| == |q.io|)
    {
      hide UsedLast;
    }

    static lemma SweepStart(q: Queue)
      requires ListsOk(q)
      ensures Sweep(q, []) == Begin(q)
    {
    }

    static lemma SweepMore(q: Queue, readings: seq<nat>, now: nat)
      requires ListsOk(q) && Sweep(q, readings).cursor != NIL
      ensures Sweep(q, readings + [now]) == WorkStep(Sweep(q, readings), now)
    {
      hide ListsOk, WorkStep, Begin;
      assert (readings + [now])[..|readings|] == readings;
    }

    lemma CursorInRange()
      requires Rep() && cursor != NIL
      ensures cursor < work.Length == next.Length
    {
    }

    // ----- the dispatcher: enqueue -----

    // The in-flight list, its links and its ends.
    ghost predicate IoLinked()
      reads this, next, prev, work
    {
      && next != prev && next.Length == prev.Length == work.Length < NIL
      && Slots(io, work.Length) && Forward(next[..], io) && Backward(prev[..], io)
      && (io == [] ==> ioSeq == NIL)
      && (io != [] ==> ioSeq == io[0] && ioSeqEnd == io[|io| - 1])
    }

    // The scan of __insert_req_sorted from the tail (io.c:264-274).
    method FindPlace(target: nat, ghost ts: seq<nat>) returns (curr: nat, ghost p: nat)
      requires IoLinked() && io != [] && ts == Targets(work[..])
      ensures p <= |io| && p == Place(io, ts, latest, target, |io|) && curr == PrevOf(io, p)
      ensures next[..] == old(next[..]) && prev[..] == old(prev[..])
    {
      hide Targets;
      TargetsAre(work[..]);
      p := |io|;
      curr := ioSeqEnd;
      while curr != NIL
        invariant p <= |io| && curr == PrevOf(io, p)
        invariant Place(io, ts, latest, target, |io|) == Place(io, ts, latest, target, p)
        decreases p
      {
        assert curr == io[p - 1];
        if work[curr].target <= latest {
          break;
        }
        if work[curr].target <= target {
          break;
        }
        assert prev[io[p - 1]] == PrevOf(io, p - 1);
        curr := prev[curr];
        p := p - 1;
      }
      assert curr == NIL ==> p == 0;
    }

    lemma TargetsAre(w: seq<Work>)
      ensures |Targets(w)| == |w| && forall i :: 0 <= i < |w| ==> Targets(w)[i] == w[i].target
    {
    }

    // Entry e in front of the list, at its end, or after curr (io.c:276-290).
    method LinkHead(e: nat)
      requires IoLinked() && io != [] && e < work.Length && e !in io && next[e] == NIL && prev[e] == NIL
      modifies this`ioSeq, next, prev
      ensures next[..] == LinkNext(old(next[..]), io, 0, e) && prev[..] == LinkPrev(old(prev[..]), io, 0, e)
      ensures ioSeq == e
    {
      hide Forward, Backward;
      prev[ioSeq] := e;
      next[e] := ioSeq;
      ioSeq := e;
    }

    method LinkTail(curr: nat, e: nat)
      requires IoLinked() && io != [] && e < work.Length && e !in io && next[e] == NIL && prev[e] == NIL
      requires curr == io[|io| - 1]
      modifies this`ioSeqEnd, next, prev
      ensures next[..] == LinkNext(old(next[..]), io, |io|, e) && prev[..] == LinkPrev(old(prev[..]), io, |io|, e)
      ensures ioSeqEnd == e
    {
      hide Forward, Backward;
      prev[e] := curr;
      ioSeqEnd := e;
      next[curr] := e;
    }

    method LinkBetween(curr: nat, e: nat, ghost p: nat)
      requires IoLinked() && 0 < p < |io| && e < work.Length && e !in io && next[e] == NIL && prev[e] == NIL
      requires curr == io[p - 1]
      modifies next, prev
      ensures next[..] == LinkNext(old(next[..]), io, p, e) && prev[..] == LinkPrev(old(prev[..]), io, p, e)
    {
      assert next[io[p - 1]] == NextOf(io, p - 1);
      hide Forward, Backward;
      prev[e] := curr;
      next[e] := next[curr];
      prev[next[e]] := e;
      next[curr] := e;
    }

    /** __insert_req_sorted (io.c:248-292): entry e is linked in before position p. */
    method InsertReqSorted(e: nat, target: nat)
      requires IoLinked() && e < work.Length && e !in io && next[e] == NIL && prev[e] == NIL
      modifies this`ioSeq, this`ioSeqEnd, this`io, next, prev
      ensures var p := old(Place(io, Targets(work[..]), latest, target, |io|));
              && io == Insert(old(io), p, e)
              && next[..] == LinkNext(old(next[..]), old(io), p, e)
              && prev[..] == LinkPrev(old(prev[..]), old(io), p, e)
              && ioSeq == io[0] && ioSeqEnd == io[|io| - 1]
    {
      hide Targets, LinkNext, LinkPrev, Place, Forward, Backward;
      ghost var ts := Targets(work[..]);
      EmptyIs(next[..], prev[..], e, target);
      if ioSeq == NIL {
        ioSeq := e;
        ioSeqEnd := e;
        io := Insert(io, 0, e);
        return;
      }
      var curr;
      ghost var p;
      curr, p := FindPlace(target, ts);
      WhichCase(curr, p);
      if curr == NIL {
        LinkHead(e);
      } else if next[curr] == NIL {
        LinkTail(curr, e);
      } else {
        LinkBetween(curr, e, p);
      }
      io := Insert(io, p, e);
    }

    lemma EmptyIs(n: seq<nat>, p: seq<nat>, e: nat, target: nat)
      requires IoLinked() && e < work.Length && n == next[..] && p == prev[..] && n[e] == NIL && p[e] == NIL
      ensures ioSeq == NIL <==> io == []
      ensures io == [] ==> Place(io, Targets(work[..]), latest, target, 0) == 0
      ensures io == [] ==> LinkNext(n, io, 0, e) == n && LinkPrev(p, io, 0, e) == p
    {
    }

    lemma WhichCase(curr: nat, p: nat)
      requires IoLinked() && p <= |io| && curr == PrevOf(io, p)
      ensures curr == NIL <==> p == 0
      ensures curr != NIL ==> curr < next.Length && (next[curr] == NIL <==> p == |io|)
    {
      if p > 0 {
        assert next[io[p - 1]] == NextOf(io, p - 1);
      }
    }

    // What the first free slot's link tells (io.c:299-311).
    lemma FreeNext()
      requires Rep()
      ensures freeSeq < next.Length == prev.Length == work.Length < NIL
      ensures freeSeq in free && freeSeq !in io && freeSeq == free[0]
      ensures next[freeSeq] >= next.Length <==> |free| == 1
      ensures |free| > 1 ==> next[freeSeq] == free[1]
    {
      hide Sorted, UsedLast;
      assert next[free[0]] == NextOf(free, 0);
    }

    // The fields of a fresh entry, cut out of the free list (io.c:336-347).
    method FillEntry(e: nat, target: nat, internal: bool)
      requires e < work.Length == next.Length == prev.Length && next != prev
      modifies this`count, work, next, prev
      ensures work[..] == old(work[..])[e := Work(target, internal, false, old(count))] && count == old(count) + 1
      ensures next[..] == old(next[..])[e := NIL] && prev[..] == old(prev[..])[e := NIL]
    {
      work[e] := Work(target, internal, false, count);
      count := count + 1;
      prev[e] := NIL;
      next[e] := NIL;
    }

    lemma IoLinkedIs(q: Queue, n: seq<nat>, p: seq<nat>, f: nat, e: nat)
      requires ListsOk(q) && Linked(n, p, q, f, freeSeqEnd, ioSeq, ioSeqEnd) && e < |n| && e !in q.io
      requires next != prev && next[..] == n[e := NIL] && prev[..] == p[e := NIL]
      requires work.Length == |q.work| && io == q.io
      ensures IoLinked()
    {
      hide Sorted, Forward, Backward;
      Apart(n, next[..], io);
      ApartBack(p, prev[..], io);
    }

    // What an enqueue amounts to.
    lemma EnqueueIs(q: Queue, e: nat, target: nat, internal: bool)
      requires ListsOk(q) && |q.free| > 1 && e == q.free[0] && e < |q.work|
      ensures var w := q.work[e := Work(target, internal, false, |q.issued|)];
              && (forall i :: 0 <= i < |q.io| ==> q.io[i] < |Targets(w)|)
              && var at := Place(q.io, Targets(w), q.latest, target, |q.io|);
                 && at <= |q.io|
                 && Enqueue(q, target, internal) ==
                    q.(free := q.free[1..], io := Insert(q.io, at, e), work := w, used := q.used + {e},
                       issued := q.issued + [target])
                 && Targets(Enqueue(q, target, internal).work) == Targets(w)
    {
      hide UsedLast, Sorted;
    }

    // Linking the entry just filled: q is the queue before the enqueue, n and p its links.
    method UseEntry(e: nat, target: nat, internal: bool, ghost q: Queue, ghost n: seq<nat>, ghost p: seq<nat>)
      requires ListsOk(q) && |q.free| > 1 && e == q.free[0] && e < |q.work| && e !in q.io
      requires Linked(n, p, q, e, freeSeqEnd, ioSeq, ioSeqEnd) && freeSeq == q.free[1] && next != prev
      requires |n| == |p| == |q.work| && next[..] == n[e := NIL] && prev[..] == p[e := NIL]
      requires work[..] == q.work[e := Work(target, internal, false, |q.issued|)] && count == |q.issued| + 1
      requires View() == q.(free := q.free[1..], work := work[..], used := q.used + {e}, issued := q.issued + [target])
      modifies this`ioSeq, this`ioSeqEnd, this`io, next, prev
      ensures Rep() && View() == Enqueue(q, target, internal)
    {
      hide ListsOk, Linked, Place, Targets, Enqueue, LinkNext, LinkPrev, Forward, Backward, Slots, Insert;
      EnqueueIs(q, e, target, internal);
      EnqueueLinked(n, p, q, e, freeSeqEnd, ioSeq, ioSeqEnd, target, internal);
      EnqueueLists(q, target, internal);
      IoLinkedIs(q, n, p, e, e);
      InsertReqSorted(e, target);
    }

    /** __allocate_work_queue_entry, __enqueue_io_req and schedule_internal_operation for this worker
        (io.c:294-386): with one free slot left the request is dropped. */
    method EnqueueReq(target: nat, internal: bool) returns (ok: bool)
      requires Rep()
      modifies this, next, prev, work
      ensures Rep() && View() == Enqueue(old(View()), target, internal)
      ensures ok <==> |old(free)| > 1
    {
      hide ListsOk, Linked, Enqueue;
      ghost var q, n, p := View(), next[..], prev[..];
      FreeNext();
      var e := freeSeq;
      if next[e] >= next.Length {
        DroppedIs(q, target, internal);
        return false;
      }
      freeSeq := next[e];
      FillEntry(e, target, internal);
      free, used, issued := free[1..], used + {e}, issued + [target];
      UseEntry(e, target, internal, q, n, p);
      ok := true;
    }

    lemma DroppedIs(q: Queue, target: nat, internal: bool)
      requires ListsOk(q) && |q.free| == 1
      ensures Enqueue(q, target, internal) == q
    {
    }

    // ----- the dispatcher: reclaim -----

    // The scan of __reclaim_completed_reqs from the head (io.c:403-416).
    method LastReclaimable() returns (last: nat, ghost k: nat)
      requires Rep()
      ensures k == Reclaimed(io, work[..], latest) && last == PrevOf(io, k)
    {
      hide ListsOk, Linked, Reclaimed;
      IoRange();
      var curr := ioSeq;
      last, k := NIL, 0;
      assert io[0..] == io;
      while curr != NIL
        invariant k <= |io| && last == PrevOf(io, k) && curr == if k < |io| then io[k] else NIL
        invariant Reclaimed(io, work[..], latest) == k + Reclaimed(io[k..], work[..], latest)
        decreases |io| - k
      {
        var w := work[curr];
        IoNext(k);
        ReclaimedStep(io, work[..], latest, k);
        if w.completed && w.copied && w.target <= latest {
          last := curr;
          curr := next[curr];
          k := k + 1;
        } else {
          break;
        }
      }
      ReclaimedStep(io, work[..], latest, k);
    }

    static lemma ReclaimedStep(io: seq<nat>, w: seq<Work>, latest: nat, k: nat)
      requires k <= |io| && forall i :: 0 <= i < |io| ==> io[i] < |w|
      ensures Reclaimed(io[k..], w, latest) ==
              if k < |io| && Reclaimable(w[io[k]], latest) then 1 + Reclaimed(io[k + 1..], w, latest) else 0
    {
      if k < |io| {
        assert io[k..][1..] == io[k + 1..];
      }
    }

    lemma IoNext(k: nat)
      requires Rep() && k < |io|
      ensures io[k] < next.Length && next[io[k]] == if k + 1 < |io| then io[k + 1] else NIL
    {
      assert next[io[k]] == NextOf(io, k);
    }

    lemma IoRange()
      requires Rep()
      ensures work.Length < NIL && forall i :: 0 <= i < |io| ==> io[i] < work.Length
      ensures ioSeq == if io == [] then NIL else io[0]
    {
    }

    // Moving the first k requests, the last of which is `last`, behind the free list (io.c:418-432).
    method Splice(last: nat, ghost k: nat)
      requires Rep() && 0 < k == Reclaimed(io, work[..], latest) && last == io[k - 1]
      modifies this`ioSeq, this`freeSeqEnd, this`free, this`io, next, prev
      ensures Rep() && View() == Reclaim(old(View()))
    {
      hide ListsOk, Linked, Reclaimed, Slots;
      ghost var q, n, p := View(), next[..], prev[..];
      ReclaimLinked(next[..], prev[..], q, freeSeq, freeSeqEnd, ioSeq, ioSeqEnd, k);
      SpliceReads(k);
      var first := ioSeq;
      ioSeq := next[last];
      if next[last] != NIL {
        prev[next[last]] := NIL;
      }
      next[last] := NIL;
      prev[first] := freeSeqEnd;
      next[freeSeqEnd] := first;
      freeSeqEnd := last;
      assert next[..] == CutNext(n, q, k) && prev[..] == CutPrev(p, q, k);
      free, io := free + io[..k], io[k..];
    }

    // What the writes of Splice read.
    lemma SpliceReads(k: nat)
      requires Rep() && 0 < k <= |io|
      ensures next[io[k - 1]] == (if k < |io| then io[k] else NIL) && work.Length < NIL
      ensures ioSeq == io[0] && free != [] && freeSeqEnd == free[|free| - 1]
      ensures next.Length == prev.Length == work.Length && freeSeqEnd < work.Length
      ensures forall i :: 0 <= i < |io| ==> io[i] < work.Length && io[i] != freeSeqEnd
    {
      assert next[io[k - 1]] == NextOf(io, k - 1);
      AreApart(View());
    }

    /** __reclaim_completed_reqs for this worker (io.c:388-437). */
    method ReclaimCompleted()
      requires Rep()
      modifies this`ioSeq, this`freeSeqEnd, this`free, this`io, next, prev
      ensures Rep() && View() == Reclaim(old(View()))
    {
      hide ListsOk, Linked, Reclaimed, Reclaim;
      var last;
      ghost var k;
      last, k := LastReclaimable();
      WhichLast(last, k);
      if last != NIL {
        Splice(last, k);
      }
    }

    lemma WhichLast(last: nat, k: nat)
      requires Rep() && k == Reclaimed(io, work[..], latest) && last == PrevOf(io, k)
      ensures last == NIL <==> k == 0
      ensures k > 0 ==> last == io[k - 1]
      ensures k == 0 ==> Reclaim(View()) == View()
    {
      IoRange();
      assert k == 0 ==> free + io[..0] == free && io[0..] == io;
    }
  }
}

