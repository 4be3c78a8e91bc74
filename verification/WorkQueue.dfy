/**
 The I/O work queue (io.c:248-437, 614-693, 738-760): a free list and an in-flight list chained
 through one array of slots. The dispatcher enqueues and reclaims while a worker walks the in-flight
 list with a cursor that may be left behind in slots that have since been reclaimed or reused. Every
 method is one atomic step of either side, so what all of them keep holds under any interleaving.
 */
module WorkQueue {
  import opened Wrappers

  const NIL: nat := 0xFFFF_FFFF   // the unsigned -1 that ends a chain

  // ----- chains -----

  function NextOf(q: seq<nat>, i: nat): nat { if i + 1 < |q| then q[i + 1] else NIL }

  function PrevOf(q: seq<nat>, i: nat): nat { if 0 < i <= |q| then q[i - 1] else NIL }

  ghost predicate Slots(q: seq<nat>, n: nat) {
    && (forall i :: 0 <= i < |q| ==> q[i] < n)
    && (forall i, j :: 0 <= i < j < |q| ==> q[i] != q[j])
  }

  // next chains the slots of q in order.
  ghost predicate Forward(next: seq<nat>, q: seq<nat>) {
    forall i :: 0 <= i < |q| ==> q[i] < |next| && next[q[i]] == NextOf(q, i)
  }

  // prev is its mirror image.
  ghost predicate Backward(prev: seq<nat>, q: seq<nat>) {
    forall i :: 0 <= i < |q| ==> q[i] < |prev| && prev[q[i]] == PrevOf(q, i)
  }

  function Insert(q: seq<nat>, p: nat, e: nat): (r: seq<nat>)
    requires p <= |q|
    ensures |r| == |q| + 1
    ensures forall i :: 0 <= i <= |q| ==> r[i] == if i < p then q[i] else if i == p then e else q[i - 1]
  {
    seq(|q| + 1, i requires 0 <= i <= |q| => if i < p then q[i] else if i == p then e else q[i - 1])
  }

  // The two writes that link e into a chain before position p.
  function LinkNext(next: seq<nat>, q: seq<nat>, p: nat, e: nat): (r: seq<nat>)
    requires p <= |q| && e < |next| && forall i :: 0 <= i < |q| ==> q[i] < |next|
    ensures |r| == |next|
  {
    var linked: seq<nat> := next[e := if p < |q| then q[p] else NIL];
    if p > 0 then linked[q[p - 1] := e] else linked
  }

  function LinkPrev(prev: seq<nat>, q: seq<nat>, p: nat, e: nat): (r: seq<nat>)
    requires p <= |q| && e < |prev| && forall i :: 0 <= i < |q| ==> q[i] < |prev|
    ensures |r| == |prev|
  {
    var linked: seq<nat> := prev[e := PrevOf(q, p)];
    if p < |q| then linked[q[p] := e] else linked
  }

  lemma InsertSlots(q: seq<nat>, p: nat, e: nat, n: nat)
    requires Slots(q, n) && p <= |q| && e < n && e !in q
    ensures Slots(Insert(q, p, e), n)
  {
    var r := Insert(q, p, e);
    forall i, j | 0 <= i < j < |r| ensures r[i] != r[j] {
    }
  }

  lemma LinkNextIs(next: seq<nat>, q: seq<nat>, p: nat, e: nat)
    requires Slots(q, |next|) && p <= |q| && e < |next| && e !in q
    ensures var r := LinkNext(next, q, p, e);
            && r[e] == (if p < |q| then q[p] else NIL)
            && (p > 0 ==> r[q[p - 1]] == e)
            && (forall x :: 0 <= x < |next| && x != e && (p > 0 ==> x != q[p - 1]) ==> r[x] == next[x])
  {
  }

  lemma LinkPrevIs(prev: seq<nat>, q: seq<nat>, p: nat, e: nat)
    requires Slots(q, |prev|) && p <= |q| && e < |prev| && e !in q
    ensures var r := LinkPrev(prev, q, p, e);
            && r[e] == PrevOf(q, p)
            && (p < |q| ==> r[q[p]] == e)
            && (forall x :: 0 <= x < |prev| && x != e && (p < |q| ==> x != q[p]) ==> r[x] == prev[x])
  {
  }

  lemma InsertForward(next: seq<nat>, q: seq<nat>, p: nat, e: nat)
    requires Slots(q, |next|) && Forward(next, q) && p <= |q| && e < |next| && e !in q
    ensures Forward(LinkNext(next, q, p, e), Insert(q, p, e))
  {
    hide LinkNext;
    LinkNextIs(next, q, p, e);
    var r, n := Insert(q, p, e), LinkNext(next, q, p, e);
    forall i | 0 <= i < |r| ensures r[i] < |n| && n[r[i]] == NextOf(r, i) {
      if i < p {
        assert r[i] == q[i];
      } else if i > p {
        assert r[i] == q[i - 1];
      }
    }
  }

  lemma InsertBackward(prev: seq<nat>, q: seq<nat>, p: nat, e: nat)
    requires Slots(q, |prev|) && Backward(prev, q) && p <= |q| && e < |prev| && e !in q
    ensures Backward(LinkPrev(prev, q, p, e), Insert(q, p, e))
  {
    hide LinkPrev;
    LinkPrevIs(prev, q, p, e);
    var r, n := Insert(q, p, e), LinkPrev(prev, q, p, e);
    forall i | 0 <= i < |r| ensures r[i] < |n| && n[r[i]] == PrevOf(r, i) {
      if i < p {
        assert r[i] == q[i];
      } else if i > p {
        assert r[i] == q[i - 1];
      }
    }
  }

  // Writes outside a chain leave it alone.
  lemma Apart(next: seq<nat>, next': seq<nat>, q: seq<nat>)
    requires Forward(next, q) && |next'| == |next|
    requires forall i :: 0 <= i < |q| ==> q[i] < |next| && next'[q[i]] == next[q[i]]
    ensures Forward(next', q)
  {
  }

  lemma ApartBack(prev: seq<nat>, prev': seq<nat>, q: seq<nat>)
    requires Backward(prev, q) && |prev'| == |prev|
    requires forall i :: 0 <= i < |q| ==> q[i] < |prev| && prev'[q[i]] == prev[q[i]]
    ensures Backward(prev', q)
  {
  }

  lemma DropFirst(next: seq<nat>, q: seq<nat>)
    requires Forward(next, q) && q != []
    ensures Forward(next, q[1..])
  {
  }

  // ----- order -----

  // The time from which a request can complete, seen at time now.
  function Due(target: nat, now: nat): nat { if target > now then target else now }

  /** In-flight requests in order of max(nsecs_target, latest_nsecs). */
  ghost predicate Sorted(q: seq<nat>, targets: seq<nat>, now: nat) {
    && (forall i :: 0 <= i < |q| ==> q[i] < |targets|)
    && (forall i, j :: 0 <= i < j < |q| ==> Due(targets[q[i]], now) <= Due(targets[q[j]], now))
  }

  /** The order survives any increase of latest_nsecs. */
  lemma SortedLater(q: seq<nat>, targets: seq<nat>, now: nat, later: nat)
    requires Sorted(q, targets, now) && now <= later
    ensures Sorted(q, targets, later)
  {
  }

  // Where a request with this target goes: after every request that is due no later, which keeps
  // requests with equal targets first come first served.
  ghost predicate PlaceFor(q: seq<nat>, targets: seq<nat>, now: nat, target: nat, p: nat) {
    && p <= |q|
    && (forall i :: 0 <= i < |q| ==> q[i] < |targets|)
    && (forall i :: 0 <= i < p ==> Due(targets[q[i]], now) <= Due(target, now))
    && (forall i :: p <= i < |q| ==> Due(targets[q[i]], now) > Due(target, now))
  }

  lemma InsertSorted(q: seq<nat>, targets: seq<nat>, now: nat, target: nat, p: nat, e: nat)
    requires Sorted(q, targets, now) && PlaceFor(q, targets, now, target, p)
    requires e < |targets| && targets[e] == target
    ensures Sorted(Insert(q, p, e), targets, now)
  {
    var r := Insert(q, p, e);
    forall i | 0 <= i < |r|
      ensures r[i] == if i < p then q[i] else if i == p then e else q[i - 1]
    {
    }
  }

  lemma SortedFrame(q: seq<nat>, targets: seq<nat>, targets': seq<nat>, now: nat)
    requires Sorted(q, targets, now) && |targets| == |targets'|
    requires forall i :: 0 <= i < |q| ==> targets'[q[i]] == targets[q[i]]
    ensures Sorted(q, targets', now)
  {
  }

  // Scanning from the tail finds the place as soon as a request is due no later.
  lemma TailScan(q: seq<nat>, targets: seq<nat>, now: nat, target: nat, p: nat)
    requires Sorted(q, targets, now) && p <= |q|
    requires forall i :: p <= i < |q| ==> targets[q[i]] > now && targets[q[i]] > target
    requires p > 0 ==> targets[q[p - 1]] <= now || targets[q[p - 1]] <= target
    ensures PlaceFor(q, targets, now, target, p)
  {
    if p > 0 {
      forall i | 0 <= i < p ensures Due(targets[q[i]], now) <= Due(target, now) {
        assert Due(targets[q[i]], now) <= Due(targets[q[p - 1]], now);
      }
    }
  }
}
