/**
 Runs of requests on a channel. What the units of the timeline have given out is what the requests
 were granted, and no stretch of time gives out more credits than its units have as long as the clock
 does not go back. While it also goes on by fewer than 2^32 units at a time, the ring shows exactly
 what each unit still has.
 */
module ChannelRuns {
  import opened Arith
  import opened FtlModel
  import opened ChannelModel

  // ----- runs -----

  // The ring after some requests on a new channel.
  function RunRing(qs: seq<Ask>, m: nat): (r: Ring)
    ensures r.validLen <= |r.w| == N && r.time == LastTime(qs)
  {
    if qs == [] then Ring(Full(N, m), 0, 0)
    else Serve(RunRing(qs[..|qs| - 1], m), qs[|qs| - 1], m).ring
  }

  function LastTime(qs: seq<Ask>): nat { if qs == [] then 0 else qs[|qs| - 1].now }

  // What each unit has given out after a request: what the request took from a slot was its unit's.
  ghost function Spend(r: Ring, spent: nat -> nat, q: Ask, m: nat): nat -> nat
    requires r.validLen <= |r.w| == N
  {
    var w, left, u := Synced(r, q.now, m).w, Serve(r, q, m).ring.w, UnitOf(q.now);
    (t: nat) => if u <= t < u + N && left[t - u] <= w[t - u] then spent(t) + (w[t - u] - left[t - u]) else spent(t)
  }

  ghost function RunSpent(qs: seq<Ask>, m: nat): nat -> nat {
    if qs == [] then _ => 0
    else
      var n := |qs| - 1;
      Spend(RunRing(qs[..n], m), RunSpent(qs[..n], m), qs[n], m)
  }

  // What k units from a on have given out.
  ghost function Given(spent: nat -> nat, a: nat, k: nat): nat {
    if k == 0 then 0 else Given(spent, a, k - 1) + spent(a + k - 1)
  }

  // The first unit of a request.
  function First(q: Ask): nat { UnitOf(q.now) + Offset(q.start, q.now) }

  // The credits granted to all requests, and to those that stay within the k units from a on.
  function Total(qs: seq<Ask>, m: nat): nat {
    if qs == [] then 0
    else
      var n := |qs| - 1;
      Total(qs[..n], m) + Serve(RunRing(qs[..n], m), qs[n], m).granted
  }

  predicate Stays(q: Ask, crossed: nat, a: nat, k: nat) { a <= First(q) && First(q) + crossed < a + k }

  function Inside(qs: seq<Ask>, m: nat, a: nat, k: nat): nat {
    if qs == [] then 0
    else
      var n := |qs| - 1;
      var o := Serve(RunRing(qs[..n], m), qs[n], m);
      Inside(qs[..n], m, a, k) + if o.admitted && Stays(qs[n], o.crossed, a, k) then o.granted else 0
  }

  // ----- credits of stretches of the timeline -----

  lemma {:induction false} GivenSplit(spent: nat -> nat, a: nat, j: nat, k: nat)
    ensures Given(spent, a, j + k) == Given(spent, a, j) + Given(spent, a + j, k)
  {
    if k > 0 {
      GivenSplit(spent, a, j, k - 1);
    }
  }

  lemma {:induction false} GivenSame(spent: nat -> nat, after: nat -> nat, a: nat, k: nat)
    requires forall t: nat :: a <= t < a + k ==> after(t) == spent(t)
    ensures Given(after, a, k) == Given(spent, a, k)
  {
    if k > 0 {
      GivenSame(spent, after, a, k - 1);
    }
  }

  lemma {:induction false} GivenMore(spent: nat -> nat, after: nat -> nat, a: nat, k: nat)
    requires forall t: nat :: spent(t) <= after(t)
    ensures Given(spent, a, k) <= Given(after, a, k)
  {
    if k > 0 {
      GivenMore(spent, after, a, k - 1);
    }
  }

  lemma {:induction false} GivenAtMost(spent: nat -> nat, a: nat, k: nat, m: nat)
    requires forall t: nat :: spent(t) <= m
    ensures Given(spent, a, k) <= k * m
  {
    if k > 0 {
      GivenAtMost(spent, a, k - 1, m);
      Distribute(k - 1, 1, m);
    }
  }

  // A stretch of units, cut before and behind unit e.
  lemma GivenAround(spent: nat -> nat, a: nat, b: nat, e: nat, k: nat)
    requires a <= b <= e < a + k
    ensures Given(spent, a, k) == Given(spent, a, b - a) + Given(spent, b, e - b) + spent(e)
                                  + Given(spent, e + 1, a + k - e - 1)
  {
    hide Given;
    GivenSplit(spent, a, b - a, a + k - b);
    GivenSplit(spent, b, e - b, a + k - e);
    GivenSplit(spent, e, 1, a + k - e - 1);
    GivenOne(spent, e);
  }

  lemma GivenOne(spent: nat -> nat, e: nat)
    ensures Given(spent, e, 1) == spent(e)
  {
    assert Given(spent, e, 0) == 0;
  }

  // ----- what one request takes -----

  // A request takes what it is granted from the units from its first to the last it crosses into,
  // and no unit takes anything back.
  lemma SpendAdds(r: Ring, spent: nat -> nat, q: Ask, m: nat)
    requires r.validLen <= |r.w| == N
    ensures var o, after := Serve(r, q, m), Spend(r, spent, q, m);
            && (forall t: nat :: spent(t) <= after(t))
            && (!o.admitted ==> o.granted == 0 && forall t: nat :: after(t) == spent(t))
            && (o.admitted ==>
                  && (forall t: nat :: t < First(q) || First(q) + o.crossed < t ==> after(t) == spent(t))
                  && Given(after, First(q), o.crossed + 1) == Given(spent, First(q), o.crossed + 1) + o.granted)
  {
    hide Synced, UnitOf, Greedy, U32, Given;
    if Admits(q) {
      var w, offs := Synced(r, q.now, m).w, Offset(q.start, q.now);
      GreedyIs(w, offs, q.need);
      var g := Greedy(w, offs, q.need);
      TakenGiven(w, spent, Spend(r, spent, q, m), UnitOf(q.now), offs, q.need, g, g.last - offs);
      GivenLast(spent, First(q), g.last - offs);
      GivenLast(Spend(r, spent, q, m), First(q), g.last - offs);
    }
  }

  lemma GivenLast(spent: nat -> nat, a: nat, k: nat)
    ensures Given(spent, a, k + 1) == Given(spent, a, k) + spent(a + k)
  {
  }

  // The first j units of a request give all that their slots show.
  lemma {:induction false} TakenGiven(w: seq<nat>, spent: nat -> nat, after: nat -> nat, u: nat, offs: nat, need: nat,
                                      g: Grant, j: nat)
    requires offs < |w| && TakenGreedily(w, offs, need, g) && offs + j <= g.last
    requires forall t: nat :: u + offs <= t < u + g.last ==> after(t) == spent(t) + w[t - u]
    ensures Given(after, u + offs, j) == Given(spent, u + offs, j) + Sum(w[offs..offs + j])
  {
    if j > 0 {
      TakenGiven(w, spent, after, u, offs, need, g, j - 1);
      assert w[offs..offs + j][..j - 1] == w[offs..offs + j - 1];
    }
  }

  // What a slot loses its unit has given, and no other unit gives anything.
  lemma SpendKeeps(r: Ring, spent: nat -> nat, q: Ask, m: nat)
    requires r.validLen <= |r.w| == N
    ensures var s, o, after, u := Synced(r, q.now, m), Serve(r, q, m), Spend(r, spent, q, m), UnitOf(q.now);
            && (forall k :: 0 <= k < N ==> o.ring.w[k] + after(u + k) == s.w[k] + spent(u + k))
            && (forall t: nat :: t < u || u + o.ring.validLen <= t ==> after(t) == spent(t))
            && s.validLen <= o.ring.validLen
  {
    hide UnitOf, Synced, Greedy, Offset, Sum;
    if Admits(q) {
      GreedyIs(Synced(r, q.now, m).w, Offset(q.start, q.now), q.need);
    }
  }

  // In the view of any units, a request adds what it was granted if it stays within them.
  lemma SpendInside(r: Ring, spent: nat -> nat, q: Ask, m: nat, a: nat, k: nat)
    requires r.validLen <= |r.w| == N
    ensures var o, after := Serve(r, q, m), Spend(r, spent, q, m);
            && Given(spent, a, k) <= Given(after, a, k)
            && (!o.admitted ==> o.granted == 0 && Given(after, a, k) == Given(spent, a, k))
            && (o.admitted && Stays(q, o.crossed, a, k) ==> Given(after, a, k) == Given(spent, a, k) + o.granted)
  {
    hide Serve, Spend, Given;
    var o, after := Serve(r, q, m), Spend(r, spent, q, m);
    SpendAdds(r, spent, q, m);
    GivenMore(spent, after, a, k);
    if !o.admitted {
      GivenSame(spent, after, a, k);
    } else if Stays(q, o.crossed, a, k) {
      var b, e := First(q), First(q) + o.crossed;
      GivenAround(spent, a, b, e, k);
      GivenAround(after, a, b, e, k);
      GivenLast(spent, b, e - b);
      GivenLast(after, b, e - b);
      GivenSame(spent, after, a, b - a);
      GivenSame(spent, after, e + 1, a + k - e - 1);
    }
  }

  // ----- conservation -----

  // The end of the last window that a request could take credits from.
  function Horizon(qs: seq<Ask>): nat {
    if qs == [] then 0
    else
      var n := |qs| - 1;
      var before, end := Horizon(qs[..n]), UnitOf(qs[n].now) + N;
      if before > end then before else end
  }

  lemma {:induction false} NothingGiven(k: nat)
    ensures Given(_ => 0, 0, k) == 0
  {
    if k > 0 {
      NothingGiven(k - 1);
    }
  }

  lemma StaysBelow(r: Ring, q: Ask, m: nat, t: nat)
    requires r.validLen <= |r.w| == N && Admits(q) && UnitOf(q.now) + N <= t
    ensures Stays(q, Serve(r, q, m).crossed, 0, t)
  {
    hide Synced, Greedy, UnitOf;
  }

  /** No credit is lost and none is made: after any requests, whatever the clock did, the units have
      given out together what the requests were granted. */
  lemma {:induction false} CreditsConserved(qs: seq<Ask>, m: nat, t: nat)
    requires Horizon(qs) <= t
    ensures Given(RunSpent(qs, m), 0, t) == Total(qs, m)
  {
    hide Serve, Given, Stays, Spend;
    if qs == [] {
      NothingGiven(t);
    } else {
      var n := |qs| - 1;
      CreditsConserved(qs[..n], m, t);
      SpendInside(RunRing(qs[..n], m), RunSpent(qs[..n], m), qs[n], m, 0, t);
      if Admits(qs[n]) {
        StaysBelow(RunRing(qs[..n], m), qs[n], m, t);
      }
    }
  }

  // ----- the bandwidth limit -----

  /** The clock does not go back by a unit. */
  predicate Forward(qs: seq<Ask>) {
    qs == []
    || var n := |qs| - 1;
       Forward(qs[..n]) && UnitOf(LastTime(qs[..n])) <= UnitOf(qs[n].now)
  }

  // The ring shows no more than the units still have; behind validLen none has given anything.
  ghost predicate Covers(r: Ring, spent: nat -> nat, m: nat) {
    && r.validLen <= |r.w| == N
    && (forall k :: 0 <= k < N ==> r.w[k] + spent(UnitOf(r.time) + k) <= m)
    && (forall t: nat :: spent(t) <= m)
    && (forall t: nat :: UnitOf(r.time) + r.validLen <= t ==> spent(t) == 0)
  }

  // Whatever the truncated difference resets, the slots show no more than the units have.
  lemma SyncedCovers(r: Ring, spent: nat -> nat, m: nat, now: nat)
    requires Covers(r, spent, m) && UnitOf(r.time) <= UnitOf(now)
    ensures Covers(Synced(r, now, m), spent, m)
  {
    hide UnitOf, U32;
    var u, diff: nat := UnitOf(r.time), UnitOf(now) - UnitOf(r.time);
    SmallU32(diff);
    var s := Synced(r, now, m);
    var offs := Min(U32(diff), r.validLen);
    forall k | 0 <= k < N ensures s.w[k] + spent(UnitOf(now) + k) <= m {
      if offs + k < N {
        assert s.w[k] == r.w[offs + k];
        assert r.w[offs + k] + spent(u + (offs + k)) <= m;
      }
    }
  }

  lemma SpendCovers(r: Ring, spent: nat -> nat, q: Ask, m: nat)
    requires Covers(r, spent, m) && UnitOf(r.time) <= UnitOf(q.now)
    ensures Covers(Serve(r, q, m).ring, Spend(r, spent, q, m), m)
  {
    hide UnitOf, Synced, Serve, Spend;
    SyncedCovers(r, spent, m, q.now);
    SpendKeeps(r, spent, q, m);
    var s, o, after, u := Synced(r, q.now, m), Serve(r, q, m), Spend(r, spent, q, m), UnitOf(q.now);
    forall t: nat ensures after(t) <= m {
      if u <= t < u + N {
        assert o.ring.w[t - u] + after(u + (t - u)) == s.w[t - u] + spent(u + (t - u)) <= m;
      }
    }
  }

  lemma {:induction false} RunCovers(qs: seq<Ask>, m: nat)
    requires Forward(qs)
    ensures Covers(RunRing(qs, m), RunSpent(qs, m), m)
  {
    hide Serve, Spend, UnitOf, Covers, Full;
    if qs == [] {
      NewCovers(m);
    } else {
      RunCovers(qs[..|qs| - 1], m);
      SpendCovers(RunRing(qs[..|qs| - 1], m), RunSpent(qs[..|qs| - 1], m), qs[|qs| - 1], m);
    }
  }

  lemma NewCovers(m: nat)
    ensures Covers(Ring(Full(N, m), 0, 0), _ => 0, m)
  {
  }

  lemma {:induction false} InsideGiven(qs: seq<Ask>, m: nat, a: nat, k: nat)
    ensures Inside(qs, m, a, k) <= Given(RunSpent(qs, m), a, k)
  {
    hide Serve, Given, Stays, Spend;
    if qs != [] {
      var n := |qs| - 1;
      InsideGiven(qs[..n], m, a, k);
      SpendInside(RunRing(qs[..n], m), RunSpent(qs[..n], m), qs[n], m, a, k);
    }
  }

  /** The bandwidth limit: over any run whose clock does not go back, however far it jumps ahead, the
      requests whose transfers stay within some k units are granted no more than k times the credits
      of a slot in all. */
  lemma BandwidthLimit(qs: seq<Ask>, m: nat, a: nat, k: nat)
    requires Forward(qs)
    ensures Inside(qs, m, a, k) <= k * m
  {
    InsideGiven(qs, m, a, k);
    RunCovers(qs, m);
    GivenAtMost(RunSpent(qs, m), a, k, m);
  }

  // A full slot gives a request for all its credits just those.
  lemma OneSlot(r: Ring, q: Ask, m: nat)
    requires r.validLen <= |r.w| == N && Admits(q) && q.need == m
    requires Synced(r, q.now, m).w[Offset(q.start, q.now)] == m
    ensures var o := Serve(r, q, m);
            && o.admitted && o.crossed == 0 && o.granted == m
            && o.ring.w == Synced(r, q.now, m).w[Offset(q.start, q.now) := 0]
            && o.ring.validLen >= 1
  {
    hide Synced, UnitOf, U32;
  }

  lemma SmallUnits()
    ensures UnitOf(0) == 0 && UnitOf(UNIT) == 1 && U32(-1) == TWO_32 - 1 && U32(0) == 0 && U32(1) == 1
  {
  }

  /** When the clock does go back by a unit, one unit can give its credits twice. */
  lemma ClockBack(m: nat)
    ensures var q1, q2 := Ask(UNIT, UNIT, m), Ask(0, UNIT, m);
            Inside([q1, q2], m, 1, 1) == 2 * m
  {
    hide Serve, UnitOf, U32;
    SmallUnits();
    var q1, q2 := Ask(UNIT, UNIT, m), Ask(0, UNIT, m);
    var r0 := Ring(Full(N, m), 0, 0);
    assert Synced(r0, UNIT, m).w[0] == m;
    OneSlot(r0, q1, m);
    var r1 := Serve(r0, q1, m).ring;
    assert Synced(r1, 0, m).w[1] == m;
    OneSlot(r1, q2, m);
    assert [q1, q2][..1] == [q1] && [q1][..0] == [];
    assert Inside([q1], m, 1, 1) == m;
  }

  // ----- exactly what each unit has -----

  /** The clock does not go back, and goes on by fewer than 2^32 units from one request to the next. */
  predicate Steady(qs: seq<Ask>) {
    qs == []
    || var n := |qs| - 1;
       && Steady(qs[..n]) && LastTime(qs[..n]) <= qs[n].now
       && UnitOf(qs[n].now) - UnitOf(LastTime(qs[..n])) < TWO_32
  }

  lemma SteadyMoves(qs: seq<Ask>, r: Ring, spent: nat -> nat)
    requires qs != [] && Steady(qs) && r.time == LastTime(qs[..|qs| - 1])
    ensures CanMove(r, spent, qs[|qs| - 1].now)
  {
    UnitMono(r.time, qs[|qs| - 1].now);
  }

  // A ring that shows the timeline exactly goes on doing so.
  lemma SpendReflects(r: Ring, spent: nat -> nat, q: Ask, m: nat)
    requires Reflects(r, spent, m) && CanMove(r, spent, q.now)
    ensures Reflects(Serve(r, q, m).ring, Spend(r, spent, q, m), m)
  {
    hide UnitOf, Synced, Serve, Spend, CanMove;
    SyncedReflects(r, spent, m, q.now);
    SpendKeeps(r, spent, q, m);
    var s, o, after, u := Synced(r, q.now, m), Serve(r, q, m), Spend(r, spent, q, m), UnitOf(q.now);
    forall t: nat ensures after(t) <= m {
      if u <= t < u + N {
        assert o.ring.w[t - u] + after(u + (t - u)) == s.w[t - u] + spent(u + (t - u)) == m;
      }
    }
  }

  lemma NewReflects(m: nat)
    ensures Reflects(Ring(Full(N, m), 0, 0), _ => 0, m)
  {
  }

  /** Over any such run the ring shows exactly what each unit still has. */
  lemma {:induction false} RunReflects(qs: seq<Ask>, m: nat)
    requires Steady(qs)
    ensures Reflects(RunRing(qs, m), RunSpent(qs, m), m)
  {
    hide Serve, Spend, Reflects, CanMove, Full;
    if qs == [] {
      NewReflects(m);
    } else {
      var n := |qs| - 1;
      RunReflects(qs[..n], m);
      SteadyMoves(qs, RunRing(qs[..n], m), RunSpent(qs[..n], m));
      SpendReflects(RunRing(qs[..n], m), RunSpent(qs[..n], m), qs[n], m);
    }
  }
}
