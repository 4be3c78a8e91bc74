/**
 The channel bandwidth model (channel_model.c): a ring of credits per 4 microsecond unit, reset
 lazily as the clock moves, stands for an unbounded timeline in which every unit has the same number
 of credits to give: max_credits, as far as it fits a byte. A request takes credits greedily from its unit on.
 */
module ChannelModel {
  import opened Arith
  import opened FtlModel
  import opened Wrappers

  const N: nat := 98304          // NR_CREDIT_ENTRIES
  const UNIT: nat := 4000        // UNIT_TIME_INTERVAL, in nanoseconds

  // A slot is a byte (credit_t).
  function U8(x: nat): (r: nat)
    ensures r <= x && (r == x <==> x <= 255)
  {
    x % 256
  }

  function Min(a: nat, b: nat): nat { if a <= b then a else b }

  // ----- taking credits greedily -----

  // The window after a request, the last slot it took from, and the credits it did not get.
  datatype Grant = Grant(w: seq<nat>, last: nat, left: nat)

  function Greedy(w: seq<nat>, k: nat, need: nat): (r: Grant)
    requires k < |w|
    ensures |r.w| == |w| && k <= r.last < |w| && r.left <= need
    decreases |w| - k
  {
    var c := Min(need, w[k]);
    var w1 := w[k := w[k] - c];
    if need == c then Grant(w1, k, 0)
    else if k + 1 < |w| then Greedy(w1, k + 1, need - c)
    else Grant(w1, k, need - c)
  }

  lemma SumCons(q: seq<nat>)
    requires q != []
    ensures Sum(q) == q[0] + Sum(q[1..])
  {
    if |q| > 1 {
      SumCons(q[..|q| - 1]);
      assert q[..|q| - 1][1..] == q[1..][..|q| - 2];
    }
  }

  /** Greedy consumption, stated by its outcome: the slots before the last one are emptied, the last
      one gives what is still missing, no other slot changes; everything asked for is given, except
      for what is left over when the window ends; and no earlier slot could have been the last. */
  ghost predicate TakenGreedily(w: seq<nat>, k: nat, need: nat, r: Grant) {
    && |r.w| == |w| && k <= r.last < |w|
    && Sum(w[k..r.last]) + w[r.last] + r.left == need + r.w[r.last]
    && (k < r.last ==> Sum(w[k..r.last]) < need)
    && r.w[r.last] <= w[r.last]
    && (forall j :: k <= j < r.last ==> r.w[j] == 0)
    && (forall j :: 0 <= j < k || r.last < j < |w| ==> r.w[j] == w[j])
    && (r.left > 0 ==> r.last == |w| - 1 && r.w[r.last] == 0)
  }

  lemma {:induction false} GreedyIs(w: seq<nat>, k: nat, need: nat)
    requires k < |w|
    ensures TakenGreedily(w, k, need, Greedy(w, k, need))
    decreases |w| - k
  {
    hide TakenGreedily;
    var c := Min(need, w[k]);
    if need != c && k + 1 < |w| {
      var w1 := w[k := w[k] - c];
      GreedyIs(w1, k + 1, need - c);
      GreedyMore(w, k, need, Greedy(w1, k + 1, need - c));
    } else {
      GreedyLast(w, k, need);
    }
  }

  lemma GreedyLast(w: seq<nat>, k: nat, need: nat)
    requires k < |w| && (need <= w[k] || k + 1 == |w|)
    ensures TakenGreedily(w, k, need, Grant(w[k := w[k] - Min(need, w[k])], k, need - Min(need, w[k])))
  {
    assert w[k..k] == [];
  }

  lemma GreedyMore(w: seq<nat>, k: nat, need: nat, r: Grant)
    requires k + 1 < |w| && w[k] < need && TakenGreedily(w[k := 0], k + 1, need - w[k], r)
    ensures TakenGreedily(w, k, need, r)
  {
    var w1 := w[k := 0];
    assert w1[k + 1..r.last] == w[k..r.last][1..];
    SumCons(w[k..r.last]);
  }

  /** With every slot full from k on, n credits reach from slot k over (n - 1) / m further slots. */
  lemma {:induction false} GreedyFull(w: seq<nat>, k: nat, need: nat, m: nat)
    requires k < |w| && 0 < m && 0 < need
    requires forall j :: k <= j < |w| ==> w[j] == m
    requires k + Quo(need - 1, m) < |w|
    ensures Greedy(w, k, need).last == k + Quo(need - 1, m) && Greedy(w, k, need).left == 0
    decreases |w| - k
  {
    PartsMix(need - 1, m);
    if need > m {
      LessOne(need - 1, m);
      GreedyFull(w[k := 0], k + 1, need - m, m);
    } else {
      QuoBetween(need - 1, m, 0);
    }
  }

  lemma LessOne(x: nat, m: nat)
    requires 0 < m <= x
    ensures Quo(x, m) == Quo(x - m, m) + 1
  {
    PartsMix(x - m, m);
    Distribute(Quo(x - m, m), 1, m);
    MixParts(Quo(x - m, m) + 1, m, Rem(x - m, m));
  }

  /** Crossing that many slots is no later than the transfer time already accounts for. */
  lemma NoDelay(need: nat, m: nat)
    requires 0 < m && 0 < need
    ensures Quo(need - 1, m) <= Quo(need, m)
  {
    PartsMix(need - 1, m);
    QuoBetween(need, m, Quo(need - 1, m));
  }

  /** The slots are bytes, so with max_credits beyond 255 each holds less than the default delay
      counts on. A channel with nothing spent makes every request wait no longer than its transfer
      time if and only if max_credits fits a byte. */
  lemma NoDelayExactly(m: nat)
    requires 0 < m && 0 < U8(m)
    ensures (forall need: nat :: 0 < need ==> Quo(need - 1, U8(m)) <= Quo(need, m)) <==> m <= 255
  {
    hide Quo;
    if m <= 255 {
      forall need: nat | 0 < need ensures Quo(need - 1, U8(m)) <= Quo(need, m) {
        NoDelay(need, m);
      }
    } else {
      var need: nat := U8(m) + 1;
      QuoBetween(need, m, 0);
      QuoBetween(need - 1, U8(m), 1);
      assert Quo(need - 1, U8(m)) > Quo(need, m);
    }
  }

  function Full(n: nat, m: nat): (r: seq<nat>)
    ensures |r| == n && forall i :: 0 <= i < n ==> r[i] == m
  {
    seq(n, _ => m)
  }

  // Where the k-th slot from head is in the ring.
  function Slot(head: nat, k: nat): nat { if head + k < N then head + k else head + k - N }

  function Turned(ring: seq<nat>, head: nat): (r: seq<nat>)
    requires head <= |ring|
    ensures |r| == |ring|
  {
    ring[head..] + ring[..head]
  }

  lemma TurnedAt(ring: seq<nat>, head: nat, k: nat, x: nat)
    requires |ring| == N && head < N && k < N
    ensures Turned(ring, head)[k] == ring[Slot(head, k)] && Slot(head, k) < N
    ensures Slot(head, k) == (head + k) % N
    ensures Turned(ring[Slot(head, k) := x], head) == Turned(ring, head)[k := x]
  {
  }

  // ----- the clock moves -----

  // What the driver makes of the window when the clock moves by diff units: the difference is kept
  // in 32 bits and cut at valid_len (channel_model.c:43-44).
  function Moved(w: seq<nat>, validLen: nat, diff: int, m: nat): (r: seq<nat>)
    requires validLen <= |w|
    ensures |r| == |w|
  {
    var offs := Min(U32(diff), validLen);
    w[offs..] + Full(offs, m)
  }

  // What the timeline shows through the window when the clock moves by diff units.
  function Shifted(w: seq<nat>, diff: nat, m: nat): (r: seq<nat>)
    ensures |r| == |w|
  {
    if diff >= |w| then Full(|w|, m) else w[diff..] + Full(diff, m)
  }

  /** Lazy resetting is exact if and only if the clock moved by fewer than 2^32 units, or every slot
      that the truncated difference leaves in the window is full anyway. */
  lemma MovedExactly(w: seq<nat>, validLen: nat, diff: nat, m: nat)
    requires validLen <= |w| <= N && forall j :: validLen <= j < |w| ==> w[j] == m
    ensures Moved(w, validLen, diff, m) == Shifted(w, diff, m)
            <==> diff < TWO_32 || forall j :: U32(diff) <= j < validLen ==> w[j] == m
  {
    hide U32;
    var offs := Min(U32(diff), validLen);
    SmallU32(diff);
    if diff >= TWO_32 {
      forall j | offs <= j < |w|
        ensures Moved(w, validLen, diff, m)[j - offs] == w[j]
      {
      }
    }
  }

  lemma SmallU32(x: nat)
    ensures U32(x) < TWO_32 && U32(x) <= x && (x < TWO_32 ==> U32(x) == x)
  {
  }

  /** And it does go wrong: with the driver's ring, one used slot and an idle time of exactly 2^32
      units the window is unchanged, so the used slot is seen again, while on the timeline everything
      is unspent. */
  lemma StaleAfterWrap(m: nat, validLen: nat)
    requires 0 < m && 1 <= validLen <= N
    ensures var w: seq<nat> := [0] + Full(N - 1, m);
            && |w| == N && (forall j :: validLen <= j < N ==> w[j] == m)
            && Moved(w, validLen, TWO_32, m) == w
            && Shifted(w, TWO_32, m) == Full(N, m) != w
  {
    hide U32;
    var w: seq<nat> := [0] + Full(N - 1, m);
    WholeTurn();
    assert Moved(w, validLen, TWO_32, m) == w;
    assert w[0] != Full(N, m)[0];
  }

  lemma WholeTurn()
    ensures U32(TWO_32) == 0
  {
  }

  // ----- the ring -----

  // What a request is told: the time at which its transfer ends (channel_model.c:115-119).
  function EndTime(requestTime: nat, xferLat: nat, units: nat, crossed: nat, need: nat, m: nat): nat
    requires 0 < m
  {
    var delay := if crossed > Quo(need, m) then crossed - Quo(need, m) else 0;
    requestTime + U32(xferLat * units) + delay * UNIT
  }

  // DIV_ROUND_UP(length, UNIT_XFER_SIZE) in 32 bits.
  function Units(length: nat): nat { U32((length + 127) / 128) }

  // A unit's index on the timeline.
  function UnitOf(time: nat): nat { Quo(time, UNIT) }

  // ----- the timeline -----

  // The credits that units a to b - 1 still have to give.
  ghost function Free(spent: nat -> nat, m: nat, a: nat, b: nat): int
    decreases b - a
  {
    if a >= b then 0 else Free(spent, m, a, b - 1) + (m - spent(b - 1))
  }

  /** n of `need` credits taken greedily from unit a on, as far as unit b: each unit before b gives
      all it has left, which is not enough, b gives the rest, and no other unit is touched. */
  ghost predicate Granted(spent: nat -> nat, after: nat -> nat, m: nat, a: nat, b: nat, n: nat, need: nat) {
    && a <= b && n <= need
    && (forall t: nat :: t < a || b < t ==> after(t) == spent(t))
    && (forall t: nat :: a <= t < b ==> after(t) == m)
    && spent(b) <= after(b) <= m
    && n + spent(b) == Free(spent, m, a, b) + after(b)
    && (a < b ==> Free(spent, m, a, b) < need)
  }

  // A window w over the timeline from unit u on: each slot holds what its unit has not spent yet,
  // no unit spends more than it has, and from offset v on nothing has been spent.
  ghost predicate Shows(w: seq<nat>, spent: nat -> nat, u: nat, v: nat, m: nat) {
    && (forall k :: 0 <= k < |w| ==> w[k] + spent(u + k) == m)
    && (forall t: nat :: spent(t) <= m)
    && (forall t: nat :: u + v <= t ==> spent(t) == 0)
  }

  ghost predicate Unspent(spent: nat -> nat, a: nat, b: nat) {
    forall t: nat :: a <= t < b ==> spent(t) == 0
  }

  lemma {:induction false} WindowFree(w: seq<nat>, spent: nat -> nat, u: nat, v: nat, m: nat, k: nat, j: nat)
    requires Shows(w, spent, u, v, m) && k <= j <= |w|
    ensures Sum(w[k..j]) == Free(spent, m, u + k, u + j)
    decreases j - k
  {
    if k < j {
      WindowFree(w, spent, u, v, m, k, j - 1);
      assert w[k..j][..j - k - 1] == w[k..j - 1];
    } else {
      assert w[k..j] == [];
    }
  }

  // The timeline after the window over it changed to w.
  ghost function Written(spent: nat -> nat, w: seq<nat>, u: nat, m: nat): nat -> nat {
    (t: nat) => if u <= t < u + |w| && w[t - u] <= m then m - w[t - u] else spent(t)
  }

  /** What a request does to the ring is what it does to the timeline. */
  lemma GrantShows(w: seq<nat>, spent: nat -> nat, u: nat, v: nat, m: nat, k: nat, need: nat)
    requires Shows(w, spent, u, v, m) && k < |w| && v <= |w|
    ensures var r := Greedy(w, k, need); var after := Written(spent, r.w, u, m);
            && Shows(r.w, after, u, if v > r.last + 1 then v else r.last + 1, m)
            && r.left <= need
            && Granted(spent, after, m, u + k, u + r.last, need - r.left, need)
  {
    hide Shows, Written, Greedy, Free, Sum;
    GreedyIs(w, k, need);
    var r := Greedy(w, k, need);
    WindowFree(w, spent, u, v, m, k, r.last);
    GrantTouches(w, spent, u, v, m, k, need, r);
  }

  lemma GrantTouches(w: seq<nat>, spent: nat -> nat, u: nat, v: nat, m: nat, k: nat, need: nat, r: Grant)
    requires Shows(w, spent, u, v, m) && k < |w| && v <= |w| && TakenGreedily(w, k, need, r)
    ensures var after := Written(spent, r.w, u, m);
            && Shows(r.w, after, u, if v > r.last + 1 then v else r.last + 1, m)
            && (forall t: nat :: t < u + k || u + r.last < t ==> after(t) == spent(t))
            && (forall t: nat :: u + k <= t < u + r.last ==> after(t) == m)
            && after(u + r.last) == m - r.w[r.last] && w[r.last] + spent(u + r.last) == m
  {
    var after := Written(spent, r.w, u, m);
    forall t: nat
      ensures after(t) <= m
      ensures t < u + k || u + r.last < t ==> after(t) == spent(t)
      ensures u + k <= t < u + r.last ==> after(t) == m
    {
      if u <= t < u + |w| {
        assert w[t - u] + spent(u + (t - u)) == m;
      }
    }
    assert forall j :: 0 <= j < |w| ==> r.w[j] <= w[j];
  }

  // ----- the ring as a value -----

  // What is left in each slot from the current unit on, how many of them may not be full, and the time
  // of the latest request.
  datatype Ring = Ring(w: seq<nat>, validLen: nat, time: nat)

  // A request at wall-clock time `now` for a transfer from `start` on, and the credits it needs.
  datatype Ask = Ask(now: nat, start: nat, need: nat)

  // The ring afterwards; whether the request was admitted, the units it crossed and what it got.
  datatype Outcome = Outcome(ring: Ring, admitted: bool, crossed: nat, granted: nat)

  // How many units after `now` a request starts, as the driver counts (channel_model.c:71).
  function Offset(start: nat, now: nat): nat { U32(UnitOf(start) - UnitOf(now)) }

  // The lazy reset (channel_model.c:43-62).
  function Synced(r: Ring, now: nat, m: nat): (s: Ring)
    requires r.validLen <= |r.w|
    ensures |s.w| == |r.w| && s.validLen <= r.validLen && s.time == now
  {
    var diff := UnitOf(now) - UnitOf(r.time);
    Ring(Moved(r.w, r.validLen, diff, m), r.validLen - Min(U32(diff), r.validLen), now)
  }

  // A request is admitted unless it is from the past, or too far ahead as the driver counts.
  predicate Admits(q: Ask) { q.start >= q.now && Offset(q.start, q.now) < N }

  /** chmodel_request on the ring (channel_model.c:31-112), with m credits in a full slot. */
  function Serve(r: Ring, q: Ask, m: nat): (o: Outcome)
    requires r.validLen <= |r.w| == N
    ensures o.ring.validLen <= |o.ring.w| == N && o.ring.time == q.now && o.admitted == Admits(q)
  {
    var s := Synced(r, q.now, m);
    if !Admits(q) then Outcome(s, false, 0, 0)
    else
      var offs := Offset(q.start, q.now);
      var g := Greedy(s.w, offs, q.need);
      var used := g.last + 1;
      Outcome(Ring(g.w, if used > s.validLen then used else s.validLen, q.now), true, g.last - offs, q.need - g.left)
  }

  // The ring shows a timeline on which `spent` credits of each unit were given out.
  ghost predicate Reflects(r: Ring, spent: nat -> nat, m: nat) {
    r.validLen <= |r.w| == N && Shows(r.w, spent, UnitOf(r.time), r.validLen, m)
  }

  // The clock moves without a spent unit coming back: MovedExactly's condition.
  ghost predicate CanMove(r: Ring, spent: nat -> nat, now: nat) {
    && r.time <= now && UnitOf(r.time) <= UnitOf(now)
    && var u, diff := UnitOf(r.time), UnitOf(now) - UnitOf(r.time);
       diff < TWO_32 || Unspent(spent, u + U32(diff), u + r.validLen)
  }

  lemma UnitMono(a: nat, b: nat)
    requires a <= b
    ensures UnitOf(a) <= UnitOf(b)
  {
    PartsMix(a, UNIT);
    QuoBetween(b, UNIT, Quo(a, UNIT));
  }

  // After the clock moved, the ring shows the timeline from the current unit on.
  lemma MovedShows(w: seq<nat>, spent: nat -> nat, u: nat, v: nat, m: nat, diff: nat)
    requires Shows(w, spent, u, v, m) && v <= |w| == N
    requires diff < TWO_32 || forall j :: U32(diff) <= j < v ==> w[j] == m
    ensures Shows(Moved(w, v, diff, m), spent, u + diff, v - Min(U32(diff), v), m)
  {
    hide U32;
    SmallU32(diff);
    forall j | v <= j < |w| ensures w[j] == m {
      assert spent(u + j) == 0;
    }
    MovedExactly(w, v, diff, m);
    StillUnspent(w, spent, u, v, m, diff);
  }

  lemma StillUnspent(w: seq<nat>, spent: nat -> nat, u: nat, v: nat, m: nat, diff: nat)
    requires Shows(w, spent, u, v, m) && v <= |w| == N
    requires diff < TWO_32 || forall j :: U32(diff) <= j < v ==> w[j] == m
    requires Moved(w, v, diff, m) == Shifted(w, diff, m)
    ensures Shows(Moved(w, v, diff, m), spent, u + diff, v - Min(U32(diff), v), m)
  {
    hide U32;
    SmallU32(diff);
    forall k | 0 <= k < N ensures Shifted(w, diff, m)[k] + spent(u + diff + k) == m {
      if diff + k < N {
        assert w[diff + k] + spent(u + (diff + k)) == m;
      }
    }
  }

  // The lazy reset leaves the timeline alone.
  lemma SyncedReflects(r: Ring, spent: nat -> nat, m: nat, now: nat)
    requires Reflects(r, spent, m) && CanMove(r, spent, now)
    ensures Reflects(Synced(r, now, m), spent, m)
  {
    hide UnitOf, U32, Moved;
    var u, diff: nat := UnitOf(r.time), UnitOf(now) - UnitOf(r.time);
    if diff >= TWO_32 {
      forall j | U32(diff) <= j < r.validLen ensures r.w[j] == m {
        assert r.w[j] + spent(u + j) == m;
      }
    }
    MovedShows(r.w, spent, u, r.validLen, m, diff);
  }

  // What an admitted request leaves of the timeline.
  ghost function After(r: Ring, spent: nat -> nat, q: Ask, m: nat): nat -> nat
    requires r.validLen <= |r.w| == N
  {
    if Admits(q) then Written(spent, Serve(r, q, m).ring.w, UnitOf(q.now), m) else spent
  }

  /** As long as the lazy reset is exact, the ring goes on showing the timeline, and an admitted request
      takes its credits greedily from its first unit on, as if every unit of an unbounded timeline had
      m credits to give; it gets all it needs unless it comes to the last unit of the window. */
  lemma ServeGrants(r: Ring, spent: nat -> nat, q: Ask, m: nat)
    requires Reflects(r, spent, m) && CanMove(r, spent, q.now)
    ensures var o, after := Serve(r, q, m), After(r, spent, q, m);
            && Reflects(o.ring, after, m)
            && (o.admitted ==>
                  var a := UnitOf(q.now) + Offset(q.start, q.now);
                  && Granted(spent, after, m, a, a + o.crossed, o.granted, q.need)
                  && (o.granted < q.need ==> a + o.crossed == UnitOf(q.now) + N - 1))
  {
    hide UnitOf, U32, Moved, Shows, Greedy, Granted, Written, Synced;
    SyncedReflects(r, spent, m, q.now);
    if Admits(q) {
      var s, u, offs := Synced(r, q.now, m), UnitOf(q.now), Offset(q.start, q.now);
      GrantShows(s.w, spent, u, s.validLen, m, offs, q.need);
      GreedyIs(s.w, offs, q.need);
    }
  }

  /** The first unit of an admitted request is its own if and only if that is fewer than 2^32 units
      ahead. */
  lemma OwnUnitExactly(now: nat, start: nat)
    requires now <= start
    ensures UnitOf(now) + Offset(start, now) == UnitOf(start) <==> UnitOf(start) - UnitOf(now) < TWO_32
  {
    hide UnitOf, U32;
    UnitMono(now, start);
    SmallU32(UnitOf(start) - UnitOf(now));
  }

  /** A request exactly 2^32 units ahead counts as one for the current unit. */
  lemma FarRequest(now: nat)
    ensures var far := now + TWO_32 * UNIT;
            Offset(far, now) == 0 && UnitOf(far) == UnitOf(now) + TWO_32
  {
    hide U32, Quo, Rem;
    var q, r := Quo(now, UNIT), Rem(now, UNIT);
    var far := now + TWO_32 * UNIT;
    PartsMix(now, UNIT);
    PartsMix(far, UNIT);
    Distribute(q, TWO_32, UNIT);
    SameParts(Quo(far, UNIT), Rem(far, UNIT), q + TWO_32, r, UNIT);
    WholeTurn();
  }

  /** With nothing taken from its first unit on, and enough units, a request gets all it needs, crosses
      just as many units as that takes, and is told exactly the transfer time if max_credits fits a
      slot. */
  lemma FreshRequest(r: Ring, spent: nat -> nat, q: Ask, m: nat)
    requires Reflects(r, spent, m) && CanMove(r, spent, q.now) && Admits(q) && 0 < m && 0 < q.need
    requires Unspent(spent, UnitOf(q.now) + Offset(q.start, q.now), UnitOf(q.now) + N)
    requires Offset(q.start, q.now) + Quo(q.need - 1, m) < N
    ensures var o := Serve(r, q, m);
            && o.granted == q.need && o.crossed == Quo(q.need - 1, m)
            && (forall xferLat: nat, units: nat :: EndTime(q.start, xferLat, units, o.crossed, q.need, m) ==
                                                    q.start + U32(xferLat * units))
  {
    hide UnitOf, U32, Moved, Greedy, Quo, Synced, CanMove;
    SyncedReflects(r, spent, m, q.now);
    var s, u, offs := Synced(r, q.now, m), UnitOf(q.now), Offset(q.start, q.now);
    forall j | offs <= j < N ensures s.w[j] == m {
      assert s.w[j] + spent(u + j) == m;
    }
    GreedyFull(s.w, offs, q.need, m);
    NoDelay(q.need, m);
  }

  // What a request is told: the end of its transfer, or its own time if it was not admitted; nothing
  // if the driver divides by max_credits, which is 0.
  function Told(o: Outcome, q: Ask, xferLat: nat, units: nat, maxCredits: nat): Option<nat> {
    if !o.admitted then Some(q.start)
    else if maxCredits == 0 then None
    else Some(EndTime(q.start, xferLat, units, o.crossed, q.need, maxCredits))
  }

  class ChannelModel {
    const avail: array<nat>
    const maxCredits: nat
    ghost const perUnit: nat      // max_credits as stored in a slot, a byte
    const commandCredits: nat
    const xferLat: nat
    var head: nat
    var validLen: nat
    var curTime: nat

    ghost predicate Valid()
      reads this, avail
    {
      avail.Length == N && head < N && validLen <= N && perUnit == U8(maxCredits)
    }

    ghost function Window(): seq<nat>
      reads this, avail
      requires Valid()
    {
      Turned(avail[..], head)
    }

    // What the array, its head and the clock stand for.
    ghost function View(): Ring
      reads this, avail
      requires Valid()
    {
      Ring(Window(), validLen, curTime)
    }

    /** chmodel_init (channel_model.c:16-29): a ring that shows an unspent timeline. */
    constructor (maxCredits: nat, xferLat: nat)
      ensures Valid() && Reflects(View(), _ => 0, perUnit) && curTime == 0
      ensures this.maxCredits == maxCredits && this.xferLat == xferLat && commandCredits == 0
    {
      this.maxCredits, this.xferLat, commandCredits := maxCredits, xferLat, 0;
      perUnit := U8(maxCredits);
      head, validLen, curTime := 0, 0, 0;
      avail := new nat[N](_ => U8(maxCredits));
    }

    // MEMSET of len entries from `from` on.
    method Fill(from: nat, len: nat)
      requires Valid() && from + len <= avail.Length
      modifies avail
      ensures forall j :: 0 <= j < avail.Length ==>
                avail[j] == if from <= j < from + len then perUnit else old(avail[j])
    {
      for i := 0 to len
        invariant forall j :: 0 <= j < avail.Length ==>
                    avail[j] == if from <= j < from + i then perUnit else old(avail[j])
      {
        avail[from + i] := U8(maxCredits);
      }
    }

    lemma MemsetTurned(ring: seq<nat>, ring': seq<nat>, head': nat, offs: nat)
      requires |ring| == |ring'| == N && head < N && offs <= N && head' == (head + offs) % N
      requires forall j :: 0 <= j < N ==>
                 ring'[j] == if (head <= j < head + offs || j < head + offs - N) then perUnit else ring[j]
      ensures head' < N && Turned(ring', head') == Turned(ring, head)[offs..] + Full(offs, perUnit)
    {
      if head + offs < N {
        assert head' == head + offs;
      } else {
        assert head' == head + offs - N;
      }
    }

    // The memsets of channel_model.c:46-53.
    method ResetCells(offs: nat)
      requires Valid() && offs <= N
      modifies avail
      ensures forall j :: 0 <= j < N ==>
                avail[j] == if head <= j < head + offs || j < head + offs - N then perUnit else old(avail[j])
    {
      hide Full;
      if head + offs >= N {
        Fill(head, N - head);
        Fill(0, offs - (N - head));
      } else {
        Fill(head, offs);
      }
    }

    // Moving head to the unit of the current time (channel_model.c:43-62).
    method MoveHead(now: nat)
      requires Valid()
      modifies this`head, this`validLen, this`curTime, avail
      ensures Valid() && View() == Synced(old(View()), now, perUnit)
    {
      hide UnitOf, U32, Turned, Full;
      var offs := U32(UnitOf(now) - UnitOf(curTime));
      offs := if offs < validLen then offs else validLen;
      ghost var ring := avail[..];
      ResetCells(offs);
      MemsetTurned(ring, avail[..], (head + offs) % N, offs);
      head := (head + offs) % N;
      curTime := now;
      validLen := validLen - offs;
    }

    // Credits taken from one slot (channel_model.c:87-91).
    method Withdraw(pos: nat, ghost k: nat, need: nat) returns (left: nat)
      requires Valid() && k < N && pos == Slot(head, k)
      modifies avail
      ensures Valid() && k < |old(Window())| == |Window()|
      ensures var c := Min(need, old(Window())[k]);
              Window() == old(Window())[k := old(Window())[k] - c] && left == need - c
    {
      hide Turned, Slot;
      TurnedAt(avail[..], head, k, 0);
      var consumed := if need <= avail[pos] then need else avail[pos];
      TurnedAt(avail[..], head, k, avail[pos] - consumed);
      ghost var ring := avail[..];
      avail[pos] := avail[pos] - consumed;
      assert avail[..] == ring[pos := ring[pos] - consumed];
      left := need - consumed;
    }

    static lemma NextSlot(head: nat, k: nat)
      requires head < N && k < N
      ensures (Slot(head, k) + 1) % N == head <==> k + 1 == N
      ensures k + 1 < N ==> (Slot(head, k) + 1) % N == Slot(head, k + 1)
    {
    }

    // The loop of chmodel_request (channel_model.c:86-106).
    method Consume(offs: nat, need: nat) returns (pos: nat, delay: nat, ghost left: nat)
      requires Valid() && offs < N
      modifies avail
      ensures Valid() && offs + delay < N && pos == Slot(head, offs + delay)
      ensures Greedy(old(Window()), offs, need) == Grant(Window(), offs + delay, left)
    {
      hide Turned, Slot;
      FirstSlot(head, offs);
      var remaining := need;
      pos, delay := (head + offs) % N, 0;
      left := 0;
      while true
        invariant Valid() && offs + delay < N && pos == Slot(head, offs + delay)
        invariant Greedy(old(Window()), offs, need) == Greedy(Window(), offs + delay, remaining)
        decreases N - delay
      {
        NextSlot(head, offs + delay);
        remaining := Withdraw(pos, offs + delay, remaining);
        left := remaining;
        if remaining > 0 {
          var next := (pos + 1) % N;
          if next != head {
            delay := delay + 1;
            pos := next;
          } else {
            break;
          }
        } else {
          break;
        }
      }
    }

    static lemma FirstSlot(head: nat, k: nat)
      requires head < N && k < N
      ensures (head + k) % N == Slot(head, k)
    {
    }

    // The offset of the last slot used, plus one (channel_model.c:108-109).
    method UsedLength(pos: nat, ghost k: nat) returns (len: nat)
      requires Valid() && k < N && pos == Slot(head, k)
      ensures len == k + 1
    {
      len := if pos >= head then pos - head + 1 else N - (head - pos - 1);
    }

    // The admitted part of a request: credits taken from offset offs on.
    method Take(offs: nat, need: nat) returns (delay: nat, ghost left: nat)
      requires Valid() && offs < N
      modifies this`validLen, avail
      ensures Valid() && curTime == old(curTime) && offs + delay < N
      ensures Greedy(old(Window()), offs, need) == Grant(Window(), offs + delay, left)
      ensures validLen == if offs + delay + 1 > old(validLen) then offs + delay + 1 else old(validLen)
    {
      hide Turned, Greedy;
      var pos;
      pos, delay, left := Consume(offs, need);
      var used := UsedLength(pos, offs + delay);
      if used > validLen {
        validLen := used;
      }
    }

    // What an admitted request needs (channel_model.c:80-81).
    function Need(length: nat): (need: nat)
      ensures commandCredits == 0 ==> need == Units(length)
    {
      U32(Units(length) * 1 + commandCredits)
    }

    /** chmodel_request (channel_model.c:31-120) at wall-clock time `now`, whatever the clock did since
        the last one. */
    method Request(now: nat, requestTime: nat, length: nat) returns (t: Option<nat>)
      requires Valid()
      modifies this`head, this`validLen, this`curTime, avail
      ensures Valid()
      ensures var q := Ask(now, requestTime, Need(length)); var o := Serve(old(View()), q, perUnit);
              && (t.Some? ==> View() == o.ring)
              && t == Told(o, q, xferLat, Units(length), maxCredits)
      ensures requestTime < now ==> t == Some(requestTime)
    {
      hide UnitOf, U32, Units, Turned, Quo, Greedy, Synced;
      MoveHead(now);
      if requestTime < now {
        return Some(requestTime);
      }
      var offs := U32(UnitOf(requestTime) - UnitOf(now));
      if offs >= N {
        return Some(requestTime);
      }
      var units := Units(length);
      var need := U32(units * 1 + commandCredits);
      if maxCredits == 0 {
        return None;
      }
      var defaultDelay := Quo(need, maxCredits);
      var delay;
      ghost var left;
      delay, left := Take(offs, need);
      delay := if delay > defaultDelay then delay - defaultDelay else 0;
      t := Some(requestTime + (U32(xferLat * units) + delay * UNIT));
    }
  }
}
