/**
 What a request on a busy channel is told (channel_model.c:79-119): how long it waits, in terms of the
 credits that the units of the timeline still have.
 */
module ChannelDelay {
  import opened Arith
  import opened FtlModel
  import opened ChannelModel
  import opened ChannelRuns
  import opened Wrappers

  // The last unit of the window at a request.
  function Last(q: Ask): nat { UnitOf(q.now) + N - 1 }

  /** b is the first unit, counting from a, with which the credits still free cover the need, or the
      last one of the window if they never do. */
  ghost predicate EndsAt(spent: nat -> nat, m: nat, a: nat, b: nat, last: nat, need: nat) {
    && a <= b <= last
    && (b < last ==> Free(spent, m, a, b + 1) >= need)
    && forall e: nat :: a < e <= b ==> Free(spent, m, a, e) < need
  }

  lemma {:induction false} FreeMono(spent: nat -> nat, m: nat, a: nat, b: nat, c: nat)
    requires a <= b <= c && forall t: nat :: spent(t) <= m
    ensures Free(spent, m, a, b) <= Free(spent, m, a, c)
    decreases c - b
  {
    if b < c {
      FreeMono(spent, m, a, b, c - 1);
    }
  }

  lemma OneEnd(spent: nat -> nat, m: nat, a: nat, b: nat, b': nat, last: nat, need: nat)
    requires EndsAt(spent, m, a, b, last, need) && EndsAt(spent, m, a, b', last, need)
    ensures b == b'
  {
    hide Free;
  }

  // Credits taken greedily end there.
  lemma GrantedEnds(spent: nat -> nat, after: nat -> nat, m: nat, a: nat, b: nat, last: nat, n: nat, need: nat)
    requires Granted(spent, after, m, a, b, n, need) && b <= last && (n < need ==> b == last)
    requires forall t: nat :: spent(t) <= m
    ensures EndsAt(spent, m, a, b, last, need)
  {
    assert Free(spent, m, a, b + 1) == Free(spent, m, a, b) + (m - spent(b));
    forall e: nat | a < e <= b ensures Free(spent, m, a, e) < need {
      FreeMono(spent, m, a, e, b);
    }
  }

  // A request crosses into the units up to there.
  lemma CrossesTo(r: Ring, spent: nat -> nat, q: Ask, m: nat, b: nat)
    requires Reflects(r, spent, m) && CanMove(r, spent, q.now) && Admits(q)
    requires EndsAt(spent, m, First(q), b, Last(q), q.need)
    ensures First(q) + Serve(r, q, m).crossed == b
  {
    hide Serve, CanMove, EndsAt, Free, UnitOf, Granted;
    ServeGrants(r, spent, q, m);
    var o := Serve(r, q, m);
    StaysBelow(r, q, m, UnitOf(q.now) + N);
    GrantedEnds(spent, After(r, spent, q, m), m, First(q), First(q) + o.crossed, Last(q), o.granted, q.need);
    OneEnd(spent, m, First(q), First(q) + o.crossed, b, Last(q), q.need);
  }

  /** The answer on a channel in any state: the request's transfer takes xfer_lat for each of its units,
      and it waits 4 microseconds for each unit that it has to cross beyond the need / max_credits
      that it would cross on an idle channel. */
  lemma BusyAnswer(r: Ring, spent: nat -> nat, q: Ask, maxCredits: nat, xferLat: nat, units: nat, b: nat)
    requires 0 < maxCredits && Admits(q)
    requires Reflects(r, spent, U8(maxCredits)) && CanMove(r, spent, q.now)
    requires EndsAt(spent, U8(maxCredits), First(q), b, Last(q), q.need)
    ensures var crossed, expected := b - First(q), q.need / maxCredits;
            Told(Serve(r, q, U8(maxCredits)), q, xferLat, units, maxCredits) ==
            Some(q.start + xferLat * units % 0x1_0000_0000
                 + 4000 * (if crossed > expected then crossed - expected else 0))
  {
    hide Serve, CanMove, EndsAt, Reflects, UnitOf, Quo, U8;
    CrossesTo(r, spent, q, U8(maxCredits), b);
    PartsAre(q.need, maxCredits);
    ServeAdmits(r, spent, q, U8(maxCredits));
  }

  lemma ServeAdmits(r: Ring, spent: nat -> nat, q: Ask, m: nat)
    requires Reflects(r, spent, m)
    ensures r.validLen <= |r.w| == N && Serve(r, q, m).admitted == Admits(q)
  {
  }

  // Units that have given all they had have nothing free, and untouched ones have all of it.
  lemma {:induction false} FreeBehind(spent: nat -> nat, m: nat, a: nat, j: nat, k: nat)
    requires forall t: nat :: a <= t < a + j ==> spent(t) == m
    requires forall t: nat :: a + j <= t < a + j + k ==> spent(t) == 0
    ensures Free(spent, m, a, a + j + k) == k * m
    decreases k, j
  {
    if k > 0 {
      FreeBehind(spent, m, a, j, k - 1);
      Distribute(k - 1, 1, m);
    } else if j > 0 {
      FreeBehind(spent, m, a, j - 1, 0);
    }
  }

  // Behind j exhausted units a request ends where it would, j units later.
  lemma EndsBehind(spent: nat -> nat, m: nat, a: nat, j: nat, last: nat, need: nat)
    requires 0 < m && 0 < need && a + j + Quo(need - 1, m) <= last
    requires forall t: nat :: a <= t < a + j ==> spent(t) == m
    requires Unspent(spent, a + j, last + 1)
    ensures EndsAt(spent, m, a, a + j + Quo(need - 1, m), last, need)
  {
    hide Quo, Free;
    var k := Quo(need - 1, m);
    PartsMix(need - 1, m);
    Distribute(k, 1, m);
    FreeBehind(spent, m, a, j, k + 1);
    forall e: nat | a < e <= a + j + k ensures Free(spent, m, a, e) < need {
      if e <= a + j {
        FreeBehind(spent, m, a, e - a, 0);
      } else {
        FreeBehind(spent, m, a, j, e - a - j);
        MulMono(e - a - j, k, m);
      }
    }
  }

  /** Behind j units that have given all they had, with max_credits in a byte: a request for less than
      a unit's credits waits for just these units; so does any other, except that one for a whole
      number of units has one of them to spare. */
  lemma WaitsBehind(r: Ring, spent: nat -> nat, q: Ask, maxCredits: nat, xferLat: nat, units: nat, j: nat)
    requires 0 < maxCredits <= 255 && Admits(q) && 0 < q.need
    requires Reflects(r, spent, maxCredits) && CanMove(r, spent, q.now)
    requires forall t: nat :: First(q) <= t < First(q) + j ==> spent(t) == maxCredits
    requires Unspent(spent, First(q) + j, Last(q) + 1)
    requires First(q) + j + (q.need - 1) / maxCredits <= Last(q)
    ensures var wait := if q.need % maxCredits > 0 || j == 0 then j else j - 1;
            Told(Serve(r, q, maxCredits), q, xferLat, units, maxCredits) ==
            Some(q.start + xferLat * units % 0x1_0000_0000 + 4000 * wait)
  {
    hide Serve, CanMove, EndsAt, Reflects, UnitOf, Quo, Rem, Unspent;
    var k := Quo(q.need - 1, maxCredits);
    PartsAre(q.need - 1, maxCredits);
    EndsBehind(spent, maxCredits, First(q), j, Last(q), q.need);
    BusyAnswer(r, spent, q, maxCredits, xferLat, units, First(q) + j + k);
    WholeUnits(q.need, maxCredits);
  }

  // need / m is (need - 1) / m, or one more for a whole number of units.
  lemma WholeUnits(need: nat, m: nat)
    requires 0 < need && 0 < m
    ensures need / m == (need - 1) / m + if need % m > 0 then 0 else 1
  {
    hide Quo, Rem;
    PartsAre(need, m);
    PartsAre(need - 1, m);
    PartsMix(need, m);
    PartsMix(need - 1, m);
    var d, e := Quo(need - 1, m), Rem(need - 1, m);
    if e + 1 < m {
      SameParts(Quo(need, m), Rem(need, m), d, e + 1, m);
    } else {
      Distribute(d, 1, m);
      SameParts(Quo(need, m), Rem(need, m), d + 1, 0, m);
    }
  }

  /** A transfer of up to 512 GB is charged the least number of 128-byte units that holds it. */
  lemma UnitsHold(length: nat)
    requires length <= 128 * 0xFFFF_FFFF
    ensures length <= 128 * Units(length) < length + 128
  {
  }
}
