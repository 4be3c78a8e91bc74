/**
 The learning agent that chooses the score levels (conv_ftl.c:405-627): its state index, its
 epsilon-greedy choice and its table update, in integers with C's division. The table stays bounded
 and the exploration rate decays by one per collection, over every run.
 */
module RlAgent {
  import opened Arith
  import opened FtlModel
  import opened WearGap

  // ----- C arithmetic -----

  // Division of C, which truncates towards zero.
  function TruncDiv(a: int, b: nat): (q: int)
    requires 0 < b
  {
    if a >= 0 then a / b else -((-a) / b)
  }

  lemma TruncDivBounds(a: int, b: nat, lo: int, hi: int)
    requires 0 < b && lo <= 0 <= hi && lo * b <= a <= hi * b
    ensures lo <= TruncDiv(a, b) <= hi
  {
    if a >= 0 {
      QuoBetween(a, b, hi);
      AtMost(a, b, hi);
    } else {
      AtMost(-a, b, -lo);
    }
  }

  lemma AtMost(a: nat, b: nat, hi: int)
    requires 0 < b && 0 <= hi && a <= hi * b
    ensures a / b <= hi
  {
    if a / b > hi {
      MulMono(hi + 1, a / b, b);
      Distribute(hi, 1, b);
    }
  }

  // ----- the reward and the table update -----

  function Mean(q: seq<nat>): nat
    requires q != []
  {
    Quo(Sum(q), |q|)
  }

  // A range of erase counts as the update computes it (conv_ftl.c:589-591).
  function Range(hi: nat, lo: nat): nat { if hi >= lo then hi - lo else 0 }

  const STATES: nat := 1728
  const ACTIONS: nat := 20

  function Clamp(x: int): int { if x > 2000 then 2000 else if x < -2000 then -2000 else x }

  /** R = -W - lambda * E (conv_ftl.c:580-603), for `copied` pages copied, the ranges of erase
      counts after this and the last collection, and their mean. */
  function Reward(copied: nat, ppl: nat, range: nat, prevRange: nat, mean: nat): int
    requires 0 < ppl
  {
    var waf := TruncDiv(copied * 1000, ppl);
    var delta := TruncDiv((range - prevRange) * 1000, mean + 1);
    var level := TruncDiv(range * 1000, mean + 1);
    -waf - TruncDiv(500 * Clamp(delta + TruncDiv(level, 4)), 1000)
  }

  lemma WafBelow(copied: nat, ppl: nat)
    requires copied < ppl
    ensures 0 <= TruncDiv(copied * 1000, ppl) < 1000
  {
    var w := copied * 1000 / ppl;
    if w >= 1000 {
      MulMono(1000, w, ppl);
    }
  }

  // A number within the limits of the penalty.
  function Limited(x: real): real { if x > 2000.0 then 2000.0 else if x < -2000.0 then -2000.0 else x }

  // The reward without rounding: a thousandth for each copy in a line's worth of pages, and half a thousandth
  // for the growth and an eighth for the extent of the range of erase counts against their mean.
  function ExactReward(copied: nat, ppl: nat, range: nat, prevRange: nat, mean: nat): real
    requires 0 < ppl
  {
    var growth := 1000.0 * (range as real - prevRange as real) / (mean as real + 1.0);
    var extent := 1000.0 * (range as real) / (mean as real + 1.0);
    -(1000.0 * (copied as real) / (ppl as real)) - Limited(growth + extent / 4.0) / 2.0
  }

  lemma TruncNear(a: int, b: nat)
    requires 0 < b
    ensures -1.0 < TruncDiv(a, b) as real - a as real / b as real < 1.0
  {
    var q := TruncDiv(a, b);
    assert q * b - a < b && a - q * b < b;
    Ratio(q * b - a, b);
    assert (q * b - a) as real / b as real == q as real - a as real / b as real;
  }

  lemma Ratio(x: int, b: nat)
    requires 0 < b && x < b && -x < b
    ensures -1.0 < x as real / b as real < 1.0
  {
  }

  /** The reward falls with every page copied and with the growth and the extent of wear: it is the exact
      one but for less than 4. */
  lemma RewardNear(copied: nat, ppl: nat, range: nat, prevRange: nat, mean: nat)
    requires 0 < ppl
    ensures -4.0 < Reward(copied, ppl, range, prevRange, mean) as real
                   - ExactReward(copied, ppl, range, prevRange, mean) < 4.0
  {
    hide TruncDiv;
    TruncNear(copied * 1000, ppl);
    TruncNear((range - prevRange) * 1000, mean + 1);
    TruncNear(range * 1000, mean + 1);
    var delta := TruncDiv((range - prevRange) * 1000, mean + 1);
    var level := TruncDiv(range * 1000, mean + 1);
    TruncNear(level, 4);
    TruncNear(500 * Clamp(delta + TruncDiv(level, 4)), 1000);
  }

  /** A collection copies fewer pages than a line has, and then its reward is in [-1999, 1000]. */
  lemma RewardBounds(copied: nat, ppl: nat, range: nat, prevRange: nat, mean: nat)
    requires copied < ppl
    ensures -1999 <= Reward(copied, ppl, range, prevRange, mean) <= 1000
  {
    hide TruncDiv;
    WafBelow(copied, ppl);
    var delta := TruncDiv((range - prevRange) * 1000, mean + 1);
    var level := TruncDiv(range * 1000, mean + 1);
    TruncDivBounds(500 * Clamp(delta + TruncDiv(level, 4)), 1000, -1000, 1000);
  }

  /** Q(s,a) += alpha * (R + gamma * max Q(s',.) - Q(s,a)) (conv_ftl.c:605-614). */
  function NextQ(old_: int, reward: int, maxNext: int): int {
    old_ + TruncDiv(100 * (reward + TruncDiv(950 * maxNext, 1000) - old_), 1000)
  }

  predicate InRange(q: int) { -39980 <= q <= 20000 }

  /** The update keeps every entry in range. */
  lemma NextQInRange(old_: int, reward: int, maxNext: int)
    requires InRange(old_) && InRange(maxNext) && -1999 <= reward <= 1000
    ensures InRange(NextQ(old_, reward, maxNext))
  {
  }

  /** The entry moves by a tenth of the way to the reward plus 0.95 of the best next value, but for what
      the two divisions cut off: less than 1.1. */
  lemma NextQMoves(old_: int, reward: int, maxNext: int)
    ensures var moved := 10_000 * (NextQ(old_, reward, maxNext) - old_);
            -11_000 < moved - (1000 * (reward - old_) + 950 * maxNext) < 11_000
  {
  }

  // Exploration rate after one more collection (conv_ftl.c:616-619).
  function NextEpsilon(e: nat): nat {
    if e * 999 / 1000 < 50 then 50 else e * 999 / 1000
  }

  function EpsilonAfter(k: nat): nat {
    if k == 0 then 300 else NextEpsilon(EpsilonAfter(k - 1))
  }

  /** Integer division makes the intended decay by 0.1 percent a decay by one, down to 50. */
  lemma {:induction false} EpsilonIs(k: nat)
    ensures EpsilonAfter(k) == if k <= 250 then 300 - k else 50
  {
    if k > 0 {
      EpsilonIs(k - 1);
    }
  }

  // ----- the state index -----

  datatype State = State(s1: nat, s2: nat, s3: nat, s4: nat, s5: nat, s6: nat)

  predicate Discrete(s: State) {
    s.s1 < 4 && s.s2 < 4 && s.s3 < 4 && s.s4 < 3 && s.s5 < 3 && s.s6 < 3
  }

  // conv_ftl.c:523-527.
  function Encode(s: State): nat {
    s.s1 * 432 + s.s2 * 108 + s.s3 * 27 + s.s4 * 9 + s.s5 * 3 + s.s6
  }

  function Decode(k: nat): State {
    var k5, k4 := Quo(k, 3), Quo(Quo(k, 3), 3);
    var k3 := Quo(k4, 3);
    var k2 := Quo(k3, 4);
    State(Quo(k2, 4), Rem(k2, 4), Rem(k3, 4), Rem(k4, 3), Rem(k5, 3), Rem(k, 3))
  }

  lemma EncodeDigits(s: State)
    ensures Encode(s) == Mix(Mix(Mix(Mix(Mix(s.s1, 4, s.s2), 4, s.s3), 3, s.s4), 3, s.s5), 3, s.s6)
  {
    hide Mix;
    var k2 := Mix(s.s1, 4, s.s2);
    var k3 := Mix(k2, 4, s.s3);
    var k4 := Mix(k3, 3, s.s4);
    MixIs(s.s1, 4, s.s2);
    MixIs(k2, 4, s.s3);
    MixIs(k3, 3, s.s4);
    MixIs(k4, 3, s.s5);
    MixIs(Mix(k4, 3, s.s5), 3, s.s6);
  }

  /** The index numbers the states 0 to 1727, each once. */
  lemma EncodeIsIndex(s: State)
    requires Discrete(s)
    ensures Encode(s) < STATES && Decode(Encode(s)) == s
  {
    EncodeDigits(s);
    hide Mix, Quo, Rem;
    var k2 := Mix(s.s1, 4, s.s2);
    var k3 := Mix(k2, 4, s.s3);
    var k4 := Mix(k3, 3, s.s4);
    MixParts(s.s1, 4, s.s2);
    MixParts(k2, 4, s.s3);
    MixParts(k3, 3, s.s4);
    MixParts(k4, 3, s.s5);
    MixParts(Mix(k4, 3, s.s5), 3, s.s6);
  }

  lemma DecodeIsState(k: nat)
    requires k < STATES
    ensures Discrete(Decode(k)) && Encode(Decode(k)) == k
  {
    var k5, k4 := Quo(k, 3), Quo(Quo(k, 3), 3);
    var k3 := Quo(k4, 3);
    var k2 := Quo(k3, 4);
    PartsMix(k, 3);
    PartsMix(k5, 3);
    PartsMix(k4, 3);
    PartsMix(k3, 4);
    PartsMix(k2, 4);
    EncodeDigits(Decode(k));
  }

  // The thresholds of S1 and S2 (conv_ftl.c:471-474, 482-485), S3 (507-510), S4 (518-520), S5
  // (489-494) and S6 (499-501).
  function GapLevel(gap: nat): nat { if gap < 3 then 0 else if gap < 8 then 1 else if gap < 18 then 2 else 3 }

  function HotLevel(pct: nat): nat { if pct < 10 then 0 else if pct < 30 then 1 else if pct < 55 then 2 else 3 }

  function TrendLevel(diff: int): nat { if diff < -8 then 0 else if diff > 8 then 2 else 1 }

  function VictimLevel(last: nat, mean: nat): nat {
    if last <= mean then 0 else if last <= U32(mean + mean / 2) then 1 else 2
  }

  function WearLevel(rel: nat): nat { if rel < 5 then 0 else if rel < 20 then 1 else 2 }

  // a of n in percent, computed in 32 bits.
  function Percent(a: nat, n: nat): nat
    requires 0 < n
  {
    Quo(U32(a * 100), n)
  }

  /** A part is at most 100 percent, and rounded down exactly if it is small enough for 32 bits. */
  lemma PercentIs(a: nat, n: nat)
    requires a <= n && 0 < n
    ensures Percent(a, n) <= 100
    ensures a <= 42949672 ==> Percent(a, n) == a * 100 / n
  {
    var x := U32(a * 100);
    PartsAre(x, n);
    AtMost(x, n, 100);
  }

  // ----- the agent -----

  // Action a has the largest table entry, and no action before it has one as large.
  ghost predicate FirstBest(q: array2<int>, s: nat, a: nat, n: nat)
    reads q
    requires s < q.Length0 && n <= q.Length1
  {
    && a < n
    && (forall b :: 0 <= b < n ==> q[s, b] <= q[s, a])
    && (forall b :: 0 <= b < a ==> q[s, b] < q[s, a])
  }

  // The entries of a table, state by state.
  type Table = seq<seq<int>>

  /** What one lesson does to a table: the entry of the state before and of the action moves towards the
      reward and the best entry of the state after; no other entry changes. */
  ghost predicate Lesson(t: Table, t': Table, s: nat, a: nat, reward: int, after: nat) {
    && s < |t| && a < |t[s]| && after < |t|
    && exists best: int :: BestEntry(t[after], best) && t' == t[s := t[s][a := NextQ(t[s][a], reward, best)]]
  }

  ghost predicate BestEntry(entries: seq<int>, best: int) {
    best in entries && forall b :: 0 <= b < |entries| ==> entries[b] <= best
  }

  lemma LessonIs(t: Table, t': Table, s: nat, a: nat, reward: int, after: nat, best: int)
    requires |t| == |t'| && s < |t| && after < |t| && BestEntry(t[after], best)
    requires forall i :: 0 <= i < |t| ==> |t[i]| == |t'[i]| && a < |t[i]|
    requires forall i, b :: 0 <= i < |t| && 0 <= b < |t[i]| ==>
               t'[i][b] == if i == s && b == a then NextQ(t[i][b], reward, best) else t[i][b]
    ensures Lesson(t, t', s, a, reward, after)
  {
    hide NextQ, BestEntry;
    var u := t[s := t[s][a := NextQ(t[s][a], reward, best)]];
    forall i | 0 <= i < |t| ensures u[i] == t'[i] {
      assert |u[i]| == |t'[i]|;
    }
  }

  // struct rl_config (conv_ftl.h:89-110).
  class Agent {
    const q: array2<int>
    var curState: nat
    var curAction: nat
    var alphaLevel: nat
    var deltaLevel: nat
    var epsilon: nat
    var prevCopied: nat
    var prevEraseMax: nat
    var prevEraseMin: nat
    var windowHot: nat
    var windowTotal: nat
    var prevHotPct: nat
    var lastVictimEc: nat
    var totalEpisodes: nat
    var totalReward: int

    /** What holds over every run: the table is in range, the exploration rate is a function of the
        number of collections, the rewards sum up to no more than they can, and no more writes of a
        window are hot than it has. */
    ghost predicate Valid()
      reads this, q
    {
      && q.Length0 == STATES && q.Length1 == ACTIONS
      && (forall s, a :: 0 <= s < STATES && 0 <= a < ACTIONS ==> InRange(q[s, a]))
      && curState < STATES && curAction < ACTIONS && alphaLevel < 4 && deltaLevel < 5
      && epsilon == EpsilonAfter(totalEpisodes)
      && -1999 * totalEpisodes <= totalReward <= 1000 * totalEpisodes
      && windowHot <= windowTotal && prevHotPct <= 100
    }

    ghost function Entries(): (t: Table)
      reads q
      ensures |t| == q.Length0 && forall s :: 0 <= s < q.Length0 ==> |t[s]| == q.Length1
      ensures forall s, a :: 0 <= s < q.Length0 && 0 <= a < q.Length1 ==> t[s][a] == q[s, a]
    {
      seq(q.Length0, s requires 0 <= s < q.Length0 reads q =>
            seq(q.Length1, a requires 0 <= a < q.Length1 reads q => q[s, a]))
    }

    // init_rl (conv_ftl.c:699-718).
    constructor ()
      ensures Valid() && totalEpisodes == 0 && prevCopied == 0 && fresh(q)
    {
      q := new int[STATES, ACTIONS]((_, _) => 0);
      curState, curAction, alphaLevel, deltaLevel, epsilon := 0, 0, 1, 2, 300;
      prevCopied, prevEraseMax, prevEraseMin, totalEpisodes, totalReward := 0, 0, 0, 0, 0;
      windowHot, windowTotal, prevHotPct, lastVictimEc := 0, 0, 0, 0;
    }

    /** The statistics of host writes (conv_ftl.c:1474-1484): `hot` says that the page was written
        before, and recently. Each pgs_per_line writes, the share of hot ones is kept and the window
        starts again. */
    method CountWrite(hot: bool, ppl: nat)
      requires Valid() && 0 < ppl
      modifies this`windowHot, this`windowTotal, this`prevHotPct
      ensures Valid()
      ensures var h, n := old(windowHot) + (if hot then 1 else 0), old(windowTotal) + 1;
              if n >= ppl then windowHot == 0 && windowTotal == 0 && prevHotPct == Percent(h, n)
              else windowHot == h && windowTotal == n && prevHotPct == old(prevHotPct)
    {
      hide EpsilonAfter, Percent;
      if hot {
        windowHot := windowHot + 1;
      }
      windowTotal := windowTotal + 1;
      if windowTotal >= ppl {
        PercentIs(windowHot, windowTotal);
        prevHotPct := Percent(windowHot, windowTotal);
        windowHot := 0;
        windowTotal := 0;
      }
    }

    // rl->cur_state = state (conv_ftl.c:1215).
    method Observe(state: nat)
      requires Valid() && state < STATES
      modifies this`curState
      ensures Valid() && curState == state
    {
      hide EpsilonAfter;
      curState := state;
    }

    // rl.last_victim_ec = victim->erase_cnt (conv_ftl.c:1231-1232).
    method NoteVictim(eraseCnt: nat)
      requires Valid()
      modifies this`lastVictimEc
      ensures Valid() && lastVictimEc == eraseCnt
    {
      hide EpsilonAfter;
      lastVictimEc := eraseCnt;
    }

    /** rl_decode_action (conv_ftl.c:531-536). */
    method DecodeAction(action: nat)
      requires Valid() && action < ACTIONS
      modifies this`curAction, this`alphaLevel, this`deltaLevel
      ensures Valid() && curAction == action && action == alphaLevel * 5 + deltaLevel
    {
      curAction := action;
      alphaLevel := action / 5;
      deltaLevel := action % 5;
    }

    /** rl_select_action (conv_ftl.c:542-558), for the two random numbers it may draw: it explores
        with probability epsilon in a thousand, otherwise it takes the first best action. */
    method SelectAction(state: nat, draw: nat, random: nat) returns (action: nat)
      requires Valid() && state < STATES
      ensures action < ACTIONS
      ensures draw % 1000 < epsilon ==> action == random % ACTIONS
      ensures draw % 1000 >= epsilon ==> FirstBest(q, state, action, ACTIONS)
    {
      if draw % 1000 < epsilon {
        return random % ACTIONS;
      }
      action := 0;
      var best := q[state, 0];
      for a := 1 to ACTIONS
        invariant FirstBest(q, state, action, a) && best == q[state, action]
      {
        if q[state, a] > best {
          best, action := q[state, a], a;
        }
      }
    }

    // The largest entry of a state (conv_ftl.c:605-610).
    method MaxQ(state: nat) returns (m: int)
      requires Valid() && state < STATES
      ensures InRange(m) && exists a :: 0 <= a < ACTIONS && m == q[state, a]
      ensures forall a :: 0 <= a < ACTIONS ==> q[state, a] <= m
    {
      m := q[state, 0];
      ghost var at := 0;
      for a := 1 to ACTIONS
        invariant 0 <= at < ACTIONS && m == q[state, at]
        invariant forall b :: 0 <= b < a ==> q[state, b] <= m
      {
        if q[state, a] > m {
          m, at := q[state, a], a;
        }
      }
    }

    // The reward of the collection just done (conv_ftl.c:580-603).
    method ComputeReward(copied: nat, ppl: nat, lines: array<nat>) returns (reward: int, hi: nat, lo: nat)
      requires Valid() && copied < ppl && 0 < lines.Length
      requires forall i :: 0 <= i < lines.Length ==> lines[i] <= INT_MAX
      ensures Extremes(lines[..], hi, lo) && lo <= hi
      ensures reward == Reward(copied, ppl, Range(hi, lo), Range(prevEraseMax, prevEraseMin), Mean(lines[..]))
    {
      hide TruncDiv, Quo, Sum, Extremes, EpsilonAfter;
      var waf := TruncDiv(copied * 1000, ppl);
      var sum, sqsum;
      hi, lo, sum, sqsum := CollectEraseStats(lines);
      var mean: nat := Quo(sum, lines.Length);
      var range: nat := hi - lo;
      var prev := Range(prevEraseMax, prevEraseMin);
      var wearDelta: int := range - prev;
      var penalty := TruncDiv(wearDelta * 1000, mean + 1) + TruncDiv(TruncDiv(range * 1000, mean + 1), 4);
      if penalty > 2000 {
        penalty := 2000;
      }
      if penalty < -2000 {
        penalty := -2000;
      }
      reward := -waf - TruncDiv(500 * penalty, 1000);
    }

    ghost predicate IsMax(m: int, s: nat)
      reads q
    {
      && s < q.Length0
      && (exists a :: 0 <= a < q.Length1 && m == q[s, a])
      && (forall a :: 0 <= a < q.Length1 ==> q[s, a] <= m)
    }

    // The table update and the decay (conv_ftl.c:605-622).
    method Learn(newState: nat, reward: int) returns (ghost maxNext: int)
      requires Valid() && newState < STATES && -1999 <= reward <= 1000
      modifies q, this`epsilon, this`totalEpisodes, this`totalReward
      ensures Valid() && totalEpisodes == old(totalEpisodes) + 1 && totalReward == old(totalReward) + reward
      ensures old(IsMax(maxNext, newState))
      ensures forall s, a :: 0 <= s < STATES && 0 <= a < ACTIONS ==>
                q[s, a] ==
                  if s == curState && a == curAction then NextQ(old(q[s, a]), reward, maxNext) else old(q[s, a])
      ensures Lesson(old(Entries()), Entries(), curState, curAction, reward, newState)
    {
      hide NextQ, Entries, Lesson;
      ghost var t := Entries();
      var m := MaxQ(newState);
      maxNext := m;
      var oldQ := q[curState, curAction];
      NextQInRange(oldQ, reward, m);
      q[curState, curAction] := NextQ(oldQ, reward, m);
      epsilon := (epsilon * 999) / 1000;
      if epsilon < 50 {
        epsilon := 50;
      }
      totalEpisodes := totalEpisodes + 1;
      totalReward := totalReward + reward;
      assert m in t[newState];
      LessonIs(t, Entries(), curState, curAction, reward, newState, m);
    }

    /** rl_update (conv_ftl.c:568-627) after a collection that copied fewer pages than a line has. */
    method Update(newState: nat, totalCopied: nat, ppl: nat, lines: array<nat>)
      returns (ghost reward: int, ghost maxNext: int)
      requires Valid() && newState < STATES && prevCopied <= totalCopied < prevCopied + ppl
      requires 0 < lines.Length && forall i :: 0 <= i < lines.Length ==> lines[i] <= INT_MAX
      modifies this`epsilon, this`totalEpisodes, this`totalReward,
               this`prevCopied, this`prevEraseMax, this`prevEraseMin, q
      ensures Valid() && totalEpisodes == old(totalEpisodes) + 1 && totalReward == old(totalReward) + reward
      ensures prevCopied == totalCopied
      ensures Extremes(lines[..], prevEraseMax, prevEraseMin)
      ensures reward == Reward(totalCopied - old(prevCopied), ppl, Range(prevEraseMax, prevEraseMin),
                               old(Range(prevEraseMax, prevEraseMin)), Mean(lines[..]))
      ensures old(IsMax(maxNext, newState))
      ensures forall s, a :: 0 <= s < STATES && 0 <= a < ACTIONS ==>
                q[s, a] ==
                  if s == curState && a == curAction then NextQ(old(q[s, a]), reward, maxNext) else old(q[s, a])
      ensures Lesson(old(Entries()), Entries(), curState, curAction, reward, newState)
    {
      hide Reward, NextQ, Extremes, EpsilonAfter, InRange, Mean, Range, Lesson, Entries;
      var copied: nat := totalCopied - prevCopied;
      var r, hi, lo := ComputeReward(copied, ppl, lines);
      RewardBounds(copied, ppl, Range(hi, lo), Range(prevEraseMax, prevEraseMin), Mean(lines[..]));
      reward := r;
      maxNext := Learn(newState, r);
      prevCopied, prevEraseMax, prevEraseMin := totalCopied, hi, lo;
    }
  }
}
