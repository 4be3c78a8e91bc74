/**
 The statistics of collections over whole runs (conv_ftl.c:352-403, 560-627): what the wear gap
 reports and what the learning agent knows after any run of the driver, whatever the agent observed
 and chose on the way. Erase counts are numbers here; module ConvFtl keeps them below 2^31.
 */
module FtlWear {
  import opened Wrappers
  import opened FtlModel
  import opened FtlInvariant
  import opened FtlSteps
  import opened FtlGc
  import opened FtlRuns
  import opened WearGap
  import opened RlAgent

  // ----- what an iteration does to wear -----

  predicate Quiet(s: Ftl, t: Ftl) {
    t.ct.gcCount == s.ct.gcCount && t.ct.copied == s.ct.copied && EraseCounts(t.sp) == EraseCounts(s.sp)
  }

  predicate Collected(c: Config, s: Ftl, t: Ftl) {
    t.ct.gcCount == s.ct.gcCount + 1 && s.ct.copied <= t.ct.copied < s.ct.copied + c.ppl
  }

  /** An iteration that does not fail collects nothing and leaves the wear alone, or collects once and
      copies fewer pages than a line has. */
  lemma StepWear(c: Config, s: Ftl, q: Request)
    requires c.Valid() && Sound(c, s) && Admissible(c, q) && WriteStep(c, s, q).Some?
    ensures Quiet(s, WriteStep(c, s, q).value) || Collected(c, s, WriteStep(c, s, q).value)
  {
    hide Inv, Typed, Host, FreePages, Conserved, RefillCredits, HostWrite, EraseCounts, Policy, LastValid, Collect;
    StoreSound(c, s, q.lpn, q.v);
    WriteCount(c, s, q.lpn, q.v);
    var t := HostWrite(c, s, q.lpn, q.v).value;
    RefillWear(c, t.(ct := t.ct.(credits := t.ct.credits - 1)), q.pick, q.hot);
  }

  lemma RefillWear(c: Config, s: Ftl, pick: Space -> nat, hot: Page -> bool)
    requires c.Valid() && Policy(pick) && Inv(c, s, {}, {}) && Typed(s) && 0 <= s.ct.credits
    requires RefillCredits(c, s, pick, hot).Some?
    ensures Quiet(s, RefillCredits(c, s, pick, hot).value) || Collected(c, s, RefillCredits(c, s, pick, hot).value)
  {
    hide Inv, Typed, Host, FreePages, EraseCounts, Collect, Policy, ForegroundGc;
    if s.ct.credits == 0 {
      RefillCases(c, s, pick, hot);
      if |s.sp.free| <= c.thres && s.sp.victims != {} {
        CollectKeeps(c, s, pick(s.sp), hot);
      }
    }
  }

  // ----- the range of erase counts -----

  function Highest(q: seq<nat>): nat {
    if q == [] then 0
    else
      var hi, x := Highest(q[..|q| - 1]), q[|q| - 1];
      if x > hi then x else hi
  }

  function Lowest(q: seq<nat>): nat {
    if q == [] then 0
    else
      var lo, x := Lowest(q[..|q| - 1]), q[|q| - 1];
      if |q| == 1 || x < lo then x else lo
  }

  lemma {:induction false} ExtremesAre(q: seq<nat>)
    ensures Extremes(q, Highest(q), Lowest(q)) && Lowest(q) <= Highest(q)
  {
    if |q| > 1 {
      ExtremesAre(q[..|q| - 1]);
    }
  }

  function Spread(q: seq<nat>): nat {
    if Highest(q) >= Lowest(q) then Highest(q) - Lowest(q) else 0
  }

  lemma SpreadIs(q: seq<nat>)
    ensures RangeIs(q, Spread(q)) && forall r: nat :: RangeIs(q, r) ==> r == Spread(q)
  {
    ExtremesAre(q);
  }

  // ----- the statistics of a run -----

  // What the agent knows: its table, exploration rate, episodes and rewards, and the copies and the
  // range of erase counts as of its last update.
  datatype Learner = Learner(q: (nat, nat) -> int, epsilon: nat, episodes: nat, totalReward: int,
                             copied: nat, range: nat)

  // The ranges sampled for the wear gap, and the agent.
  datatype Stats = Stats(ranges: seq<nat>, agent: Learner)

  // What the agent saw and did at a collection.
  datatype Lesson = Lesson(state: nat, action: nat, newState: nat)

  function NewStats(): Stats {
    Stats([], Learner((_, _) => 0, 300, 0, 0, 0, 0))
  }

  // The largest of the first n entries of a state.
  function Top(q: (nat, nat) -> int, s: nat, n: nat): int
    requires 0 < n
  {
    if n == 1 then q(s, 0)
    else
      var m := Top(q, s, n - 1);
      if q(s, n - 1) > m then q(s, n - 1) else m
  }

  // rl_update (conv_ftl.c:568-627) after a collection that left `copied` copies in all.
  function Taught(l: Learner, e: Lesson, copied: nat, ppl: nat, erases: seq<nat>): Learner
    requires 0 < ppl && erases != []
  {
    var copies := if copied >= l.copied then copied - l.copied else 0;
    var reward := Reward(copies, ppl, Spread(erases), l.range, Mean(erases));
    var m := Top(l.q, e.newState, ACTIONS);
    Learner((s: nat, a: nat) => if s == e.state && a == e.action then NextQ(l.q(s, a), reward, m) else l.q(s, a),
            NextEpsilon(l.epsilon), l.episodes + 1, l.totalReward + reward, copied, Spread(erases))
  }

  /** The statistics after a run in learning mode: every collection takes a sample and teaches a lesson. */
  function RunStats(c: Config, reqs: seq<Request>, es: seq<Lesson>): Stats
    requires c.Valid() && (forall i :: 0 <= i < |reqs| ==> Admissible(c, reqs[i])) && |es| == |reqs|
  {
    if reqs == [] then NewStats()
    else
      var n := |reqs| - 1;
      var x, before, now := RunStats(c, reqs[..n], es[..n]), Run(c, reqs[..n]), Run(c, reqs);
      if before.None? || now.None? || now.value.ct.gcCount == before.value.ct.gcCount || now.value.sp.lines == [] then x
      else
        var t := now.value;
        Stats(x.ranges + [Spread(EraseCounts(t.sp))], Taught(x.agent, es[n], t.ct.copied, c.ppl, EraseCounts(t.sp)))
  }

  /** The agent after n collections that made k copies in all. */
  ghost predicate Trained(l: Learner, n: nat, k: nat) {
    && (forall s: nat, a: nat :: InRange(l.q(s, a)))
    && l.epsilon == EpsilonAfter(n) && l.episodes == n && l.copied == k
    && -1999 * n <= l.totalReward <= 1000 * n
  }

  lemma {:induction false} TopInRange(q: (nat, nat) -> int, s: nat, n: nat)
    requires 0 < n && forall s: nat, a: nat :: InRange(q(s, a))
    ensures InRange(Top(q, s, n))
  {
    hide InRange;
    if n > 1 {
      TopInRange(q, s, n - 1);
    }
  }

  lemma LessonKeeps(l: Learner, e: Lesson, n: nat, k: nat, copied: nat, ppl: nat, erases: seq<nat>)
    requires Trained(l, n, k) && k <= copied < k + ppl && erases != []
    ensures Trained(Taught(l, e, copied, ppl, erases), n + 1, copied)
  {
    hide InRange, NextQ, Reward, Spread, Mean, Top, NextEpsilon;
    var reward := Reward(copied - l.copied, ppl, Spread(erases), l.range, Mean(erases));
    RewardBounds(copied - l.copied, ppl, Spread(erases), l.range, Mean(erases));
    TopInRange(l.q, e.newState, ACTIONS);
    NextQInRange(l.q(e.state, e.action), reward, Top(l.q, e.newState, ACTIONS));
  }

  // The statistics keep up with the run.
  ghost predicate UpToDate(s: Ftl, x: Stats) {
    && Tracked(EraseCounts(s.sp), x.ranges) && |x.ranges| == s.ct.gcCount
    && Trained(x.agent, s.ct.gcCount, s.ct.copied)
  }

  lemma StartUpToDate(c: Config)
    requires c.Valid()
    ensures UpToDate(Init(c), NewStats())
  {
    hide FreePages, Inv;
    InitSafe(c);
  }

  lemma SampleKeeps(c: Config, s: Ftl, t: Ftl, x: Stats, e: Lesson)
    requires UpToDate(s, x) && Collected(c, s, t) && 2 <= |t.sp.lines| && Sum(EraseCounts(t.sp)) == t.ct.gcCount
    ensures UpToDate(t, Stats(x.ranges + [Spread(EraseCounts(t.sp))],
                              Taught(x.agent, e, t.ct.copied, c.ppl, EraseCounts(t.sp))))
  {
    hide Sum, RangeIs, Taught, Spread, Trained;
    var erases := EraseCounts(t.sp);
    SpreadIs(erases);
    RangeTaken(erases, x.ranges, Spread(erases));
    LessonKeeps(x.agent, e, s.ct.gcCount, s.ct.copied, t.ct.copied, c.ppl, erases);
  }

  lemma {:induction false} RunUpToDate(c: Config, reqs: seq<Request>, es: seq<Lesson>)
    requires c.Valid() && (forall i :: 0 <= i < |reqs| ==> Admissible(c, reqs[i])) && |es| == |reqs|
    requires Run(c, reqs).Some?
    ensures UpToDate(Run(c, reqs).value, RunStats(c, reqs, es))
  {
    hide WriteStep, Inv, FreePages, Tracked, Trained, Taught, Spread, EraseCounts, Admissible, Typed, NewStats;
    if reqs == [] {
      StartUpToDate(c);
    } else {
      var n := |reqs| - 1;
      var s := Run(c, reqs[..n]).value;
      RunUpToDate(c, reqs[..n], es[..n]);
      RunSound(c, reqs[..n]);
      RunSound(c, reqs);
      StepWear(c, s, reqs[n]);
      var t := Run(c, reqs).value;
      TwoLines(c, t);
      if Collected(c, s, t) {
        SampleKeeps(c, s, t, RunStats(c, reqs[..n], es[..n]), es[n]);
      }
    }
  }

  /** The wear gap over every run: after the first collection, and ever after, the reported sum of
      changes is the present range of erase counts minus 1, over one sample fewer than collections. */
  lemma WearGapOverRuns(c: Config, reqs: seq<Request>, es: seq<Lesson>)
    requires c.Valid() && (forall i :: 0 <= i < |reqs| ==> Admissible(c, reqs[i])) && |es| == |reqs|
    requires Run(c, reqs).Some? && Run(c, reqs).value.ct.gcCount > 0
    ensures var s, gap := Run(c, reqs).value, After(RunStats(c, reqs, es).ranges);
            && gap.samples == s.ct.gcCount - 1
            && gap.accumDiff >= -1 && RangeIs(EraseCounts(s.sp), gap.accumDiff + 1)
  {
    hide Run, Tracked, Trained, RangeIs, After, Admissible, Typed, RunStats;
    RunUpToDate(c, reqs, es);
    GapIs(EraseCounts(Run(c, reqs).value.sp), RunStats(c, reqs, es).ranges);
  }

  /** Learning over every run: whatever the agent observed and chose at each collection, its table
      stays within bounds that fit far below 32 bits, its rewards sum up to no more than they can,
      and its exploration rate went down by one with every collection, to no less than 50. */
  lemma LearningOverRuns(c: Config, reqs: seq<Request>, es: seq<Lesson>)
    requires c.Valid() && (forall i :: 0 <= i < |reqs| ==> Admissible(c, reqs[i])) && |es| == |reqs|
    requires Run(c, reqs).Some?
    ensures var n, l := Run(c, reqs).value.ct.gcCount, RunStats(c, reqs, es).agent;
            && (forall s: nat, a: nat :: -39980 <= l.q(s, a) <= 20000)
            && l.episodes == n && -1999 * n <= l.totalReward <= 1000 * n
            && l.epsilon == if n <= 250 then 300 - n else 50
  {
    hide Run, Tracked, EpsilonAfter, Admissible, Typed, RunStats;
    RunUpToDate(c, reqs, es);
    EpsilonIs(Run(c, reqs).value.ct.gcCount);
  }
}
