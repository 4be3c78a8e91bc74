/**
 rl_get_state (conv_ftl.c:411-528): one scan of the victim queue finds the lines that the greedy,
 cost-benefit and cost-age-times policies would choose and the wear among the candidates; six levels
 derived from them and from the write statistics make the state index.
 */
module RlState {
  import opened Wrappers
  import opened Arith
  import opened FtlModel
  import opened VictimScore
  import opened WearGap
  import opened RlAgent

  // What the scan has found.
  datatype Scan = Scan(greedy: Option<nat>, cb: Option<nat>, cat: Option<nat>, ecMax: nat, ecMin: nat, ecSum: nat)

  function Ecs(q: seq<Facts>): (r: seq<nat>)
    ensures |r| == |q|
  {
    seq(|q|, i requires 0 <= i < |q| => q[i].eraseCnt)
  }

  // Line i of q has the fewest valid pages, and is the first such.
  ghost predicate FirstFewest(q: seq<Facts>, i: nat) {
    && i < |q|
    && (forall j :: 0 <= j < |q| ==> q[i].vpc <= q[j].vpc)
    && (forall j :: 0 <= j < i ==> q[i].vpc < q[j].vpc)
  }

  // The score of line f at a pair of levels, rounded down.
  function Floor(f: Facts, now: nat, delta: nat): int {
    var den := ScoreDen(f, delta);
    if den > 0 then ScoreNum(f, now, 1) / den else 0
  }

  // Line r of q has the largest positive rounded score; none if all of them are 0.
  ghost predicate FirstHighest(q: seq<Facts>, r: Option<nat>, now: nat, delta: nat) {
    match r
    case None => forall j :: 0 <= j < |q| ==> Floor(q[j], now, delta) <= 0
    case Some(i) =>
      && i < |q| && Floor(q[i], now, delta) > 0
      && (forall j :: 0 <= j < |q| ==> Floor(q[j], now, delta) <= Floor(q[i], now, delta))
      && (forall j :: 0 <= j < i ==> Floor(q[j], now, delta) < Floor(q[i], now, delta))
  }

  lemma FirstHighestMore(q: seq<Facts>, r: Option<nat>, f: Facts, now: nat, delta: nat)
    requires FirstHighest(q, r, now, delta)
    ensures var best := if r.Some? then Floor(q[r.value], now, delta) else 0;
            FirstHighest(q + [f], if Floor(f, now, delta) > best then Some(|q|) else r, now, delta)
  {
    hide Floor;
  }

  lemma FirstFewestMore(q: seq<Facts>, i: nat, f: Facts)
    requires FirstFewest(q, i)
    ensures FirstFewest(q + [f], if f.vpc < q[i].vpc then |q| else i)
  {
  }

  lemma EcsMore(q: seq<Facts>, f: Facts)
    ensures Ecs(q + [f]) == Ecs(q) + [f.eraseCnt]
  {
  }

  // The greedy choice and the wear of the candidates.
  ghost predicate Basics(q: seq<Facts>, s: Scan) {
    && (if q == [] then s == Scan(None, None, None, 0, UINT_MAX, 0)
        else s.greedy.Some? && FirstFewest(q, s.greedy.value) && Extremes(Ecs(q), s.ecMax, s.ecMin)
             && s.ecMin <= s.ecMax <= UINT_MAX)
    && s.ecSum == Sum(Ecs(q))
    && (s.cb.Some? ==> s.cb.value < |q|) && (s.cat.Some? ==> s.cat.value < |q|)
  }

  // What the scan finds (conv_ftl.c:430-463). The scored choices are exact as long as nothing wraps.
  ghost predicate Found(q: seq<Facts>, s: Scan, now: nat, exact: bool) {
    && Basics(q, s)
    && (exact ==> FirstHighest(q, s.cb, now, 0) && FirstHighest(q, s.cat, now, 2))
  }

  // Some bound on erase counts keeps all scores of the candidates from wrapping.
  ghost predicate Exact(q: seq<Facts>, ppl: nat) {
    exists e: nat :: AllBounded(q, ppl, e) && NoWrap(ppl, e)
  }

  // What a scan of these candidates finds.
  ghost predicate Sees(q: seq<Facts>, s: Scan, now: nat, ppl: nat) {
    Found(q, s, now, Exact(q, ppl))
  }

  // A choice and its score.
  ghost predicate Choice(q: seq<Facts>, r: Option<nat>, best: nat, now: nat, delta: nat) {
    && FirstHighest(q, r, now, delta)
    && (r.Some? ==> r.value < |q|)
    && best == if r.Some? then Floor(q[r.value], now, delta) else 0
  }

  lemma ChoiceMore(q: seq<Facts>, r: Option<nat>, best: nat, f: Facts, score: nat, now: nat, delta: nat)
    requires Choice(q, r, best, now, delta) && score == Floor(f, now, delta)
    ensures if score > best then Choice(q + [f], Some(|q|), score, now, delta) else Choice(q + [f], r, best, now, delta)
  {
    hide Floor;
    FirstHighestMore(q, r, f, now, delta);
  }

  // One candidate more: the new choice of a scored policy, given its largest score so far.
  method BetterChoice(f: Facts, i: nat, r: Option<nat>, best: nat, now: nat, delta: nat, ghost q: seq<Facts>,
                      ghost ppl: nat, ghost e: nat, ghost exact: bool)
    returns (r': Option<nat>, best': nat)
    requires f.eraseCnt < 0x1_0000_0000 && i == |q|
    requires r.Some? ==> r.value < |q|
    requires exact ==> Bounded(f, ppl, e) && NoWrap(ppl, e) && Choice(q, r, best, now, delta)
    ensures r'.Some? ==> r'.value < |q| + 1
    ensures exact ==> Choice(q + [f], r', best', now, delta)
  {
    hide NoWrap, ScoreNum, ScoreDen, Choice;
    var num, den := ComputeVictimScore(f, now, 1, delta);
    var score: nat := num / den;
    if exact {
      assert score == Floor(f, now, delta);
      ChoiceMore(q, r, best, f, score, now, delta);
    }
    r', best' := r, best;
    if score > best {
      r', best' := Some(i), score;
    }
  }

  lemma BasicsMore(q: seq<Facts>, s: Scan, c: Facts, t: Scan)
    requires Basics(q, s) && c.eraseCnt < UINT_MAX
    requires t.greedy == if q == [] || c.vpc < q[s.greedy.value].vpc then Some(|q|) else s.greedy
    requires t.ecMax == if c.eraseCnt > s.ecMax then c.eraseCnt else s.ecMax
    requires t.ecMin == if c.eraseCnt < s.ecMin then c.eraseCnt else s.ecMin
    requires t.ecSum == s.ecSum + c.eraseCnt
    requires (t.cb.Some? ==> t.cb.value < |q| + 1) && (t.cat.Some? ==> t.cat.value < |q| + 1)
    ensures Basics(q + [c], t)
  {
    if q != [] {
      FirstFewestMore(q, s.greedy.value, c);
    }
    EcsMore(q, c);
    SumGrow(Ecs(q), c.eraseCnt);
    ExtremesMore(Ecs(q), c.eraseCnt, s.ecMax, s.ecMin);
  }

  // The loop of rl_get_state over the victim queue.
  method ScanQueue(queue: seq<Facts>, now: nat, ghost ppl: nat, ghost e: nat) returns (s: Scan)
    requires forall i :: 0 <= i < |queue| ==> queue[i].eraseCnt < UINT_MAX && queue[i].vpc < UINT_MAX
    ensures Found(queue, s, now, AllBounded(queue, ppl, e) && NoWrap(ppl, e))
  {
    hide NoWrap, FirstHighest, Floor, Bounded, Extremes, Sum, Ecs;
    ghost var exact := AllBounded(queue, ppl, e) && NoWrap(ppl, e);
    s := Scan(None, None, None, 0, UINT_MAX, 0);
    var minVpc: int, cbMax, catMax := UINT_MAX, 0, 0;
    NothingFound(now);
    for i := 0 to |queue|
      invariant Basics(queue[..i], s)
      invariant minVpc == if i == 0 then UINT_MAX else queue[s.greedy.value].vpc
      invariant exact ==> Choice(queue[..i], s.cb, cbMax, now, 0) && Choice(queue[..i], s.cat, catMax, now, 2)
    {
      var c := queue[i];
      ghost var q := queue[..i];
      assert queue[..i + 1] == q + [c];
      var greedy := s.greedy;
      if c.vpc < minVpc {
        minVpc, greedy := c.vpc, Some(i);
      }
      var cb, cat;
      cb, cbMax := BetterChoice(c, i, s.cb, cbMax, now, 0, q, ppl, e, exact);
      cat, catMax := BetterChoice(c, i, s.cat, catMax, now, 2, q, ppl, e, exact);
      var ecMax := if c.eraseCnt > s.ecMax then c.eraseCnt else s.ecMax;
      var ecMin := if c.eraseCnt < s.ecMin then c.eraseCnt else s.ecMin;
      var t := Scan(greedy, cb, cat, ecMax, ecMin, s.ecSum + c.eraseCnt);
      BasicsMore(q, s, c, t);
      s := t;
    }
    assert queue[..|queue|] == queue;
  }

  lemma NothingFound(now: nat)
    ensures Basics([], Scan(None, None, None, 0, UINT_MAX, 0))
    ensures Choice([], None, 0, now, 0) && Choice([], None, 0, now, 2)
  {
  }

  // A product in a signed 32-bit number, which wraps, divided as an unsigned 64-bit one and kept in 32 bits.
  function SignedPercent(x: nat, n: nat): nat
    requires 0 < n
  {
    var y := U32(x * 100);
    U32(Quo(if y <= INT_MAX then y else TWO_64 - TWO_32 + y, n))
  }

  // How many percent of a line more valid pages line b has than line a, if b is a different line
  // with more of them (conv_ftl.c:465-470, 476-481).
  function VpcGap(queue: seq<Facts>, a: Option<nat>, b: Option<nat>, ppl: nat): nat
    requires 0 < ppl
  {
    if a.Some? && b.Some? && a.value < |queue| && b.value < |queue| && a != b
       && queue[b.value].vpc > queue[a.value].vpc
    then SignedPercent(queue[b.value].vpc - queue[a.value].vpc, ppl) else 0
  }

  /** The gap is a percentage, rounded down, as long as the product fits the signed number. */
  lemma SignedPercentIs(x: nat, n: nat)
    requires x <= n && 0 < n && x <= 21474836
    ensures SignedPercent(x, n) == x * 100 / n <= 100
  {
    hide Quo;
    PartsAre(x * 100, n);
    AtMost(x * 100, n, 100);
  }

  /** One page more, and it wraps. */
  lemma SignedPercentWraps()
    ensures SignedPercent(21474837, 21474837) != 100
  {
    hide Quo;
    PartsAre(TWO_64 - TWO_32 + 2147483700, 21474837);
  }

  // window_hot as a percentage (conv_ftl.c:505-506, 515-516).
  function HotPct(hot: nat, total: nat): nat { if total > 0 then Percent(hot, total) else 0 }

  /** The levels of the state, from what the scan has found and the write statistics. */
  function Levels(queue: seq<Facts>, s: Scan, ppl: nat, lastEc: nat, hot: nat, total: nat, prevPct: nat): (r: State)
    requires 0 < ppl
    ensures Discrete(r)
  {
    var n := |queue|;
    var mean := if n > 0 then Quo(s.ecSum, n) else 0;
    var rel := if n > 0 && mean > 0 && s.ecMax >= s.ecMin then Percent(s.ecMax - s.ecMin, mean + 1) else 0;
    var pct := HotPct(hot, total);
    State(GapLevel(VpcGap(queue, s.greedy, s.cb, ppl)), GapLevel(VpcGap(queue, s.cb, s.cat, ppl)),
          HotLevel(pct), TrendLevel(pct - prevPct), VictimLevel(lastEc, mean), WearLevel(rel))
  }

  // ----- what the levels say -----

  /** At the levels of the fixed policies the scan's scores are cost-benefit and cost-age-times. */
  lemma FloorIs(f: Facts, now: nat)
    requires 0 <= f.vpc
    ensures Floor(f, now, 0) == Aged(f, now) * f.ipc / (f.vpc + 1)
    ensures (f.vpc + 1) * (f.eraseCnt + 1) > 0
    ensures Floor(f, now, 2) == Aged(f, now) * f.ipc / ((f.vpc + 1) * (f.eraseCnt + 1))
  {
    hide AgeWeight, Elapsed, Root;
    assert ScoreDen(f, 0) == f.vpc + 1 && ScoreDen(f, 2) == (f.vpc + 1) * (f.eraseCnt + 1);
    assert (f.vpc + 1) * (f.eraseCnt + 1) >= 1 * 1;
  }

  lemma QuoAtLeast(x: nat, n: nat, t: nat)
    requires 0 < n
    ensures Quo(x, n) >= t <==> x >= t * n
  {
    PartsMix(x, n);
    if Quo(x, n) >= t {
      MulMono(t, Quo(x, n), n);
    } else {
      MulMono(Quo(x, n) + 1, t, n);
      Distribute(Quo(x, n), 1, n);
    }
  }

  // By how many pages line b has more valid pages than line a, if it is another line.
  function MorePages(queue: seq<Facts>, a: Option<nat>, b: Option<nat>): nat {
    if a.Some? && b.Some? && a.value < |queue| && b.value < |queue| && a.value != b.value
       && queue[b.value].vpc > queue[a.value].vpc
    then queue[b.value].vpc - queue[a.value].vpc else 0
  }

  lemma GapLevelIs(queue: seq<Facts>, a: Option<nat>, b: Option<nat>, ppl: nat)
    requires 0 < ppl <= 21474836 && MorePages(queue, a, b) <= ppl
    ensures var gap, level := MorePages(queue, a, b), GapLevel(VpcGap(queue, a, b, ppl));
            && (level >= 1 <==> 100 * gap >= 3 * ppl) && (level >= 2 <==> 100 * gap >= 8 * ppl)
            && (level >= 3 <==> 100 * gap >= 18 * ppl)
  {
    hide Quo, SignedPercent;
    var gap := MorePages(queue, a, b);
    GapPercent(gap, ppl);
    QuoAtLeast(gap * 100, ppl, 3);
    QuoAtLeast(gap * 100, ppl, 8);
    QuoAtLeast(gap * 100, ppl, 18);
  }

  lemma GapPercent(gap: nat, ppl: nat)
    requires 0 < ppl && gap <= ppl && gap <= 21474836
    ensures SignedPercent(gap, ppl) == Quo(gap * 100, ppl) && SignedPercent(0, ppl) == 0
  {
    hide Quo;
    SignedPercentIs(gap, ppl);
    SignedPercentIs(0, ppl);
    PartsAre(gap * 100, ppl);
  }

  /** S1 and S2 say by how many hundredths of a line (3, 8, 18) the choice of cost-benefit has more valid
      pages than the greedy one, and that of cost-age-times than that of cost-benefit. */
  lemma GapsAre(queue: seq<Facts>, s: Scan, ppl: nat, lastEc: nat, hot: nat, total: nat, prevPct: nat)
    requires 0 < ppl <= 21474836
    requires MorePages(queue, s.greedy, s.cb) <= ppl && MorePages(queue, s.cb, s.cat) <= ppl
    ensures var r := Levels(queue, s, ppl, lastEc, hot, total, prevPct);
            var gap1, gap2 := MorePages(queue, s.greedy, s.cb), MorePages(queue, s.cb, s.cat);
            && (r.s1 >= 1 <==> 100 * gap1 >= 3 * ppl) && (r.s1 >= 2 <==> 100 * gap1 >= 8 * ppl)
            && (r.s1 >= 3 <==> 100 * gap1 >= 18 * ppl)
            && (r.s2 >= 1 <==> 100 * gap2 >= 3 * ppl) && (r.s2 >= 2 <==> 100 * gap2 >= 8 * ppl)
            && (r.s2 >= 3 <==> 100 * gap2 >= 18 * ppl)
  {
    hide VpcGap, GapLevel, MorePages;
    GapLevelIs(queue, s.greedy, s.cb, ppl);
    GapLevelIs(queue, s.cb, s.cat, ppl);
  }

  /** S3 says how many hundredths (10, 30, 55) of the window's writes were hot; S4 whether their percentage is
      more than 8 points below or above that of the last window. */
  lemma HotLevelsAre(queue: seq<Facts>, s: Scan, ppl: nat, lastEc: nat, hot: nat, total: nat, prevPct: nat)
    requires 0 < ppl && hot <= total && hot <= 42949672
    ensures var r := Levels(queue, s, ppl, lastEc, hot, total, prevPct);
            var pct := if total > 0 then hot * 100 / total else 0;
            && (r.s3 >= 1 <==> total > 0 && 100 * hot >= 10 * total)
            && (r.s3 >= 2 <==> total > 0 && 100 * hot >= 30 * total)
            && (r.s3 >= 3 <==> total > 0 && 100 * hot >= 55 * total)
            && (r.s4 == 0 <==> pct + 8 < prevPct) && (r.s4 == 2 <==> pct > prevPct + 8)
  {
    hide Quo, Percent, VpcGap;
    if total > 0 {
      PercentIs(hot, total);
      PartsAre(hot * 100, total);
      QuoAtLeast(hot * 100, total, 10);
      QuoAtLeast(hot * 100, total, 30);
      QuoAtLeast(hot * 100, total, 55);
    }
  }

  lemma VictimLevelIs(lastEc: nat, sum: nat, n: nat)
    requires 0 < n && sum <= n * 0x8000_0000
    ensures var level, mean := VictimLevel(lastEc, Quo(sum, n)), sum / n;
            (level == 0 <==> lastEc * n <= sum) && (level == 2 <==> lastEc > mean + mean / 2)
  {
    hide Quo;
    PartsAre(sum, n);
    QuoAtLeast(sum, n, lastEc);
    AtMost(sum, n, 0x8000_0000);
  }

  lemma WearLevelIs(spread: nat, mean: nat)
    requires spread <= 42949672
    ensures var level := WearLevel(Percent(spread, mean + 1));
            (level >= 1 <==> 100 * spread >= 5 * (mean + 1)) && (level == 2 <==> 100 * spread >= 20 * (mean + 1))
    ensures WearLevel(0) == 0
  {
    hide Quo;
    assert U32(spread * 100) == spread * 100;
    QuoAtLeast(spread * 100, mean + 1, 5);
    QuoAtLeast(spread * 100, mean + 1, 20);
  }

  /** S5 says whether the last victim had more erases than the candidates have on average, and than half as
      many again; S6 how many hundredths (5, 20) of that average and one their erase counts spread. */
  lemma WearLevelsAre(queue: seq<Facts>, s: Scan, ppl: nat, lastEc: nat, hot: nat, total: nat, prevPct: nat)
    requires 0 < ppl && queue != [] && s.ecMin <= s.ecMax && s.ecSum <= |queue| * 0x8000_0000
    requires s.ecMax - s.ecMin <= 42949672
    ensures var r := Levels(queue, s, ppl, lastEc, hot, total, prevPct);
            var mean, spread := s.ecSum / |queue|, s.ecMax - s.ecMin;
            && (r.s5 == 0 <==> lastEc * |queue| <= s.ecSum) && (r.s5 == 2 <==> lastEc > mean + mean / 2)
            && (r.s6 >= 1 <==> mean > 0 && 100 * spread >= 5 * (mean + 1))
            && (r.s6 == 2 <==> mean > 0 && 100 * spread >= 20 * (mean + 1))
  {
    hide Quo, VpcGap, HotPct, VictimLevel, WearLevel, Percent;
    PartsAre(s.ecSum, |queue|);
    VictimLevelIs(lastEc, s.ecSum, |queue|);
    WearLevelIs(s.ecMax - s.ecMin, Quo(s.ecSum, |queue|));
  }

  /** rl_get_state: the index of a state, for the candidates that the greedy, cost-benefit and
      cost-age-times policies would choose (exactly those, unless a product wraps). */
  method GetState(queue: seq<Facts>, now: nat, ppl: nat, lastEc: nat, hot: nat, total: nat, prevPct: nat, ghost e: nat)
    returns (k: nat, ghost s: Scan)
    requires 0 < ppl
    requires forall i :: 0 <= i < |queue| ==> queue[i].eraseCnt < UINT_MAX && queue[i].vpc < UINT_MAX
    ensures k < STATES
    ensures Found(queue, s, now, AllBounded(queue, ppl, e) && NoWrap(ppl, e))
    ensures k == Encode(Levels(queue, s, ppl, lastEc, hot, total, prevPct))
  {
    hide Found, NoWrap, Levels, Encode;
    var found := ScanQueue(queue, now, ppl, e);
    s := found;
    var levels := Levels(queue, found, ppl, lastEc, hot, total, prevPct);
    EncodeIsIndex(levels);
    k := Encode(levels);
  }
}
