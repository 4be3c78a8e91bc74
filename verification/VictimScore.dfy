/**
 The victim score (conv_ftl.c:26-148) in 64-bit arithmetic: the Newton square root, the age and
 hot-degree weights, and when the cross-multiplied comparison of scores is exact.
 */
module VictimScore {
  import opened Arith
  import opened Wrappers

  const TWO_64 := 0x1_0000_0000_0000_0000

  // uint64_t arithmetic.
  function U64(x: int): nat { x % TWO_64 }

  lemma Fits(x: nat)
    requires x < TWO_64
    ensures U64(x) == x
  {
  }

  lemma Wraps()
    ensures U64(TWO_64) == 0
  {
  }

  // ----- integer square root -----

  /** The integer square root. */
  function Root(n: nat): (r: nat)
    ensures r * r <= n < (r + 1) * (r + 1)
  {
    if n == 0 then 0
    else
      var r := Root(n - 1);
      if (r + 1) * (r + 1) <= n then r + 1 else r
  }

  lemma SquareMono(a: nat, b: nat)
    requires a <= b
    ensures a * a <= b * b
  {
  }

  lemma RootUnique(n: nat, r: nat)
    requires r * r <= n < (r + 1) * (r + 1)
    ensures r == Root(n)
  {
    if r < Root(n) {
      SquareMono(r + 1, Root(n));
    } else if Root(n) < r {
      SquareMono(Root(n) + 1, r);
    }
  }

  // (x + n / x) / 2.
  function Newton(n: nat, x: nat): nat
    requires 0 < x
  {
    (x + Quo(n, x)) / 2
  }

  lemma SquareNonNegative(a: int)
    ensures a * a >= 0
  {
  }

  lemma TwiceMinus(s: int, x: int)
    ensures (2 * s - x) * x <= s * s
  {
    SquareNonNegative(x - s);
    assert (x - s) * (x - s) == x * x - 2 * (s * x) + s * s;
    assert (2 * s - x) * x == 2 * (s * x) - x * x;
  }

  lemma Between(n: int, x: int)
    requires 0 < x <= n
    ensures n < (n + 2 - x) * x
  {
    ProductNonNegative(x - 1, n - x);
    assert (x - 1) * (n - x) == x * n - x * x - n + x;
    assert (n + 2 - x) * x == x * n + 2 * x - x * x;
  }

  lemma ProductNonNegative(a: nat, b: nat)
    ensures a * b >= 0
  {
  }

  // A Newton step from any x > 0 does not fall below the root.
  lemma NewtonAbove(n: nat, x: nat)
    requires 0 < x
    ensures Newton(n, x) >= Root(n)
  {
    hide Root, Quo;
    TwiceMinus(Root(n), x);
    QuoBetween(n, x, 2 * Root(n) - x);
  }

  // The sum of a Newton step is at most n + 1, so it does not wrap.
  lemma NewtonBelow(n: nat, x: nat)
    requires 0 < x <= n
    ensures x + Quo(n, x) <= n + 1
  {
    hide Quo;
    Between(n, x);
    QuoBetween(n, x, n + 1 - x);
  }

  lemma NewtonStops(n: nat, x: nat)
    requires 0 < x && Root(n) <= x && Newton(n, x) >= x
    ensures x == Root(n)
  {
    PartsMix(n, x);
    MulMono(x, Quo(n, x), x);
    if x > Root(n) {
      SquareMono(Root(n) + 1, x);
    }
  }

  /** isqrt_u64 (conv_ftl.c:31-44). It is the integer square root of every 64-bit number but the
      largest, for which x + 1 wraps to 0 and the loop divides by zero: None. */
  method Isqrt(n: nat) returns (r: Option<nat>)
    requires n < TWO_64
    ensures r.None? <==> n == TWO_64 - 1
    ensures r.Some? ==> r.value == Root(n) < 0x1_0000_0000
  {
    Wraps();
    hide Root, Quo, U64;
    if n <= 1 {
      RootUnique(n, n);
      return Some(n);
    }
    RootOf(n);
    var x := n;
    var y := U64(x + 1) / 2;
    if n < TWO_64 - 1 {
      Fits(n + 1);
      NewtonFirst(n);
      NewtonAbove(n, n);
    }
    while y < x
      invariant n == TWO_64 - 1 ==> x == n && y == 0
      invariant n < TWO_64 - 1 ==> Root(n) <= x <= n && y == Newton(n, x) && Root(n) <= y
      decreases x
    {
      x := y;
      if x == 0 {
        return None;
      }
      NewtonBelow(n, x);
      Fits(x + Quo(n, x));
      y := U64(x + Quo(n, x)) / 2;
      NewtonAbove(n, x);
    }
    NewtonStops(n, x);
    r := Some(x);
  }

  lemma {:induction false} RootBelow(n: nat)
    ensures Root(n) <= n
  {
    if n > 0 {
      RootBelow(n - 1);
    }
  }

  lemma NewtonFirst(n: nat)
    requires 0 < n
    ensures Newton(n, n) == (n + 1) / 2
    ensures Root(n) <= n
  {
    MixParts(1, n, 0);
    RootBelow(n);
  }

  // The root of a 64-bit number is positive if the number is, and fits 32 bits.
  lemma RootOf(n: nat)
    requires 0 < n < TWO_64
    ensures 0 < Root(n) < 0x1_0000_0000
  {
    if Root(n) >= 0x1_0000_0000 {
      SquareMono(0x1_0000_0000, Root(n));
    }
  }

  // ----- weights -----

  // Thresholds in nanoseconds (conv_ftl.c:58-60).
  const TH_VERY_HOT := 100_000_000
  const TH_HOT := 5_000_000_000
  const TH_WARM := 60_000_000_000

  function AgeWeight(age: nat): (w: nat)
    ensures w == 1 || w == 5 || w == 20 || w == 100
  {
    if age < TH_VERY_HOT then 1
    else if age < TH_HOT then 5
    else if age < TH_WARM then 20
    else 100
  }

  /** The weight of an age, in nanoseconds: at most 1 below a tenth of a second, at most 5 below 5 seconds, at most
      20 below a minute. */
  lemma AgeSteps(age: nat)
    ensures AgeWeight(age) <= 1 <==> age < 100_000_000
    ensures AgeWeight(age) <= 5 <==> age < 5_000_000_000
    ensures AgeWeight(age) <= 20 <==> age < 60_000_000_000
  {
  }

  function Elapsed(now: nat, past: nat): nat {
    if now > past then now - past else 0
  }

  // AgeWeight to the power 0.5, 1, 1.5 or 2 (conv_ftl.c:114-122).
  function Alpha(aw: nat, level: nat): nat {
    match level
    case 0 => Root(aw)
    case 1 => aw
    case 2 => aw * Root(aw)
    case _ => aw * aw
  }

  // EraseCnt + 1 to the power 0, 0.5, 1, 1.5 or 2 (conv_ftl.c:125-134).
  function Delta(ec1: nat, level: nat): nat {
    match level
    case 0 => 1
    case 1 => Root(ec1)
    case 2 => ec1
    case 3 => ec1 * Root(ec1)
    case _ => ec1 * ec1
  }

  function Power(x: nat, k: nat): nat {
    if k == 0 then 1 else x * Power(x, k - 1)
  }

  /** r is x to the power k / 2: a power of x for an even k, and for an odd one that power times the
      integer square root of x. */
  ghost predicate HalfPower(x: nat, k: nat, r: nat) {
    if k % 2 == 0 then r == Power(x, k / 2)
    else exists root: nat :: root * root <= x < (root + 1) * (root + 1) && r == Power(x, k / 2) * root
  }

  // How many halves the exponents of the alpha and delta levels are.
  function AlphaHalves(level: nat): nat { if level < 3 then level + 1 else 4 }

  function DeltaHalves(level: nat): nat { if level < 4 then level else 4 }

  lemma SmallPowers(x: nat)
    ensures Power(x, 0) == 1 && Power(x, 1) == x && Power(x, 2) == x * x
  {
    assert Power(x, 1) == x * Power(x, 0);
    assert Power(x, 2) == x * Power(x, 1);
  }

  /** The alpha levels 0, 1, 2 and 3 are the powers 0.5, 1, 1.5 and 2 of the age weight; any other
      level is as the last. */
  lemma AlphaIs(aw: nat, level: nat)
    ensures HalfPower(aw, AlphaHalves(level), Alpha(aw, level))
  {
    SmallPowers(aw);
    var root := Root(aw);
    assert root * root <= aw < (root + 1) * (root + 1);
  }

  /** The delta levels 0, 1, 2, 3 and 4 are the powers 0, 0.5, 1, 1.5 and 2 of the erase count and one. */
  lemma DeltaIs(ec1: nat, level: nat)
    ensures HalfPower(ec1, DeltaHalves(level), Delta(ec1, level))
  {
    SmallPowers(ec1);
    var root := Root(ec1);
    assert root * root <= ec1 < (root + 1) * (root + 1);
  }

  // There is one such power.
  lemma HalfPowerUnique(x: nat, k: nat, r: nat, r': nat)
    requires HalfPower(x, k, r) && HalfPower(x, k, r')
    ensures r == r'
  {
    hide Power;
    if k % 2 == 1 {
      var a: nat :| a * a <= x < (a + 1) * (a + 1) && r == Power(x, k / 2) * a;
      var b: nat :| b * b <= x < (b + 1) * (b + 1) && r' == Power(x, k / 2) * b;
      RootUnique(x, a);
      RootUnique(x, b);
    }
  }

  // The facts of a line that its score depends on.
  datatype Facts = Facts(vpc: int, ipc: int, eraseCnt: nat, lastModified: nat)

  // The exact score of a line is ScoreNum / ScoreDen.
  function ScoreNum(f: Facts, now: nat, alpha: nat): int {
    Alpha(AgeWeight(Elapsed(now, f.lastModified)), alpha) * f.ipc
  }

  function ScoreDen(f: Facts, delta: nat): int {
    (f.vpc + 1) * Delta(f.eraseCnt + 1, delta)
  }

  /** Score f is at most score g, as fractions. */
  predicate ScoreAtMost(f: Facts, g: Facts, now: nat, alpha: nat, delta: nat) {
    ScoreNum(f, now, alpha) * ScoreDen(g, delta) <= ScoreNum(g, now, alpha) * ScoreDen(f, delta)
  }

  // The age weight of a line, the time since one of its pages last became invalid.
  function Aged(f: Facts, now: nat): nat { AgeWeight(Elapsed(now, f.lastModified)) }

  /** Cost-benefit: f reclaims no more per page kept than g, both weighted by age. */
  predicate CostBenefitAtMost(f: Facts, g: Facts, now: nat) {
    (Aged(f, now) * f.ipc) * (g.vpc + 1) <= (Aged(g, now) * g.ipc) * (f.vpc + 1)
  }

  /** Cost-age-times: the same with the cost of a line multiplied by the erases it has had, and one. */
  predicate CostAgeTimesAtMost(f: Facts, g: Facts, now: nat) {
    (Aged(f, now) * f.ipc) * ((g.vpc + 1) * (g.eraseCnt + 1)) <=
    (Aged(g, now) * g.ipc) * ((f.vpc + 1) * (f.eraseCnt + 1))
  }

  // The powers that the levels stand for: a line's age weight to 0.5, 1, 1.5 or 2, and one more than its
  // erase count to 0, 0.5, 1, 1.5 or 2.
  ghost predicate AgePower(f: Facts, now: nat, alpha: nat, r: nat) {
    HalfPower(Aged(f, now), AlphaHalves(alpha), r)
  }

  ghost predicate WearPower(f: Facts, delta: nat, r: nat) {
    HalfPower(f.eraseCnt + 1, DeltaHalves(delta), r)
  }

  /** The comparison of scores at any levels, by these powers. */
  ghost predicate PowersAtMost(f: Facts, g: Facts, now: nat, alpha: nat, delta: nat) {
    forall a: nat, b: nat, c: nat, d: nat ::
      AgePower(f, now, alpha, a) && AgePower(g, now, alpha, b) && WearPower(f, delta, c) && WearPower(g, delta, d) ==>
        (a * f.ipc) * ((g.vpc + 1) * d) <= (b * g.ipc) * ((f.vpc + 1) * c)
  }

  /** Score order is the order of the powers that the levels stand for; at the levels of the fixed
      policies it is that of cost-benefit and of cost-age-times. */
  lemma ScoreOrder(f: Facts, g: Facts, now: nat, alpha: nat, delta: nat)
    ensures ScoreAtMost(f, g, now, alpha, delta) <==> PowersAtMost(f, g, now, alpha, delta)
    ensures ScoreAtMost(f, g, now, 1, 0) <==> CostBenefitAtMost(f, g, now)
    ensures ScoreAtMost(f, g, now, 1, 2) <==> CostAgeTimesAtMost(f, g, now)
  {
    LevelOrder(f, g, now, alpha, delta);
    FixedOrder(f, g, now);
  }

  lemma FixedOrder(f: Facts, g: Facts, now: nat)
    ensures ScoreAtMost(f, g, now, 1, 0) <==> CostBenefitAtMost(f, g, now)
    ensures ScoreAtMost(f, g, now, 1, 2) <==> CostAgeTimesAtMost(f, g, now)
  {
    hide AgeWeight, Elapsed, Root;
    assert ScoreNum(f, now, 1) == Aged(f, now) * f.ipc && ScoreNum(g, now, 1) == Aged(g, now) * g.ipc;
    assert ScoreDen(f, 0) == f.vpc + 1 && ScoreDen(g, 0) == g.vpc + 1;
    assert ScoreDen(f, 2) == (f.vpc + 1) * (f.eraseCnt + 1) && ScoreDen(g, 2) == (g.vpc + 1) * (g.eraseCnt + 1);
  }

  lemma LevelOrder(f: Facts, g: Facts, now: nat, alpha: nat, delta: nat)
    ensures ScoreAtMost(f, g, now, alpha, delta) <==> PowersAtMost(f, g, now, alpha, delta)
  {
    hide Alpha, Delta, AgeWeight, Elapsed, HalfPower;
    AlphaIs(Aged(f, now), alpha);
    AlphaIs(Aged(g, now), alpha);
    DeltaIs(f.eraseCnt + 1, delta);
    DeltaIs(g.eraseCnt + 1, delta);
    if ScoreAtMost(f, g, now, alpha, delta) {
      forall a: nat, b: nat, c: nat, d: nat |
        AgePower(f, now, alpha, a) && AgePower(g, now, alpha, b) && WearPower(f, delta, c) && WearPower(g, delta, d)
        ensures (a * f.ipc) * ((g.vpc + 1) * d) <= (b * g.ipc) * ((f.vpc + 1) * c)
      {
        HalfPowerUnique(Aged(f, now), AlphaHalves(alpha), a, Alpha(Aged(f, now), alpha));
        HalfPowerUnique(Aged(g, now), AlphaHalves(alpha), b, Alpha(Aged(g, now), alpha));
        HalfPowerUnique(f.eraseCnt + 1, DeltaHalves(delta), c, Delta(f.eraseCnt + 1, delta));
        HalfPowerUnique(g.eraseCnt + 1, DeltaHalves(delta), d, Delta(g.eraseCnt + 1, delta));
      }
    } else {
      assert AgePower(f, now, alpha, Alpha(Aged(f, now), alpha)) && AgePower(g, now, alpha, Alpha(Aged(g, now), alpha));
      assert WearPower(f, delta, Delta(f.eraseCnt + 1, delta)) && WearPower(g, delta, Delta(g.eraseCnt + 1, delta));
    }
  }

  lemma FractionTrans(a: nat, b: nat, c: nat, d: nat, e: nat, f: nat)
    requires b > 0 && d > 0 && f > 0
    requires a * d <= c * b && c * f <= e * d
    ensures a * f <= e * b
  {
    MulMono(a * d, c * b, f);
    MulMono(c * f, e * d, b);
    assert (a * f) * d == (a * d) * f && (c * b) * f == (c * f) * b && (e * d) * b == (e * b) * d;
    if a * f > e * b {
      MulStrict(e * b, a * f, d);
    }
  }

  lemma MulStrict(a: int, b: int, n: nat)
    requires a < b && 0 < n
    ensures a * n < b * n
  {
  }

  // ----- the bound under which nothing wraps -----

  // The range in which a line's facts lie, and what keeps cross products below 2^64.
  predicate Bounded(f: Facts, ppl: nat, e: nat) {
    0 <= f.vpc <= ppl && 0 <= f.ipc <= ppl && f.eraseCnt <= e
  }

  predicate NoWrap(ppl: nat, e: nat) {
    0 < ppl && (10_000 * ppl) * ((ppl + 1) * ((e + 1) * (e + 1))) < TWO_64
  }

  lemma MulBoth(a: nat, b: nat, c: nat, d: nat)
    requires a <= c && b <= d
    ensures a * b <= c * d
  {
    MulMono(a, c, b);
    MulMono(b, d, c);
    Commute(b, c);
    Commute(d, c);
  }

  lemma AlphaBound(aw: nat, level: nat)
    requires aw <= 100
    ensures Alpha(aw, level) <= 10_000
  {
    RootBelow(aw);
    MulBoth(aw, Root(aw), 100, 100);
    MulBoth(aw, aw, 100, 100);
  }

  lemma RootPositive(n: nat)
    requires 0 < n
    ensures 0 < Root(n)
  {
  }

  lemma DeltaBound(ec1: nat, level: nat, e: nat)
    requires 1 <= ec1 <= e + 1
    ensures 1 <= Delta(ec1, level) <= (e + 1) * (e + 1)
  {
    RootBelow(ec1);
    RootPositive(ec1);
    MulBoth(ec1, Root(ec1), e + 1, e + 1);
    MulBoth(ec1, ec1, e + 1, e + 1);
    MulBoth(1, ec1, e + 1, e + 1);
    MulBoth(1, Root(ec1), ec1, Root(ec1));
    MulBoth(1, ec1, ec1, ec1);
    MulBoth(1, 1, e + 1, e + 1);
  }

  lemma NumBounds(f: Facts, now: nat, alpha: nat, ppl: nat)
    requires 0 <= f.ipc <= ppl
    ensures 0 <= ScoreNum(f, now, alpha) <= 10_000 * ppl
  {
    hide Alpha, AgeWeight, Elapsed;
    var aw := AgeWeight(Elapsed(now, f.lastModified));
    AlphaBound(aw, alpha);
    MulBoth(Alpha(aw, alpha), f.ipc, 10_000, ppl);
    ProductNonNegative(Alpha(aw, alpha), f.ipc);
  }

  lemma DenBounds(f: Facts, delta: nat, ppl: nat, e: nat)
    requires 0 <= f.vpc <= ppl && f.eraseCnt <= e
    ensures 1 <= ScoreDen(f, delta) <= (ppl + 1) * ((e + 1) * (e + 1))
  {
    hide Delta;
    DeltaBound(f.eraseCnt + 1, delta, e);
    MulBoth(f.vpc + 1, Delta(f.eraseCnt + 1, delta), ppl + 1, (e + 1) * (e + 1));
    MulBoth(1, 1, f.vpc + 1, Delta(f.eraseCnt + 1, delta));
  }

  /** Under NoWrap, numerators, denominators and their cross products are 64-bit numbers. */
  lemma CrossFits(f: Facts, g: Facts, now: nat, alpha: nat, delta: nat, ppl: nat, e: nat)
    requires Bounded(f, ppl, e) && Bounded(g, ppl, e) && NoWrap(ppl, e)
    ensures 0 <= ScoreNum(f, now, alpha) * ScoreDen(g, delta) < TWO_64
    ensures 0 <= ScoreNum(f, now, alpha) < TWO_64 && 1 <= ScoreDen(f, delta) < TWO_64
  {
    NumBounds(f, now, alpha, ppl);
    DenBounds(f, delta, ppl, e);
    DenBounds(g, delta, ppl, e);
    hide ScoreNum, ScoreDen;
    MulBoth(ScoreNum(f, now, alpha), ScoreDen(g, delta), 10_000 * ppl, (ppl + 1) * ((e + 1) * (e + 1)));
    ProductNonNegative(ScoreNum(f, now, alpha), ScoreDen(g, delta));
    MulBoth(ScoreNum(f, now, alpha), 1, 10_000 * ppl, (ppl + 1) * ((e + 1) * (e + 1)));
    MulBoth(1, ScoreDen(f, delta), 10_000 * ppl, (ppl + 1) * ((e + 1) * (e + 1)));
  }

  // ----- the driver's computation -----

  /** apply_alpha (conv_ftl.c:114-122); an age weight is at most 100. */
  method ApplyAlpha(aw: nat, level: nat) returns (r: nat)
    requires aw <= 100
    ensures r == Alpha(aw, level) && HalfPower(aw, AlphaHalves(level), r)
  {
    hide Root, HalfPower;
    AlphaIs(aw, level);
    var root := Isqrt(aw);
    match level
    case 0 => r := root.value;
    case 1 => r := aw;
    case 2 => r := aw * root.value;
    case _ => r := aw * aw;
  }

  /** apply_delta (conv_ftl.c:125-134); erase_cnt is a 32-bit number. */
  method ApplyDelta(ec1: nat, level: nat) returns (r: nat)
    requires 1 <= ec1 <= 0x1_0000_0000
    ensures r == U64(Delta(ec1, level))
    ensures forall d: nat :: HalfPower(ec1, DeltaHalves(level), d) ==> r == U64(d)
  {
    hide U64, Root, HalfPower;
    OnePower(ec1, level);
    var root := Isqrt(ec1);
    Fits(ec1);
    Fits(root.value);
    Fits(1);
    match level
    case 0 => r := 1;
    case 1 => r := root.value;
    case 2 => r := ec1;
    case 3 => r := U64(ec1 * root.value);
    case _ => r := U64(ec1 * ec1);
  }

  lemma OnePower(ec1: nat, level: nat)
    ensures forall d: nat :: HalfPower(ec1, DeltaHalves(level), d) <==> d == Delta(ec1, level)
  {
    hide HalfPower, Delta;
    var k := DeltaHalves(level);
    DeltaIs(ec1, level);
    forall d: nat | HalfPower(ec1, k, d) ensures d == Delta(ec1, level) {
      HalfPowerUnique(ec1, k, d, Delta(ec1, level));
    }
  }

  /** compute_victim_score (conv_ftl.c:137-148): the exact score unless a product wraps. */
  method ComputeVictimScore(f: Facts, now: nat, alpha: nat, delta: nat) returns (num: nat, den: nat)
    requires f.eraseCnt < 0x1_0000_0000
    ensures 0 < den < TWO_64 && num < TWO_64
    ensures forall ppl: nat, e: nat :: Bounded(f, ppl, e) && NoWrap(ppl, e) ==>
              num == ScoreNum(f, now, alpha) && den == ScoreDen(f, delta)
  {
    var aw := AgeWeight(Elapsed(now, f.lastModified));
    var a := ApplyAlpha(aw, alpha);
    var d := ApplyDelta(f.eraseCnt + 1, delta);
    num := U64(a * U64(f.ipc));
    den := U64(U64(f.vpc + 1) * d);
    if den == 0 {
      den := 1;
    }
    forall ppl: nat, e: nat | Bounded(f, ppl, e) && NoWrap(ppl, e)
      ensures num == ScoreNum(f, now, alpha) && den == ScoreDen(f, delta)
    {
      ExactScore(f, now, alpha, delta, ppl, e);
    }
  }

  lemma FactorFits(f: Facts, delta: nat, ppl: nat, e: nat)
    requires Bounded(f, ppl, e) && NoWrap(ppl, e)
    ensures f.ipc < TWO_64 && f.vpc + 1 < TWO_64 && 0 < Delta(f.eraseCnt + 1, delta) < TWO_64
  {
    var e2 := (e + 1) * (e + 1);
    DeltaBound(f.eraseCnt + 1, delta, e);
    hide Delta;
    MulBoth(1, e2, ppl + 1, e2);
    MulBoth(1, (ppl + 1) * e2, 10_000 * ppl, (ppl + 1) * e2);
    MulBoth(1, 1, e + 1, e + 1);
    MulBoth(ppl + 1, 1, ppl + 1, e2);
  }

  lemma ExactScore(f: Facts, now: nat, alpha: nat, delta: nat, ppl: nat, e: nat)
    requires Bounded(f, ppl, e) && NoWrap(ppl, e)
    ensures U64(Alpha(AgeWeight(Elapsed(now, f.lastModified)), alpha) * U64(f.ipc)) == ScoreNum(f, now, alpha)
    ensures U64(U64(f.vpc + 1) * U64(Delta(f.eraseCnt + 1, delta))) == ScoreDen(f, delta) > 0
  {
    CrossFits(f, f, now, alpha, delta, ppl, e);
    FactorFits(f, delta, ppl, e);
    hide U64, Alpha, Delta, AgeWeight, Elapsed;
    Fits(f.ipc);
    Fits(f.vpc + 1);
    Fits(Delta(f.eraseCnt + 1, delta));
    Fits(ScoreNum(f, now, alpha));
    Fits(ScoreDen(f, delta));
  }

  // ----- the best of a scan -----

  // No line seen so far scores higher than b.
  ghost predicate Best(seen: seq<Facts>, b: Facts, now: nat, alpha: nat, delta: nat) {
    forall i :: 0 <= i < |seen| ==> ScoreAtMost(seen[i], b, now, alpha, delta)
  }

  ghost predicate AllBounded(seen: seq<Facts>, ppl: nat, e: nat) {
    forall i :: 0 <= i < |seen| ==> Bounded(seen[i], ppl, e)
  }

  lemma ScoreTrans(f: Facts, g: Facts, h: Facts, now: nat, alpha: nat, delta: nat, ppl: nat, e: nat)
    requires Bounded(f, ppl, e) && Bounded(g, ppl, e) && Bounded(h, ppl, e) && NoWrap(ppl, e)
    requires ScoreAtMost(f, g, now, alpha, delta) && ScoreAtMost(g, h, now, alpha, delta)
    ensures ScoreAtMost(f, h, now, alpha, delta)
  {
    CrossFits(f, f, now, alpha, delta, ppl, e);
    CrossFits(g, g, now, alpha, delta, ppl, e);
    CrossFits(h, h, now, alpha, delta, ppl, e);
    hide ScoreNum, ScoreDen;
    FractionTrans(ScoreNum(f, now, alpha), ScoreDen(f, delta), ScoreNum(g, now, alpha), ScoreDen(g, delta),
                  ScoreNum(h, now, alpha), ScoreDen(h, delta));
  }

  /** The comparison of the scan (conv_ftl.c:310) keeps a best line, if nothing wraps. */
  lemma BestNext(seen: seq<Facts>, b: Facts, f: Facts, now: nat, alpha: nat, delta: nat, ppl: nat, e: nat)
    requires AllBounded(seen, ppl, e) && Bounded(b, ppl, e) && Bounded(f, ppl, e) && NoWrap(ppl, e)
    requires Best(seen, b, now, alpha, delta)
    ensures var higher := U64(ScoreNum(f, now, alpha) * ScoreDen(b, delta))
                          > U64(ScoreNum(b, now, alpha) * ScoreDen(f, delta));
            Best(seen + [f], if higher then f else b, now, alpha, delta)
  {
    CrossFits(f, b, now, alpha, delta, ppl, e);
    CrossFits(b, f, now, alpha, delta, ppl, e);
    hide ScoreNum, ScoreDen, U64, NoWrap;
    Fits(ScoreNum(f, now, alpha) * ScoreDen(b, delta));
    Fits(ScoreNum(b, now, alpha) * ScoreDen(f, delta));
    if !ScoreAtMost(f, b, now, alpha, delta) {
      forall i | 0 <= i < |seen| ensures ScoreAtMost(seen[i], f, now, alpha, delta) {
        ScoreTrans(seen[i], b, f, now, alpha, delta, ppl, e);
      }
    }
  }
}
