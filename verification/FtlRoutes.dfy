/**
 The routes of a collection: every page that is copied goes to the stream that page_is_hot decides on
 for its LPN, from what is noted of that LPN's writes.
 */
module FtlRoutes {
  import opened FtlModel
  import opened FtlInvariant
  import opened FtlSteps
  import opened FtlGc
  import opened HotCold

  // The pages of line v keep their reverse entries.
  ghost predicate SameBack(s0: Ftl, t: Ftl, v: nat) {
    forall p: Page :: p.line == v ==> (p in t.rmap <==> p in s0.rmap) && (p in s0.rmap ==> t.rmap[p] == s0.rmap[p])
  }

  // The streams are open on other lines than the one under collection.
  lemma OpenOther(c: Config, t: Ftl, v: nat, stale: set<Page>, st: Stream)
    requires Inv(c, t, {v}, stale) && Typed(t)
    ensures t.sp.Open(st).line != v
  {
    assert Places(t.sp, {v}, t.sp.Open(st).line) == 1 || t.sp.Open(st).line != v;
  }

  lemma StepBack(c: Config, t: Ftl, v: nat, hot: Page -> bool, e: GcEvent)
    requires Typed(t) && GcStep(c, t, v, hot, e).Some? && forall st: Stream :: t.sp.Open(st).line != v
    ensures SameBack(t, GcStep(c, t, v, hot, e).value, v)
  {
    hide Advance, TypedSpace;
  }

  lemma {:induction false} RunBack(c: Config, s0: Ftl, v: nat, hot: Page -> bool, i: nat)
    requires GoodSchedule(c.ppl, c.schedule) && i <= |c.schedule|
    requires Inv(c, s0, {v}, {}) && Typed(s0) && v < |s0.sp.lines|
    requires GcRun(c, s0, v, hot, i).Some?
    ensures SameBack(s0, GcRun(c, s0, v, hot, i).value, v)
  {
    hide Inv, Typed, GcStep, GoodSchedule, Stale, Progress, Host;
    if i > 0 {
      RunBack(c, s0, v, hot, i - 1);
      var t := GcRun(c, s0, v, hot, i - 1).value;
      GcRunKeeps(c, s0, v, hot, i - 1);
      forall st: Stream ensures t.sp.Open(st).line != v {
        OpenOther(c, t, v, Stale(c, s0, v, i - 1), st);
      }
      StepBack(c, t, v, hot, c.schedule[i - 1]);
    }
  }

  /** The pages of line v cleaned by the first i events went where they should, for the LPNs that they
      had at the start. */
  ghost predicate RoutesFit(c: Config, s0: Ftl, v: nat, h: set<Page>, i: nat, m: Notes)
    requires i <= |c.schedule|
  {
    forall p: Page :: p in s0.valid && p.line == v && p.slot in Cleaned(c.schedule, i) && p in s0.rmap ==>
      Decides(m, s0.rmap[p], p in h)
  }

  lemma NoRoutes(c: Config, s0: Ftl, v: nat, h: set<Page>, m: Notes)
    ensures RoutesFit(c, s0, v, h, 0, m)
  {
  }

  // The page that event i cleans is as it was at the start, with the LPN that it had.
  lemma PageBack(c: Config, s0: Ftl, t: Ftl, v: nat, h: set<Page>, i: nat, k: nat)
    requires Collectable(c, s0, v) && RunIs(c, s0, v, h, i, t) && i < |c.schedule| && c.schedule[i] == Clean(k)
    ensures var p := Page(v, k);
            && (p in t.valid <==> p in s0.valid) && (p in t.rmap <==> p in s0.rmap)
            && (p in s0.rmap ==> t.rmap[p] == s0.rmap[p])
  {
    hide Typed, GcStep, Stale, Host;
    RunBack(c, s0, v, Routing(h), i);
    GcRunKeeps(c, s0, v, Routing(h), i);
    CleanedPage(c, s0, t, v, i, k);
    var p := Page(v, k);
    assert p in In(t.valid, v) <==> p in In(s0.valid, v);
  }

  // One page more.
  lemma FitNext(c: Config, s0: Ftl, v: nat, h: set<Page>, h': set<Page>, i: nat, k: nat, m: Notes)
    requires i < |c.schedule| && c.schedule[i] == Clean(k) && RoutesFit(c, s0, v, h, i, m)
    requires forall p :: p != Page(v, k) ==> (p in h <==> p in h')
    requires var p := Page(v, k); p in s0.valid && p in s0.rmap ==> Decides(m, s0.rmap[p], p in h')
    ensures RoutesFit(c, s0, v, h', i + 1, m)
  {
    hide Decides;
    forall p: Page | p in s0.valid && p.line == v && p.slot in Cleaned(c.schedule, i + 1) && p in s0.rmap
      ensures Decides(m, s0.rmap[p], p in h')
    {
      if p != Page(v, k) {
        assert p.slot != k;
      }
    }
  }

  // Pages that are not copied, and erases.
  lemma FitErase(c: Config, s0: Ftl, v: nat, h: set<Page>, i: nat, m: Notes)
    requires i < |c.schedule| && c.schedule[i].Erase? && RoutesFit(c, s0, v, h, i, m)
    ensures RoutesFit(c, s0, v, h, i + 1, m)
  {
    hide Decides;
  }

  lemma {:induction false} FitSkip(c: Config, s0: Ftl, t: Ftl, v: nat, h: set<Page>, i: nat, n: nat, m: Notes)
    requires Collectable(c, s0, v) && RunIs(c, s0, v, h, i, t) && i + n <= |c.schedule|
    requires forall j :: i <= j < i + n ==> c.schedule[j].Clean? && Page(v, c.schedule[j].slot) !in t.valid
    requires RoutesFit(c, s0, v, h, i, m)
    ensures RoutesFit(c, s0, v, h, i + n, m)
  {
    hide Collectable, RoutesFit, GcRun, Decides;
    if n > 0 {
      FitSkip(c, s0, t, v, h, i, n - 1, m);
      RunSkips(c, s0, t, v, h, i, n - 1);
      var k := c.schedule[i + n - 1].slot;
      PageBack(c, s0, t, v, h, i + n - 1, k);
      FitNext(c, s0, v, h, h, i + n - 1, k, m);
    }
  }

  /** All pages copied by a whole collection went where they should. */
  lemma FitAll(c: Config, s0: Ftl, v: nat, h: set<Page>, m: Notes)
    requires Collectable(c, s0, v) && RoutesFit(c, s0, v, h, |c.schedule|, m)
    ensures forall p: Page :: p in s0.valid && p.line == v && p in s0.rmap ==> Decides(m, s0.rmap[p], p in h)
  {
    hide Decides;
    ErasedWasCleaned(c.ppl, c.schedule, |c.schedule|);
    SlotsBelow(c, s0, {v}, {});
  }
}
