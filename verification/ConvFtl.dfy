/**
 One FTL partition in place (struct conv_ftl): the tables, the page statuses, the line management
 and the counters, with the driver's methods. Each is proved to do what the corresponding function
 of FtlModel does, and conv_write keeps a partition safe.
 */
module ConvFtl {
  import opened Arith
  import opened Wrappers
  import opened FtlModel
  import opened FtlInvariant
  import opened FtlSteps
  import opened FtlGc
  import opened FtlRuns
  import opened Geometry
  import opened FtlView
  import opened LineMgmt
  import opened VictimScore
  import opened GcOrder
  import opened HotCold
  import opened FtlRoutes
  import opened WearGap
  import RlAgent
  import RlState

  lemma BlankTables(g: Geometry, m: seq<Option<Ppa>>, r: seq<Option<nat>>, st: seq<PgStatus>)
    requires g.Valid()
    requires forall i :: 0 <= i < |m| ==> m[i] == None
    requires forall i :: 0 <= i < |r| ==> r[i] == None
    requires forall i :: 0 <= i < |st| ==> st[i] == PgFree
    ensures MapView(g, m) == map[] && RmapView(g, r) == map[]
    ensures Having(g, st, PgValid) == {} && Having(g, st, PgInvalid) == {}
  {
    hide Idx, PageOf;
  }

  lemma InitIs(c: Config)
    ensures Init(c) == Ftl(map[], map[], {}, {}, map[], Init(c).sp, Counters(c.ppl, c.ppl, 0, 0, 0))
  {
  }

  // The ways of choosing a victim: the line of fewest valid pages, or the highest score at given
  // levels; CB is Scored(1, 0), CAT is Scored(1, 2) and the learning agent chooses the levels.
  datatype VictimRule = Greedy | Scored(alpha: nat, delta: nat)

  const GC_MODE_CB := 1
  const GC_MODE_CAT := 2
  const GC_MODE_RL := 3

  // The rule of a gc_mode (conv_ftl.h:36-40) without learning (conv_ftl.c:1289-1305); every mode that
  // is not one of the others is greedy.
  function FixedRule(mode: int): VictimRule {
    if mode == GC_MODE_CB then Scored(1, 0) else if mode == GC_MODE_CAT then Scored(1, 2) else Greedy
  }

  class ConvFtl {
    const g: Geometry
    const thres: nat
    const mode: int
    const maptbl: array<Option<Ppa>>
    const rmap: array<Option<nat>>
    const status: array<PgStatus>
    const updateCnt: array<nat>
    const lastWrite: array<nat>
    const lm: LineMgmt
    const wgs: WearGapStats
    const agent: RlAgent.Agent
    var avgHotDegree: nat
    var credits: int
    var refill: int
    var gcCount: nat
    var copied: nat
    var hostWritten: nat
    ghost var data: map<Page, Payload>

    ghost function Repr(): set<object>
    {
      {this, maptbl, rmap, status, updateCnt, lastWrite} + lm.Repr()
    }

    ghost function FullRepr(): set<object>
    {
      Repr() + {wgs, agent, agent.q}
    }

    // The statistics after n collections that copied k pages in all and left these erase counts: one
    // sample of the wear gap for each collection, the last one of these counts; and in learning mode one
    // episode for each, with the copies of all of them accounted for.
    ghost predicate StatsAre(n: nat, k: nat, erases: seq<nat>)
      reads wgs, agent, agent.q
    {
      && wgs.Valid() && |wgs.ranges| == n && Tracked(erases, wgs.ranges)
      && agent.Valid()
      && (mode == GC_MODE_RL ==> agent.totalEpisodes == n && agent.prevCopied == k)
    }

    ghost predicate StatsOk()
      reads this`gcCount, this`copied, wgs, agent, agent.q, lm.eraseCnt
    {
      StatsAre(gcCount, copied, lm.eraseCnt[..])
    }

    function Cfg(): Config
      requires g.Valid()
    {
      ConfigOf(g, thres)
    }

    ghost predicate Shape()
    {
      && g.Valid() && lm.g == g
      && maptbl.Length == rmap.Length == status.Length == updateCnt.Length == lastWrite.Length == TtPgs(g)
      && updateCnt != lastWrite && wgs !in Repr() && agent !in Repr()
      && this !in lm.Repr() && maptbl !in lm.Repr() && rmap !in lm.Repr()
      && status !in lm.Repr() && updateCnt !in lm.Repr() && lastWrite !in lm.Repr()
    }

    // Every entry of maptbl is unmapped or an address on the chip.
    ghost predicate Rep()
      reads Repr()
    {
      && Shape() && lm.Rep()
      && (forall i :: 0 <= i < maptbl.Length && maptbl[i].Some? ==> ValidPpa(g, maptbl[i].value))
    }

    ghost function View(): (s: Ftl)
      reads Repr()
      requires Rep()
      ensures TypedSpace(s.sp) && |s.sp.lines| == g.blks
    {
      Ftl(MapView(g, maptbl[..]), RmapView(g, rmap[..]),
          Having(g, status[..], PgValid), Having(g, status[..], PgInvalid), data,
          lm.View(), Counters(credits, refill, gcCount, copied, hostWritten))
    }

    // What is noted of the LPNs' writes, and when the lines last lost a page.
    ghost function Times(): (Notes, seq<nat>)
      reads this`avgHotDegree, updateCnt, lastWrite, lm.lastModified
    {
      (Notes(updateCnt[..], lastWrite[..], avgHotDegree), lm.lastModified[..])
    }

    // The allocations of conv_init_ftl.
    constructor (g: Geometry, thres: nat, mode: int, wgs: WearGapStats, agent: RlAgent.Agent)
      requires g.Valid()
      ensures Shape() && lm.Blank() && data == map[] && this.g == g && this.thres == thres && this.mode == mode
      ensures fresh(Repr()) && gcCount == copied == 0 && this.wgs == wgs && this.agent == agent
      ensures avgHotDegree == 16
    {
      hide LineMgmt.Shape, LineMgmt.Blank, After, TtPgs, Geometry.Valid, RlAgent.Agent.Valid;
      this.g, this.thres, this.mode, this.wgs, this.agent := g, thres, mode, wgs, agent;
      maptbl := new Option<Ppa>[TtPgs(g)];
      rmap := new Option<nat>[TtPgs(g)];
      status := new PgStatus[TtPgs(g)];
      updateCnt := new nat[TtPgs(g)];
      lastWrite := new nat[TtPgs(g)];
      avgHotDegree := 16;
      credits, refill := 0, 0;
      gcCount, copied, hostWritten := 0, 0, 0;
      data := map[];
      lm := new LineMgmt(g);
    }

    // Nothing is mapped and every page is PG_FREE.
    ghost predicate Unmapped()
      reads maptbl, rmap, status
      requires Shape()
    {
      forall i :: 0 <= i < TtPgs(g) ==> maptbl[i] == None && rmap[i] == None && status[i] == PgFree
    }

    // init_maptbl, init_rmap, init_page_meta and ssd_init_nand_page
    // (conv_ftl.c:850-869, 680-691; ssd.c:255-265).
    method InitTables()
      requires Shape()
      modifies maptbl, rmap, status, updateCnt, lastWrite
      ensures Unmapped()
      ensures forall i :: 0 <= i < TtPgs(g) ==> updateCnt[i] == 0 && lastWrite[i] == 0
    {
      hide TtPgs, LineMgmt.Repr, Geometry.Valid;
      var i := 0;
      while i < maptbl.Length
        invariant 0 <= i <= maptbl.Length
        invariant forall j :: 0 <= j < i ==> maptbl[j] == None && rmap[j] == None && status[j] == PgFree
        invariant forall j :: 0 <= j < i ==> updateCnt[j] == 0 && lastWrite[j] == 0
      {
        maptbl[i], rmap[i], status[i] := None, None, PgFree;
        updateCnt[i], lastWrite[i] := 0, 0;
        i := i + 1;
      }
    }

    // Blank tables over initialised lines.
    lemma FreshView(c: Config)
      requires Shape() && lm.Rep() && lm.View() == Init(c).sp && c == Cfg() && Unmapped()
      requires data == map[] && credits == refill == c.ppl && gcCount == copied == hostWritten == 0
      ensures Rep() && View() == Init(c)
    {
      hide MapView, RmapView, Having, Init, LineMgmt.Rep, LineMgmt.View;
      BlankTables(g, maptbl[..], rmap[..], status[..]);
      InitIs(c);
    }

    method InitSpace()
      requires Shape() && lm.Blank() && 3 <= g.blks
      modifies lm
      ensures lm.Rep() && lm.View() == Init(Cfg()).sp
    {
      hide LineMgmt.Rep, LineMgmt.View, LineMgmt.Blank, Init;
      lm.InitLines();
    }

    // The counters and the credits (conv_ftl.c:880-882, 728-732).
    method InitCounters()
      requires g.Valid() && StatsOk() && gcCount == copied == 0
      modifies this`gcCount, this`copied, this`hostWritten, this`credits, this`refill
      ensures StatsOk() && gcCount == copied == hostWritten == 0 && credits == refill == g.PgsPerLine()
    {
      hide RlAgent.Agent.Valid, After;
      gcCount, copied, hostWritten := 0, 0, 0;
      credits := g.PgsPerLine();
      refill := g.PgsPerLine();
    }

    /** conv_init_ftl (conv_ftl.c:875-900): the state it leaves is Init. */
    method InitFtl()
      requires Shape() && lm.Blank() && data == map[] && 3 <= g.blks
      requires StatsOk() && gcCount == copied == 0
      modifies this`gcCount, this`copied, this`hostWritten, this`credits, this`refill
      modifies maptbl, rmap, status, updateCnt, lastWrite, lm
      ensures Rep() && View() == Init(Cfg()) && StatsOk()
      ensures forall i :: 0 <= i < TtPgs(g) ==> updateCnt[i] == 0 && lastWrite[i] == 0
    {
      hide View, Rep, Init, Unmapped, LineMgmt.Rep, LineMgmt.View, LineMgmt.Blank, After, Schedule, StatsOk;
      InitTables();
      InitSpace();
      InitCounters();
      FreshView(Cfg());
    }

    // set_maptbl_ent (conv_ftl.c:173-178).
    method SetMaptblEnt(lpn: nat, ppa: Ppa)
      requires Rep() && lpn < TtPgs(g) && ValidPpa(g, ppa)
      modifies maptbl
      ensures Rep() && View() == old(View()).(maptbl := old(View()).maptbl[lpn := PageOf(g, ppa)])
    {
      MapViewSet(g, maptbl[..], lpn, ppa);
      hide PageOf, ValidPpa, MapView, RmapView, Having;
      maptbl[lpn] := Some(ppa);
      assert maptbl[..] == old(maptbl[..])[lpn := Some(ppa)];
    }

    // set_rmap_ent (conv_ftl.c:197-201); None stands for INVALID_LPN.
    method SetRmapEnt(lpn: Option<nat>, ppa: Ppa)
      requires Rep() && ValidPpa(g, ppa)
      modifies rmap
      ensures Rep()
      ensures View() == old(View()).(rmap := if lpn.Some? then old(View()).rmap[PageOf(g, ppa) := lpn.value]
                                             else old(View()).rmap - {PageOf(g, ppa)})
      ensures Times() == old(Times())
    {
      PpaPage(g, ppa);
      RmapViewSet(g, rmap[..], PageOf(g, ppa), if lpn.Some? then lpn.value else 0);
      hide PageOf, ValidPpa, MapView, RmapView, Having, PgIdx, Idx;
      var i := PgIdx(g, ppa);
      rmap[i] := lpn;
      assert rmap[..] == old(rmap[..])[i := lpn];
    }

    // pg->status = x for the page at ppa.
    method SetStatus(ppa: Ppa, x: PgStatus)
      requires Rep() && ValidPpa(g, ppa)
      modifies status
      ensures Rep()
      ensures var p := PageOf(g, ppa); var v := old(View());
              View() == v.(valid := if x == PgValid then v.valid + {p} else v.valid - {p},
                           invalid := if x == PgInvalid then v.invalid + {p} else v.invalid - {p})
      ensures Times() == old(Times())
    {
      PpaPage(g, ppa);
      HavingSet(g, status[..], PageOf(g, ppa), x, PgValid);
      HavingSet(g, status[..], PageOf(g, ppa), x, PgInvalid);
      hide PageOf, ValidPpa, MapView, RmapView, Having, PgIdx, Idx;
      var i := PgIdx(g, ppa);
      status[i] := x;
      assert status[..] == old(status[..])[i := x];
    }

    // get_new_page (conv_ftl.c:832-845).
    method GetNewPage(st: Stream) returns (ppa: Ppa)
      requires Rep()
      ensures ValidPpa(g, ppa)
      ensures var o := View().sp.Open(st); PageOf(g, ppa) == Page(o.line, o.next) && ppa.blk == o.line
    {
      lm.OpenIs(st);
      var w := lm.Wp(st);
      ppa := Ppa(w.line, w.c);
    }

    /** mark_page_valid (conv_ftl.c:1062-1077). */
    method MarkPageValid(ppa: Ppa)
      requires Rep() && ValidPpa(g, ppa)
      requires PageOf(g, ppa) !in View().valid && PageOf(g, ppa) !in View().invalid
      requires ppa.blk !in View().sp.victims
      modifies status, lm.vpc
      ensures Rep()
      ensures var v := old(View());
              View() == v.(valid := v.valid + {PageOf(g, ppa)}, sp := CountValid(v.sp, ppa.blk))
    {
      SetStatus(ppa, PgValid);
      hide PageOf, MapView, RmapView, Having;
      lm.MarkValid(ppa.blk);
    }

    // The line side of mark_page_invalid.
    method CountPageInvalid(l: nat, now: nat)
      requires Rep() && l < g.blks
      requires lm.vpc[l] == g.PgsPerLine() <==> l in lm.fullList
      requires l in lm.fullList ==> l !in lm.victimPq.Lines()
      modifies lm`fullList, lm`fullLineCnt, lm`victimLineCnt
      modifies lm.vpc, lm.ipc, lm.pos, lm.lastModified, lm.victimPq, lm.victimPq.d
      ensures Rep()
      ensures View() == old(View()).(sp := CountInvalid(Cfg(), old(View()).sp, l))
      ensures Times() == (old(Times()).0, old(Times()).1[l := now])
    {
      hide MapView, RmapView, Having, CountInvalid;
      lm.MarkInvalid(Cfg(), l, now);
    }

    /** mark_page_invalid (conv_ftl.c:1023-1059). */
    method MarkPageInvalid(ppa: Ppa, now: nat)
      requires Rep() && ValidPpa(g, ppa) && PageOf(g, ppa) in View().valid
      requires Inv(Cfg(), View(), {}, {})
      modifies status, lm`fullList, lm`fullLineCnt, lm`victimLineCnt
      modifies lm.vpc, lm.ipc, lm.pos, lm.lastModified, lm.victimPq, lm.victimPq.d
      ensures Rep()
      ensures var v := old(View()); var p := PageOf(g, ppa);
              View() == v.(valid := v.valid - {p}, invalid := v.invalid + {p}, sp := CountInvalid(Cfg(), v.sp, ppa.blk))
      ensures Times() == (old(Times()).0, old(Times()).1[ppa.blk := now])
    {
      CanInvalidate(ppa.blk);
      hide PageOf, MapView, RmapView, Having, Inv, Slot, CountInvalid;
      SetStatus(ppa, PgInvalid);
      CountPageInvalid(ppa.blk, now);
    }

    // The valid count singles out the lines of the full list.
    lemma CanInvalidate(l: nat)
      requires Rep() && Inv(Cfg(), View(), {}, {}) && l < g.blks
      ensures lm.vpc[l] == g.PgsPerLine() <==> l in lm.fullList
      ensures l in lm.fullList ==> l !in lm.victimPq.Lines()
    {
      GcOrder.Positive(g);
      FullIffAllValid(Cfg(), View(), {}, l);
      assert Places(View().sp, {}, l) == 1;
      assert View().sp.lines[l].vpc == lm.vpc[l];
    }

    // The page a stream programs next, and the tables pointing to it (conv_ftl.c:1129-1134, 1459-1462).
    method PlacePage(st: Stream, lpn: nat, ghost v: Payload)
      requires Rep() && lpn < TtPgs(g) && PageFree(st)
      modifies this`data, maptbl, rmap, status, lm.vpc
      ensures Rep() && View() == Placed(old(View()), st, lpn, v)
      ensures Times() == old(Times())
    {
      hide MapView, RmapView, Having, CountValid, PageOf;
      var ppa := GetNewPage(st);
      MapBothWays(lpn, ppa);
      MarkPageValid(ppa);
      SetData(PageOf(g, ppa), v);
    }

    method MapBothWays(lpn: nat, ppa: Ppa)
      requires Rep() && lpn < TtPgs(g) && ValidPpa(g, ppa)
      modifies maptbl, rmap
      ensures Rep()
      ensures var s := old(View()); var p := PageOf(g, ppa);
              View() == s.(maptbl := s.maptbl[lpn := p], rmap := s.rmap[p := lpn])
      ensures Times() == old(Times())
    {
      hide MapView, RmapView, Having, PageOf, ValidPpa;
      SetMaptblEnt(lpn, ppa);
      SetRmapEnt(Some(lpn), ppa);
    }

    // What the host wrote goes to the page.
    ghost method SetData(p: Page, v: Payload)
      requires Rep()
      modifies this`data
      ensures Rep() && View() == old(View()).(data := old(View()).data[p := v])
    {
      data := data[p := v];
    }

    // The page a stream programs next is free, and its line is no candidate.
    ghost predicate PageFree(st: Stream)
      reads Repr()
      requires Rep()
    {
      var o := View().sp.Open(st);
      Page(o.line, o.next) !in View().valid && Page(o.line, o.next) !in View().invalid && o.line !in View().sp.victims
    }

    lemma CanPlace(gc: set<nat>, st: Stream)
      requires Rep() && Typed(View()) && Programmable(Cfg(), View(), gc, st)
      ensures PageFree(st)
    {
    }

    // advance_write_pointer in the partition.
    method AdvanceStream(st: Stream, ghost gc: set<nat>)
      requires Rep() && Partition(Cfg(), lm.View(), gc) && Room(Cfg(), lm.View(), st)
      modifies lm`fullList, lm`fullLineCnt, lm`victimLineCnt, lm`freeList, lm`freeLineCnt
      modifies lm`wp, lm`hotWp, lm`coldWp, lm.pos, lm.victimPq, lm.victimPq.d
      ensures Rep()
      ensures Advance(Cfg(), old(View()).sp, st) == Some(View().sp) && View() == old(View()).(sp := View().sp)
      ensures Times() == old(Times())
    {
      hide MapView, RmapView, Having, Advance, Partition, Room;
      lm.AdvanceWritePointer(Cfg(), st, gc);
    }

    // ----- a host write -----

    lemma ReadMap(lpn: nat)
      requires Rep() && lpn < TtPgs(g)
      ensures lpn in View().maptbl <==> maptbl[lpn].Some?
      ensures maptbl[lpn].Some? ==> View().maptbl[lpn] == PageOf(g, maptbl[lpn].value)
      ensures forall l :: l in View().maptbl ==> l < TtPgs(g)
    {
    }

    // The times at which lines last lost a page, after LPN lpn is written at time now.
    static function LostPage(times: seq<nat>, s: Ftl, lpn: nat, now: nat): seq<nat> {
      if lpn in s.maptbl && s.maptbl[lpn].line < |times| then times[s.maptbl[lpn].line := now] else times
    }

    // The page that was an LPN's (conv_ftl.c:1453-1455).
    method ForgetPage(ppa: Ppa, now: nat)
      requires Rep() && ValidPpa(g, ppa) && Inv(Cfg(), View(), {}, {}) && Typed(View())
      requires PageOf(g, ppa) in View().valid && PageOf(g, ppa).line < |View().sp.lines|
      modifies status, rmap, lm`fullList, lm`fullLineCnt, lm`victimLineCnt
      modifies lm.vpc, lm.ipc, lm.pos, lm.lastModified, lm.victimPq, lm.victimPq.d
      ensures Rep() && View() == Invalidate(Cfg(), old(View()), PageOf(g, ppa))
      ensures Times() == (old(Times()).0, old(Times()).1[ppa.blk := now])
    {
      hide MapView, RmapView, Having, Inv, Typed, CountInvalid, Times, PgIdx, Idx;
      MarkPageInvalid(ppa, now);
      SetRmapEnt(None, ppa);
    }

    // The old copy of a rewritten LPN (conv_ftl.c:1451-1456).
    method ForgetOld(lpn: nat, now: nat)
      requires Rep() && lpn < TtPgs(g) && Inv(Cfg(), View(), {}, {}) && Typed(View())
      modifies Repr()
      ensures Rep() && View() == Forgotten(Cfg(), old(View()), lpn)
      ensures Times() == (old(Times()).0, LostPage(old(Times()).1, old(View()), lpn, now))
    {
      hide View, Inv, Typed, Invalidate, Times, LostPage, PgIdx, Idx;
      ReadMap(lpn);
      LostIs(lpn, now);
      var e := maptbl[lpn];
      if e.Some? {
        LiveMapping(lpn);
        ForgetPage(e.value, now);
      }
    }

    lemma LostIs(lpn: nat, now: nat)
      requires Rep() && lpn < TtPgs(g)
      ensures maptbl[lpn].None? ==> LostPage(Times().1, View(), lpn, now) == Times().1
      ensures maptbl[lpn].Some? ==>
                && maptbl[lpn].value.blk < |Times().1|
                && LostPage(Times().1, View(), lpn, now) == Times().1[maptbl[lpn].value.blk := now]
    {
      hide RmapView, Having;
      ReadMap(lpn);
    }

    lemma LiveMapping(lpn: nat)
      requires Rep() && lpn < TtPgs(g) && Inv(Cfg(), View(), {}, {}) && maptbl[lpn].Some?
      ensures PageOf(g, maptbl[lpn].value) in View().valid
    {
      ReadMap(lpn);
      hide PageOf, MapView, RmapView, Having, Partition, Accounts;
      assert View().maptbl[lpn] in View().valid;
    }

    // page_meta and the running average (conv_ftl.c:1486-1492).
    method TouchMeta(lpn: nat, now: nat)
      requires Rep() && lpn < TtPgs(g)
      modifies updateCnt, lastWrite, this`avgHotDegree
      ensures Rep() && View() == old(View())
      ensures updateCnt[..] == old(updateCnt[..])[lpn := old(updateCnt[lpn]) + 1]
      ensures lastWrite[..] == old(lastWrite[..])[lpn := now]
      ensures avgHotDegree == NextAverage(old(avgHotDegree), HotDegree(updateCnt[lpn], now, now))
      ensures Times() == (NoteWrite(old(Times()).0, lpn, now), old(Times()).1)
    {
      updateCnt[lpn] := updateCnt[lpn] + 1;
      lastWrite[lpn] := now;
      var degree := HotDegree(updateCnt[lpn], lastWrite[lpn], now);
      avgHotDegree := (avgHotDegree * 15 + degree * 16) / 16;
    }

    method CountHostWrite()
      requires Rep()
      modifies this`hostWritten
      ensures Rep()
      ensures View() == var s := old(View()); s.(ct := s.ct.(hostWritten := s.ct.hostWritten + 1))
      ensures Times() == old(Times())
    {
      hostWritten := hostWritten + 1;
    }

    // A new copy of the LPN, and what the driver counts about it (conv_ftl.c:1459-1492).
    method StorePage(lpn: nat, ghost v: Payload, now: nat)
      requires Rep() && lpn < TtPgs(g) && PageFree(UserIo)
      modifies Repr()
      ensures Rep()
      ensures var s := old(View());
              View() == Placed(s.(ct := s.ct.(hostWritten := s.ct.hostWritten + 1)), UserIo, lpn, v)
      ensures Times() == (NoteWrite(old(Times()).0, lpn, now), old(Times()).1)
    {
      hide View, Rep, PageFree, Placed, Times, NoteWrite;
      ghost var s := View();
      PlacePage(UserIo, lpn, v);
      PlacedCounters(s, UserIo, lpn, v, s.ct.(hostWritten := s.ct.hostWritten + 1));
      CountHostWrite();
      TouchMeta(lpn, now);
    }

    // The page just stored closes the step: s is the state before the write, s1 after forgetting.
    method FinishWrite(lpn: nat, ghost v: Payload, ghost s: Ftl, ghost s1: Ftl)
      requires Rep() && Typed(s) && s1 == Forgotten(Cfg(), s, lpn) && Programmable(Cfg(), s1, {}, UserIo)
      requires View() == Placed(s1.(ct := s1.ct.(hostWritten := s1.ct.hostWritten + 1)), UserIo, lpn, v)
      modifies lm`fullList, lm`fullLineCnt, lm`victimLineCnt, lm`freeList, lm`freeLineCnt
      modifies lm`wp, lm`hotWp, lm`coldWp, lm.pos, lm.victimPq, lm.victimPq.d
      ensures Rep() && HostWrite(Cfg(), s, lpn, v) == Some(View())
      ensures Times() == old(Times())
    {
      hide MapView, RmapView, Having, Room, Typed, CountValid, Partition, Forgotten, HostWrite, Advance;
      AdvanceStream(UserIo, {});
      HostWriteIs(Cfg(), s, s1, lpn, v, View());
    }

    // Forgetting the old copy leaves the user stream ready for the new one.
    method ForgetForWrite(lpn: nat, now: nat)
      requires Rep() && lpn < TtPgs(g) && Typed(View())
      requires Inv(Cfg(), View(), {}, {}) && Room(Cfg(), View().sp, UserIo)
      modifies Repr()
      ensures Rep() && View() == Forgotten(Cfg(), old(View()), lpn)
      ensures PageFree(UserIo) && Typed(View()) && Programmable(Cfg(), View(), {}, UserIo)
      ensures Times() == (old(Times()).0, LostPage(old(Times()).1, old(View()), lpn, now))
    {
      GcOrder.Positive(g);
      ReadyToWrite(Cfg(), View(), lpn);
      hide MapView, RmapView, Having, PageOf, Inv, Room, Typed, CountValid, Partition, Forgotten;
      ForgetOld(lpn, now);
      CanPlace({}, UserIo);
    }

    /** conv_write's loop body up to the credits (conv_ftl.c:1451-1494). */
    method WritePage(lpn: nat, ghost v: Payload, lost: nat, now: nat)
      requires Rep() && lpn < TtPgs(g) && Typed(View())
      requires Inv(Cfg(), View(), {}, {}) && Room(Cfg(), View().sp, UserIo)
      modifies Repr()
      ensures Rep() && HostWrite(Cfg(), old(View()), lpn, v) == Some(View())
      ensures Times() == (NoteWrite(old(Times()).0, lpn, now), LostPage(old(Times()).1, old(View()), lpn, lost))
    {
      hide MapView, RmapView, Having, PageOf, Inv, Room, Typed, CountValid, Partition, Forgotten, HostWrite, Advance;
      hide PageFree, Programmable, Placed;
      ghost var s := View();
      ForgetForWrite(lpn, lost);
      ghost var s1 := View();
      StorePage(lpn, v, now);
      FinishWrite(lpn, v, s, s1);
    }

    // ----- garbage collection: one page -----

    // The LPN and payload of a live page of the line under collection.
    lemma LivePage(ppa: Ppa, gc: set<nat>, stale: set<Page>)
      requires Rep() && ValidPpa(g, ppa) && Inv(Cfg(), View(), gc, stale)
      requires PageOf(g, ppa) in View().valid && PageOf(g, ppa) !in stale
      ensures var p := PageOf(g, ppa); var i := PgIdx(g, ppa);
              && i < rmap.Length && rmap[i].Some? && p in View().rmap && View().rmap[p] == rmap[i].value
              && rmap[i].value < TtPgs(g) && p in View().data
    {
      var p := PageOf(g, ppa);
      PpaPage(g, ppa);
      ReadViews(g, rmap[..], status[..], p);
      hide PageOf, RmapView, Having, Partition, Accounts, Idx, PgIdx;
      assert View().rmap[p] in View().maptbl;
    }

    // page_is_hot (conv_ftl.c:97-101).
    method PageIsHot(lpn: nat, now: nat) returns (hot: bool)
      requires Rep() && lpn < TtPgs(g)
      ensures hot <==> IsHot(updateCnt[lpn], lastWrite[lpn], now, avgHotDegree)
      ensures Decides(Times().0, lpn, hot)
    {
      var deg := HotDegree(updateCnt[lpn], lastWrite[lpn], now);
      hot := deg * 16 >= avgHotDegree;
    }

    method CountCopied()
      requires Rep()
      modifies this`copied
      ensures Rep()
      ensures View() == var s := old(View()); s.(ct := s.ct.(copied := s.ct.copied + 1))
      ensures Times() == old(Times())
    {
      copied := copied + 1;
    }

    // The copy of a page in a collection stream (conv_ftl.c:1129-1135).
    method PlaceCopy(st: Stream, lpn: nat, ghost v: Payload)
      requires Rep() && lpn < TtPgs(g) && PageFree(st)
      modifies Repr()
      ensures Rep()
      ensures var s := old(View()); View() == Placed(s.(ct := s.ct.(copied := s.ct.copied + 1)), st, lpn, v)
      ensures Times() == old(Times())
    {
      hide View, Rep, PageFree, Placed;
      ghost var s := View();
      PlacePage(st, lpn, v);
      PlacedCounters(s, st, lpn, v, s.ct.(copied := s.ct.copied + 1));
      CountCopied();
    }

    // The copy just placed closes the step: t is the state before it.
    method FinishCopy(st: Stream, lpn: nat, ghost v: Payload, ghost t: Ftl, ghost gc: set<nat>)
      requires Rep() && Typed(t) && Programmable(Cfg(), t, gc, st)
      requires View() == Placed(t, st, lpn, v)
      modifies lm`fullList, lm`fullLineCnt, lm`victimLineCnt, lm`freeList, lm`freeLineCnt
      modifies lm`wp, lm`hotWp, lm`coldWp, lm.pos, lm.victimPq, lm.victimPq.d
      ensures Rep() && Append(Cfg(), t, st, lpn, v) == Some(View())
      ensures Times() == old(Times())
    {
      hide MapView, RmapView, Having, Room, Typed, CountValid, Partition, Append, Advance;
      AdvanceStream(st, gc);
      AppendIs(Cfg(), t, st, lpn, v, View());
    }

    // A collection stream with room can take a copy.
    lemma CanCopy(gc: set<nat>, stale: set<Page>, st: Stream)
      requires Rep() && Inv(Cfg(), View(), gc, stale) && Typed(View()) && Room(Cfg(), View().sp, st)
      ensures PageFree(st)
      ensures var t := View(); var t1 := t.(ct := t.ct.(copied := t.ct.copied + 1));
              Typed(t1) && Programmable(Cfg(), t1, gc, st)
    {
      hide MapView, RmapView, Having, Inv, Room;
      ReadyToProgram(Cfg(), View(), gc, stale, st);
      CanPlace(gc, st);
    }

    // One copy through a collection stream.
    method CopyPage(st: Stream, lpn: nat, ghost v: Payload, ghost gc: set<nat>, ghost stale: set<Page>)
      requires Rep() && lpn < TtPgs(g)
      requires Inv(Cfg(), View(), gc, stale) && Typed(View()) && Room(Cfg(), View().sp, st)
      modifies Repr()
      ensures Rep()
      ensures var t := old(View()); var t1 := t.(ct := t.ct.(copied := t.ct.copied + 1));
              Typed(t1) && Append(Cfg(), t1, st, lpn, v) == Some(View())
      ensures Times() == old(Times())
    {
      hide MapView, RmapView, Having, Inv, Room, Typed, Append, PageFree, Programmable, Placed;
      CanCopy(gc, stale, st);
      ghost var t := View();
      PlaceCopy(st, lpn, v);
      FinishCopy(st, lpn, v, t.(ct := t.ct.(copied := t.ct.copied + 1)), gc);
    }

    /** gc_write_page on a live page (conv_ftl.c:1118-1137): its LPN moves to the hot or the cold
        collection stream, as page_is_hot decides. */
    method GcWritePage(ppa: Ppa, ghost gc: set<nat>, ghost stale: set<Page>) returns (hot: bool)
      requires Rep() && ValidPpa(g, ppa) && Inv(Cfg(), View(), gc, stale) && Typed(View())
      requires PageOf(g, ppa) in View().valid && PageOf(g, ppa) !in stale
      requires Room(Cfg(), View().sp, GcHot) && Room(Cfg(), View().sp, GcCold)
      modifies Repr()
      ensures Rep()
      ensures GcStep(Cfg(), old(View()), ppa.blk, Routing(Route(PageOf(g, ppa), hot)), Clean(PageOf(g, ppa).slot))
              == Some(View())
      ensures Times() == old(Times())
      ensures PageOf(g, ppa) in old(View()).rmap && Decides(Times().0, old(View()).rmap[PageOf(g, ppa)], hot)
    {
      hide MapView, RmapView, Having, PageOf, Inv, Room, Typed, Append, PgIdx, GcStep, Routing, ValidPpa;
      hide Decides, Times;
      LivePage(ppa, gc, stale);
      ghost var t := View();
      var lpn := rmap[PgIdx(g, ppa)].value;
      var now: nat := *;
      hot := PageIsHot(lpn, now);
      RouteIs(ppa, hot);
      CopyPage(if hot then GcHot else GcCold, lpn, data[PageOf(g, ppa)], gc, stale);
    }

    // What a GcStep on a live page amounts to.
    lemma RouteIs(ppa: Ppa, hot: bool)
      requires Rep() && ValidPpa(g, ppa) && Typed(View()) && PageOf(g, ppa) in View().valid
      ensures var t := View(); var p := PageOf(g, ppa); var t1 := t.(ct := t.ct.(copied := t.ct.copied + 1));
              && p in t.rmap && p in t.data && Typed(t1)
              && GcStep(Cfg(), t, ppa.blk, Routing(Route(p, hot)), Clean(p.slot))
                 == Append(Cfg(), t1, if hot then GcHot else GcCold, t.rmap[p], t.data[p])
    {
      hide MapView, RmapView, Having, Append, Slot, GcStep, Typed;
      RoutedStep(Cfg(), View(), ppa.blk, PageOf(g, ppa).slot, Route(PageOf(g, ppa), hot));
    }

    // ----- garbage collection: the loops -----

    // The first i events of collecting line v from s0 have been done.
    ghost predicate Running(s0: Ftl, v: nat, h: set<Page>, i: nat)
      reads Repr()
      requires Rep()
    {
      Collectable(Cfg(), s0, v) && RunIs(Cfg(), s0, v, h, i, View()) && RoutesFit(Cfg(), s0, v, h, i, Times().0)
    }

    // Events i to i + n clean the n pages from ppa on.
    ghost predicate Ahead(i: nat, ppa: Ppa, n: nat)
      requires g.Valid()
    {
      && ValidPpa(g, ppa) && ppa.c.pg + n <= g.PgsPerBlk()
      && i + n <= |Cfg().schedule|
      && forall j :: i <= j < i + n ==> Cfg().schedule[j] == Clean(Slot(g, ppa.c.(pg := ppa.c.pg + (j - i))))
    }

    // Reading a page's status.
    lemma StatusIs(ppa: Ppa)
      requires Rep() && ValidPpa(g, ppa)
      ensures PgIdx(g, ppa) < status.Length
      ensures PageOf(g, ppa) in View().valid <==> status[PgIdx(g, ppa)] == PgValid
      ensures PageOf(g, ppa) in View().invalid <==> status[PgIdx(g, ppa)] == PgInvalid
    {
      PpaPage(g, ppa);
      ReadViews(g, rmap[..], status[..], PageOf(g, ppa));
    }

    // One page of the loop that copies (conv_ftl.c:1188-1193): copied if it is valid.
    method CleanPage(ppa: Ppa, ghost s0: Ftl, ghost h: set<Page>, ghost i: nat) returns (ghost h': set<Page>)
      requires Rep() && Ahead(i, ppa, 1) && Running(s0, ppa.blk, h, i)
      modifies Repr()
      ensures Rep() && Running(s0, ppa.blk, h', i + 1)
      ensures Times() == old(Times())
    {
      StatusIs(ppa);
      ghost var t, k := View(), Slot(g, ppa.c);
      assert Cfg().schedule[i] == Clean(k);
      StepPrecondition(Cfg(), s0, t, ppa.blk, h, i, k);
      PageBack(Cfg(), s0, t, ppa.blk, h, i, k);
      var hot := false;
      NotCopied(ppa);
      hide MapView, RmapView, Having, Inv, Room, Typed, GcStep, Collectable, Routing, Slot, PgIdx, Stale;
      hide Decides, RoutesFit, Times;
      if status[PgIdx(g, ppa)] == PgValid {
        hot := GcWritePage(ppa, {ppa.blk}, Stale(Cfg(), s0, ppa.blk, i));
      }
      h' := if hot then h + {PageOf(g, ppa)} else h - {PageOf(g, ppa)};
      ScheduleGood();
      StepTaken(Cfg(), s0, t, View(), ppa.blk, h, i, k, hot);
      FitNext(Cfg(), s0, ppa.blk, h, h', i, k, Times().0);
    }

    lemma NotCopied(ppa: Ppa)
      requires Rep() && ValidPpa(g, ppa) && Typed(View())
      ensures PageOf(g, ppa) !in View().valid ==>
                GcStep(Cfg(), View(), ppa.blk, Routing(Route(PageOf(g, ppa), false)), Clean(PageOf(g, ppa).slot))
                == Some(View())
    {
      hide MapView, RmapView, Having, GcStep, Typed, Slot;
      GcStepIs(Cfg(), View(), ppa.blk, Routing(Route(PageOf(g, ppa), false)), Clean(PageOf(g, ppa).slot));
    }

    lemma ScheduleGood()
      requires g.Valid()
      ensures GoodSchedule(Cfg().ppl, Cfg().schedule)
    {
      ScheduleIsGood(g);
    }

    ghost predicate LiveAt(ppa: Ppa)
      reads Repr()
      requires Rep()
    {
      PageOf(g, ppa) in View().valid
    }

    // Page n from ppa on.
    function Plus(ppa: Ppa, n: nat): Ppa {
      ppa.(c := ppa.c.(pg := ppa.c.pg + n))
    }

    // The page that event i + n cleans: on the chip and not PG_FREE.
    lemma AheadAt(s0: Ftl, h: set<Page>, i: nat, ppa: Ppa, fp: nat, n: nat)
      requires Rep() && Ahead(i, ppa, fp) && Running(s0, ppa.blk, h, i) && n < fp
      ensures var q := Plus(ppa, n); var k := PgIdx(g, q);
              && ValidPpa(g, q) && k < status.Length && status[k] != PgFree
              && (status[k] == PgValid <==> LiveAt(q))
              && Cfg().schedule[i + n] == Clean(PageOf(g, q).slot)
    {
      var q := Plus(ppa, n);
      assert Cfg().schedule[i + n] == Clean(Slot(g, ppa.c.(pg := ppa.c.pg + (i + n - i))));
      StillProgrammed(Cfg(), s0, View(), ppa.blk, h, i, i + n, Slot(g, q.c));
      StatusIs(q);
    }

    // The loop that counts the valid pages of a flash page; none of them is PG_FREE
    // (conv_ftl.c:1164-1170).
    method CountLivePages(ppa: Ppa, ghost s0: Ftl, ghost h: set<Page>, ghost i: nat) returns (cnt: nat)
      requires Rep() && Ahead(i, ppa, g.fp) && Running(s0, ppa.blk, h, i)
      ensures cnt == 0 ==> forall n :: 0 <= n < g.fp ==> !LiveAt(Plus(ppa, n))
    {
      hide Running, Ahead, LiveAt, PageOf, PgIdx, View, Plus;
      cnt := 0;
      for n := 0 to g.fp
        invariant Rep() && Running(s0, ppa.blk, h, i)
        invariant cnt == 0 ==> forall m :: 0 <= m < n ==> !LiveAt(Plus(ppa, m))
      {
        AheadAt(s0, h, i, ppa, g.fp, n);
        var pg := status[PgIdx(g, Plus(ppa, n))];
        assert pg != PgFree;
        if pg == PgValid {
          cnt := cnt + 1;
        }
      }
    }

    lemma NothingToCopy(s0: Ftl, h: set<Page>, i: nat, v: nat, n: nat)
      requires Rep() && Running(s0, v, h, i) && i + n <= |Cfg().schedule|
      requires forall j :: i <= j < i + n ==>
                 Cfg().schedule[j].Clean? && Page(v, Cfg().schedule[j].slot) !in View().valid
      ensures Running(s0, v, h, i + n)
    {
      hide Cfg, View, Collectable, RoutesFit, Times;
      RunSkips(Cfg(), s0, View(), v, h, i, n);
      FitSkip(Cfg(), s0, View(), v, h, i, n, Times().0);
    }

    lemma NoneLive(i: nat, ppa: Ppa)
      requires Rep() && Ahead(i, ppa, g.fp)
      requires forall n :: 0 <= n < g.fp ==> !LiveAt(Plus(ppa, n))
      ensures i + g.fp <= |Cfg().schedule|
      ensures forall j :: i <= j < i + g.fp ==>
                Cfg().schedule[j].Clean? && Page(ppa.blk, Cfg().schedule[j].slot) !in View().valid
    {
      hide View, Slot;
      forall j | i <= j < i + g.fp
        ensures Cfg().schedule[j].Clean? && Page(ppa.blk, Cfg().schedule[j].slot) !in View().valid
      {
        assert !LiveAt(Plus(ppa, j - i));
      }
    }

    lemma AheadNext(i: nat, ppa: Ppa, fp: nat, n: nat)
      requires g.Valid() && Ahead(i, ppa, fp) && n < fp
      ensures Ahead(i + n, Plus(ppa, n), 1)
    {
    }

    /** clean_one_flashpg (conv_ftl.c:1157-1194). */
    method CleanOneFlashpg(ppa: Ppa, ghost s0: Ftl, ghost h: set<Page>, ghost i: nat) returns (ghost h': set<Page>)
      requires Rep() && Ahead(i, ppa, g.fp) && Running(s0, ppa.blk, h, i)
      modifies Repr()
      ensures Rep() && Running(s0, ppa.blk, h', i + g.fp)
      ensures Times() == old(Times())
    {
      hide Running, Ahead, View, LiveAt, Plus;
      var cnt := CountLivePages(ppa, s0, h, i);
      h' := h;
      if cnt <= 0 {
        NoneLive(i, ppa);
        NothingToCopy(s0, h, i, ppa.blk, g.fp);
        return;
      }
      SameLine(ppa);
      for n := 0 to g.fp
        invariant Rep() && Running(s0, ppa.blk, h', i + n) && Times() == old(Times())
      {
        AheadNext(i, ppa, g.fp, n);
        h' := CleanPage(Plus(ppa, n), s0, h', i + n);
      }
    }

    lemma SameLine(ppa: Ppa)
      ensures forall n: nat :: Plus(ppa, n).blk == ppa.blk
    {
    }

    // The slots of the first n pages of a block.
    ghost function FirstSlots(ch: nat, lun: nat, n: nat): set<nat>
      requires g.Valid()
    {
      set pg | 0 <= pg < n :: Slot(g, Cursor(ch, lun, pg))
    }

    lemma WithoutMore(ch: nat, lun: nat, n: nat, pages: set<Page>, v: nat)
      requires g.Valid()
      ensures Without(pages, v, FirstSlots(ch, lun, n)) - {Page(v, Slot(g, Cursor(ch, lun, n)))}
           == Without(pages, v, FirstSlots(ch, lun, n + 1))
      ensures Without(pages, v, FirstSlots(ch, lun, 0)) == pages
    {
      hide Slot;
      assert FirstSlots(ch, lun, n + 1) == FirstSlots(ch, lun, n) + {Slot(g, Cursor(ch, lun, n))};
    }

    /** mark_block_free (conv_ftl.c:1080-1091): every page of the block becomes PG_FREE. */
    method MarkBlockFree(v: nat, ch: nat, lun: nat)
      requires Rep() && v < g.blks && ch < g.nchs && lun < g.luns
      modifies status
      ensures Rep()
      ensures var s := old(View()); var slots := BlockSlots(g, ch, lun);
              View() == s.(valid := Without(s.valid, v, slots), invalid := Without(s.invalid, v, slots))
      ensures Times() == old(Times())
    {
      assert FirstSlots(ch, lun, g.PgsPerBlk()) == BlockSlots(g, ch, lun);
      hide MapView, RmapView, Having, Slot, Without, FirstSlots, BlockSlots, PgIdx;
      ghost var s := View();
      WithoutMore(ch, lun, 0, s.valid, v);
      WithoutMore(ch, lun, 0, s.invalid, v);
      for pg := 0 to g.PgsPerBlk()
        invariant Rep() && Times() == old(Times())
        invariant View() == s.(valid := Without(s.valid, v, FirstSlots(ch, lun, pg)),
                               invalid := Without(s.invalid, v, FirstSlots(ch, lun, pg)))
      {
        SetStatus(Ppa(v, Cursor(ch, lun, pg)), PgFree);
        WithoutMore(ch, lun, pg, s.valid, v);
        WithoutMore(ch, lun, pg, s.invalid, v);
      }
    }

    // Where the loops are when they come to flash page f of block (ch, lun).
    lemma VisitAhead(v: nat, f: nat, ch: nat, lun: nat)
      requires g.Valid() && v < g.blks && f < g.FlashPgsPerBlk() && ch < g.nchs && lun < g.luns
      ensures var i := |Before(g, f, ch, lun)|; var sched := Cfg().schedule;
              && Ahead(i, Ppa(v, Cursor(ch, lun, f * g.fp)), g.fp)
              && (f + 1 == g.FlashPgsPerBlk() ==>
                      i + g.fp < |sched| && sched[i + g.fp] == Erase(BlockSlots(g, ch, lun)))
              && |Before(g, f, ch, lun + 1)| == i + g.fp + (if f + 1 == g.FlashPgsPerBlk() then 1 else 0)
    {
      hide Before, Schedule, Slot, BlockSlots, Geometry.FlashPgsPerBlk, Geometry.PgsPerBlk, Mix, Quo, Rem;
      Visiting(g, f, ch, lun);
      PageOfFlash(g, f, g.fp - 1);
      MixIs(f, g.fp, g.fp - 1);
      forall n: nat | n < g.fp ensures Mix(f, g.fp, n) == f * g.fp + n {
        MixIs(f, g.fp, n);
      }
    }

    lemma BlockErased(s0: Ftl, t: Ftl, v: nat, h: set<Page>, i: nat, ch: nat, lun: nat)
      requires Rep() && Collectable(Cfg(), s0, v) && RunIs(Cfg(), s0, v, h, i, t)
      requires i < |Cfg().schedule| && Cfg().schedule[i] == Erase(BlockSlots(g, ch, lun))
      requires RoutesFit(Cfg(), s0, v, h, i, Times().0)
      requires var slots := BlockSlots(g, ch, lun);
               View() == t.(valid := Without(t.valid, v, slots), invalid := Without(t.invalid, v, slots))
      ensures Running(s0, v, h, i + 1)
    {
      hide Cfg, View, Collectable, BlockSlots, Without, RoutesFit, Times;
      StepErased(Cfg(), s0, t, v, h, i, BlockSlots(g, ch, lun));
      FitErase(Cfg(), s0, v, h, i, Times().0);
    }

    // Erasing the block after its last flash page (conv_ftl.c:1252-1262).
    method EraseBlock(v: nat, ch: nat, lun: nat, ghost s0: Ftl, ghost h: set<Page>, ghost i: nat)
      requires Rep() && v < g.blks && ch < g.nchs && lun < g.luns && Running(s0, v, h, i)
      requires i < |Cfg().schedule| && Cfg().schedule[i] == Erase(BlockSlots(g, ch, lun))
      modifies Repr()
      ensures Rep() && Running(s0, v, h, i + 1)
      ensures Times() == old(Times())
    {
      hide View, Collectable, RunIs, BlockSlots, Without, RoutesFit, Times;
      ghost var t := View();
      MarkBlockFree(v, ch, lun);
      BlockErased(s0, t, v, h, i, ch, lun);
    }

    // The body of the inner loop of do_gc (conv_ftl.c:1243-1263).
    method VisitBlock(v: nat, f: nat, ch: nat, lun: nat, ghost s0: Ftl, ghost h: set<Page>)
      returns (ghost h': set<Page>)
      requires Rep() && v < g.blks && f < g.FlashPgsPerBlk() && ch < g.nchs && lun < g.luns
      requires Running(s0, v, h, |Before(g, f, ch, lun)|)
      modifies Repr()
      ensures Rep() && Running(s0, v, h', |Before(g, f, ch, lun + 1)|)
      ensures Times() == old(Times())
    {
      hide Running, Ahead, View, Before, BlockSlots, Schedule, Geometry.FlashPgsPerBlk, Geometry.PgsPerBlk;
      VisitAhead(v, f, ch, lun);
      ghost var i := |Before(g, f, ch, lun)|;
      h' := CleanOneFlashpg(Ppa(v, Cursor(ch, lun, f * g.fp)), s0, h, i);
      if f + 1 == g.FlashPgsPerBlk() {
        EraseBlock(v, ch, lun, s0, h', i + g.fp);
      }
    }

    lemma ValidGeometry()
      requires Rep()
      ensures g.Valid() && g.fp > 0
    {
    }

    lemma LoopEnds(f: nat, ch: nat)
      requires g.Valid()
      ensures Before(g, 0, 0, 0) == []
      ensures Before(g, f, ch + 1, 0) == Before(g, f, ch, g.luns)
      ensures Before(g, f + 1, 0, 0) == Before(g, f, g.nchs, 0)
    {
    }

    /** The three loops of do_gc (conv_ftl.c:1237-1268). */
    method CleanLine(v: nat, ghost s0: Ftl) returns (ghost h: set<Page>)
      requires Rep() && v < g.blks && Running(s0, v, {}, 0)
      modifies Repr()
      ensures Rep() && Running(s0, v, h, |Cfg().schedule|)
      ensures Times() == old(Times())
    {
      hide Running, View, Before, Rep, Geometry.Valid, Geometry.FlashPgsPerBlk, Geometry.PgsPerBlk;
      h := {};
      ValidGeometry();
      LoopEnds(0, 0);
      for f := 0 to g.FlashPgsPerBlk()
        invariant Rep() && Running(s0, v, h, |Before(g, f, 0, 0)|) && Times() == old(Times())
      {
        for ch := 0 to g.nchs
          invariant Rep() && Running(s0, v, h, |Before(g, f, ch, 0)|) && Times() == old(Times())
        {
          for lun := 0 to g.luns
            invariant Rep() && Running(s0, v, h, |Before(g, f, ch, lun)|) && Times() == old(Times())
          {
            h := VisitBlock(v, f, ch, lun, s0, h);
          }
          LoopEnds(f, ch);
        }
        LoopEnds(f, 0);
      }
    }

    // A line's pages are counted in an int, and no line's erase count is at the limit of an int, in
    // which the learning agent computes: one more erase fits.
    ghost predicate ErasesFit()
      reads lm.eraseCnt
      requires lm.eraseCnt.Length == g.blks
    {
      g.PgsPerLine() <= INT_MAX && forall l :: 0 <= l < g.blks ==> lm.eraseCnt[l] < INT_MAX
    }

    // The lines' facts are numbers that rl_get_state can compare.
    ghost predicate Observable()
      reads lm.eraseCnt, lm.vpc
    {
      && Shape() && lm.Shape() && 0 < g.PgsPerLine() <= INT_MAX
      && forall l :: 0 <= l < g.blks ==> lm.eraseCnt[l] <= INT_MAX && lm.vpc[l] <= g.PgsPerLine()
    }

    lemma CanObserve()
      requires Rep() && ErasesFit() && Inv(Cfg(), View(), {}, {})
      ensures Observable()
    {
      hide MapView, RmapView, Having, Inv;
      GcOrder.Positive(g);
      ValidAtMostLine(Cfg(), View());
      forall l | 0 <= l < g.blks ensures lm.vpc[l] <= g.PgsPerLine() {
        assert View().sp.lines[l].vpc == lm.vpc[l];
      }
    }

    /** k is the state index that rl_get_state finds: that of the six levels of what a scan of the victim
        queue finds and of the write statistics. */
    ghost predicate Observes(k: nat)
      reads Repr(), agent
    {
      && Shape() && lm.Shape() && 0 < g.PgsPerLine()
      && exists q: seq<Facts>, found: RlState.Scan, now: nat ::
           && RlState.Sees(q, found, now, g.PgsPerLine()) && lm.Candidates(q)
           && k == RlAgent.Encode(RlState.Levels(q, found, g.PgsPerLine(), agent.lastVictimEc,
                                                 agent.windowHot, agent.windowTotal, agent.prevHotPct))
    }

    /** rl_get_state on the victim queue (conv_ftl.c:411-528). */
    method ObserveState() returns (k: nat)
      requires Rep() && Observable() && agent.Valid()
      ensures k < RlAgent.STATES && Observes(k)
    {
      hide RlState.Found, RlState.Levels, RlAgent.Encode, NoWrap, RlAgent.Agent.Valid, LineMgmt.Rep, AllBounded;
      hide Observes, RlState.Sees, RlState.Exact, LineMgmt.Candidates;
      var queue := ReadQueue();
      var clock: nat := *;
      ghost var found;
      ghost var e := BoundOf(queue);
      k, found := RlState.GetState(queue, clock, g.PgsPerLine(), agent.lastVictimEc, agent.windowHot,
                                   agent.windowTotal, agent.prevHotPct, e);
      ScanSeen(queue, found, clock, e);
      ObservesIs(k, queue, found, clock);
    }

    // A bound on the erase counts that keeps scores from wrapping, if there is one.
    ghost function BoundOf(q: seq<Facts>): (e: nat)
      requires g.Valid()
      ensures RlState.Exact(q, g.PgsPerLine()) ==> AllBounded(q, g.PgsPerLine(), e) && NoWrap(g.PgsPerLine(), e)
    {
      if RlState.Exact(q, g.PgsPerLine()) then
        var e: nat :| AllBounded(q, g.PgsPerLine(), e) && NoWrap(g.PgsPerLine(), e);
        e
      else 0
    }

    lemma ObservesIs(k: nat, q: seq<Facts>, found: RlState.Scan, now: nat)
      requires Shape() && lm.Shape() && 0 < g.PgsPerLine()
      requires RlState.Sees(q, found, now, g.PgsPerLine()) && lm.Candidates(q)
      requires k == RlAgent.Encode(RlState.Levels(q, found, g.PgsPerLine(), agent.lastVictimEc,
                                                  agent.windowHot, agent.windowTotal, agent.prevHotPct))
      ensures Observes(k)
    {
      hide RlState.Sees, RlState.Levels, RlAgent.Encode, LineMgmt.Candidates;
    }

    lemma ScanSeen(q: seq<Facts>, found: RlState.Scan, now: nat, e: nat)
      requires g.Valid()
      requires RlState.Found(q, found, now, AllBounded(q, g.PgsPerLine(), e) && NoWrap(g.PgsPerLine(), e))
      requires RlState.Exact(q, g.PgsPerLine()) ==> AllBounded(q, g.PgsPerLine(), e) && NoWrap(g.PgsPerLine(), e)
      ensures RlState.Sees(q, found, now, g.PgsPerLine())
    {
      hide AllBounded, NoWrap, RlState.Basics, RlState.FirstHighest;
    }

    method ReadQueue() returns (q: seq<Facts>)
      requires Rep() && Observable()
      ensures lm.Candidates(q)
      ensures forall i :: 0 <= i < |q| ==> q[i].eraseCnt < UINT_MAX && q[i].vpc < UINT_MAX
    {
      hide LineMgmt.Rep;
      q := lm.ReadCandidates();
    }

    // The levels that the agent decides on for the state it observes (conv_ftl.c:1210-1218).
    method DecideLevels() returns (rule: VictimRule)
      requires Rep() && Observable() && agent.Valid()
      modifies agent
      ensures agent.Valid() && agent.totalEpisodes == old(agent.totalEpisodes)
      ensures agent.prevCopied == old(agent.prevCopied)
      ensures rule == Scored(agent.alphaLevel, agent.deltaLevel)
      ensures agent.prevEraseMax == old(agent.prevEraseMax) && agent.prevEraseMin == old(agent.prevEraseMin)
      ensures agent.curState < RlAgent.STATES && forall k :: k == agent.curState ==> old(Observes(k))
      ensures agent.curAction == agent.alphaLevel * 5 + agent.deltaLevel
    {
      hide Rep, Observable, RlAgent.Agent.Valid, RlState.Found, RlState.Levels, RlAgent.Encode,
           RlAgent.FirstBest, NoWrap;
      var state := ObserveState();
      var draw: nat, random: nat := *, *;
      var action := agent.SelectAction(state, draw, random);
      agent.Observe(state);
      agent.DecodeAction(action);
      rule := Scored(agent.alphaLevel, agent.deltaLevel);
    }

    // How the victim is chosen: by the rule of the mode or by the agent (conv_ftl.c:1210-1221).
    method ChooseRule() returns (rule: VictimRule)
      requires Rep() && Observable() && StatsOk()
      modifies agent
      ensures Rep() && View() == old(View()) && StatsOk()
      ensures mode != GC_MODE_RL ==> rule == FixedRule(mode)
      ensures mode == GC_MODE_RL ==> rule == Scored(agent.alphaLevel, agent.deltaLevel)
      ensures agent.prevCopied == old(agent.prevCopied)
      ensures agent.prevEraseMax == old(agent.prevEraseMax) && agent.prevEraseMin == old(agent.prevEraseMin)
      ensures mode == GC_MODE_RL ==>
                && (forall k :: k == agent.curState ==> old(Observes(k)))
                && agent.curAction == agent.alphaLevel * 5 + agent.deltaLevel
    {
      hide LineMgmt.Rep, LineMgmt.View, MapView, RmapView, Having, Observable, RlAgent.Agent.Valid, After;
      if mode == GC_MODE_RL {
        rule := DecideLevels();
      } else {
        rule := FixedRule(mode);
      }
    }

    // The statistics of a collection, and in learning mode its lesson (conv_ftl.c:1231-1232, 1272-1278).
    // Nothing reads the victim's erase count in between.
    method RecordGc(victimEc: nat)
      requires Rep() && Observable() && OneBehind()
      modifies wgs, agent, agent.q
      ensures agent.alphaLevel == old(agent.alphaLevel) && agent.deltaLevel == old(agent.deltaLevel)
      ensures StatsOk() && exists range: nat ::
                RangeIs(lm.eraseCnt[..], range) && wgs.ranges == old(wgs.ranges) + [range]
      ensures agent.curState == old(agent.curState) && agent.curAction == old(agent.curAction)
      ensures mode == GC_MODE_RL ==>
                Learned(old(agent.Entries()), old(agent.prevCopied),
                        old(RlAgent.Range(agent.prevEraseMax, agent.prevEraseMin)))
    {
      hide LineMgmt.Rep, RlAgent.Agent.Valid, After, Geometry.PgsPerLine, RangeIs, Tracked, Behind, Learned;
      ghost var ranges := wgs.ranges;
      wgs.Update(lm.eraseCnt);
      ghost var range: nat :| RangeIs(lm.eraseCnt[..], range) && wgs.ranges == ranges + [range];
      RangeTaken(lm.eraseCnt[..], ranges, range);
      if mode == GC_MODE_RL {
        agent.NoteVictim(victimEc);
        Learn();
      }
    }

    // The statistics do not know of the last collection yet.
    ghost predicate OneBehind()
      reads this`gcCount, this`copied, wgs, agent, agent.q, lm.eraseCnt
    {
      && agent.Valid() && wgs.Valid() && |wgs.ranges| + 1 == gcCount && Behind(lm.eraseCnt[..], wgs.ranges)
      && (mode == GC_MODE_RL ==>
            agent.totalEpisodes + 1 == gcCount && agent.prevCopied <= copied < agent.prevCopied + g.PgsPerLine())
    }

    // One collection more than the statistics know of.
    lemma NowBehind(n: nat, k: nat, erases: seq<nat>)
      requires StatsAre(n, k, erases) && gcCount == n + 1 && k <= copied < k + g.PgsPerLine()
      requires 2 <= |lm.eraseCnt[..]| && Sum(lm.eraseCnt[..]) == Sum(erases) + 1
      ensures OneBehind()
    {
      hide RlAgent.Agent.Valid, After, Sum, RangeIs, Geometry.PgsPerLine;
    }

    method TakeStatistics(victimEc: nat)
      requires Rep() && Observable() && OneBehind()
      modifies wgs, agent, agent.q
      ensures agent.alphaLevel == old(agent.alphaLevel) && agent.deltaLevel == old(agent.deltaLevel)
      ensures Rep() && View() == old(View()) && StatsOk()
      ensures exists range: nat :: RangeIs(lm.eraseCnt[..], range) && wgs.ranges == old(wgs.ranges) + [range]
      ensures Times() == old(Times())
      ensures agent.curState == old(agent.curState) && agent.curAction == old(agent.curAction)
      ensures mode == GC_MODE_RL ==>
                Learned(old(agent.Entries()), old(agent.prevCopied),
                        old(RlAgent.Range(agent.prevEraseMax, agent.prevEraseMin)))
    {
      hide LineMgmt.Rep, LineMgmt.View, MapView, RmapView, Having, Observable, OneBehind, StatsOk, RangeIs, Learned;
      RecordGc(victimEc);
    }

    /** The lesson of a collection: the reward for its copies and for the wear it left, compared with what
        was counted before, moved the entry of the state observed before it and of the action taken
        towards the best of the state observed after it. */
    ghost predicate Learned(table: RlAgent.Table, copiedBefore: nat, rangeBefore: nat)
      reads Repr(), agent, agent.q
    {
      && Shape() && lm.Shape() && 0 < g.PgsPerLine() && copiedBefore <= copied && lm.eraseCnt[..] != []
      && Extremes(lm.eraseCnt[..], agent.prevEraseMax, agent.prevEraseMin)
      && var reward := RlAgent.Reward(copied - copiedBefore, g.PgsPerLine(),
                                      RlAgent.Range(agent.prevEraseMax, agent.prevEraseMin), rangeBefore,
                                      RlAgent.Mean(lm.eraseCnt[..]));
         exists after: nat :: Observes(after)
           && RlAgent.Lesson(table, agent.Entries(), agent.curState, agent.curAction, reward, after)
    }

    method Learn()
      requires Rep() && Observable() && agent.Valid() && agent.prevCopied <= copied < agent.prevCopied + g.PgsPerLine()
      modifies agent, agent.q
      ensures agent.alphaLevel == old(agent.alphaLevel) && agent.deltaLevel == old(agent.deltaLevel)
      ensures agent.Valid() && agent.totalEpisodes == old(agent.totalEpisodes) + 1 && agent.prevCopied == copied
      ensures agent.curState == old(agent.curState) && agent.curAction == old(agent.curAction)
      ensures Learned(old(agent.Entries()), old(agent.prevCopied),
                      old(RlAgent.Range(agent.prevEraseMax, agent.prevEraseMin)))
    {
      hide LineMgmt.Rep, RlAgent.Agent.Valid, RlState.Found, RlState.Levels, RlAgent.Encode,
           RlAgent.Reward, RlAgent.NextQ;
      hide RlAgent.Mean, RlAgent.Range, Extremes, NoWrap, Geometry.PgsPerLine, RlAgent.Lesson;
      var state := ObserveState();
      ghost var reward, maxNext;
      reward, maxNext := agent.Update(state, copied, g.PgsPerLine(), lm.eraseCnt);
      assert Observes(state);
    }

    // Line v is the best candidate by a rule: it has the fewest valid pages, or no candidate scores
    // higher, unless erase counts are so large that scores may wrap.
    ghost predicate BestBy(rule: VictimRule, v: nat, now: nat)
      reads Repr()
      requires Rep() && v < g.blks
    {
      match rule
      case Greedy => Fewest(View().sp, v)
      case Scored(alpha, delta) =>
        (exists e: nat :: lm.Tame(e)) ==>
          && lm.Highest(v, lm.victimPq.Lines(), now, alpha, delta)
          && lm.BestByPowers(v, lm.victimPq.Lines(), now, alpha, delta)
          && (alpha == 1 && delta == 0 ==> lm.BestByBenefit(v, lm.victimPq.Lines(), now))
          && (alpha == 1 && delta == 2 ==> lm.BestByAgeTimes(v, lm.victimPq.Lines(), now))
    }

    /** Line v is the best candidate for the mode: by cost-benefit, by cost-age-times, by the levels that
        the agent chose, or by the fewest valid pages; scores only as long as nothing wraps. */
    ghost predicate BestForMode(v: nat, now: nat, rule: VictimRule)
      reads Repr()
      requires Rep() && v < g.blks
    {
      var candidates := lm.victimPq.Lines();
      if mode == GC_MODE_CB then (exists e: nat :: lm.Tame(e)) ==> lm.BestByBenefit(v, candidates, now)
      else if mode == GC_MODE_CAT then (exists e: nat :: lm.Tame(e)) ==> lm.BestByAgeTimes(v, candidates, now)
      else if mode == GC_MODE_RL then
        rule.Scored? && ((exists e: nat :: lm.Tame(e)) ==>
                           lm.BestByPowers(v, candidates, now, rule.alpha, rule.delta))
      else forall l :: l in candidates ==> l < g.blks && lm.vpc[v] <= lm.vpc[l]
    }

    lemma RuleOfMode(rule: VictimRule, v: nat, now: nat)
      requires Rep() && v < g.blks && BestBy(rule, v, now)
      requires if mode == GC_MODE_RL then rule.Scored? else rule == FixedRule(mode)
      ensures BestForMode(v, now, rule)
    {
      hide MapView, RmapView, Having, LineMgmt.Highest, LineMgmt.Tame;
    }

    // select_victim_scored in the partition.
    method SelectScored(alpha: nat, delta: nat) returns (r: Option<nat>, ghost now: nat)
      requires Rep() && ErasesFit()
      modifies lm`victimLineCnt, lm.pos, lm.victimPq, lm.victimPq.d
      ensures lm.Rep() && (r.None? ==> lm.View() == old(lm.View()) && lm.View().victims == {})
      ensures r.Some? ==>
                && r.value in old(lm.View()).victims && r.value < g.blks
                && lm.View() == old(lm.View()).(victims := old(lm.View()).victims - {r.value})
                && old(BestBy(Scored(alpha, delta), r.value, now))
      ensures Times() == old(Times())
    {
      hide MapView, RmapView, Having, LineMgmt.Highest, LineMgmt.Tame, Fewest, PageOf, ValidPpa;
      hide LineMgmt.BestByPowers, LineMgmt.BestByBenefit, LineMgmt.BestByAgeTimes;
      var clock: nat := *;
      now := clock;
      ghost var e: nat := 0;
      if exists x: nat :: lm.Tame(x) {
        e :| lm.Tame(e);
      }
      r := lm.SelectVictimScored(clock, alpha, delta, e);
    }

    // select_victim_greedy in the partition.
    method SelectGreedy() returns (r: Option<nat>)
      requires Rep()
      modifies lm`victimLineCnt, lm.pos, lm.victimPq, lm.victimPq.d
      ensures lm.Rep() && (r.None? ==> lm.View() == old(lm.View()) && lm.View().victims == {})
      ensures r.Some? ==>
                && r.value in old(lm.View()).victims && r.value < g.blks
                && lm.View() == old(lm.View()).(victims := old(lm.View()).victims - {r.value})
                && old(BestBy(Greedy, r.value, 0))
      ensures Times() == old(Times())
    {
      hide MapView, RmapView, Having, Fewest, PageOf, ValidPpa;
      r := lm.SelectVictimGreedy(true);
    }

    // select_fn(ftl, true), or the scored selection of the learning agent (conv_ftl.c:1209-1221).
    method SelectVictim(rule: VictimRule) returns (r: Option<nat>, ghost now: nat)
      requires Rep() && ErasesFit()
      modifies Repr()
      ensures Rep()
      ensures r.None? ==> View() == old(View()) && View().sp.victims == {}
      ensures r.Some? ==> r.value in old(View()).sp.victims && r.value < g.blks
      ensures r.Some? ==>
                var s := old(View()); View() == s.(sp := s.sp.(victims := s.sp.victims - {r.value}))
      ensures r.Some? ==> old(BestBy(rule, r.value, now))
      ensures Times() == old(Times())
    {
      hide MapView, RmapView, Having, BestBy, PageOf, ValidPpa, LineMgmt.Rep, LineMgmt.View, ErasesFit;
      match rule {
        case Greedy =>
          now := 0;
          r := SelectGreedy();
        case Scored(alpha, delta) =>
          r, now := SelectScored(alpha, delta);
      }
    }

    // gc_count and the credits that collecting v will give back (conv_ftl.c:1228-1235).
    method NoteVictim(v: nat)
      requires Rep() && v < g.blks
      modifies this`gcCount, this`refill
      ensures Rep()
      ensures View() == var s := old(View()); s.(ct := s.ct.(gcCount := s.ct.gcCount + 1, refill := lm.ipc[v]))
      ensures Times() == old(Times())
    {
      gcCount := gcCount + 1;
      refill := lm.ipc[v];
    }

    // A victim chosen, taken out of the queue and counted.
    method StartGc(rule: VictimRule) returns (r: Option<nat>, ghost now: nat)
      requires Rep() && ErasesFit() && Typed(View())
      modifies Repr()
      ensures Rep()
      ensures r.None? ==> View() == old(View()) && View().sp.victims == {}
      ensures r.Some? ==> r.value in old(View()).sp.victims && r.value < g.blks == |old(View()).sp.lines|
      ensures r.Some? ==> View() == TakeVictim(old(View()), r.value)
      ensures r.Some? ==> old(BestBy(rule, r.value, now))
      ensures Times() == old(Times())
    {
      hide MapView, RmapView, Having, BestBy;
      r, now := SelectVictim(rule);
      if r.Some? {
        NoteVictim(r.value);
      }
    }

    // mark_line_free in the partition.
    method FreeVictim(v: nat)
      requires Rep() && Typed(View()) && v < g.blks && v !in View().sp.victims
      modifies lm`freeList, lm`freeLineCnt, lm.vpc, lm.ipc, lm.eraseCnt
      ensures Rep() && v < |old(View()).sp.lines| && View() == FreeLine(old(View()), v)
      ensures Times() == old(Times())
    {
      hide MapView, RmapView, Having;
      lm.MarkLineFree(v);
    }

    /** Every live page of line v went to the stream that page_is_hot decides on for its LPN. */
    static ghost predicate RoutedAll(s: Ftl, v: nat, h: set<Page>, m: Notes) {
      forall p: Page :: p in s.valid && p.line == v && p in s.rmap ==> Decides(m, s.rmap[p], p in h)
    }

    // What a collection needs at its start and finds at its end.
    lemma GcReady(s: Ftl, v: nat)
      requires Rep() && Inv(Cfg(), s, {}, {}) && Typed(s) && v in s.sp.victims
      requires FreePages(Cfg(), s.sp) >= 3 * Cfg().ppl
      requires v < |s.sp.lines| && View() == TakeVictim(s, v)
      ensures Running(View(), v, {}, 0)
    {
      hide View, Inv, FreePages, TakeVictim, Collectable, RunIs, RoutesFit, Times;
      ScheduleGood();
      ReadyToCollect(Cfg(), s, v);
      NoRoutes(Cfg(), TakeVictim(s, v), v, {}, Times().0);
    }

    lemma GcDone(s: Ftl, v: nat, h: set<Page>)
      requires Rep() && Typed(s) && v < |s.sp.lines| && Running(TakeVictim(s, v), v, h, |Cfg().schedule|)
      ensures Typed(View()) && v < |View().sp.lines| && v !in View().sp.victims
      ensures Collect(Cfg(), s, v, Routing(h)) == Some(FreeLine(View(), v))
      ensures RoutedAll(s, v, h, Times().0)
    {
      hide View, Collectable, RunIs, Collect, FreeLine, Typed, Cfg, Decides, RoutesFit, Times;
      CollectEnds(Cfg(), s, View(), v, h);
      FitAll(Cfg(), TakeVictim(s, v), v, h, Times().0);
    }

    lemma EraseCountIs(s: Ftl, v: nat)
      requires Rep() && Typed(s) && v < |s.sp.lines| && View() == TakeVictim(s, v) && v < g.blks
      ensures v < lm.eraseCnt.Length && lm.eraseCnt[v] == s.sp.lines[v].eraseCnt
    {
      hide MapView, RmapView, Having, Typed;
      assert View().sp.lines[v].eraseCnt == lm.eraseCnt[v];
    }

    // do_gc up to the statistics.
    method CollectVictim(rule: VictimRule) returns (v: Option<nat>, ec: nat, ghost h: set<Page>, ghost now: nat)
      requires Rep() && ErasesFit() && Inv(Cfg(), View(), {}, {}) && Typed(View())
      requires FreePages(Cfg(), View().sp) >= 3 * Cfg().ppl
      modifies Repr()
      ensures Rep()
      ensures v.None? ==> View() == old(View()).(ct := old(View()).ct.(refill := 0)) && old(View()).sp.victims == {}
      ensures v.Some? ==> v.value in old(View()).sp.victims && v.value < |old(View()).sp.lines|
      ensures v.Some? ==> Collect(Cfg(), old(View()), v.value, Routing(h)) == Some(View())
      ensures v.Some? ==> ec == old(View()).sp.lines[v.value].eraseCnt
      ensures v.Some? ==> v.value < g.blks && old(BestBy(rule, v.value, now))
      ensures Times() == old(Times())
      ensures v.Some? ==> RoutedAll(old(View()), v.value, h, Times().0)
    {
      hide Inv, Typed, FreePages, Collect, FreeLine, TakeVictim, Running, Schedule, MapView,
           RmapView, Having, ErasesFit, BestBy;
      ghost var s := View();
      v, now := StartGc(rule);
      h, ec := {}, 0;
      if v.None? {
        refill := 0;
        return;
      }
      GcReady(s, v.value);
      ghost var s0 := View();
      EraseCountIs(s, v.value);
      ec := lm.eraseCnt[v.value];
      h := CleanLine(v.value, s0);
      GcDone(s, v.value, h);
      FreeVictim(v.value);
    }

    // After a collection the erase counts still fit, there was one more collection, and fewer pages
    // than a line has were copied.
    lemma ErasesAfter(s: Ftl, v: nat, h: set<Page>)
      requires Rep() && Inv(Cfg(), s, {}, {}) && Typed(s) && v in s.sp.victims && v < |s.sp.lines|
      requires FreePages(Cfg(), s.sp) >= 3 * Cfg().ppl
      requires Collect(Cfg(), s, v, Routing(h)) == Some(View())
      requires |s.sp.lines| == g.blks && forall l :: 0 <= l < g.blks ==> s.sp.lines[l].eraseCnt < INT_MAX
      requires g.PgsPerLine() <= INT_MAX
      ensures gcCount == s.ct.gcCount + 1 && s.ct.copied <= copied < s.ct.copied + g.PgsPerLine()
      ensures Observable() && 2 <= |lm.eraseCnt[..]|
      ensures Sum(lm.eraseCnt[..]) == Sum(EraseCounts(s.sp)) + 1
    {
      hide Inv, Typed, FreePages, Collect, MapView, RmapView, Having, Sum;
      ScheduleGood();
      TwoLines(Cfg(), s);
      EraseCountsAre();
      SumUpdate(EraseCounts(s.sp), v);
      GcOrder.Positive(g);
      CollectKeeps(Cfg(), s, v, Routing(h));
      ValidAtMostLine(Cfg(), View());
      forall l | 0 <= l < g.blks ensures lm.eraseCnt[l] <= INT_MAX && lm.vpc[l] <= g.PgsPerLine() {
        assert View().sp.lines[l].eraseCnt == lm.eraseCnt[l] == EraseCounts(View().sp)[l];
        assert View().sp.lines[l].vpc == lm.vpc[l];
      }
    }

    lemma EraseCountsAre()
      requires Rep()
      ensures EraseCounts(View().sp) == lm.eraseCnt[..]
    {
      hide MapView, RmapView, Having;
    }

    lemma FitsInView()
      requires Rep() && ErasesFit()
      ensures forall l :: 0 <= l < g.blks ==> View().sp.lines[l].eraseCnt < INT_MAX
      ensures View().ct.gcCount == gcCount && View().ct.copied == copied && g.PgsPerLine() <= INT_MAX
    {
      hide MapView, RmapView, Having;
      forall l | 0 <= l < g.blks ensures View().sp.lines[l].eraseCnt < INT_MAX {
        assert View().sp.lines[l].eraseCnt == lm.eraseCnt[l];
      }
    }

    // do_gc once the rule is chosen.
    method CollectAndRecord(rule: VictimRule) returns (v: Option<nat>, ghost h: set<Page>, ghost now: nat)
      requires Rep() && ErasesFit() && Inv(Cfg(), View(), {}, {}) && Typed(View()) && StatsOk()
      requires FreePages(Cfg(), View().sp) >= 3 * Cfg().ppl
      modifies FullRepr()
      ensures Rep() && StatsOk()
      ensures agent.alphaLevel == old(agent.alphaLevel) && agent.deltaLevel == old(agent.deltaLevel)
      ensures v.None? ==> View() == old(View()).(ct := old(View()).ct.(refill := 0)) && old(View()).sp.victims == {}
      ensures v.Some? ==> v.value in old(View()).sp.victims && v.value < |old(View()).sp.lines|
      ensures v.Some? ==> Collect(Cfg(), old(View()), v.value, Routing(h)) == Some(View())
      ensures v.Some? ==> v.value < g.blks && old(BestBy(rule, v.value, now))
      ensures v.Some? ==>
                exists range: nat :: RangeIs(lm.eraseCnt[..], range) && wgs.ranges == old(wgs.ranges) + [range]
      ensures Times() == old(Times())
      ensures v.Some? ==> RoutedAll(old(View()), v.value, h, Times().0)
      ensures agent.curState == old(agent.curState) && agent.curAction == old(agent.curAction)
      ensures v.Some? && mode == GC_MODE_RL ==>
                Learned(old(agent.Entries()), old(agent.prevCopied),
                        old(RlAgent.Range(agent.prevEraseMax, agent.prevEraseMin)))
    {
      hide View, Rep, Inv, Typed, FreePages, Collect, Schedule, BestBy, Observable, RlAgent.Agent.Valid, After;
      hide RangeIs, Sum, EraseCounts, StatsAre, OneBehind, Learned, Times, RoutedAll, RlAgent.Range;
      ghost var s, n, k, erases := View(), gcCount, copied, lm.eraseCnt[..];
      FitsInView();
      EraseCountsAre();
      var ec;
      v, ec, h, now := CollectVictim(rule);
      if v.Some? {
        ErasesAfter(s, v.value, h);
        NowBehind(n, k, erases);
        TakeStatistics(ec);
      } else {
        CountIs();
        EraseCountsAre();
      }
    }

    /** do_gc (conv_ftl.c:1203-1281): with a candidate in the queue it chooses the best one by the rule
        of the mode or of the agent and collects it, routing each copy as page_is_hot decides, takes a
        sample of the wear gap, the present range of erase counts, and, in learning mode, lets the agent
        learn from it; without one it only gives up the refill. */
    method DoGc() returns (v: Option<nat>, ghost h: set<Page>, ghost rule: VictimRule, ghost now: nat)
      requires Rep() && ErasesFit() && Inv(Cfg(), View(), {}, {}) && Typed(View()) && StatsOk()
      requires FreePages(Cfg(), View().sp) >= 3 * Cfg().ppl
      modifies FullRepr()
      ensures Rep() && StatsOk()
      ensures v.None? ==> View() == old(View()).(ct := old(View()).ct.(refill := 0)) && old(View()).sp.victims == {}
      ensures v.Some? ==> v.value in old(View()).sp.victims && v.value < |old(View()).sp.lines|
      ensures v.Some? ==> Collect(Cfg(), old(View()), v.value, Routing(h)) == Some(View())
      ensures rule == if mode == GC_MODE_RL then Scored(agent.alphaLevel, agent.deltaLevel) else FixedRule(mode)
      ensures v.Some? ==> v.value < g.blks && old(BestBy(rule, v.value, now)) && old(BestForMode(v.value, now, rule))
      ensures v.Some? ==>
                exists range: nat :: RangeIs(lm.eraseCnt[..], range) && wgs.ranges == old(wgs.ranges) + [range]
      ensures Times() == old(Times())
      ensures v.Some? ==> RoutedAll(old(View()), v.value, h, Times().0)
      ensures v.Some? && mode == GC_MODE_RL ==>
                Learned(old(agent.Entries()), old(agent.prevCopied),
                        old(RlAgent.Range(agent.prevEraseMax, agent.prevEraseMin)))
      ensures mode == GC_MODE_RL ==>
                && (forall k :: k == agent.curState ==> old(Observes(k)))
                && agent.curAction == agent.alphaLevel * 5 + agent.deltaLevel
    {
      hide LineMgmt.Rep, LineMgmt.View, MapView, RmapView, Having, Inv, Typed, FreePages, Collect, Schedule, BestBy;
      hide Observable, ErasesFit, RangeIs, FixedRule, StatsOk, BestForMode, Learned, Times, RoutedAll, RlAgent.Range;
      CanObserve();
      var r := ChooseRule();
      rule := r;
      forall x: nat, n: nat | x < g.blks && BestBy(r, x, n) ensures BestForMode(x, n, r) {
        RuleOfMode(r, x, n);
      }
      v, h, now := CollectAndRecord(r);
    }

    lemma CountIs()
      requires Rep()
      ensures View().ct.gcCount == gcCount && View().ct.copied == copied
    {
    }

    // ----- credits -----

    lemma ErasesFitIf()
      requires Rep() && Sum(EraseCounts(View().sp)) == View().ct.gcCount < INT_MAX && g.PgsPerLine() <= INT_MAX
      ensures ErasesFit()
    {
      hide MapView, RmapView, Having;
      ErasesBelowGcCount(View(), INT_MAX);
      forall l | 0 <= l < g.blks ensures lm.eraseCnt[l] < INT_MAX {
        assert View().sp.lines[l].eraseCnt == lm.eraseCnt[l];
      }
    }

    // foreground_gc when do_gc has been called.
    lemma ForegroundIs(s: Ftl, v: Option<nat>, h: set<Page>, t: Ftl)
      requires g.Valid() && Typed(s) && |s.sp.free| <= thres
      requires v.None? ==> t == s.(ct := s.ct.(refill := 0)) && s.sp.victims == {}
      requires v.Some? ==> v.value in s.sp.victims && v.value < |s.sp.lines|
                           && Collect(Cfg(), s, v.value, Routing(h)) == Some(t)
      ensures var pick := Chosen(if v.Some? then v.value else 0);
              Reclaimed(Cfg(), s, pick, Routing(h), t)
    {
      hide Collect, Schedule, Policy, Typed;
      ChosenPolicy(if v.Some? then v.value else 0);
    }

    /** foreground_gc (conv_ftl.c:1284-1306). */
    method ForegroundGc() returns (ghost pick: Space -> nat, ghost h: set<Page>)
      requires Rep() && ErasesFit() && Inv(Cfg(), View(), {}, {}) && Typed(View()) && StatsOk()
      requires FreePages(Cfg(), View().sp) >= 3 * Cfg().ppl
      modifies FullRepr()
      ensures Rep() && StatsOk()
      ensures Reclaimed(Cfg(), old(View()), pick, Routing(h), View())
      ensures Times() == old(Times())
    {
      hide Inv, Typed, FreePages, Collect, Schedule, MapView, RmapView, Having, ErasesFit, Policy;
      pick, h := Chosen(0), {};
      ChosenPolicy(0);
      if lm.freeLineCnt > thres {
        return;
      }
      ghost var s := View();
      var v;
      ghost var rule, now;
      v, h, rule, now := DoGc();
      pick := Chosen(if v.Some? then v.value else 0);
      ForegroundIs(s, v, h, View());
    }

    // conv_ftl.c:246-249.
    method AddCredits()
      requires Rep()
      modifies this`credits
      ensures Rep() && View() == Credited(old(View()))
      ensures Times() == old(Times())
    {
      if refill > 0 {
        credits := credits + refill;
      } else {
        credits := 1;
      }
    }

    lemma CreditsAre()
      requires Rep()
      ensures View().ct.credits == credits
    {
    }

    /** check_and_refill_write_credit (conv_ftl.c:240-251). */
    method CheckAndRefillWriteCredit() returns (ghost pick: Space -> nat, ghost h: set<Page>)
      requires Rep() && ErasesFit() && Inv(Cfg(), View(), {}, {}) && Typed(View()) && StatsOk()
      requires FreePages(Cfg(), View().sp) >= 3 * Cfg().ppl
      modifies FullRepr()
      ensures Rep() && StatsOk()
      ensures Refilled(Cfg(), old(View()), pick, Routing(h), View())
      ensures Times() == old(Times())
    {
      hide View, Inv, Typed, FreePages, Reclaimed, Refilled, ErasesFit, Credited;
      ghost var s := View();
      pick, h := Chosen(0), {};
      CreditsAre();
      if credits <= 0 {
        pick, h := ForegroundGc();
        RefillIs(Cfg(), s, pick, Routing(h), View());
        AddCredits();
      } else {
        NoRefill(Cfg(), s, Routing(h));
      }
    }

    method ConsumeWriteCredit()
      requires Rep()
      modifies this`credits
      ensures Rep()
      ensures View() == var s := old(View()); s.(ct := s.ct.(credits := s.ct.credits - 1))
      ensures Times() == old(Times())
    {
      credits := credits - 1;
    }

    lemma TotalPages()
      requires g.Valid()
      ensures TtPgs(g) == Cfg().lpns && GoodSchedule(Cfg().ppl, Cfg().schedule) && 0 < Cfg().ppl
    {
      ScheduleIsGood(g);
      GcOrder.Positive(g);
      var n := g.PgsPerBlk();
      assert g.nchs * g.luns * g.blks * n == g.nchs * g.luns * n * g.blks;
    }

    // The state before the refill.
    lemma CanRefill(s: Ftl, lpn: nat, v: Payload)
      requires Rep() && Cfg().Valid() && Safe(Cfg(), s) && s.ct.gcCount < INT_MAX && g.PgsPerLine() <= INT_MAX
      requires Stored(Cfg(), s, lpn, v, View())
      ensures ErasesFit() && Inv(Cfg(), View(), {}, {}) && Typed(View())
      ensures FreePages(Cfg(), View().sp) >= 3 * Cfg().ppl
      ensures lm.eraseCnt[..] == EraseCounts(s.sp)
    {
      hide View, Inv, Typed, HostWrite, FreePages, EraseCounts, ErasesFit, Cfg, Safe;
      AfterWrite(Cfg(), s, lpn, v);
      EraseCountsAre();
      ErasesFitIf();
    }

    // What the first half of an iteration needs.
    lemma CanWrite()
      requires Rep() && Cfg().Valid() && Safe(Cfg(), View())
      ensures Typed(View()) && Inv(Cfg(), View(), {}, {}) && Room(Cfg(), View().sp, UserIo)
    {
      hide View, Inv, Typed, FreePages, EraseCounts, Cfg, HostWrite, Room;
      AfterWrite(Cfg(), View(), 0, []);
    }

    /** What is noted of a write of LPN lpn: one more write of it, at time now, in the running average too;
        and if it was mapped, that its line lost a page at time lost. */
    static ghost predicate WrittenAt(before: (Notes, seq<nat>), s: Ftl, lpn: nat, lost: nat, now: nat,
                                     after: (Notes, seq<nat>))
    {
      && lpn < |before.0.updates| && lpn < |before.0.lastWrites|
      && after == (NoteWrite(before.0, lpn, now), LostPage(before.1, s, lpn, lost))
    }

    // The first half of an iteration, up to consume_write_credit.
    method StoreLpn(lpn: nat, ghost v: Payload)
      requires Rep() && lpn < TtPgs(g) && Cfg().Valid() && Safe(Cfg(), View())
      requires View().ct.gcCount < INT_MAX && g.PgsPerLine() <= INT_MAX
      modifies Repr()
      ensures Rep() && Stored(Cfg(), old(View()), lpn, v, View())
      ensures ErasesFit() && Inv(Cfg(), View(), {}, {}) && Typed(View())
      ensures FreePages(Cfg(), View().sp) >= 3 * Cfg().ppl
      ensures lm.eraseCnt[..] == old(lm.eraseCnt[..])
      ensures exists lost: nat, now: nat :: WrittenAt(old(Times()), old(View()), lpn, lost, now, Times())
    {
      hide View, Safe, Inv, Typed, HostWrite, FreePages, Room, ErasesFit, EraseCounts;
      ghost var s := View();
      var lost: nat, now: nat := *, *;
      EraseCountsAre();
      CanWrite();
      ghost var times := Times();
      WritePage(lpn, v, lost, now);
      assert WrittenAt(times, s, lpn, lost, now, Times());
      ConsumeWriteCredit();
      CanRefill(s, lpn, v);
    }

    // The iteration as a step of FtlModel.
    lemma StepIs(s: Ftl, u: Ftl, q: Request)
      requires Rep() && q.lpn < TtPgs(g) && Cfg().Valid() && Safe(Cfg(), s)
      requires |s.maptbl.Keys + {q.lpn}| <= Capacity(Cfg())
      requires Stored(Cfg(), s, q.lpn, q.v, u) && Refilled(Cfg(), u, q.pick, q.hot, View())
      ensures Safe(Cfg(), View()) && Steps(Cfg(), s, q, View())
      ensures Host(View()) == Host(s)[q.lpn := q.v] && View().maptbl.Keys == s.maptbl.Keys + {q.lpn}
    {
      hide View, Safe, Inv, Typed, HostWrite, Stored, Refilled, FreePages, Capacity, Host, WriteStep, Policy;
      TotalPages();
      WriteStepIs(Cfg(), s, q, u, View());
      SafeStep(Cfg(), s, q);
    }

    // The window of host writes, in learning mode (conv_ftl.c:1467-1485). What it reads is the same
    // before and after the old copy is invalidated and the new one placed.
    method CountWrite(lpn: nat) returns (ghost now: nat)
      requires Rep() && lpn < TtPgs(g) && StatsOk()
      modifies agent
      ensures Rep() && View() == old(View()) && StatsOk()
      ensures mode == GC_MODE_RL ==>
                var hot := updateCnt[lpn] > 0 && now > lastWrite[lpn] && now - lastWrite[lpn] < TH_HOT;
                var h, n := old(agent.windowHot) + (if hot then 1 else 0), old(agent.windowTotal) + 1;
                if n >= g.PgsPerLine()
                then agent.windowHot == 0 && agent.windowTotal == 0 && agent.prevHotPct == RlAgent.Percent(h, n)
                else agent.windowHot == h && agent.windowTotal == n && agent.prevHotPct == old(agent.prevHotPct)
      ensures mode != GC_MODE_RL ==>
                && agent.windowHot == old(agent.windowHot) && agent.windowTotal == old(agent.windowTotal)
                && agent.prevHotPct == old(agent.prevHotPct)
      ensures Times() == old(Times())
    {
      hide LineMgmt.Rep, LineMgmt.View, MapView, RmapView, Having, RlAgent.Agent.Valid, After, Tracked, RlAgent.Percent;
      now := 0;
      if mode == GC_MODE_RL {
        GcOrder.Positive(g);
        var clock: nat := *;
        now := clock;
        var recent := clock > lastWrite[lpn] && clock - lastWrite[lpn] < TH_HOT;
        agent.CountWrite(updateCnt[lpn] > 0 && recent, g.PgsPerLine());
      }
    }

    /** In learning mode, in every state between steps: the agent has had one episode for each collection, its
        exploration rate has decayed by one for each down to 50, every entry of its table is in
        [-39980, 20000], and its state is one of 1728. */
    lemma LearnedSoFar()
      requires StatsOk() && mode == GC_MODE_RL
      ensures agent.totalEpisodes == gcCount
      ensures agent.epsilon == if gcCount <= 250 then 300 - gcCount else 50
      ensures agent.q.Length0 == RlAgent.STATES == 1728 && agent.q.Length1 == RlAgent.ACTIONS == 20
      ensures forall s, a :: 0 <= s < 1728 && 0 <= a < 20 ==> -39980 <= agent.q[s, a] <= 20000
      ensures agent.curState < 1728
    {
      RlAgent.EpsilonIs(gcCount);
    }

    /** After the first collection, and ever after, the accumulated change of the wear range is the
        present range of erase counts minus 1, which was the range after the first erase, over one
        sample fewer than there were collections. */
    lemma WearGapSoFar()
      requires StatsOk() && 0 < gcCount
      ensures wgs.initialized && wgs.samples == gcCount - 1
      ensures wgs.accumDiff >= -1 && RangeIs(lm.eraseCnt[..], wgs.accumDiff + 1)
    {
      hide RlAgent.Agent.Valid, RangeIs, Tracked, After;
      GapIs(lm.eraseCnt[..], wgs.ranges);
    }

    // The first half of an iteration with its statistics.
    method CountAndStore(lpn: nat, ghost v: Payload)
      requires Rep() && lpn < TtPgs(g) && Cfg().Valid() && Safe(Cfg(), View()) && StatsOk()
      requires View().ct.gcCount < INT_MAX && g.PgsPerLine() <= INT_MAX
      modifies FullRepr()
      ensures Rep() && StatsOk() && Stored(Cfg(), old(View()), lpn, v, View())
      ensures ErasesFit() && Inv(Cfg(), View(), {}, {}) && Typed(View())
      ensures FreePages(Cfg(), View().sp) >= 3 * Cfg().ppl
      ensures exists lost: nat, now: nat :: WrittenAt(old(Times()), old(View()), lpn, lost, now, Times())
    {
      hide View, Rep, Safe, Inv, Typed, Stored, FreePages, ErasesFit, Config.Valid, Cfg, StatsAre;
      ghost var s := View();
      ValidGeometry();
      ghost var now := CountWrite(lpn);
      CountIs();
      StoreLpn(lpn, v);
      StoredCount(Cfg(), s, lpn, v, View());
      CountIs();
    }

    /** One iteration of conv_write's loop (conv_ftl.c:1442-1506) on a safe partition with at most
        Capacity LPNs mapped then: it is a WriteStep, never runs out of lines, leaves the partition safe,
        and makes the host read v at lpn and what it read before elsewhere. */
    method WriteLpn(lpn: nat, ghost v: Payload) returns (ghost q: Request)
      requires Rep() && lpn < TtPgs(g) && Cfg().Valid() && Safe(Cfg(), View()) && StatsOk()
      requires |View().maptbl.Keys + {lpn}| <= Capacity(Cfg())
      requires View().ct.gcCount < INT_MAX && g.PgsPerLine() <= INT_MAX
      modifies FullRepr()
      ensures Rep() && Safe(Cfg(), View()) && StatsOk()
      ensures Steps(Cfg(), old(View()), q, View()) && q.lpn == lpn && q.v == v
      ensures Host(View()) == Host(old(View()))[lpn := v]
      ensures View().maptbl.Keys == old(View()).maptbl.Keys + {lpn}
      ensures exists lost: nat, now: nat :: WrittenAt(old(Times()), old(View()), lpn, lost, now, Times())
    {
      hide View, Rep, Safe, Inv, Typed, Stored, Refilled, FreePages, Capacity, ErasesFit, Host, Steps, StatsOk, Cfg;
      ghost var s := View();
      CountAndStore(lpn, v);
      ghost var u := View();
      ghost var pick, h;
      pick, h := CheckAndRefillWriteCredit();
      q := Request(lpn, v, pick, Routing(h));
      StepIs(s, u, q);
    }
  }
}
