/**
 Collecting a line (do_gc): for every victim, every hot/cold routing and every order of cleaning,
 the run never fails while enough pages are free, keeps the invariant, keeps what the host reads,
 and leaves the victim with no programmed page and no mapping into it.
 */
module FtlGc {
  import opened Wrappers
  import opened FtlModel
  import opened FtlInvariant
  import opened FtlSteps

  function Inside(pages: set<Page>, slots: set<nat>): set<Page> {
    set p | p in pages && p.slot in slots
  }

  function Outside(pages: set<Page>, slots: set<nat>): set<Page> {
    set p | p in pages && p.slot !in slots
  }

  lemma {:induction false} ErasedWasCleaned(ppl: nat, sched: seq<GcEvent>, i: nat)
    requires GoodSchedule(ppl, sched) && i <= |sched|
    ensures Erased(sched, i) <= Cleaned(sched, i)
    ensures forall k :: k in Cleaned(sched, i) ==> k < ppl
  {
    if i > 0 {
      ErasedWasCleaned(ppl, sched, i - 1);
      assert sched[i - 1].Clean? || sched[i - 1].Erase?;
    }
  }

  // Two lines' worth of free pages and two more leave room in every stream, whichever lines are open.
  lemma EnoughRoom(c: Config, sp: Space, gc: set<nat>, st: Stream)
    requires Partition(c, sp, gc) && FreePages(c, sp) >= 2 * c.ppl + 2
    ensures Room(c, sp, st)
  {
  }

  // ----- copying one page -----

  // Once its LPN is no longer mapped to it, a page under collection is stale.
  lemma MarkStale(c: Config, s: Ftl, gc: set<nat>, stale: set<Page>, p: Page)
    requires Inv(c, s, gc, stale) && Typed(s)
    requires p in s.valid && p !in stale && p.line in gc
    ensures p in s.rmap && s.rmap[p] in s.maptbl && s.maptbl[s.rmap[p]] == p
    ensures var t := s.(maptbl := s.maptbl - {s.rmap[p]});
            && Inv(c, t, gc, stale + {p}) && Typed(t)
            && Host(t) == Host(s) - {s.rmap[p]}
            && s.rmap[p] in Host(s) && Host(s)[s.rmap[p]] == s.data[p]
  {
    var t := s.(maptbl := s.maptbl - {s.rmap[p]});
    AccountsFrame(c, s, t, gc);
  }

  lemma RoomFrame(c: Config, s: Ftl, t: Ftl, st: Stream)
    requires s.sp == t.sp
    ensures Room(c, s.sp, st) <==> Room(c, t.sp, st)
  {
  }

  lemma PutSame<V>(m: map<nat, V>, k: nat)
    requires k in m
    ensures (m - {k})[k := m[k]] == m
    ensures (m - {k}).Keys + {k} == m.Keys
  {
  }

  /** gc_write_page on a live page of the victim: the copy takes one free page of the chosen stream,
      the old page becomes stale, and the host reads what it read before. */
  lemma CopyKeeps(c: Config, s: Ftl, gc: set<nat>, stale: set<Page>, p: Page, st: Stream)
    requires Inv(c, s, gc, stale) && Typed(s) && Room(c, s.sp, st)
    requires p in s.valid && p !in stale && p.line in gc
    ensures p in s.rmap && p in s.data
    ensures Append(c, s, st, s.rmap[p], s.data[p]).Some?
    ensures var t := Append(c, s, st, s.rmap[p], s.data[p]).value;
            && Inv(c, t, gc, stale + {p})
            && Appended(c, s, t, gc)
            && Host(t) == Host(s)
            && t.maptbl.Keys == s.maptbl.Keys
  {
    MarkStale(c, s, gc, stale, p);
    hide Inv, Typed, Room, Host, Append, Appended;
    var lpn := s.rmap[p];
    var u := s.(maptbl := s.maptbl - {lpn});
    RoomFrame(c, s, u, st);
    AppendOverwrites(c, s, st, lpn, s.data[p]);
    AppendKeeps(c, u, gc, stale + {p}, st, lpn, s.data[p]);
    AppendedFrame(c, s, u, Append(c, s, st, lpn, s.data[p]).value, gc);
    PutSame(Host(s), lpn);
    PutSame(s.maptbl, lpn);
  }

  lemma AppendedFrame(c: Config, s: Ftl, u: Ftl, t: Ftl, gc: set<nat>)
    requires Appended(c, u, t, gc)
    requires u.sp == s.sp && u.ct == s.ct && u.valid == s.valid && u.invalid == s.invalid
    ensures Appended(c, s, t, gc)
  {
  }

  // ----- erasing a block -----

  lemma EraseIn(pages: set<Page>, v: nat, slots: set<nat>, l: nat)
    ensures In(Without(pages, v, slots), l) == if l == v then Outside(In(pages, v), slots) else In(pages, l)
  {
  }

  /** Erasing slots of the victim that hold no live page keeps the invariant and what the host reads. */
  lemma EraseKeeps(c: Config, s: Ftl, v: nat, stale: set<Page>, slots: set<nat>)
    requires Inv(c, s, {v}, stale)
    requires forall p :: p in s.valid && p.line == v && p.slot in slots ==> p in stale
    ensures var t := s.(valid := Without(s.valid, v, slots), invalid := Without(s.invalid, v, slots));
            && Inv(c, t, {v}, Outside(stale, slots)) && Host(t) == Host(s)
  {
    var t := s.(valid := Without(s.valid, v, slots), invalid := Without(s.invalid, v, slots));
    forall l | 0 <= l < c.lines && l != v
      ensures Counted(t, l, Written(c, t.sp, l))
    {
      assert Counted(s, l, Written(c, s.sp, l));
      EraseIn(s.valid, v, slots, l);
      EraseIn(s.invalid, v, slots, l);
      CountedFrame(s, t, l, Written(c, s.sp, l));
    }
  }

  // ----- the whole collection -----

  // After i events: the victim's pages that were copied and are not yet erased.
  function Stale(c: Config, s0: Ftl, v: nat, i: nat): set<Page>
    requires i <= |c.schedule|
  {
    Outside(Inside(In(s0.valid, v), Cleaned(c.schedule, i)), Erased(c.schedule, i))
  }

  // How many pages the first i events copied.
  function CopiedBy(c: Config, s0: Ftl, v: nat, i: nat): nat
    requires i <= |c.schedule|
  {
    |Inside(In(s0.valid, v), Cleaned(c.schedule, i))|
  }

  // What the first i events have done, starting from s0.
  ghost predicate Progress(c: Config, s0: Ftl, t: Ftl, v: nat, i: nat)
    requires i <= |c.schedule|
  {
    && In(t.valid, v) == Outside(In(s0.valid, v), Erased(c.schedule, i))
    && In(t.invalid, v) == Outside(In(s0.invalid, v), Erased(c.schedule, i))
    && FreePages(c, t.sp) == FreePages(c, s0.sp) - CopiedBy(c, s0, v, i)
    && t.ct == s0.ct.(copied := s0.ct.copied + CopiedBy(c, s0, v, i))
    && t.maptbl.Keys == s0.maptbl.Keys
    && EraseCounts(t.sp) == EraseCounts(s0.sp)
    && v < |s0.sp.lines| == |t.sp.lines| && t.sp.lines[v] == s0.sp.lines[v]
  }

  lemma InsidePlus(pages: set<Page>, v: nat, slots: set<nat>, k: nat)
    requires forall p :: p in pages ==> p.line == v
    requires k !in slots
    ensures Inside(pages, slots + {k}) ==
            if Page(v, k) in pages then Inside(pages, slots) + {Page(v, k)} else Inside(pages, slots)
    ensures |Inside(pages, slots + {k})| == |Inside(pages, slots)| + Bit(Page(v, k) in pages)
  {
    assert Inside(pages, slots + {k}) ==
           if Page(v, k) in pages then Inside(pages, slots) + {Page(v, k)} else Inside(pages, slots);
  }

  lemma InsideBound(pages: set<Page>, slots: set<nat>, p: Page)
    requires p in pages && p.slot !in slots
    ensures |Inside(pages, slots)| + 1 <= |pages|
  {
    Subset(Inside(pages, slots) + {p}, pages);
  }

  lemma Subset<T>(a: set<T>, b: set<T>)
    requires a <= b
    ensures |a| <= |b|
  {
    if a != {} {
      var x :| x in a;
      Subset(a - {x}, b - {x});
    }
  }

  // The page an event cleans: PG_VALID and not copied before, or not live at all.
  lemma CleanedPage(c: Config, s0: Ftl, t: Ftl, v: nat, i: nat, k: nat)
    requires GoodSchedule(c.ppl, c.schedule) && i < |c.schedule| && c.schedule[i] == Clean(k)
    requires Progress(c, s0, t, v, i)
    ensures k !in Cleaned(c.schedule, i) && k !in Erased(c.schedule, i)
    ensures Page(v, k) in t.valid <==> Page(v, k) in In(s0.valid, v)
    ensures Page(v, k) !in Stale(c, s0, v, i)
    ensures Stale(c, s0, v, i + 1) ==
            if Page(v, k) in t.valid then Stale(c, s0, v, i) + {Page(v, k)} else Stale(c, s0, v, i)
    ensures CopiedBy(c, s0, v, i + 1) == CopiedBy(c, s0, v, i) + Bit(Page(v, k) in t.valid)
  {
    ErasedWasCleaned(c.ppl, c.schedule, i);
    assert Page(v, k) in t.valid <==> Page(v, k) in In(t.valid, v);
    InsidePlus(In(s0.valid, v), v, Cleaned(c.schedule, i), k);
  }

  // A page that is not PG_VALID is left alone.
  lemma CleanNothing(c: Config, s0: Ftl, t: Ftl, v: nat, i: nat, k: nat)
    requires GoodSchedule(c.ppl, c.schedule) && i < |c.schedule| && c.schedule[i] == Clean(k)
    requires Progress(c, s0, t, v, i) && Page(v, k) !in t.valid
    ensures Progress(c, s0, t, v, i + 1) && Stale(c, s0, v, i + 1) == Stale(c, s0, v, i)
  {
    CleanedPage(c, s0, t, v, i, k);
  }

  // The bookkeeping of one copy.
  lemma CopyProgress(c: Config, s0: Ftl, t: Ftl, u: Ftl, v: nat, i: nat, k: nat)
    requires GoodSchedule(c.ppl, c.schedule) && i < |c.schedule| && c.schedule[i] == Clean(k)
    requires Progress(c, s0, t, v, i) && Page(v, k) in t.valid
    requires Appended(c, t.(ct := t.ct.(copied := t.ct.copied + 1)), u, {v})
    requires u.maptbl.Keys == t.maptbl.Keys && |u.sp.lines| == |t.sp.lines|
    ensures Progress(c, s0, u, v, i + 1)
  {
    CleanedPage(c, s0, t, v, i, k);
    assert v in {v};
  }

  // gc_write_page for the victim's page in slot k.
  lemma CopyStep(c: Config, s0: Ftl, t: Ftl, v: nat, i: nat, k: nat, st: Stream)
    requires GoodSchedule(c.ppl, c.schedule) && i < |c.schedule| && c.schedule[i] == Clean(k)
    requires Inv(c, t, {v}, Stale(c, s0, v, i)) && Typed(t) && Progress(c, s0, t, v, i)
    requires Page(v, k) in t.valid && Room(c, t.sp, st)
    ensures var t1 := t.(ct := t.ct.(copied := t.ct.copied + 1)); var p := Page(v, k);
            && Typed(t1) && p in t.rmap && p in t.data
            && Append(c, t1, st, t.rmap[p], t.data[p]).Some?
            && var u := Append(c, t1, st, t.rmap[p], t.data[p]).value;
               && Inv(c, u, {v}, Stale(c, s0, v, i + 1)) && Host(u) == Host(t)
               && Progress(c, s0, u, v, i + 1)
  {
    hide Inv, Typed, Host, Append, Room, Progress, Stale, Appended, Cleaned, Erased, GoodSchedule;
    var p := Page(v, k);
    CleanedPage(c, s0, t, v, i, k);
    var t1 := t.(ct := t.ct.(copied := t.ct.copied + 1));
    CountersFrame(c, t, t1.ct, {v}, Stale(c, s0, v, i));
    CopyKeeps(c, t1, {v}, Stale(c, s0, v, i), p, st);
    CopyProgress(c, s0, t, Append(c, t1, st, t.rmap[p], t.data[p]).value, v, i, k);
  }

  // What GcStep does, spelled out.
  lemma GcStepIs(c: Config, t: Ftl, v: nat, hot: Page -> bool, e: GcEvent)
    requires Typed(t)
    ensures e.Clean? && Page(v, e.slot) !in t.valid ==> GcStep(c, t, v, hot, e) == Some(t)
    ensures e.Clean? && Page(v, e.slot) in t.valid ==>
              var p := Page(v, e.slot); var t1 := t.(ct := t.ct.(copied := t.ct.copied + 1));
              && p in t.rmap && p in t.data && Typed(t1)
              && GcStep(c, t, v, hot, e) ==
                 Append(c, t1, if hot(p) then GcHot else GcCold, t.rmap[p], t.data[p])
    ensures e.Erase? ==>
              GcStep(c, t, v, hot, e) ==
              Some(t.(valid := Without(t.valid, v, e.slots), invalid := Without(t.invalid, v, e.slots)))
  {
  }

  // A Clean event fails exactly if its page is valid and the stream it is copied to has no room.
  lemma CleanSome(c: Config, t: Ftl, v: nat, k: nat, hot: Page -> bool, gc: set<nat>)
    requires Typed(t) && Partition(c, t.sp, gc)
    ensures GcStep(c, t, v, hot, Clean(k)).Some? <==>
            (Page(v, k) in t.valid ==> Room(c, t.sp, if hot(Page(v, k)) then GcHot else GcCold))
  {
    hide Append, Places;
    GcStepIs(c, t, v, hot, Clean(k));
    if Page(v, k) in t.valid {
      var p, t1 := Page(v, k), t.(ct := t.ct.(copied := t.ct.copied + 1));
      AppendSome(c, t1, if hot(p) then GcHot else GcCold, t.rmap[p], t.data[p]);
    }
  }

  lemma InvPartition(c: Config, s: Ftl, gc: set<nat>, stale: set<Page>)
    requires Inv(c, s, gc, stale)
    ensures Partition(c, s.sp, gc)
  {
  }

  // One Clean event that does not fail.
  lemma CleanProgress(c: Config, s0: Ftl, t: Ftl, v: nat, i: nat, hot: Page -> bool)
    requires GoodSchedule(c.ppl, c.schedule) && i < |c.schedule| && c.schedule[i].Clean?
    requires Inv(c, t, {v}, Stale(c, s0, v, i)) && Typed(t) && Progress(c, s0, t, v, i)
    requires GcStep(c, t, v, hot, c.schedule[i]).Some?
    ensures var u := GcStep(c, t, v, hot, c.schedule[i]).value;
            Inv(c, u, {v}, Stale(c, s0, v, i + 1)) && Progress(c, s0, u, v, i + 1) && Host(u) == Host(t)
  {
    var k := c.schedule[i].slot;
    hide Inv, Partition, Host, Append, Progress, Stale, GcStep, Typed, GoodSchedule, Room;
    InvPartition(c, t, {v}, Stale(c, s0, v, i));
    CleanSome(c, t, v, k, hot, {v});
    GcStepIs(c, t, v, hot, c.schedule[i]);
    if Page(v, k) in t.valid {
      CopyStep(c, s0, t, v, i, k, if hot(Page(v, k)) then GcHot else GcCold);
    } else {
      CleanNothing(c, s0, t, v, i, k);
    }
  }

  // One Erase event.
  lemma EraseProgress(c: Config, s0: Ftl, t: Ftl, v: nat, i: nat, hot: Page -> bool)
    requires GoodSchedule(c.ppl, c.schedule) && i < |c.schedule| && c.schedule[i].Erase?
    requires Inv(c, t, {v}, Stale(c, s0, v, i)) && Typed(t) && Progress(c, s0, t, v, i)
    ensures GcStep(c, t, v, hot, c.schedule[i]).Some?
    ensures var u := GcStep(c, t, v, hot, c.schedule[i]).value;
            Inv(c, u, {v}, Stale(c, s0, v, i + 1)) && Progress(c, s0, u, v, i + 1) && Host(u) == Host(t)
  {
    var slots := c.schedule[i].slots;
    var u := GcStep(c, t, v, hot, c.schedule[i]).value;
    forall p | p in t.valid && p.line == v && p.slot in slots
      ensures p in Stale(c, s0, v, i)
    {
      assert p in In(t.valid, v);
    }
    assert Outside(Stale(c, s0, v, i), slots) == Stale(c, s0, v, i + 1);
    EraseIn(t.valid, v, slots, v);
    EraseIn(t.invalid, v, slots, v);
    assert Outside(Outside(In(s0.valid, v), Erased(c.schedule, i)), slots)
        == Outside(In(s0.valid, v), Erased(c.schedule, i + 1));
    assert Outside(Outside(In(s0.invalid, v), Erased(c.schedule, i)), slots)
        == Outside(In(s0.invalid, v), Erased(c.schedule, i + 1));
    hide Inv;
    EraseKeeps(c, t, v, Stale(c, s0, v, i), slots);
  }

  lemma ProgressStart(c: Config, s0: Ftl, v: nat)
    requires v < |s0.sp.lines|
    ensures Progress(c, s0, s0, v, 0) && Stale(c, s0, v, 0) == {}
  {
    assert Inside(In(s0.valid, v), {}) == {};
    assert Outside(In(s0.valid, v), {}) == In(s0.valid, v);
    assert Outside(In(s0.invalid, v), {}) == In(s0.invalid, v);
  }

  /** The first i events of a collection that does not fail, by induction on i. */
  lemma {:induction false} GcRunKeeps(c: Config, s0: Ftl, v: nat, hot: Page -> bool, i: nat)
    requires GoodSchedule(c.ppl, c.schedule) && i <= |c.schedule|
    requires Inv(c, s0, {v}, {}) && Typed(s0) && v < |s0.sp.lines|
    requires GcRun(c, s0, v, hot, i).Some?
    ensures var t := GcRun(c, s0, v, hot, i).value;
            Inv(c, t, {v}, Stale(c, s0, v, i)) && Progress(c, s0, t, v, i) && Host(t) == Host(s0)
  {
    hide Inv, Typed, Host, Progress, Stale, GcStep, GoodSchedule;
    if i == 0 {
      ProgressStart(c, s0, v);
    } else {
      GcRunKeeps(c, s0, v, hot, i - 1);
      var t := GcRun(c, s0, v, hot, i - 1).value;
      if c.schedule[i - 1].Clean? {
        CleanProgress(c, s0, t, v, i - 1, hot);
      } else {
        EraseProgress(c, s0, t, v, i - 1, hot);
      }
    }
  }

  // A page still to be copied leaves room for its copy, if there was room for all at the start.
  lemma RoomToCopy(c: Config, s0: Ftl, t: Ftl, v: nat, i: nat, k: nat, st: Stream)
    requires GoodSchedule(c.ppl, c.schedule) && i < |c.schedule| && c.schedule[i] == Clean(k)
    requires Partition(c, t.sp, {v}) && Progress(c, s0, t, v, i) && Page(v, k) in t.valid
    requires FreePages(c, s0.sp) >= 2 * c.ppl + 1 + |In(s0.valid, v)|
    ensures Room(c, t.sp, st)
  {
    hide Partition, Room, Cleaned, Erased, Stale;
    CleanedPage(c, s0, t, v, i, k);
    InsideBound(In(s0.valid, v), Cleaned(c.schedule, i), Page(v, k));
    EnoughRoom(c, t.sp, {v}, st);
  }

  /** With pages enough for all copies, no event fails. */
  lemma {:induction false} GcRunSucceeds(c: Config, s0: Ftl, v: nat, hot: Page -> bool, i: nat)
    requires GoodSchedule(c.ppl, c.schedule) && i <= |c.schedule|
    requires Inv(c, s0, {v}, {}) && Typed(s0) && v < |s0.sp.lines|
    requires FreePages(c, s0.sp) >= 2 * c.ppl + 1 + |In(s0.valid, v)|
    ensures GcRun(c, s0, v, hot, i).Some?
  {
    hide Inv, Partition, Typed, Host, Progress, Stale, GcStep, GoodSchedule, FreePages, Room;
    if i > 0 {
      GcRunSucceeds(c, s0, v, hot, i - 1);
      GcRunKeeps(c, s0, v, hot, i - 1);
      var t, e := GcRun(c, s0, v, hot, i - 1).value, c.schedule[i - 1];
      GcStepIs(c, t, v, hot, e);
      if e.Clean? {
        InvPartition(c, t, {v}, Stale(c, s0, v, i - 1));
        CleanSome(c, t, v, e.slot, hot, {v});
        if Page(v, e.slot) in t.valid {
          RoomToCopy(c, s0, t, v, i - 1, e.slot, if hot(Page(v, e.slot)) then GcHot else GcCold);
        }
      }
    }
  }

  lemma TakeVictimPartition(c: Config, s: Ftl, v: nat)
    requires Partition(c, s.sp, {}) && Typed(s) && v in s.sp.victims
    ensures v < c.lines && Partition(c, TakeVictim(s, v).sp, {v})
    ensures forall l :: 0 <= l < c.lines ==> Written(c, TakeVictim(s, v).sp, l) == Written(c, s.sp, l)
    ensures Written(c, s.sp, v) == c.ppl
  {
    var t := TakeVictim(s, v).sp;
    forall l | 0 <= l < c.lines ensures Places(t, {v}, l) == 1 {
      assert Places(s.sp, {}, l) == 1;
    }
    assert Places(s.sp, {}, v) == 1;
  }

  // A victim is a closed line with at least one invalid page: fewer than pgs_per_line pages will
  // be copied, and as many credits come back as it has invalid pages.
  lemma TakeVictimKeeps(c: Config, s: Ftl, v: nat)
    requires Inv(c, s, {}, {}) && Typed(s) && v in s.sp.victims
    ensures v < c.lines
    ensures var t := TakeVictim(s, v);
            && Inv(c, t, {v}, {})
            && FreePages(c, t.sp) == FreePages(c, s.sp) && Host(t) == Host(s)
            && 0 < s.sp.lines[v].ipc && |In(t.valid, v)| == c.ppl - s.sp.lines[v].ipc
            && (forall k :: 0 <= k < c.ppl ==> Page(v, k) in t.valid || Page(v, k) in t.invalid)
  {
    TakeVictimPartition(c, s, v);
    var t := TakeVictim(s, v);
    assert Counted(s, v, c.ppl);
    forall l | 0 <= l < c.lines && l != v
      ensures Counted(t, l, Written(c, t.sp, l))
    {
      assert Counted(s, l, Written(c, s.sp, l));
    }
  }

  lemma FreeLinePartition(c: Config, t: Ftl, v: nat)
    requires Partition(c, t.sp, {v}) && Typed(t) && v < c.lines
    ensures Partition(c, FreeLine(t, v).sp, {})
    ensures forall l :: 0 <= l < c.lines ==>
              Written(c, FreeLine(t, v).sp, l) == if l == v then 0 else Written(c, t.sp, l)
    ensures v !in t.sp.full && v !in t.sp.victims
  {
    var u := FreeLine(t, v).sp;
    assert Places(t.sp, {v}, v) == 1;
    forall l | 0 <= l < c.lines ensures Places(u, {}, l) == 1 {
      assert Places(t.sp, {v}, l) == 1;
    }
  }

  // An erased victim joins the free list.
  lemma FreeLineKeeps(c: Config, t: Ftl, v: nat)
    requires Inv(c, t, {v}, {}) && Typed(t) && v < c.lines
    requires In(t.valid, v) == {} && In(t.invalid, v) == {}
    ensures Inv(c, FreeLine(t, v), {}, {})
    ensures FreePages(c, FreeLine(t, v).sp) == FreePages(c, t.sp) + c.ppl
    ensures Host(FreeLine(t, v)) == Host(t)
  {
    var u := FreeLine(t, v);
    FreeLinePartition(c, t, v);
    forall l | 0 <= l < c.lines
      ensures Counted(u, l, Written(c, u.sp, l))
    {
      if l == v {
        forall k: nat ensures Page(v, k) !in t.valid && Page(v, k) !in t.invalid {
          assert Page(v, k) !in In(t.valid, v) && Page(v, k) !in In(t.invalid, v);
        }
      } else {
        assert Counted(t, l, Written(c, t.sp, l));
        CountedFrame(t, u, l, Written(c, t.sp, l));
      }
    }
    assert |u.sp.free| * c.ppl == |t.sp.free| * c.ppl + c.ppl;
  }

  lemma ErasedAll(c: Config, s0: Ftl, t: Ftl, v: nat)
    requires GoodSchedule(c.ppl, c.schedule) && Progress(c, s0, t, v, |c.schedule|)
    requires forall p :: p in s0.valid ==> p.slot < c.ppl
    requires forall p :: p in s0.invalid ==> p.slot < c.ppl
    ensures In(t.valid, v) == {} && In(t.invalid, v) == {}
    ensures Stale(c, s0, v, |c.schedule|) == {}
    ensures CopiedBy(c, s0, v, |c.schedule|) == |In(s0.valid, v)|
  {
    var n := |c.schedule|;
    ErasedWasCleaned(c.ppl, c.schedule, n);
    assert Inside(In(s0.valid, v), Cleaned(c.schedule, n)) == In(s0.valid, v);
  }

  /** No event of a collection meets a PG_FREE page (the assertion at conv_ftl.c:1166). */
  lemma CleansProgrammedPages(c: Config, s: Ftl, v: nat, hot: Page -> bool, i: nat)
    requires GoodSchedule(c.ppl, c.schedule) && i < |c.schedule| && c.schedule[i].Clean?
    requires Inv(c, s, {}, {}) && Typed(s) && v in s.sp.victims && v < |s.sp.lines|
    requires GcRun(c, TakeVictim(s, v), v, hot, i).Some?
    ensures var t := GcRun(c, TakeVictim(s, v), v, hot, i).value; var p := Page(v, c.schedule[i].slot);
            p in t.valid || p in t.invalid
  {
    var s0 := TakeVictim(s, v);
    TakeVictimKeeps(c, s, v);
    GcRunKeeps(c, s0, v, hot, i);
    var t := GcRun(c, s0, v, hot, i).value;
    var p := Page(v, c.schedule[i].slot);
    CleanedPage(c, s0, t, v, i, p.slot);
    assert p in s0.valid || p in s0.invalid;
    assert p in In(t.valid, v) || p in In(t.invalid, v);
  }

  /** Garbage collection preserves meaning. For every victim of the queue and every hot/cold
      routing, a do_gc that completes keeps the invariant, every mapped LPN and every payload, erases
      the victim and leaves no mapping into it; it gains exactly the victim's invalid pages, which is
      what it credits, and copies the rest. */
  lemma CollectKeeps(c: Config, s: Ftl, v: nat, hot: Page -> bool)
    requires GoodSchedule(c.ppl, c.schedule) && Inv(c, s, {}, {}) && Typed(s) && v in s.sp.victims
    requires v < |s.sp.lines| && Collect(c, s, v, hot).Some?
    ensures var t := Collect(c, s, v, hot).value; var ipc := s.sp.lines[v].ipc;
            && Inv(c, t, {}, {})
            && Host(t) == Host(s) && t.maptbl.Keys == s.maptbl.Keys
            && (forall p :: p in t.valid || p in t.invalid ==> p.line != v)
            && (forall lpn :: lpn in t.maptbl ==> t.maptbl[lpn].line != v)
            && FreePages(c, t.sp) == FreePages(c, s.sp) + ipc && 0 < ipc <= c.ppl
            && t.ct == s.ct.(gcCount := s.ct.gcCount + 1, refill := ipc, copied := s.ct.copied + (c.ppl - ipc))
            && EraseCounts(t.sp) == EraseCounts(s.sp)[v := s.sp.lines[v].eraseCnt + 1]
  {
    hide Inv, Partition, Typed, Host, GcRun, FreeLine, TakeVictim, Stale, CopiedBy,
         GoodSchedule, FreePages, EraseCounts;
    VictimIs(c, s, v);
    var s0 := TakeVictim(s, v);
    TakeVictimKeeps(c, s, v);
    GcRunKeeps(c, s0, v, hot, |c.schedule|);
    var t := GcRun(c, s0, v, hot, |c.schedule|).value;
    SlotsBelow(c, s0, {v}, {});
    ErasedAll(c, s0, t, v);
    FreeLineKeeps(c, t, v);
    FreedIs(t, v);
    NothingLeft(c, FreeLine(t, v), v);
  }

  /** With three lines' worth of free pages do_gc completes: no copy runs out of lines. */
  lemma CollectSucceeds(c: Config, s: Ftl, v: nat, hot: Page -> bool)
    requires GoodSchedule(c.ppl, c.schedule) && Inv(c, s, {}, {}) && Typed(s) && v in s.sp.victims
    requires FreePages(c, s.sp) >= 3 * c.ppl
    ensures v < |s.sp.lines| == c.lines && Collect(c, s, v, hot).Some?
  {
    hide Inv, Partition, Typed, Host, GcRun, FreeLine, TakeVictim, GoodSchedule, FreePages, EraseCounts;
    VictimIs(c, s, v);
    TakeVictimKeeps(c, s, v);
    GcRunSucceeds(c, TakeVictim(s, v), v, hot, |c.schedule|);
  }

  // What taking a victim and freeing a line do to counters and erase counts.
  lemma VictimIs(c: Config, s: Ftl, v: nat)
    requires Inv(c, s, {}, {}) && Typed(s) && v in s.sp.victims
    ensures v < |s.sp.lines| == c.lines
    ensures var t := TakeVictim(s, v);
            && t.ct == s.ct.(gcCount := s.ct.gcCount + 1, refill := s.sp.lines[v].ipc)
            && t.maptbl == s.maptbl && t.sp.lines == s.sp.lines && EraseCounts(t.sp) == EraseCounts(s.sp)
            && FreePages(c, t.sp) == FreePages(c, s.sp)
  {
  }

  lemma FreedIs(t: Ftl, v: nat)
    requires Typed(t) && v < |t.sp.lines|
    ensures var u := FreeLine(t, v);
            && u.ct == t.ct && u.maptbl == t.maptbl && u.valid == t.valid && u.invalid == t.invalid
            && EraseCounts(u.sp) == EraseCounts(t.sp)[v := t.sp.lines[v].eraseCnt + 1]
  {
  }

  lemma SlotsBelow(c: Config, s: Ftl, gc: set<nat>, stale: set<Page>)
    requires Inv(c, s, gc, stale)
    ensures forall p :: p in s.valid ==> p.slot < c.ppl
    ensures forall p :: p in s.invalid ==> p.slot < c.ppl
  {
    hide Partition, Mapping, Counted;
  }

  // A line without programmed pages has no mapping into it.
  lemma NothingLeft(c: Config, u: Ftl, v: nat)
    requires Inv(c, u, {}, {}) && In(u.valid, v) == {} && In(u.invalid, v) == {}
    ensures forall p :: p in u.valid || p in u.invalid ==> p.line != v
    ensures forall lpn :: lpn in u.maptbl ==> u.maptbl[lpn].line != v
  {
    hide Partition, Accounts;
    forall p | p in u.valid || p in u.invalid ensures p.line != v {
      assert p in In(u.valid, p.line) || p in In(u.invalid, p.line);
    }
  }

  // ----- one event at a time, with routing decided as pages come up -----

  // The routing that sends the pages in h to the hot stream.
  function Routing(h: set<Page>): Page -> bool {
    p => p in h
  }

  // A run depends on the routing of the pages it has cleaned only.
  lemma {:induction false} RoutingAgrees(c: Config, s0: Ftl, v: nat, h1: set<Page>, h2: set<Page>, i: nat)
    requires Typed(s0) && i <= |c.schedule|
    requires forall k :: k in Cleaned(c.schedule, i) ==> (Page(v, k) in h1 <==> Page(v, k) in h2)
    ensures GcRun(c, s0, v, Routing(h1), i) == GcRun(c, s0, v, Routing(h2), i)
  {
    if i > 0 {
      RoutingAgrees(c, s0, v, h1, h2, i - 1);
    }
  }

  // A victim just taken from the queue, with pages enough to copy it.
  ghost predicate Collectable(c: Config, s0: Ftl, v: nat) {
    && GoodSchedule(c.ppl, c.schedule)
    && Inv(c, s0, {v}, {}) && Typed(s0) && v < |s0.sp.lines|
    && FreePages(c, s0.sp) >= 2 * c.ppl + 1 + |In(s0.valid, v)|
    && (forall k :: 0 <= k < c.ppl ==> Page(v, k) in s0.valid || Page(v, k) in s0.invalid)
  }

  /** What holds when event i cleans slot k: the page is programmed, and if it is valid it is live
      and both collection streams have room. */
  lemma StepReady(c: Config, s0: Ftl, v: nat, h: set<Page>, i: nat, k: nat)
    requires Collectable(c, s0, v) && i < |c.schedule| && c.schedule[i] == Clean(k)
    requires GcRun(c, s0, v, Routing(h), i).Some?
    ensures var t := GcRun(c, s0, v, Routing(h), i).value; var p := Page(v, k);
            && Inv(c, t, {v}, Stale(c, s0, v, i)) && Typed(t)
            && (p in t.valid || p in t.invalid)
            && (p in t.valid ==>
                  p !in Stale(c, s0, v, i) && Room(c, t.sp, GcHot) && Room(c, t.sp, GcCold))
            && GcRun(c, s0, v, Routing(h), i + 1) == GcStep(c, t, v, Routing(h), Clean(k))
            && k !in Cleaned(c.schedule, i)
  {
    GcRunKeeps(c, s0, v, Routing(h), i);
    var t := GcRun(c, s0, v, Routing(h), i).value;
    var p := Page(v, k);
    CleanedPage(c, s0, t, v, i, k);
    assert p in In(t.valid, v) || p in In(t.invalid, v);
    if p in t.valid {
      InsideBound(In(s0.valid, v), Cleaned(c.schedule, i), p);
      EnoughRoom(c, t.sp, {v}, GcHot);
      EnoughRoom(c, t.sp, {v}, GcCold);
    }
  }

  // The state after i events with the routing h is t.
  ghost predicate RunIs(c: Config, s0: Ftl, v: nat, h: set<Page>, i: nat, t: Ftl) {
    Typed(s0) && i <= |c.schedule| && GcRun(c, s0, v, Routing(h), i) == Some(t)
  }

  lemma RunNext(c: Config, s0: Ftl, t: Ftl, v: nat, h: set<Page>, i: nat)
    requires RunIs(c, s0, v, h, i, t) && i < |c.schedule|
    ensures Typed(t) && GcRun(c, s0, v, Routing(h), i + 1) == GcStep(c, t, v, Routing(h), c.schedule[i])
  {
  }

  // GcStep for a valid page, with the route decided now.
  lemma RoutedStep(c: Config, t: Ftl, v: nat, k: nat, h: set<Page>)
    requires Typed(t) && Page(v, k) in t.valid
    ensures var p := Page(v, k); var t1 := t.(ct := t.ct.(copied := t.ct.copied + 1));
            && p in t.rmap && p in t.data && Typed(t1)
            && GcStep(c, t, v, Routing(h), Clean(k)) ==
               Append(c, t1, if p in h then GcHot else GcCold, t.rmap[p], t.data[p])
  {
    hide Typed, Append;
    GcStepIs(c, t, v, Routing(h), Clean(k));
  }

  // The route decided for one page.
  function Route(p: Page, hot: bool): set<Page> {
    if hot then {p} else {}
  }

  // A step looks at the route of its own page only.
  lemma RouteOfPage(c: Config, t: Ftl, v: nat, k: nat, h: set<Page>, hot: bool)
    requires Typed(t) && (Page(v, k) in h <==> hot)
    ensures GcStep(c, t, v, Routing(h), Clean(k)) == GcStep(c, t, v, Routing(Route(Page(v, k), hot)), Clean(k))
  {
    if Page(v, k) in t.valid {
      RoutedStep(c, t, v, k, h);
      RoutedStep(c, t, v, k, Route(Page(v, k), hot));
    }
  }

  /** A Clean event whose route is decided when its page comes up extends the run, with that
      decision recorded. */
  lemma StepTaken(c: Config, s0: Ftl, t: Ftl, u: Ftl, v: nat, h: set<Page>, i: nat, k: nat, hot: bool)
    requires GoodSchedule(c.ppl, c.schedule) && i < |c.schedule| && c.schedule[i] == Clean(k)
    requires RunIs(c, s0, v, h, i, t) && Typed(t)
    requires GcStep(c, t, v, Routing(Route(Page(v, k), hot)), Clean(k)) == Some(u)
    ensures RunIs(c, s0, v, if hot then h + {Page(v, k)} else h - {Page(v, k)}, i + 1, u)
  {
    var p := Page(v, k);
    var h' := if hot then h + {p} else h - {p};
    assert k !in Cleaned(c.schedule, i);
    hide Typed, GcRun, GcStep, Cleaned, Routing, Route;
    RoutingAgrees(c, s0, v, h, h', i);
    RunNext(c, s0, t, v, h', i);
    RouteOfPage(c, t, v, k, h', hot);
  }

  // What is known of the state when event i is about to clean slot k.
  lemma StepPrecondition(c: Config, s0: Ftl, t: Ftl, v: nat, h: set<Page>, i: nat, k: nat)
    requires Collectable(c, s0, v) && i < |c.schedule| && c.schedule[i] == Clean(k)
    requires RunIs(c, s0, v, h, i, t)
    ensures Inv(c, t, {v}, Stale(c, s0, v, i)) && Typed(t)
    ensures Page(v, k) in t.valid ==>
              Page(v, k) !in Stale(c, s0, v, i) && Room(c, t.sp, GcHot) && Room(c, t.sp, GcCold)
  {
    hide Inv, Typed, Room, Stale, Collectable;
    StepReady(c, s0, v, h, i, k);
  }

  lemma {:induction false} CleanedGrows(sched: seq<GcEvent>, i: nat, j: nat)
    requires i <= j <= |sched|
    ensures Cleaned(sched, i) <= Cleaned(sched, j) && Erased(sched, i) <= Erased(sched, j)
  {
    if i < j {
      CleanedGrows(sched, i, j - 1);
    }
  }

  /** A page that is still to be cleaned is not PG_FREE (the assertion at conv_ftl.c:1166, which the
      driver makes for a whole flash page before it copies any of it). */
  lemma StillProgrammed(c: Config, s0: Ftl, t: Ftl, v: nat, h: set<Page>, i: nat, j: nat, k: nat)
    requires Collectable(c, s0, v) && i <= j < |c.schedule| && c.schedule[j] == Clean(k)
    requires RunIs(c, s0, v, h, i, t)
    ensures Page(v, k) in t.valid || Page(v, k) in t.invalid
  {
    GcRunKeeps(c, s0, v, Routing(h), i);
    ErasedWasCleaned(c.ppl, c.schedule, j);
    CleanedGrows(c.schedule, i, j);
    var p := Page(v, k);
    assert p in s0.valid || p in s0.invalid;
    assert p in In(t.valid, v) || p in In(t.invalid, v);
  }

  // Events that find no valid page change nothing.
  lemma {:induction false} RunSkips(c: Config, s0: Ftl, t: Ftl, v: nat, h: set<Page>, i: nat, n: nat)
    requires RunIs(c, s0, v, h, i, t) && i + n <= |c.schedule|
    requires forall j :: i <= j < i + n ==> c.schedule[j].Clean? && Page(v, c.schedule[j].slot) !in t.valid
    ensures RunIs(c, s0, v, h, i + n, t)
  {
    if n > 0 {
      RunSkips(c, s0, t, v, h, i, n - 1);
      RunNext(c, s0, t, v, h, i + n - 1);
      assert c.schedule[i + n - 1].Clean?;
    }
  }

  lemma StepErased(c: Config, s0: Ftl, t: Ftl, v: nat, h: set<Page>, i: nat, slots: set<nat>)
    requires RunIs(c, s0, v, h, i, t) && i < |c.schedule| && c.schedule[i] == Erase(slots)
    ensures RunIs(c, s0, v, h, i + 1,
                  t.(valid := Without(t.valid, v, slots), invalid := Without(t.invalid, v, slots)))
  {
    RunNext(c, s0, t, v, h, i);
  }

  lemma RunStarts(c: Config, s0: Ftl, v: nat)
    requires Typed(s0)
    ensures RunIs(c, s0, v, {}, 0, s0)
  {
  }

  lemma ReadyToCollect(c: Config, s: Ftl, v: nat)
    requires GoodSchedule(c.ppl, c.schedule) && Inv(c, s, {}, {}) && Typed(s) && v in s.sp.victims
    requires FreePages(c, s.sp) >= 3 * c.ppl
    ensures v < c.lines == |s.sp.lines| && Collectable(c, TakeVictim(s, v), v)
    ensures RunIs(c, TakeVictim(s, v), v, {}, 0, TakeVictim(s, v))
  {
    hide Accounts, Mapping, GoodSchedule, FreePages;
    TakeVictimKeeps(c, s, v);
    RunStarts(c, TakeVictim(s, v), v);
  }

  // After the last event the victim is erased and can go back to the free list.
  lemma CollectEnds(c: Config, s: Ftl, t: Ftl, v: nat, h: set<Page>)
    requires Typed(s) && v < |s.sp.lines|
    requires Collectable(c, TakeVictim(s, v), v) && RunIs(c, TakeVictim(s, v), v, h, |c.schedule|, t)
    ensures Typed(t) && v < |t.sp.lines| && v !in t.sp.victims
    ensures Collect(c, s, v, Routing(h)) == Some(FreeLine(t, v))
  {
    hide Typed, GcStep, FreeLine, TakeVictim, Stale, Accounts, Mapping, GoodSchedule, Routing;
    GcRunKeeps(c, TakeVictim(s, v), v, Routing(h), |c.schedule|);
    assert Places(t.sp, {v}, v) == 1;
  }
}
