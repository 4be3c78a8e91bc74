/**
 The order in which do_gc cleans a victim (conv_ftl.c:1237-1268): flash page by flash page, and for
 each of them channel by channel and LUN by LUN, erasing each block after its last flash page. It
 is a good schedule: it cleans every page of the line once, each before its block is erased.
 */
module GcOrder {
  import opened FtlModel
  import opened Arith
  import opened Geometry

  // clean_one_flashpg on n pages of flash page f of one block (conv_ftl.c:1188-1193).
  function FlashPage(g: Geometry, f: nat, ch: nat, lun: nat, n: nat): seq<GcEvent>
    requires g.os > 0
  {
    if n == 0 then []
    else FlashPage(g, f, ch, lun, n - 1) + [Clean(Slot(g, Cursor(ch, lun, Mix(f, g.fp, n - 1))))]
  }

  // The slots of one block.
  function BlockSlots(g: Geometry, ch: nat, lun: nat): set<nat>
    requires g.os > 0
  {
    set pg | 0 <= pg < g.PgsPerBlk() :: Slot(g, Cursor(ch, lun, pg))
  }

  // What the body of the inner loop does for one flash page of one block.
  function Visit(g: Geometry, f: nat, ch: nat, lun: nat): seq<GcEvent>
    requires g.Valid()
  {
    FlashPage(g, f, ch, lun, g.fp)
    + if f + 1 == g.FlashPgsPerBlk() then [Erase(BlockSlots(g, ch, lun))] else []
  }

  // Everything the loops do before they reach flash page f, channel ch and LUN lun.
  function Before(g: Geometry, f: nat, ch: nat, lun: nat): seq<GcEvent>
    requires g.Valid()
    decreases f, ch, lun
  {
    if lun > 0 then Before(g, f, ch, lun - 1) + Visit(g, f, ch, lun - 1)
    else if ch > 0 then Before(g, f, ch - 1, g.luns)
    else if f > 0 then Before(g, f - 1, g.nchs, 0)
    else []
  }

  /** All that do_gc does to a victim. */
  function Schedule(g: Geometry): seq<GcEvent>
    requires g.Valid()
  {
    Before(g, g.FlashPgsPerBlk(), 0, 0)
  }

  // ----- it is a good schedule -----

  // GoodSchedule without the demand that everything is erased in the end.
  ghost predicate GoodSoFar(ppl: nat, sched: seq<GcEvent>) {
    forall i :: 0 <= i < |sched| ==>
      match sched[i]
      case Clean(k) => k < ppl && k !in Cleaned(sched, i)
      case Erase(e) => e <= Cleaned(sched, i) && e !! Erased(sched, i)
  }

  lemma {:induction false} PrefixSame(a: seq<GcEvent>, b: seq<GcEvent>, n: nat)
    requires n <= |a|
    ensures Cleaned(a + b, n) == Cleaned(a, n) && Erased(a + b, n) == Erased(a, n)
  {
    if n > 0 {
      PrefixSame(a, b, n - 1);
      assert (a + b)[n - 1] == a[n - 1];
    }
  }

  function AllCleaned(sched: seq<GcEvent>): set<nat> { Cleaned(sched, |sched|) }

  function AllErased(sched: seq<GcEvent>): set<nat> { Erased(sched, |sched|) }

  // One more event after a schedule.
  lemma Extend(ppl: nat, sched: seq<GcEvent>, e: GcEvent)
    requires GoodSoFar(ppl, sched)
    requires match e
             case Clean(k) => k < ppl && k !in AllCleaned(sched)
             case Erase(es) => es <= AllCleaned(sched) && es !! AllErased(sched)
    ensures GoodSoFar(ppl, sched + [e])
    ensures AllCleaned(sched + [e]) == AllCleaned(sched) + (if e.Clean? then {e.slot} else {})
    ensures AllErased(sched + [e]) == AllErased(sched) + (if e.Erase? then e.slots else {})
  {
    var s := sched + [e];
    PrefixSame(sched, [e], |sched|);
    forall i | 0 <= i < |s|
      ensures match s[i]
              case Clean(k) => k < ppl && k !in Cleaned(s, i)
              case Erase(es) => es <= Cleaned(s, i) && es !! Erased(s, i)
    {
      PrefixSame(sched, [e], i);
      if i < |sched| {
        assert s[i] == sched[i];
      }
    }
  }

  // Whether the loops clean page pg of block (ch', lun') before flash page f, channel ch, LUN lun.
  predicate Earlier(g: Geometry, c: Cursor, f: nat, ch: nat, lun: nat)
    requires g.fp > 0
  {
    var f' := Quo(c.pg, g.fp);
    f' < f || (f' == f && (c.ch < ch || (c.ch == ch && c.lun < lun)))
  }

  // What has been cleaned and erased when the loops reach (f, ch, lun), and the part of the flash
  // page there that is already clean.
  ghost predicate Reached(g: Geometry, sched: seq<GcEvent>, f: nat, ch: nat, lun: nat, n: nat)
    requires g.Valid()
  {
    && GoodSoFar(g.PgsPerLine(), sched)
    && (forall c :: OnChip(g, c) ==>
          (Slot(g, c) in AllCleaned(sched) <==>
             Earlier(g, c, f, ch, lun)
             || (Quo(c.pg, g.fp) == f && c.ch == ch && c.lun == lun && Rem(c.pg, g.fp) < n)))
    && (forall c :: OnChip(g, c) ==>
          (Slot(g, c) in AllErased(sched) <==>
             f >= g.FlashPgsPerBlk()
             || (f + 1 == g.FlashPgsPerBlk() && (c.ch < ch || (c.ch == ch && c.lun < lun)))))
  }

  lemma BlockPages(g: Geometry)
    requires g.Valid()
    ensures g.FlashPgsPerBlk() * g.fp == g.PgsPerBlk()
  {
    assert (g.os / g.fp) * g.fp == g.os;
    assert (g.os / g.fp) * g.oneshots * g.fp == ((g.os / g.fp) * g.fp) * g.oneshots;
  }

  lemma SameSlot(g: Geometry, c: Cursor, d: Cursor)
    requires g.Valid() && OnChip(g, c) && OnChip(g, d) && Slot(g, c) == Slot(g, d)
    ensures c == d
  {
    AtSlot(g, c);
    AtSlot(g, d);
  }

  // Flash page and offset of a page on the chip.
  lemma PageOfFlash(g: Geometry, f: nat, n: nat)
    requires g.Valid() && f < g.FlashPgsPerBlk() && n < g.fp
    ensures Mix(f, g.fp, n) < g.PgsPerBlk()
    ensures Quo(Mix(f, g.fp, n), g.fp) == f && Rem(Mix(f, g.fp, n), g.fp) == n
  {
    BlockPages(g);
    MixBound(f, g.fp, n, g.FlashPgsPerBlk());
    MixParts(f, g.fp, n);
  }

  lemma FlashOfPage(g: Geometry, pg: nat)
    requires g.Valid() && pg < g.PgsPerBlk()
    ensures Quo(pg, g.fp) < g.FlashPgsPerBlk() && Rem(pg, g.fp) < g.fp
    ensures Mix(Quo(pg, g.fp), g.fp, Rem(pg, g.fp)) == pg
  {
    BlockPages(g);
    PartsMix(pg, g.fp);
    QuoBound(pg, g.fp, g.FlashPgsPerBlk());
  }

  lemma ReachedPage(g: Geometry, sched: seq<GcEvent>, f: nat, ch: nat, lun: nat, n: nat)
    requires g.Valid() && Reached(g, sched, f, ch, lun, n)
    requires f < g.FlashPgsPerBlk() && ch < g.nchs && lun < g.luns && n < g.fp
    ensures Reached(g, sched + [Clean(Slot(g, Cursor(ch, lun, Mix(f, g.fp, n))))], f, ch, lun, n + 1)
  {
    var c0 := Cursor(ch, lun, Mix(f, g.fp, n));
    PageOfFlash(g, f, n);
    hide Mix, Quo, Rem, Slot, Geometry.PgsPerBlk, Geometry.FlashPgsPerBlk, Geometry.PgsPerLine;
    SlotBound(g, c0);
    Extend(g.PgsPerLine(), sched, Clean(Slot(g, c0)));
    hide AllCleaned, AllErased, GoodSoFar;
    forall c | OnChip(g, c)
      ensures Slot(g, c) == Slot(g, c0) <==>
              Quo(c.pg, g.fp) == f && c.ch == ch && c.lun == lun && Rem(c.pg, g.fp) == n
    {
      FlashOfPage(g, c.pg);
      if Slot(g, c) == Slot(g, c0) {
        SameSlot(g, c, c0);
      }
    }
  }

  lemma {:induction false} ReachedFlashPage(g: Geometry, sched: seq<GcEvent>, f: nat, ch: nat, lun: nat, n: nat)
    requires g.Valid() && Reached(g, sched, f, ch, lun, 0)
    requires f < g.FlashPgsPerBlk() && ch < g.nchs && lun < g.luns && n <= g.fp
    ensures Reached(g, sched + FlashPage(g, f, ch, lun, n), f, ch, lun, n)
  {
    hide Reached, Mix, Slot;
    if n == 0 {
      assert sched + [] == sched;
    } else {
      var pre := FlashPage(g, f, ch, lun, n - 1);
      var e := Clean(Slot(g, Cursor(ch, lun, Mix(f, g.fp, n - 1))));
      ReachedFlashPage(g, sched, f, ch, lun, n - 1);
      ReachedPage(g, sched + pre, f, ch, lun, n - 1);
      assert sched + FlashPage(g, f, ch, lun, n) == (sched + pre) + [e];
    }
  }

  // Done with a flash page that is not its block's last.
  lemma ReachedNext(g: Geometry, sched: seq<GcEvent>, f: nat, ch: nat, lun: nat)
    requires g.Valid() && Reached(g, sched, f, ch, lun, g.fp) && f + 1 < g.FlashPgsPerBlk()
    ensures Reached(g, sched, f, ch, lun + 1, 0)
  {
    hide Mix, Quo, Rem, Slot, Geometry.PgsPerBlk, Geometry.FlashPgsPerBlk, Geometry.PgsPerLine;
    hide AllCleaned, AllErased, GoodSoFar;
    forall c | OnChip(g, c) ensures Rem(c.pg, g.fp) < g.fp {
      FlashOfPage(g, c.pg);
    }
  }

  lemma InBlockSlots(g: Geometry, c: Cursor, ch: nat, lun: nat)
    requires g.Valid() && OnChip(g, c) && ch < g.nchs && lun < g.luns
    ensures Slot(g, c) in BlockSlots(g, ch, lun) <==> c.ch == ch && c.lun == lun
  {
    if Slot(g, c) in BlockSlots(g, ch, lun) {
      var pg :| 0 <= pg < g.PgsPerBlk() && Slot(g, Cursor(ch, lun, pg)) == Slot(g, c);
      SameSlot(g, c, Cursor(ch, lun, pg));
    }
  }

  // Done with a block's last flash page: the block is erased.
  lemma ReachedErase(g: Geometry, sched: seq<GcEvent>, f: nat, ch: nat, lun: nat)
    requires g.Valid() && Reached(g, sched, f, ch, lun, g.fp) && f + 1 == g.FlashPgsPerBlk()
    requires ch < g.nchs && lun < g.luns
    ensures Reached(g, sched + [Erase(BlockSlots(g, ch, lun))], f, ch, lun + 1, 0)
  {
    var es := BlockSlots(g, ch, lun);
    hide Mix, Quo, Rem, Slot, Geometry.PgsPerBlk, Geometry.FlashPgsPerBlk, Geometry.PgsPerLine;
    hide AllCleaned, AllErased, GoodSoFar;
    forall c | OnChip(g, c)
      ensures Rem(c.pg, g.fp) < g.fp && Quo(c.pg, g.fp) <= f
      ensures Slot(g, c) in es <==> c.ch == ch && c.lun == lun
    {
      FlashOfPage(g, c.pg);
      InBlockSlots(g, c, ch, lun);
    }
    forall k | k in es ensures k in AllCleaned(sched) && k !in AllErased(sched) {
      var pg :| 0 <= pg < g.PgsPerBlk() && Slot(g, Cursor(ch, lun, pg)) == k;
      assert OnChip(g, Cursor(ch, lun, pg));
    }
    Extend(g.PgsPerLine(), sched, Erase(es));
  }

  lemma ReachedVisit(g: Geometry, sched: seq<GcEvent>, f: nat, ch: nat, lun: nat)
    requires g.Valid() && Reached(g, sched, f, ch, lun, 0)
    requires f < g.FlashPgsPerBlk() && ch < g.nchs && lun < g.luns
    ensures Reached(g, sched + Visit(g, f, ch, lun), f, ch, lun + 1, 0)
  {
    hide Reached, Mix, Slot;
    var page := FlashPage(g, f, ch, lun, g.fp);
    ReachedFlashPage(g, sched, f, ch, lun, g.fp);
    if f + 1 == g.FlashPgsPerBlk() {
      ReachedErase(g, sched + page, f, ch, lun);
      assert sched + Visit(g, f, ch, lun) == (sched + page) + [Erase(BlockSlots(g, ch, lun))];
    } else {
      ReachedNext(g, sched + page, f, ch, lun);
      assert sched + Visit(g, f, ch, lun) == sched + page;
    }
  }

  lemma {:induction false} ReachedBefore(g: Geometry, f: nat, ch: nat, lun: nat)
    requires g.Valid()
    requires f <= g.FlashPgsPerBlk() && ch <= g.nchs && lun <= g.luns
    requires ch == g.nchs ==> lun == 0
    requires f == g.FlashPgsPerBlk() ==> ch == 0 && lun == 0
    ensures Reached(g, Before(g, f, ch, lun), f, ch, lun, 0)
    decreases f, ch, lun
  {
    hide Mix, Quo, Rem, Slot, Geometry.PgsPerBlk, Geometry.FlashPgsPerBlk, Geometry.PgsPerLine;
    hide AllCleaned, AllErased, GoodSoFar, Visit;
    if lun > 0 {
      ReachedBefore(g, f, ch, lun - 1);
      ReachedVisit(g, Before(g, f, ch, lun - 1), f, ch, lun - 1);
    } else if ch > 0 {
      ReachedBefore(g, f, ch - 1, g.luns);
    } else if f > 0 {
      ReachedBefore(g, f - 1, g.nchs, 0);
    } else {
      ReachedStart(g);
    }
  }

  lemma ReachedStart(g: Geometry)
    requires g.Valid()
    ensures Reached(g, [], 0, 0, 0, 0)
  {
    assert g.FlashPgsPerBlk() > 0 by {
      BlockPages(g);
      Positive(g);
    }
  }

  lemma Positive(g: Geometry)
    requires g.Valid()
    ensures g.PgsPerBlk() > 0 && g.PgsPerLine() > 0
  {
    ProductPositive(g.os, g.oneshots);
    ProductPositive(g.nchs, g.luns);
    ProductPositive(g.nchs * g.luns, g.PgsPerBlk());
  }

  /** The loops of do_gc clean every page of the victim exactly once, erase each block only after
      all its pages were cleaned, and erase every block. */
  lemma ScheduleIsGood(g: Geometry)
    requires g.Valid()
    ensures GoodSchedule(g.PgsPerLine(), Schedule(g))
  {
    var sched := Schedule(g);
    ReachedBefore(g, g.FlashPgsPerBlk(), 0, 0);
    forall k | 0 <= k < g.PgsPerLine() ensures k in Erased(sched, |sched|) {
      SlotAt(g, k);
    }
  }

  // ----- where the loops are in the schedule -----

  lemma {:induction false} FlashPageEvents(g: Geometry, f: nat, ch: nat, lun: nat, n: nat)
    requires g.os > 0
    ensures |FlashPage(g, f, ch, lun, n)| == n
    ensures forall m :: 0 <= m < n ==>
              FlashPage(g, f, ch, lun, n)[m] == Clean(Slot(g, Cursor(ch, lun, Mix(f, g.fp, m))))
  {
    if n > 0 {
      FlashPageEvents(g, f, ch, lun, n - 1);
    }
  }

  predicate NotAfter(f: nat, ch: nat, lun: nat, f2: nat, ch2: nat, lun2: nat) {
    f < f2 || (f == f2 && (ch < ch2 || (ch == ch2 && lun <= lun2)))
  }

  // What is done before a point is a prefix of what is done before a later point.
  lemma {:induction false} BeforePrefix(g: Geometry, f: nat, ch: nat, lun: nat, f2: nat, ch2: nat, lun2: nat)
    requires g.Valid() && lun <= g.luns && (ch < g.nchs || (ch == g.nchs && lun == 0))
    requires NotAfter(f, ch, lun, f2, ch2, lun2)
    ensures Before(g, f, ch, lun) <= Before(g, f2, ch2, lun2)
    decreases f2, ch2, lun2
  {
    if (f, ch, lun) != (f2, ch2, lun2) {
      if lun2 > 0 {
        BeforePrefix(g, f, ch, lun, f2, ch2, lun2 - 1);
      } else if ch2 > 0 {
        BeforePrefix(g, f, ch, lun, f2, ch2 - 1, g.luns);
      } else {
        BeforePrefix(g, f, ch, lun, f2 - 1, g.nchs, 0);
      }
    }
  }

  // The events of one visit, at their place in the schedule.
  ghost predicate VisitAt(g: Geometry, f: nat, ch: nat, lun: nat, i: nat)
    requires g.Valid()
  {
    var sched := Schedule(g);
    var last := f + 1 == g.FlashPgsPerBlk();
    && i + g.fp + (if last then 1 else 0) <= |sched|
    && (forall j :: i <= j < i + g.fp ==> sched[j] == Clean(Slot(g, Cursor(ch, lun, Mix(f, g.fp, j - i)))))
    && (last ==> sched[i + g.fp] == Erase(BlockSlots(g, ch, lun)))
    && |Before(g, f, ch, lun + 1)| == i + g.fp + (if last then 1 else 0)
  }

  lemma Visiting(g: Geometry, f: nat, ch: nat, lun: nat)
    requires g.Valid() && f < g.FlashPgsPerBlk() && ch < g.nchs && lun < g.luns
    ensures VisitAt(g, f, ch, lun, |Before(g, f, ch, lun)|)
  {
    var before, sched, visit := Before(g, f, ch, lun), Schedule(g), Visit(g, f, ch, lun);
    BeforePrefix(g, f, ch, lun + 1, g.FlashPgsPerBlk(), 0, 0);
    FlashPageEvents(g, f, ch, lun, g.fp);
    assert Before(g, f, ch, lun + 1) == before + visit;
    hide Slot, BlockSlots, Mix, Before, FlashPage, Geometry.FlashPgsPerBlk, Schedule;
    Within(before, visit, sched);
  }

  lemma Within(a: seq<GcEvent>, b: seq<GcEvent>, s: seq<GcEvent>)
    requires a + b <= s
    ensures |a| + |b| <= |s| && forall j :: |a| <= j < |a| + |b| ==> s[j] == b[j - |a|]
  {
    assert forall j :: 0 <= j < |a + b| ==> s[j] == (a + b)[j];
  }
}
