/**
 Whole runs. Whatever the host writes, a run that has not failed keeps the invariant, and the host
 reads the last value it wrote to each LPN. As long as it writes no more than Capacity LPNs, no
 write pointer ever finds the free list empty; module FtlLimit shows that this is the exact limit.
 */
module FtlRuns {
  import opened Wrappers
  import opened FtlModel
  import opened FtlInvariant
  import opened FtlSteps
  import opened FtlGc

  // How many LPNs can be mapped before a write pointer may find no free line: all lines but five, and
  // one page more where lines have one or two pages only.
  function Capacity(c: Config): int {
    (c.lines - 5) * c.ppl + if c.ppl <= 2 then 1 else 0
  }

  // How many can be mapped before the victim queue may run dry when do_gc is called.
  function VictimBound(c: Config): int {
    (c.lines - c.thres - 3) * c.ppl
  }

  /** Every page ever programmed was erased with its line or is still programmed; every erase is a
      collection (conv_ftl.c:1094-1104, 1134-1135, 1228, 1463). */
  ghost predicate Conserved(c: Config, s: Ftl) {
    && s.ct.hostWritten + s.ct.copied ==
         c.ppl * Sum(EraseCounts(s.sp)) + (c.lines * c.ppl - FreePages(c, s.sp))
    && Sum(EraseCounts(s.sp)) == s.ct.gcCount
  }

  /** What holds between two iterations of conv_write's loop in any run. */
  ghost predicate Sound(c: Config, s: Ftl) {
    && Inv(c, s, {}, {}) && Typed(s) && Conserved(c, s)
    && 0 < s.ct.credits && 0 <= s.ct.refill <= c.ppl
  }

  // The credits are covered by free pages beyond a reserve.
  ghost predicate Covered(c: Config, s: Ftl, reserve: int) {
    FreePages(c, s.sp) - s.ct.credits >= reserve
  }

  /** What holds as long as no more than Capacity LPNs are written: three lines' worth of pages stay
      free beyond the credits. */
  ghost predicate Safe(c: Config, s: Ftl) {
    Sound(c, s) && Covered(c, s, 3 * c.ppl)
  }

  // ----- a victim exists: pigeonhole on the injective map -----

  lemma {:induction false} ImageSize(a: set<Page>, f: map<Page, nat>)
    requires forall p :: p in a ==> p in f
    requires forall p, q :: p in a && q in a && p != q ==> f[p] != f[q]
    ensures |set p | p in a :: f[p]| == |a|
  {
    if a == {} {
      assert (set p | p in a :: f[p]) == {};
    } else {
      var x :| x in a;
      ImageSize(a - {x}, f);
      assert (set p | p in a :: f[p]) == (set p | p in a - {x} :: f[p]) + {f[x]};
    }
  }

  /** Between steps the reverse map is a bijection from PG_VALID pages to mapped LPNs. */
  lemma ValidAsManyAsMapped(c: Config, s: Ftl)
    requires Inv(c, s, {}, {})
    ensures |s.valid| == |s.maptbl.Keys|
  {
    ImageSize(s.valid, s.rmap);
    var lpns := set p | p in s.valid :: s.rmap[p];
    forall lpn | lpn in s.maptbl ensures lpn in lpns {
      assert s.rmap[s.maptbl[lpn]] == lpn;
    }
    assert lpns == s.maptbl.Keys;
  }

  function OnLines(pages: set<Page>, ls: set<nat>): set<Page> {
    set p | p in pages && p.line in ls
  }

  lemma OneMore(a: nat, n: nat)
    ensures a * n == (a - 1) * n + n
  {
  }

  lemma {:induction false} OnLinesSize(pages: set<Page>, ls: set<nat>, n: nat)
    requires forall l :: l in ls ==> |In(pages, l)| == n
    ensures |OnLines(pages, ls)| == |ls| * n
  {
    if ls == {} {
      assert OnLines(pages, ls) == {};
    } else {
      var l :| l in ls;
      OnLinesSize(pages, ls - {l}, n);
      assert OnLines(pages, ls) == OnLines(pages, ls - {l}) + In(pages, l);
      assert |ls - {l}| == |ls| - 1;
      OneMore(|ls|, n);
    }
  }

  function Elements(q: seq<nat>): set<nat> {
    set l | l in q
  }

  lemma {:induction false} ElementsSize(q: seq<nat>)
    requires NoDup(q)
    ensures |Elements(q)| == |q|
  {
    if q == [] {
      assert Elements(q) == {};
    } else {
      PopFront(q);
      ElementsSize(q[1..]);
      assert Elements(q) == Elements(q[1..]) + {q[0]};
    }
  }

  function Below(n: nat): (r: set<nat>)
    ensures forall l: nat :: l in r <==> l < n
    ensures |r| == n
  {
    if n == 0 then {} else Below(n - 1) + {n - 1}
  }

  // With no candidate every line is free, full or one of the three open ones.
  lemma FullCount(c: Config, sp: Space)
    requires Partition(c, sp, {}) && sp.victims == {}
    ensures |sp.full| + |sp.free| + 3 == c.lines
  {
    var f := Elements(sp.free);
    var open := {sp.user.line, sp.hot.line, sp.cold.line};
    ElementsSize(sp.free);
    assert Places(sp, {}, sp.user.line) == 1 && Places(sp, {}, sp.hot.line) == 1;
    forall l: nat
      ensures l < c.lines <==> l in sp.full || l in f || l in open
      ensures !(l in sp.full && l in f) && !(l in sp.full && l in open) && !(l in f && l in open)
    {
      if l < c.lines {
        assert Places(sp, {}, l) == 1;
      }
    }
    ThreeParts(sp.full, f, open, c.lines);
  }

  lemma ThreeParts(a: set<nat>, b: set<nat>, d: set<nat>, n: nat)
    requires forall l: nat :: l < n <==> l in a || l in b || l in d
    requires a !! b && a !! d && b !! d
    ensures |a| + |b| + |d| == n
  {
    assert Below(n) == a + b + d;
  }

  // A full line has pgs_per_line valid pages.
  lemma FullIsValid(c: Config, s: Ftl, l: nat)
    requires Inv(c, s, {}, {}) && l in s.sp.full
    ensures |In(s.valid, l)| == c.ppl
  {
    assert Places(s.sp, {}, l) == 1;
    assert Counted(s, l, Written(c, s.sp, l));
  }

  // The full lines hold no more valid pages than there are mapped LPNs.
  lemma FullLinesFit(c: Config, s: Ftl)
    requires Inv(c, s, {}, {})
    ensures |OnLines(s.valid, s.sp.full)| == |s.sp.full| * c.ppl <= |s.maptbl.Keys| == |s.valid|
  {
    forall l | l in s.sp.full ensures |In(s.valid, l)| == c.ppl {
      FullIsValid(c, s, l);
    }
    ValidAsManyAsMapped(c, s);
    hide Inv;
    OnLinesSize(s.valid, s.sp.full, c.ppl);
    Subset(OnLines(s.valid, s.sp.full), s.valid);
  }

  /** When at most gc_thres_lines_high lines are free and fewer than VictimBound LPNs are mapped, the
      victim queue is not empty, so do_gc never takes its early exit (conv_ftl.c:1223-1226). */
  lemma VictimExists(c: Config, s: Ftl)
    requires Inv(c, s, {}, {}) && 0 < c.ppl
    requires |s.sp.free| <= c.thres && |s.maptbl.Keys| < VictimBound(c)
    ensures s.sp.victims != {}
  {
    if s.sp.victims == {} {
      FullCount(c, s.sp);
      FullLinesFit(c, s);
      hide Inv;
      AtLeast(|s.sp.full|, c.lines - c.thres - 3, c.ppl);
      assert false;
    }
  }

  // The last page of the user's line is on no full line.
  lemma UserPageElsewhere(c: Config, s: Ftl)
    requires Inv(c, s, {}, {}) && LastValid(s) && s.sp.user.next != 0
    ensures |OnLines(s.valid, s.sp.full)| < |s.valid|
  {
    hide Accounts, Mapping;
    OpenPlace(c, s.sp, {}, UserIo);
    var p := Page(s.sp.user.line, s.sp.user.next - 1);
    Subset(OnLines(s.valid, s.sp.full) + {p}, s.valid);
  }

  // Without a candidate, and with no more LPNs mapped than all lines but five hold, at least two lines
  // are free, and a third one unless the user's line is fresh.
  lemma NoVictims(c: Config, s: Ftl)
    requires Inv(c, s, {}, {}) && 0 < c.ppl && s.sp.victims == {} && LastValid(s)
    requires |s.maptbl.Keys| <= (c.lines - 5) * c.ppl
    ensures |s.sp.free| >= 3 || (|s.sp.free| == 2 && s.sp.user.next == 0)
  {
    hide Partition, Accounts, Mapping, LastValid;
    FullLines(c, s);
    FullLinesFit(c, s);
    var full := |s.sp.full|;
    if s.sp.user.next != 0 {
      UserPageElsewhere(c, s);
    }
    if full >= c.lines - 4 {
      AtLeast(full, c.lines - 4, c.ppl);
      Distributed(c.lines - 5, 1, c.ppl);
    }
  }

  // The same for one LPN more, where lines have one or two pages.
  lemma NoVictimsSmall(c: Config, s: Ftl)
    requires Inv(c, s, {}, {}) && 0 < c.ppl <= 2 && s.sp.victims == {}
    requires |s.maptbl.Keys| <= (c.lines - 5) * c.ppl + 1
    ensures |s.sp.free| >= c.ppl
  {
    hide Inv;
    FullLines(c, s);
    FullLinesFit(c, s);
    FewSlots(|s.sp.full|, c.lines - 5, c.ppl);
  }

  lemma FewSlots(a: int, b: int, n: nat)
    requires 0 < n <= 2 && a * n <= b * n + 1
    ensures a + n <= b + 2
  {
    if n == 1 {
      assert a <= b + 1;
    } else {
      assert 2 * a <= 2 * b + 1;
    }
  }

  lemma FullLines(c: Config, s: Ftl)
    requires Inv(c, s, {}, {}) && s.sp.victims == {}
    ensures |s.sp.full| + |s.sp.free| + 3 == c.lines
  {
    FullCount(c, s.sp);
  }

  lemma Distributed(a: int, b: int, n: int)
    ensures (a + b) * n == a * n + b * n
  {
  }

  lemma AtLeast(a: int, b: int, n: nat)
    requires a >= b
    ensures a * n >= b * n
  {
  }

  // ----- one step -----

  lemma {:induction false} SumUpdate(q: seq<nat>, i: nat)
    requires i < |q|
    ensures Sum(q[i := q[i] + 1]) == Sum(q) + 1
  {
    if i < |q| - 1 {
      SumUpdate(q[..|q| - 1], i);
      assert q[i := q[i] + 1][..|q| - 1] == q[..|q| - 1][i := q[i] + 1];
    } else {
      assert q[i := q[i] + 1][..|q| - 1] == q[..|q| - 1];
    }
  }

  // A number of mapped LPNs and the reserve that it leaves: three lines' worth of pages up to
  // Capacity, the foreground threshold and three pages below VictimBound.
  predicate Leaves(c: Config, n: nat, reserve: int) {
    || (n <= Capacity(c) && reserve == 3 * c.ppl)
    || (n < VictimBound(c) && reserve == c.thres * c.ppl + 3)
  }

  lemma ReserveAtLeast(c: Config, n: nat, reserve: int)
    requires c.Valid() && Leaves(c, n, reserve)
    ensures reserve >= 3 * c.ppl
  {
    AtLeast(c.thres, 3, c.ppl);
  }

  // More free lines than the threshold are worth a line beyond the reserve.
  lemma FreeLinesFloor(c: Config, sp: Space, n: nat, reserve: int)
    requires c.Valid() && Leaves(c, n, reserve) && Partition(c, sp, {}) && |sp.free| > c.thres
    ensures FreePages(c, sp) >= reserve + c.ppl
  {
    AtLeast(|sp.free|, c.thres + 1, c.ppl);
    AtLeast(c.thres, 3, c.ppl);
    Distributed(c.thres, 1, c.ppl);
  }

  lemma SmallFloor(c: Config, s: Ftl)
    requires Inv(c, s, {}, {}) && 0 < c.ppl <= 2 && |s.sp.free| >= c.ppl
    ensures FreePages(c, s.sp) >= 3 * c.ppl + 1
  {
    assert c.ppl == 1 || c.ppl == 2;
  }

  // Without a candidate one page beyond the reserve is free.
  lemma NoVictimFloor(c: Config, s: Ftl, n: nat, reserve: int)
    requires c.Valid() && Leaves(c, n, reserve) && |s.maptbl.Keys| == n
    requires Inv(c, s, {}, {}) && LastValid(s) && s.sp.victims == {} && |s.sp.free| <= c.thres
    ensures FreePages(c, s.sp) >= reserve + 1
  {
    if n < VictimBound(c) && reserve == c.thres * c.ppl + 3 {
      VictimExists(c, s);
    } else if c.ppl <= 2 {
      NoVictimsSmall(c, s);
      SmallFloor(c, s);
    } else {
      NoVictims(c, s);
      AtLeast(|s.sp.free|, if s.sp.user.next == 0 then 2 else 3, c.ppl);
    }
  }

  // Two states that differ in the refill and the credits only.
  lemma Recredited(c: Config, s: Ftl, refill: int, credits: int)
    requires Inv(c, s, {}, {}) && Typed(s) && Conserved(c, s)
    ensures var t := s.(ct := s.ct.(refill := refill, credits := credits));
            && Inv(c, t, {}, {}) && Typed(t) && Conserved(c, t)
            && Host(t) == Host(s) && t.maptbl == s.maptbl && t.sp == s.sp
  {
    hide Inv, Typed, Host, FreePages, EraseCounts;
    CountersFrame(c, s, s.ct.(refill := refill, credits := credits), {}, {});
  }

  // The three outcomes of a refill that is due.
  lemma RefillCases(c: Config, s: Ftl, pick: Space -> nat, hot: Page -> bool)
    requires Typed(s) && Policy(pick) && s.ct.credits == 0
    ensures var v := pick(s.sp); var t := RefillCredits(c, s, pick, hot);
            if |s.sp.free| > c.thres then
              t == Some(s.(ct := s.ct.(credits := if s.ct.refill > 0 then s.ct.refill else 1)))
            else if s.sp.victims == {} then t == Some(s.(ct := s.ct.(refill := 0, credits := 1)))
            else
              && v in s.sp.victims && v < |s.sp.lines|
              && (t.Some? <==> Collect(c, s, v, hot).Some?)
              && (t.Some? ==>
                    var w := Collect(c, s, v, hot).value;
                    t.value == w.(ct := w.ct.(credits := if w.ct.refill > 0 then w.ct.credits + w.ct.refill else 1)))
  {
    hide Collect;
  }

  // A collection, and the credits for it.
  lemma CollectRefills(c: Config, s: Ftl, v: nat, hot: Page -> bool)
    requires c.Valid() && Inv(c, s, {}, {}) && Typed(s) && Conserved(c, s) && s.ct.credits == 0
    requires v in s.sp.victims && v < |s.sp.lines| && Collect(c, s, v, hot).Some?
    ensures var w := Collect(c, s, v, hot).value; var t := w.(ct := w.ct.(credits := w.ct.refill));
            && 0 < w.ct.refill && w.ct.credits == 0
            && Sound(c, t) && Host(t) == Host(s) && t.maptbl.Keys == s.maptbl.Keys
            && FreePages(c, t.sp) - t.ct.credits == FreePages(c, s.sp)
  {
    hide Inv, Typed, Host, FreePages, Conserved, EraseCounts, Collect;
    CollectKeeps(c, s, v, hot);
    var w := Collect(c, s, v, hot).value;
    CollectConserves(c, s, w, v, s.sp.lines[v].ipc);
    Recredited(c, w, w.ct.refill, w.ct.refill);
  }

  /** check_and_refill_write_credit, in any run: a refill that does not fail keeps the invariant and
      what the host reads, and leaves credits. */
  lemma RefillSound(c: Config, s: Ftl, pick: Space -> nat, hot: Page -> bool)
    requires c.Valid() && Policy(pick)
    requires Inv(c, s, {}, {}) && Typed(s) && Conserved(c, s)
    requires 0 <= s.ct.credits && 0 <= s.ct.refill <= c.ppl
    requires RefillCredits(c, s, pick, hot).Some?
    ensures var t := RefillCredits(c, s, pick, hot).value;
            Sound(c, t) && Host(t) == Host(s) && t.maptbl.Keys == s.maptbl.Keys
  {
    hide Inv, Typed, Host, FreePages, Conserved, EraseCounts, Collect, Policy, ForegroundGc;
    if s.ct.credits == 0 {
      RefillCases(c, s, pick, hot);
      Recredited(c, s, s.ct.refill, if s.ct.refill > 0 then s.ct.refill else 1);
      Recredited(c, s, 0, 1);
      if |s.sp.free| <= c.thres && s.sp.victims != {} {
        CollectRefills(c, s, pick(s.sp), hot);
      }
    }
  }

  /** With no more LPNs mapped than leave the reserve, a refill does not fail and the reserve stays:
      it has a line to spare, collects one and gains the credits it adds, or adds a single credit. */
  lemma RefillKeeps(c: Config, s: Ftl, pick: Space -> nat, hot: Page -> bool, reserve: int)
    requires c.Valid() && Policy(pick)
    requires Inv(c, s, {}, {}) && Typed(s) && Conserved(c, s) && LastValid(s)
    requires 0 <= s.ct.credits && 0 <= s.ct.refill <= c.ppl
    requires Covered(c, s, reserve) && Leaves(c, |s.maptbl.Keys|, reserve)
    ensures RefillCredits(c, s, pick, hot).Some?
    ensures Covered(c, RefillCredits(c, s, pick, hot).value, reserve)
  {
    hide Inv, Typed, Host, FreePages, Conserved, EraseCounts, Collect, Policy, ForegroundGc, Leaves, LastValid;
    if s.ct.credits == 0 {
      RefillCases(c, s, pick, hot);
      InvPartition(c, s, {}, {});
      if |s.sp.free| > c.thres {
        FreeLinesFloor(c, s.sp, |s.maptbl.Keys|, reserve);
      } else if s.sp.victims == {} {
        NoVictimFloor(c, s, |s.maptbl.Keys|, reserve);
      } else {
        ReserveAtLeast(c, |s.maptbl.Keys|, reserve);
        CollectSucceeds(c, s, pick(s.sp), hot);
        CollectRefills(c, s, pick(s.sp), hot);
      }
    }
  }

  // The arithmetic of a collection: what conservation loses in free pages it gains in erases.
  lemma CollectConserves(c: Config, s: Ftl, t: Ftl, v: nat, ipc: int)
    requires Conserved(c, s) && v < |s.sp.lines| && 0 <= ipc <= c.ppl
    requires FreePages(c, t.sp) == FreePages(c, s.sp) + ipc
    requires t.ct.hostWritten == s.ct.hostWritten && t.ct.copied == s.ct.copied + (c.ppl - ipc)
    requires t.ct.gcCount == s.ct.gcCount + 1
    requires EraseCounts(t.sp) == EraseCounts(s.sp)[v := s.sp.lines[v].eraseCnt + 1]
    ensures Conserved(c, t)
  {
    SumUpdate(EraseCounts(s.sp), v);
    OneMore(Sum(EraseCounts(s.sp)) + 1, c.ppl);
  }

  // The first half of an iteration: the page stored and a credit consumed.
  lemma StoreSound(c: Config, s: Ftl, lpn: nat, v: Payload)
    requires c.Valid() && Sound(c, s) && HostWrite(c, s, lpn, v).Some?
    ensures var t := HostWrite(c, s, lpn, v).value; var u := t.(ct := t.ct.(credits := t.ct.credits - 1));
            && Inv(c, u, {}, {}) && Typed(u) && Conserved(c, u) && LastValid(u)
            && u.ct.credits == s.ct.credits - 1 && u.ct.refill == s.ct.refill
            && Host(u) == Host(s)[lpn := v] && u.maptbl.Keys == s.maptbl.Keys + {lpn}
            && FreePages(c, u.sp) == FreePages(c, s.sp) - 1 && EraseCounts(u.sp) == EraseCounts(s.sp)
  {
    hide Inv, Typed, Host, Room, FreePages, HostWrite, EraseCounts;
    InvPartition(c, s, {}, {});
    HostWriteSome(c, s, lpn, v);
    HostWriteKeeps(c, s, lpn, v);
    JustWritten(c, s, lpn, v);
    var t := HostWrite(c, s, lpn, v).value;
    CountersFrame(c, t, t.ct.(credits := t.ct.credits - 1), {}, {});
  }

  /** One iteration of conv_write's loop, in any run: unless it fails it keeps the invariant, and the
      host reads v at this LPN and what it read before elsewhere. */
  lemma WriteStepSound(c: Config, s: Ftl, q: Request)
    requires c.Valid() && Sound(c, s) && Admissible(c, q) && WriteStep(c, s, q).Some?
    ensures var t := WriteStep(c, s, q).value;
            Sound(c, t) && Host(t) == Host(s)[q.lpn := q.v] && t.maptbl.Keys == s.maptbl.Keys + {q.lpn}
  {
    hide Inv, Typed, Host, FreePages, Conserved, RefillCredits, HostWrite, EraseCounts, Policy, LastValid;
    StoreSound(c, s, q.lpn, q.v);
    var t := HostWrite(c, s, q.lpn, q.v).value;
    RefillSound(c, t.(ct := t.ct.(credits := t.ct.credits - 1)), q.pick, q.hot);
  }

  /** One iteration with no more LPNs mapped than leave the reserve: no write pointer runs out of
      lines, and the reserve stays. */
  lemma WriteStepKeeps(c: Config, s: Ftl, q: Request, reserve: int)
    requires c.Valid() && Sound(c, s) && Admissible(c, q)
    requires Covered(c, s, reserve) && Leaves(c, |s.maptbl.Keys + {q.lpn}|, reserve)
    ensures WriteStep(c, s, q).Some?
    ensures var t := WriteStep(c, s, q).value;
            && Sound(c, t) && Covered(c, t, reserve)
            && Host(t) == Host(s)[q.lpn := q.v] && t.maptbl.Keys == s.maptbl.Keys + {q.lpn}
  {
    hide Inv, Typed, Host, FreePages, Conserved, RefillCredits, HostWrite, EraseCounts, Policy, LastValid, Room, Leaves;
    ReserveAtLeast(c, |s.maptbl.Keys + {q.lpn}|, reserve);
    UserRoom(c, s);
    InvPartition(c, s, {}, {});
    HostWriteSome(c, s, q.lpn, q.v);
    StoreSound(c, s, q.lpn, q.v);
    var t := HostWrite(c, s, q.lpn, q.v).value;
    RefillKeeps(c, t.(ct := t.ct.(credits := t.ct.credits - 1)), q.pick, q.hot, reserve);
    WriteStepSound(c, s, q);
  }

  /** The same for a safe state. */
  lemma SafeStep(c: Config, s: Ftl, q: Request)
    requires c.Valid() && Safe(c, s) && Admissible(c, q)
    requires |s.maptbl.Keys + {q.lpn}| <= Capacity(c)
    ensures WriteStep(c, s, q).Some?
    ensures var t := WriteStep(c, s, q).value;
            Safe(c, t) && Host(t) == Host(s)[q.lpn := q.v] && t.maptbl.Keys == s.maptbl.Keys + {q.lpn}
  {
    hide Sound, Covered, WriteStep, Capacity, Host;
    WriteStepKeeps(c, s, q, 3 * c.ppl);
  }

  lemma UserRoom(c: Config, s: Ftl)
    requires Inv(c, s, {}, {}) && FreePages(c, s.sp) >= 2 * c.ppl + 2
    ensures Room(c, s.sp, UserIo)
  {
    EnoughRoom(c, s.sp, {}, UserIo);
  }

  // After the page is stored and a credit consumed there is room for a collection.
  lemma AfterWrite(c: Config, s: Ftl, lpn: nat, v: Payload)
    requires c.Valid() && Safe(c, s)
    ensures Inv(c, s, {}, {}) && Typed(s) && Room(c, s.sp, UserIo)
    ensures HostWrite(c, s, lpn, v).Some?
    ensures var t := HostWrite(c, s, lpn, v).value;
            var u := t.(ct := t.ct.(credits := t.ct.credits - 1));
            && Inv(c, u, {}, {}) && Typed(u) && FreePages(c, u.sp) >= 3 * c.ppl
            && Sum(EraseCounts(u.sp)) == u.ct.gcCount == s.ct.gcCount
            && EraseCounts(u.sp) == EraseCounts(s.sp)
  {
    hide Inv, Typed, Host, Room, FreePages, HostWrite, EraseCounts, LastValid;
    UserRoom(c, s);
    InvPartition(c, s, {}, {});
    HostWriteSome(c, s, lpn, v);
    StoreSound(c, s, lpn, v);
  }

  // One iteration of conv_write's loop as a relation between states.
  ghost predicate Steps(c: Config, s: Ftl, q: Request, t: Ftl) {
    Typed(s) && Admissible(c, q) && WriteStep(c, s, q) == Some(t)
  }

  // Its first half: the page stored and one credit consumed.
  ghost predicate Stored(c: Config, s: Ftl, lpn: nat, v: Payload, u: Ftl) {
    && Typed(s) && HostWrite(c, s, lpn, v).Some?
    && var t := HostWrite(c, s, lpn, v).value; u == t.(ct := t.ct.(credits := t.ct.credits - 1))
  }

  // Its second half.
  ghost predicate Refilled(c: Config, u: Ftl, pick: Space -> nat, hot: Page -> bool, t: Ftl) {
    Typed(u) && Policy(pick) && RefillCredits(c, u, pick, hot) == Some(t)
  }

  // foreground_gc as a relation.
  ghost predicate Reclaimed(c: Config, u: Ftl, pick: Space -> nat, hot: Page -> bool, t: Ftl) {
    Typed(u) && Policy(pick) && ForegroundGc(c, u, pick, hot) == Some(t)
  }

  // The credits added after foreground_gc, at least one of them.
  function Credited(t: Ftl): Ftl {
    t.(ct := t.ct.(credits := if t.ct.refill > 0 then t.ct.credits + t.ct.refill else 1))
  }

  lemma RefillIs(c: Config, u: Ftl, pick: Space -> nat, hot: Page -> bool, w: Ftl)
    requires u.ct.credits <= 0 && Reclaimed(c, u, pick, hot, w)
    ensures Refilled(c, u, pick, hot, Credited(w))
  {
  }

  lemma NoRefill(c: Config, u: Ftl, hot: Page -> bool)
    requires Typed(u) && u.ct.credits > 0
    ensures Refilled(c, u, Chosen(0), hot, u)
  {
    ChosenPolicy(0);
  }

  lemma WriteStepIs(c: Config, s: Ftl, q: Request, u: Ftl, t: Ftl)
    requires Stored(c, s, q.lpn, q.v, u) && Refilled(c, u, q.pick, q.hot, t) && q.lpn < c.lpns
    ensures Steps(c, s, q, t)
  {
  }

  // No line was erased more often than lines were collected.
  lemma ErasesBelowGcCount(s: Ftl, n: nat)
    requires Sum(EraseCounts(s.sp)) == s.ct.gcCount < n
    ensures forall l :: 0 <= l < |s.sp.lines| ==> s.sp.lines[l].eraseCnt < n
  {
    forall l | 0 <= l < |s.sp.lines| ensures s.sp.lines[l].eraseCnt < n {
      SumBound(EraseCounts(s.sp), l);
    }
  }

  // A line has no more valid pages than it has pages.
  lemma ValidAtMostLine(c: Config, s: Ftl)
    requires Inv(c, s, {}, {})
    ensures |s.sp.lines| == c.lines && forall l :: 0 <= l < c.lines ==> s.sp.lines[l].vpc <= c.ppl
  {
    hide Mapping, Places;
    forall l | 0 <= l < c.lines ensures s.sp.lines[l].vpc <= c.ppl {
      assert Counted(s, l, Written(c, s.sp, l));
    }
  }

  lemma TwoLines(c: Config, s: Ftl)
    requires Inv(c, s, {}, {})
    ensures 2 <= c.lines == |s.sp.lines|
  {
    hide Accounts, Mapping;
    assert Places(s.sp, {}, s.sp.user.line) == 1;
  }

  // One iteration collects at most one line.
  lemma {:induction false} GcRunCount(c: Config, s: Ftl, v: nat, hot: Page -> bool, i: nat)
    requires Typed(s) && i <= |c.schedule| && GcRun(c, s, v, hot, i).Some?
    ensures GcRun(c, s, v, hot, i).value.ct.gcCount == s.ct.gcCount
  {
    hide Typed, Advance;
    if i > 0 {
      GcRunCount(c, s, v, hot, i - 1);
    }
  }

  lemma CollectCount(c: Config, s: Ftl, v: nat, hot: Page -> bool)
    requires Typed(s) && v < |s.sp.lines| && Collect(c, s, v, hot).Some?
    ensures Collect(c, s, v, hot).value.ct.gcCount == s.ct.gcCount + 1
  {
    hide Typed, GcRun;
    GcRunCount(c, TakeVictim(s, v), v, hot, |c.schedule|);
  }

  lemma WriteCount(c: Config, s: Ftl, lpn: nat, v: Payload)
    requires Typed(s) && HostWrite(c, s, lpn, v).Some?
    ensures var t := HostWrite(c, s, lpn, v).value; t.ct.gcCount == s.ct.gcCount && t.ct.copied == s.ct.copied
  {
    hide Typed, Advance;
  }

  lemma StoredCount(c: Config, s: Ftl, lpn: nat, v: Payload, u: Ftl)
    requires Stored(c, s, lpn, v, u)
    ensures u.ct.gcCount == s.ct.gcCount && u.ct.copied == s.ct.copied
  {
    hide Typed, HostWrite;
    WriteCount(c, s, lpn, v);
  }

  lemma OneGcAtMost(c: Config, s: Ftl, q: Request, t: Ftl)
    requires Steps(c, s, q, t)
    ensures t.ct.gcCount <= s.ct.gcCount + 1
  {
    hide HostWrite, Collect;
    WriteCount(c, s, q.lpn, q.v);
    var w := HostWrite(c, s, q.lpn, q.v).value;
    var u := w.(ct := w.ct.(credits := w.ct.credits - 1));
    if u.ct.credits <= 0 && |u.sp.free| <= c.thres && u.sp.victims != {} {
      CollectCount(c, u, q.pick(u.sp), q.hot);
    }
  }
  // ----- the free list is a queue -----

  // What is left of a list after some of its first elements were taken.
  ghost predicate Drawn(before: seq<nat>, after: seq<nat>) {
    |after| <= |before| && after == before[|before| - |after|..]
  }

  lemma AdvanceDraws(c: Config, sp: Space, st: Stream)
    requires TypedSpace(sp) && Advance(c, sp, st).Some?
    ensures Drawn(sp.free, Advance(c, sp, st).value.free)
  {
  }

  lemma DrawnTwice(a: seq<nat>, b: seq<nat>, d: seq<nat>)
    requires Drawn(a, b) && Drawn(b, d)
    ensures Drawn(a, d)
  {
  }

  lemma AppendDraws(c: Config, s: Ftl, st: Stream, lpn: nat, v: Payload)
    requires Typed(s) && Append(c, s, st, lpn, v).Some?
    ensures Drawn(s.sp.free, Append(c, s, st, lpn, v).value.sp.free)
  {
    hide Advance, Drawn;
    AdvanceDraws(c, CountValid(s.sp, s.sp.Open(st).line), st);
  }

  lemma {:induction false} GcRunDraws(c: Config, s: Ftl, v: nat, hot: Page -> bool, i: nat)
    requires Typed(s) && i <= |c.schedule| && GcRun(c, s, v, hot, i).Some?
    ensures Drawn(s.sp.free, GcRun(c, s, v, hot, i).value.sp.free)
  {
    hide Typed, GcStep, Drawn;
    if i == 0 {
      NoneDrawn(s.sp.free);
    } else {
      GcRunDraws(c, s, v, hot, i - 1);
      var t := GcRun(c, s, v, hot, i - 1).value;
      GcStepDraws(c, t, v, hot, c.schedule[i - 1]);
      DrawnTwice(s.sp.free, t.sp.free, GcRun(c, s, v, hot, i).value.sp.free);
    }
  }

  lemma NoneDrawn(free: seq<nat>)
    ensures Drawn(free, free)
  {
  }

  lemma GcStepDraws(c: Config, t: Ftl, v: nat, hot: Page -> bool, e: GcEvent)
    requires Typed(t) && GcStep(c, t, v, hot, e).Some?
    ensures Drawn(t.sp.free, GcStep(c, t, v, hot, e).value.sp.free)
  {
    hide Append, Drawn;
    NoneDrawn(t.sp.free);
    if e.Clean? && Page(v, e.slot) in t.valid {
      var p, t1 := Page(v, e.slot), t.(ct := t.ct.(copied := t.ct.copied + 1));
      AppendDraws(c, t1, if hot(p) then GcHot else GcCold, t.rmap[p], t.data[p]);
    }
  }

  lemma CollectDraws(c: Config, s: Ftl, v: nat, hot: Page -> bool)
    requires Typed(s) && v < |s.sp.lines| && Collect(c, s, v, hot).Some?
    ensures var free := Collect(c, s, v, hot).value.sp.free;
            free != [] && free[|free| - 1] == v && Drawn(s.sp.free, free[..|free| - 1])
  {
    hide Typed, GcRun, Drawn;
    GcRunDraws(c, TakeVictim(s, v), v, hot, |c.schedule|);
    var t := GcRun(c, TakeVictim(s, v), v, hot, |c.schedule|).value;
    assert (t.sp.free + [v])[..|t.sp.free|] == t.sp.free;
  }

  lemma WriteDraws(c: Config, s: Ftl, lpn: nat, v: Payload)
    requires Typed(s) && HostWrite(c, s, lpn, v).Some?
    ensures Drawn(s.sp.free, HostWrite(c, s, lpn, v).value.sp.free)
  {
    hide Append, Drawn;
    var s1 := if lpn in s.maptbl then Invalidate(c, s, s.maptbl[lpn]) else s;
    assert s1.sp.free == s.sp.free;
    AppendDraws(c, s1.(ct := s1.ct.(hostWritten := s1.ct.hostWritten + 1)), UserIo, lpn, v);
  }

  /** The free list is a queue: an iteration opens lines from its front, and the line that it collects, if it
      does, goes to its end. */
  lemma FreeListIsQueue(c: Config, s: Ftl, q: Request, t: Ftl)
    requires Steps(c, s, q, t)
    ensures if t.ct.gcCount == s.ct.gcCount then Drawn(s.sp.free, t.sp.free)
            else
              && t.sp.free != [] && Drawn(s.sp.free, t.sp.free[..|t.sp.free| - 1])
              && t.sp.free[|t.sp.free| - 1] < |t.sp.lines|
  {
    hide HostWrite, Collect, Drawn;
    WriteCount(c, s, q.lpn, q.v);
    WriteDraws(c, s, q.lpn, q.v);
    var w := HostWrite(c, s, q.lpn, q.v).value;
    var u := w.(ct := w.ct.(credits := w.ct.credits - 1));
    if u.ct.credits <= 0 && |u.sp.free| <= c.thres && u.sp.victims != {} {
      var v := q.pick(u.sp);
      CollectCount(c, u, v, q.hot);
      CollectDraws(c, u, v, q.hot);
      DrawnTwice(s.sp.free, u.sp.free, t.sp.free[..|t.sp.free| - 1]);
    }
  }

  // ----- whole runs -----

  // The state after conv_init_ftl and the given host writes.
  function Run(c: Config, reqs: seq<Request>): (r: Option<Ftl>)
    requires c.Valid() && forall i :: 0 <= i < |reqs| ==> Admissible(c, reqs[i])
    ensures r.Some? ==> Typed(r.value)
  {
    if reqs == [] then Some(Init(c))
    else match Run(c, reqs[..|reqs| - 1])
      case None => None
      case Some(s) => WriteStep(c, s, reqs[|reqs| - 1])
  }

  // The last value written to each LPN.
  function LastWrites(reqs: seq<Request>): map<nat, Payload> {
    if reqs == [] then map[]
    else LastWrites(reqs[..|reqs| - 1])[reqs[|reqs| - 1].lpn := reqs[|reqs| - 1].v]
  }

  // The LPNs written.
  function Touched(reqs: seq<Request>): set<nat> {
    set i | 0 <= i < |reqs| :: reqs[i].lpn
  }

  lemma InitFree(c: Config)
    requires c.Valid()
    ensures FreePages(c, Init(c).sp) == c.lines * c.ppl
  {
    assert |Init(c).sp.free| * c.ppl + 3 * c.ppl == c.lines * c.ppl;
  }

  lemma InitPlaces(c: Config)
    requires c.Valid()
    ensures Partition(c, Init(c).sp, {})
    ensures forall l :: 0 <= l < c.lines ==> Written(c, Init(c).sp, l) == 0
  {
    var sp := Init(c).sp;
    forall l | 0 <= l < c.lines ensures Places(sp, {}, l) == 1 && Written(c, sp, l) == 0 {
      assert l >= 3 ==> sp.free[l - 3] == l;
    }
  }

  lemma InitInv(c: Config)
    requires c.Valid()
    ensures Inv(c, Init(c), {}, {}) && Typed(Init(c)) && Host(Init(c)) == map[]
  {
    hide Partition, Written, GoodSchedule;
    var s := Init(c);
    InitPlaces(c);
    forall l | 0 <= l < c.lines ensures Counted(s, l, 0) {
      assert In(s.valid, l) == {} && In(s.invalid, l) == {};
    }
    InitTyped(c);
  }

  lemma InitTyped(c: Config)
    requires c.Valid()
    ensures Typed(Init(c))
  {
    hide GoodSchedule;
  }

  /** conv_init_ftl leaves a safe state with nothing mapped. */
  lemma InitSafe(c: Config)
    requires c.Valid()
    ensures Safe(c, Init(c)) && Host(Init(c)) == map[] && Covered(c, Init(c), c.thres * c.ppl + 3)
  {
    hide Inv, Typed, Host, GoodSchedule, FreePages;
    InitInv(c);
    InitFree(c);
    SumZeros(EraseCounts(Init(c).sp));
    AtLeast(c.lines, c.thres + 4, c.ppl);
    AtLeast(c.thres, 3, c.ppl);
    Distributed(c.thres, 4, c.ppl);
  }

  lemma TouchedLess(reqs: seq<Request>)
    requires reqs != []
    ensures Touched(reqs) == Touched(reqs[..|reqs| - 1]) + {reqs[|reqs| - 1].lpn}
  {
    var n := |reqs| - 1;
    forall x | x in Touched(reqs) ensures x in Touched(reqs[..n]) + {reqs[n].lpn} {
      var i :| 0 <= i < |reqs| && reqs[i].lpn == x;
      assert i < n ==> reqs[..n][i].lpn == x;
    }
    forall x | x in Touched(reqs[..n]) ensures x in Touched(reqs) {
      var i :| 0 <= i < n && reqs[..n][i].lpn == x;
      assert reqs[i].lpn == x;
    }
    assert reqs[n].lpn in Touched(reqs);
  }

  /** A run that has not failed keeps the invariant, whatever it writes, and the host reads exactly
      the last value it wrote to each LPN. */
  lemma {:induction false} RunSound(c: Config, reqs: seq<Request>)
    requires c.Valid() && forall i :: 0 <= i < |reqs| ==> Admissible(c, reqs[i])
    requires Run(c, reqs).Some?
    ensures var s := Run(c, reqs).value;
            Sound(c, s) && Host(s) == LastWrites(reqs) && s.maptbl.Keys == Touched(reqs)
  {
    hide Sound, Host, WriteStep, Touched, Covered;
    if reqs == [] {
      InitSafe(c);
      NothingTouched();
    } else {
      TouchedLess(reqs);
      RunSound(c, reqs[..|reqs| - 1]);
      WriteStepSound(c, Run(c, reqs[..|reqs| - 1]).value, reqs[|reqs| - 1]);
    }
  }

  lemma FewerLeave(c: Config, m: nat, n: nat, reserve: int)
    requires m <= n && Leaves(c, n, reserve)
    ensures Leaves(c, m, reserve)
  {
  }

  /** A run over no more LPNs than leave a reserve does not fail, and keeps the reserve. */
  lemma {:induction false} RunKeeps(c: Config, reqs: seq<Request>, reserve: int)
    requires c.Valid() && forall i :: 0 <= i < |reqs| ==> Admissible(c, reqs[i])
    requires Leaves(c, |Touched(reqs)|, reserve)
    ensures Run(c, reqs).Some? && Covered(c, Run(c, reqs).value, reserve)
  {
    hide Sound, Host, WriteStep, Touched, Covered, Leaves;
    if reqs == [] {
      InitCovered(c, |Touched(reqs)|, reserve);
    } else {
      var pre := reqs[..|reqs| - 1];
      TouchedLess(reqs);
      Subset(Touched(pre), Touched(reqs));
      FewerLeave(c, |Touched(pre)|, |Touched(reqs)|, reserve);
      RunKeeps(c, pre, reserve);
      RunSound(c, pre);
      WriteStepKeeps(c, Run(c, pre).value, reqs[|reqs| - 1], reserve);
    }
  }

  lemma InitCovered(c: Config, n: nat, reserve: int)
    requires c.Valid() && Leaves(c, n, reserve)
    ensures Covered(c, Init(c), reserve)
  {
    hide Sound, Host, FreePages;
    InitSafe(c);
  }

  /** No run of host writes over at most Capacity LPNs, in any order, with any victim policy and any
      hot/cold routing, ever finds the free list empty; every state along the way is safe; and in the
      end the host reads exactly the last value it wrote to each LPN. */
  lemma NeverOutOfLines(c: Config, reqs: seq<Request>)
    requires c.Valid() && forall i :: 0 <= i < |reqs| ==> Admissible(c, reqs[i])
    requires |Touched(reqs)| <= Capacity(c)
    ensures Run(c, reqs).Some?
    ensures var s := Run(c, reqs).value;
            Safe(c, s) && Host(s) == LastWrites(reqs) && s.maptbl.Keys == Touched(reqs)
  {
    hide Sound, Host, Run, Touched, Covered, Capacity;
    RunKeeps(c, reqs, 3 * c.ppl);
    RunSound(c, reqs);
  }

  /** Over fewer than VictimBound LPNs the free pages exceed the write credits by more than the
      foreground threshold, and do_gc always finds a candidate. */
  lemma ReserveHolds(c: Config, reqs: seq<Request>)
    requires c.Valid() && forall i :: 0 <= i < |reqs| ==> Admissible(c, reqs[i])
    requires |Touched(reqs)| < VictimBound(c)
    ensures Run(c, reqs).Some?
    ensures var s := Run(c, reqs).value;
            && FreePages(c, s.sp) - s.ct.credits >= c.thres * c.ppl + 3
            && (|s.sp.free| <= c.thres ==> s.sp.victims != {})
  {
    hide Host, Run, Touched, VictimBound, Inv, Typed, Conserved, FreePages;
    RunKeeps(c, reqs, c.thres * c.ppl + 3);
    RunSound(c, reqs);
    var s := Run(c, reqs).value;
    if |s.sp.free| <= c.thres {
      VictimExists(c, s);
    }
  }

  lemma NothingTouched()
    ensures Touched([]) == {}
  {
  }

  // ----- what every reachable state looks like -----

  /** In every reachable state the forward and the reverse map are mutual inverses over live data:
      each mapped LPN points to a PG_VALID page that points back, each PG_VALID page belongs to one
      mapped LPN, no two LPNs share a page, and there are as many mapped LPNs as valid pages. */
  lemma MapsAreInverse(c: Config, reqs: seq<Request>)
    requires c.Valid() && forall i :: 0 <= i < |reqs| ==> Admissible(c, reqs[i])
    requires Run(c, reqs).Some?
    ensures var s := Run(c, reqs).value;
            && (forall lpn :: lpn in s.maptbl ==>
                  s.maptbl[lpn] in s.valid && s.maptbl[lpn] in s.rmap && s.rmap[s.maptbl[lpn]] == lpn
                  && s.maptbl[lpn].line < c.lines && s.maptbl[lpn].slot < c.ppl)
            && (forall p :: p in s.valid ==> p in s.rmap && s.rmap[p] in s.maptbl && s.maptbl[s.rmap[p]] == p)
            && (forall a, b :: a in s.maptbl && b in s.maptbl && s.maptbl[a] == s.maptbl[b] ==> a == b)
            && |s.maptbl.Keys| == |s.valid|
  {
    hide Run, Partition, Conserved, Touched, Admissible, Config.Valid;
    RunSound(c, reqs);
    var s := Run(c, reqs).value;
    ValidAsManyAsMapped(c, s);
    forall a, b | a in s.maptbl && b in s.maptbl && s.maptbl[a] == s.maptbl[b] ensures a == b {
      assert s.rmap[s.maptbl[a]] == a && s.rmap[s.maptbl[b]] == b;
    }
  }

  /** In every reachable state every line is in exactly one place: free, full, a victim candidate, or
      open for one stream. A closed line's counters add up to pgs_per_line; a full line is the one
      without invalid pages. */
  lemma LinesArePartitioned(c: Config, reqs: seq<Request>, l: nat)
    requires c.Valid() && forall i :: 0 <= i < |reqs| ==> Admissible(c, reqs[i])
    requires Run(c, reqs).Some? && l < c.lines
    ensures var s := Run(c, reqs).value; var sp := s.sp;
            && |sp.lines| == c.lines
            && Bit(l in sp.free) + Bit(l in sp.full) + Bit(l in sp.victims)
               + Bit(l == sp.user.line) + Bit(l == sp.hot.line) + Bit(l == sp.cold.line) == 1
            && sp.lines[l].vpc == |In(s.valid, l)| && sp.lines[l].ipc == |In(s.invalid, l)|
            && (l in sp.full || l in sp.victims ==> sp.lines[l].vpc + sp.lines[l].ipc == c.ppl)
            && (l in sp.full ==> sp.lines[l].ipc == 0) && (l in sp.victims ==> sp.lines[l].ipc > 0)
  {
    hide Run, Mapping, Conserved, Touched, Admissible, Config.Valid;
    RunSound(c, reqs);
    var s := Run(c, reqs).value;
    assert Places(s.sp, {}, l) == 1;
    assert Counted(s, l, Written(c, s.sp, l));
  }

  /** In every reachable state pages are conserved: what host and collection wrote is what was erased
      with its line or is still programmed, and every erase was a collection. */
  lemma PagesAreConserved(c: Config, reqs: seq<Request>)
    requires c.Valid() && forall i :: 0 <= i < |reqs| ==> Admissible(c, reqs[i])
    requires Run(c, reqs).Some?
    ensures var s := Run(c, reqs).value;
            && s.ct.hostWritten + s.ct.copied ==
                 c.ppl * Sum(EraseCounts(s.sp)) + (c.lines * c.ppl - FreePages(c, s.sp))
            && Sum(EraseCounts(s.sp)) == s.ct.gcCount
  {
    hide Run, Inv, Typed, Touched, Admissible, Config.Valid, FreePages;
    RunSound(c, reqs);
  }

  /** A collection copies fewer pages than a line has. */
  lemma CopiesLessThanALine(c: Config, s: Ftl, v: nat, hot: Page -> bool)
    requires GoodSchedule(c.ppl, c.schedule) && Inv(c, s, {}, {}) && Typed(s) && v in s.sp.victims
    requires v < |s.sp.lines| && Collect(c, s, v, hot).Some?
    ensures s.ct.copied <= Collect(c, s, v, hot).value.ct.copied < s.ct.copied + c.ppl
  {
    hide Inv, Typed, Collect, GoodSchedule, FreePages;
    CollectKeeps(c, s, v, hot);
  }
}
