/**
 How the tables of the driver, which are indexed by physical page addresses and linear page
 indices, represent the maps and sets of FtlModel.
 */
module FtlView {
  import opened Wrappers
  import opened FtlModel
  import opened Arith
  import opened Geometry

  datatype PgStatus = PgFree | PgInvalid | PgValid

  // struct ppa with pl = 0: the line (field blk) and the page in it.
  datatype Ppa = Ppa(blk: nat, c: Cursor)

  predicate ValidPpa(g: Geometry, p: Ppa) {
    p.blk < g.blks && OnChip(g, p.c)
  }

  predicate ValidPage(g: Geometry, p: Page) {
    p.line < g.blks && p.slot < g.PgsPerLine()
  }

  function TtPgs(g: Geometry): nat {
    g.nchs * g.luns * g.blks * g.PgsPerBlk()
  }

  /** ppa2pgidx (conv_ftl.c:181-190): ch * pgs_per_ch + lun * pgs_per_lun + blk * pgs_per_blk + pg,
      as digits. */
  function PgIdx(g: Geometry, p: Ppa): nat {
    Mix(Mix(Mix(p.c.ch, g.luns, p.c.lun), g.blks, p.blk), g.PgsPerBlk(), p.c.pg)
  }

  function PageOf(g: Geometry, p: Ppa): Page
    requires g.os > 0
  {
    Page(p.blk, Slot(g, p.c))
  }

  function PpaOf(g: Geometry, p: Page): Ppa
    requires g.Valid()
  {
    Ppa(p.line, At(g, p.slot))
  }

  // The linear index of a page.
  function Idx(g: Geometry, p: Page): nat
    requires g.Valid()
  {
    PgIdx(g, PpaOf(g, p))
  }

  lemma PpaPage(g: Geometry, p: Ppa)
    requires g.Valid() && ValidPpa(g, p)
    ensures ValidPage(g, PageOf(g, p)) && PpaOf(g, PageOf(g, p)) == p
    ensures Idx(g, PageOf(g, p)) == PgIdx(g, p)
  {
    SlotBound(g, p.c);
    AtSlot(g, p.c);
  }

  lemma PagePpa(g: Geometry, p: Page)
    requires g.Valid() && ValidPage(g, p)
    ensures ValidPpa(g, PpaOf(g, p)) && PageOf(g, PpaOf(g, p)) == p
  {
    SlotAt(g, p.slot);
  }

  /** The index in the products that ssd_init_params computes (ssd.c:199-208). */
  lemma PgIdxFormula(g: Geometry, p: Ppa)
    ensures var pgsPerLun := g.PgsPerBlk() * g.blks; var pgsPerCh := pgsPerLun * g.luns;
            && PgIdx(g, p) == p.c.ch * pgsPerCh + p.c.lun * pgsPerLun + p.blk * g.PgsPerBlk() + p.c.pg
            && TtPgs(g) == pgsPerCh * g.nchs
  {
    hide Mix;
    var n := g.PgsPerBlk();
    MixIs(p.c.ch, g.luns, p.c.lun);
    MixIs(Mix(p.c.ch, g.luns, p.c.lun), g.blks, p.blk);
    MixIs(Mix(Mix(p.c.ch, g.luns, p.c.lun), g.blks, p.blk), n, p.c.pg);
    Expand(p.c.ch * g.luns, p.c.lun, g.blks, n);
    Expand2(p.c.ch, g.luns, p.c.lun, g.blks, p.blk, n);
    assert g.nchs * g.luns * g.blks * n == n * g.blks * g.luns * g.nchs;
  }

  lemma Expand(a: int, b: int, c: int, n: int)
    ensures (a + b) * c * n == a * (c * n) + b * (n * c)
  {
    assert (a + b) * c * n == (a + b) * (c * n);
    Distribute(a, b, c * n);
  }

  lemma Expand2(ch: int, luns: int, lun: int, blks: int, blk: int, n: int)
    ensures ((ch * luns + lun) * blks + blk) * n == ch * (n * blks * luns) + lun * (n * blks) + blk * n
  {
    Distribute((ch * luns + lun) * blks, blk, n);
    Expand(ch * luns, lun, blks, n);
    assert ch * luns * (blks * n) == ch * (n * blks * luns);
  }

  /** The index is below tt_pgs (the assertion at conv_ftl.c:188) and determines the page. */
  lemma PgIdxInjective(g: Geometry, p: Ppa, q: Ppa)
    requires g.Valid() && ValidPpa(g, p) && ValidPpa(g, q)
    ensures PgIdx(g, p) < TtPgs(g)
    ensures PgIdx(g, p) == PgIdx(g, q) ==> p == q
  {
    var n := g.PgsPerBlk();
    hide Mix, Quo, Rem, Geometry.PgsPerBlk;
    MixBound(p.c.ch, g.luns, p.c.lun, g.nchs);
    MixBound(Mix(p.c.ch, g.luns, p.c.lun), g.blks, p.blk, g.nchs * g.luns);
    MixBound(Mix(Mix(p.c.ch, g.luns, p.c.lun), g.blks, p.blk), n, p.c.pg, g.nchs * g.luns * g.blks);
    IdxDigits(g, p);
    IdxDigits(g, q);
  }

  lemma IdxDigits(g: Geometry, p: Ppa)
    requires g.Valid() && ValidPpa(g, p)
    ensures var n := g.PgsPerBlk(); var k := PgIdx(g, p);
            && n > 0
            && p.c.pg == Rem(k, n) && p.blk == Rem(Quo(k, n), g.blks)
            && p.c.lun == Rem(Quo(Quo(k, n), g.blks), g.luns)
            && p.c.ch == Quo(Quo(Quo(k, n), g.blks), g.luns)
  {
    var n := g.PgsPerBlk();
    hide Mix, Quo, Rem, Geometry.PgsPerBlk;
    MixParts(Mix(Mix(p.c.ch, g.luns, p.c.lun), g.blks, p.blk), n, p.c.pg);
    MixParts(Mix(p.c.ch, g.luns, p.c.lun), g.blks, p.blk);
    MixParts(p.c.ch, g.luns, p.c.lun);
  }

  /** Distinct pages have distinct indices below tt_pgs. */
  lemma IdxInjective(g: Geometry, p: Page, q: Page)
    requires g.Valid() && ValidPage(g, p) && ValidPage(g, q)
    ensures Idx(g, p) < TtPgs(g)
    ensures Idx(g, p) == Idx(g, q) ==> p == q
  {
    hide PgIdx, PpaOf, PageOf;
    PagePpa(g, p);
    PagePpa(g, q);
    PgIdxInjective(g, PpaOf(g, p), PpaOf(g, q));
  }

  // ----- tables as maps and sets -----

  function Pages(g: Geometry): set<Page> {
    set l, k | 0 <= l < g.blks && 0 <= k < g.PgsPerLine() :: Page(l, k)
  }

  function MapView(g: Geometry, tbl: seq<Option<Ppa>>): map<nat, Page>
    requires g.os > 0
  {
    map lpn | 0 <= lpn < |tbl| && tbl[lpn].Some? :: PageOf(g, tbl[lpn].value)
  }

  function RmapView(g: Geometry, tbl: seq<Option<nat>>): map<Page, nat>
    requires g.Valid()
  {
    map p | p in Pages(g) && Idx(g, p) < |tbl| && tbl[Idx(g, p)].Some? :: tbl[Idx(g, p)].value
  }

  function Having(g: Geometry, st: seq<PgStatus>, x: PgStatus): set<Page>
    requires g.Valid()
  {
    set p | p in Pages(g) && Idx(g, p) < |st| && st[Idx(g, p)] == x
  }

  lemma MapViewSet(g: Geometry, tbl: seq<Option<Ppa>>, lpn: nat, p: Ppa)
    requires g.os > 0 && lpn < |tbl|
    ensures MapView(g, tbl[lpn := Some(p)]) == MapView(g, tbl)[lpn := PageOf(g, p)]
  {
  }

  lemma RmapViewSet(g: Geometry, tbl: seq<Option<nat>>, p: Page, lpn: nat)
    requires g.Valid() && ValidPage(g, p) && |tbl| == TtPgs(g)
    ensures Idx(g, p) < |tbl|
    ensures RmapView(g, tbl[Idx(g, p) := Some(lpn)]) == RmapView(g, tbl)[p := lpn]
    ensures RmapView(g, tbl[Idx(g, p) := None]) == RmapView(g, tbl) - {p}
  {
    hide Idx, TtPgs, Geometry.PgsPerLine;
    IdxInjective(g, p, p);
    forall q | q in Pages(g) ensures Idx(g, q) < |tbl| && (Idx(g, q) == Idx(g, p) ==> q == p) {
      IdxInjective(g, q, p);
    }
  }

  lemma HavingSet(g: Geometry, st: seq<PgStatus>, p: Page, x: PgStatus, y: PgStatus)
    requires g.Valid() && ValidPage(g, p) && |st| == TtPgs(g)
    ensures Idx(g, p) < |st|
    ensures Having(g, st[Idx(g, p) := x], y) == if x == y then Having(g, st, y) + {p} else Having(g, st, y) - {p}
  {
    hide Idx, TtPgs, Geometry.PgsPerLine;
    IdxInjective(g, p, p);
    forall q | q in Pages(g) ensures Idx(g, q) < |st| && (Idx(g, q) == Idx(g, p) ==> q == p) {
      IdxInjective(g, q, p);
    }
  }

  // Reading a table at a page.
  lemma ReadViews(g: Geometry, rm: seq<Option<nat>>, st: seq<PgStatus>, p: Page)
    requires g.Valid() && ValidPage(g, p) && |rm| == |st| == TtPgs(g)
    ensures Idx(g, p) < TtPgs(g)
    ensures p in RmapView(g, rm) <==> rm[Idx(g, p)].Some?
    ensures p in RmapView(g, rm) ==> RmapView(g, rm)[p] == rm[Idx(g, p)].value
    ensures forall x :: p in Having(g, st, x) <==> st[Idx(g, p)] == x
  {
    hide Idx, TtPgs, Geometry.PgsPerLine;
    IdxInjective(g, p, p);
  }
}
