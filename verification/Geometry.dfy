/**
 Where a slot is on the chip. The write pointer interleaves a line's pages over word lines,
 channels and LUNs (conv_ftl.c:783-845); this module shows that it visits each page of the line
 exactly once, in the order of a closed formula, that garbage collection visits the same pages,
 and that the linear page index is injective.
 */
module Geometry {
  import opened Wrappers
  import opened Arith
  import opened FtlModel

  /** The parameters that ssd_init_params sets (ssd.c:86-232), for one plane per LUN:
      pgs_per_oneshotpg, oneshotpgs_per_blk, pgs_per_flashpg and blks_per_pl. */
  datatype Geometry = Geometry(nchs: nat, luns: nat, os: nat, oneshots: nat, fp: nat, blks: nat) {
    // The page size divides the flash page and the one-shot page, and the flash page divides the
    // one-shot page (ssd.c:124-125). The fields of struct ppa hold every number (ssd.h:65-86).
    predicate Valid() {
      && 0 < nchs <= 256 && 0 < luns <= 256 && 0 < blks <= 65536
      && 0 < fp <= os && os % fp == 0
      && 0 < oneshots && PgsPerBlk() <= 65536
    }

    function PgsPerBlk(): nat { os * oneshots }

    function PgsPerLine(): nat { nchs * luns * PgsPerBlk() }

    function FlashPgsPerBlk(): nat
      requires fp > 0
    {
      (os / fp) * oneshots
    }
  }

  // A page of a line: the fields ch, lun and pg of struct ppa. The field blk is the line.
  datatype Cursor = Cursor(ch: nat, lun: nat, pg: nat)

  predicate OnChip(g: Geometry, c: Cursor) {
    c.ch < g.nchs && c.lun < g.luns && c.pg < g.PgsPerBlk()
  }

  // ----- the write pointer -----

  /** advance_write_pointer up to the end of the line (conv_ftl.c:789-812), from where the driver's
      pg, ch and lun are; None when the line is complete. */
  function NextCursor(g: Geometry, c: Cursor): Option<Cursor>
    requires g.os > 0
  {
    var pg := c.pg + 1;
    if pg % g.os != 0 then Some(c.(pg := pg))
    else if c.ch + 1 != g.nchs then Some(Cursor(c.ch + 1, c.lun, pg - g.os))
    else if c.lun + 1 != g.luns then Some(Cursor(0, c.lun + 1, pg - g.os))
    else if pg != g.PgsPerBlk() then Some(Cursor(0, 0, pg))
    else None
  }

  /** The slot of a page: its place in programming order, least significant digit first the page
      in its word line, then the channel, the LUN and the word line. */
  function Slot(g: Geometry, c: Cursor): nat
    requires g.os > 0
  {
    Mix(Mix(Mix(Quo(c.pg, g.os), g.luns, c.lun), g.nchs, c.ch), g.os, Rem(c.pg, g.os))
  }

  /** The page in slot k. */
  function At(g: Geometry, k: nat): Cursor
    requires g.os > 0 && g.nchs > 0 && g.luns > 0
  {
    var w := Quo(k, g.os);
    var u := Quo(w, g.nchs);
    Cursor(Rem(w, g.nchs), Rem(u, g.luns), Mix(Quo(u, g.luns), g.os, Rem(k, g.os)))
  }

  /** At in closed form, with d1 = nchs * pgs_per_oneshotpg and d2 = luns_per_ch * d1:
      ch = (k / os) % nchs, lun = (k / d1) % luns_per_ch, pg = (k / d2) * os + k % os. */
  lemma ClosedForm(g: Geometry, k: nat, d1: nat, d2: nat)
    requires g.os > 0 && g.nchs > 0 && g.luns > 0
    requires d1 == g.nchs * g.os && d2 == g.luns * d1
    ensures d1 > 0 && d2 > 0
    ensures At(g, k).ch == Rem(Quo(k, g.os), g.nchs)
    ensures At(g, k).lun == Rem(Quo(k, d1), g.luns)
    ensures At(g, k).pg == Mix(Quo(k, d2), g.os, Rem(k, g.os))
  {
    hide Mix, Quo, Rem;
    ProductPositive(g.nchs, g.os);
    ProductPositive(g.luns, d1);
    QuoQuo(k, g.os, g.nchs);
    QuoQuo(k, d1, g.luns);
  }

  /** The page in the slot of a page is that page: distinct pages of a line have distinct slots. */
  lemma AtSlot(g: Geometry, c: Cursor)
    requires g.Valid() && OnChip(g, c)
    ensures At(g, Slot(g, c)) == c
  {
    hide Mix, Quo, Rem;
    var a, b := Quo(c.pg, g.os), Rem(c.pg, g.os);
    PartsMix(c.pg, g.os);
    var u := Mix(a, g.luns, c.lun);
    var w := Mix(u, g.nchs, c.ch);
    MixParts(w, g.os, b);
    MixParts(u, g.nchs, c.ch);
    MixParts(a, g.luns, c.lun);
  }

  lemma LineSize(g: Geometry)
    ensures g.oneshots * g.luns * g.nchs * g.os == g.PgsPerLine()
  {
    assert g.oneshots * g.luns * g.nchs * g.os == g.nchs * g.luns * (g.os * g.oneshots);
  }

  /** Every page of the line has a slot below pgs_per_line. */
  lemma SlotBound(g: Geometry, c: Cursor)
    requires g.Valid() && OnChip(g, c)
    ensures Slot(g, c) < g.PgsPerLine()
  {
    hide Mix, Quo, Rem;
    var a, b := Quo(c.pg, g.os), Rem(c.pg, g.os);
    PartsMix(c.pg, g.os);
    Commute(g.os, g.oneshots);
    QuoBound(c.pg, g.os, g.oneshots);
    LineSize(g);
    hide Geometry.PgsPerBlk, Geometry.PgsPerLine;
    MixBound(a, g.luns, c.lun, g.oneshots);
    MixBound(Mix(a, g.luns, c.lun), g.nchs, c.ch, g.oneshots * g.luns);
    MixBound(Mix(Mix(a, g.luns, c.lun), g.nchs, c.ch), g.os, b, g.oneshots * g.luns * g.nchs);
  }

  /** Every slot below pgs_per_line is a page of the line, and that page's slot. */
  lemma SlotAt(g: Geometry, k: nat)
    requires g.Valid() && k < g.PgsPerLine()
    ensures OnChip(g, At(g, k)) && Slot(g, At(g, k)) == k
  {
    hide Mix, Quo, Rem;
    var w, b := Quo(k, g.os), Rem(k, g.os);
    var u := Quo(w, g.nchs);
    var a := Quo(u, g.luns);
    PartsMix(k, g.os);
    PartsMix(w, g.nchs);
    PartsMix(u, g.luns);
    MixParts(a, g.os, b);
    LineSize(g);
    hide Geometry.PgsPerLine;
    QuoBound(k, g.os, g.oneshots * g.luns * g.nchs);
    QuoBound(w, g.nchs, g.oneshots * g.luns);
    QuoBound(u, g.luns, g.oneshots);
    Commute(g.os, g.oneshots);
    MixBound(a, g.os, b, g.oneshots);
  }

  /** Advancing the write pointer moves to the next slot, and the line is complete exactly at the
      last one: the pointer visits every page of the line once. */
  lemma NextSlot(g: Geometry, c: Cursor)
    requires g.Valid() && OnChip(g, c)
    ensures NextCursor(g, c).None? <==> Slot(g, c) + 1 == g.PgsPerLine()
    ensures NextCursor(g, c).Some? ==>
              OnChip(g, NextCursor(g, c).value) && Slot(g, NextCursor(g, c).value) == Slot(g, c) + 1
  {
    var a, b := Quo(c.pg, g.os), Rem(c.pg, g.os);
    PartsMix(c.pg, g.os);
    if b + 1 < g.os {
      NextInWordLine(g, c, a, b);
      hide Mix, Quo, Rem, Slot;
      SlotBound(g, c.(pg := c.pg + 1));
    } else {
      WordLineEnd(g, c, a);
      if c.ch + 1 < g.nchs {
        NextChannel(g, c, a);
        hide Mix, Quo, Rem, Slot;
        SlotBound(g, Cursor(c.ch + 1, c.lun, Mix(a, g.os, 0)));
      } else if c.lun + 1 < g.luns {
        NextLun(g, c, a);
        hide Mix, Quo, Rem, Slot;
        SlotBound(g, Cursor(0, c.lun + 1, Mix(a, g.os, 0)));
      } else if a + 1 < g.oneshots {
        NextWordLine(g, c, a);
        hide Mix, Quo, Rem, Slot;
        SlotBound(g, Cursor(0, 0, Mix(a + 1, g.os, 0)));
      } else {
        LastSlot(g, c, a);
      }
    }
  }

  lemma MixPlusOne(q: nat, d: nat, r: nat)
    ensures Mix(q, d, r + 1) == Mix(q, d, r) + 1
    ensures d > 0 ==> Mix(q + 1, d, 0) == Mix(q, d, d - 1) + 1
  {
    hide Mix;
    MixIs(q, d, r);
    MixIs(q, d, r + 1);
    MixIs(q + 1, d, 0);
    if d > 0 {
      MixIs(q, d, d - 1);
    }
    Distribute(q, 1, d);
  }

  lemma NextInWordLine(g: Geometry, c: Cursor, a: nat, b: nat)
    requires g.Valid() && OnChip(g, c) && c.pg == Mix(a, g.os, b) && b + 1 < g.os
    ensures NextCursor(g, c) == Some(c.(pg := c.pg + 1))
    ensures OnChip(g, c.(pg := c.pg + 1))
    ensures Slot(g, c.(pg := c.pg + 1)) == Slot(g, c) + 1
  {
    hide Mix, Quo, Rem;
    MixPlusOne(a, g.os, b);
    MixParts(a, g.os, b);
    MixParts(a, g.os, b + 1);
    PartsAre(Mix(a, g.os, b + 1), g.os);
    InBlock(g, c.pg, a, b);
    MixPlusOne(Mix(Mix(a, g.luns, c.lun), g.nchs, c.ch), g.os, b);
  }

  // Word line and offset of a page of a block.
  lemma InBlock(g: Geometry, pg: nat, a: nat, b: nat)
    requires g.Valid() && b < g.os && pg == Mix(a, g.os, b) && pg < g.PgsPerBlk()
    ensures a < g.oneshots
    ensures b + 1 < g.os ==> pg + 1 < g.PgsPerBlk()
    ensures b + 1 == g.os ==> (pg + 1 == g.PgsPerBlk() <==> a + 1 == g.oneshots)
  {
    MixIs(a, g.os, b);
    hide Mix, Quo;
    MixParts(a, g.os, b);
    Commute(g.os, g.oneshots);
    QuoBound(pg, g.os, g.oneshots);
    Distribute(a, 1, g.os);
    MulMono(a + 1, g.oneshots, g.os);
    if b + 1 == g.os && a + 1 < g.oneshots {
      MulMono(a + 2, g.oneshots, g.os);
      Distribute(a + 1, 1, g.os);
    }
  }

  // At the end of a word line, the numbers NextCursor computes.
  lemma WordLineEnd(g: Geometry, c: Cursor, a: nat)
    requires g.Valid() && OnChip(g, c) && c.pg == Mix(a, g.os, g.os - 1)
    ensures (c.pg + 1) % g.os == 0
    ensures c.pg + 1 - g.os == Mix(a, g.os, 0) < g.PgsPerBlk()
    ensures c.pg + 1 == Mix(a + 1, g.os, 0)
    ensures c.pg + 1 == g.PgsPerBlk() <==> a + 1 == g.oneshots
    ensures a < g.oneshots
    ensures Quo(c.pg, g.os) == a && Rem(c.pg, g.os) == g.os - 1
    ensures Quo(Mix(a, g.os, 0), g.os) == a && Rem(Mix(a, g.os, 0), g.os) == 0
    ensures Quo(Mix(a + 1, g.os, 0), g.os) == a + 1 && Rem(Mix(a + 1, g.os, 0), g.os) == 0
  {
    hide Mix, Quo, Rem;
    InBlock(g, c.pg, a, g.os - 1);
    MixIs(a, g.os, 0);
    MixIs(a, g.os, g.os - 1);
    MixPlusOne(a, g.os, g.os - 1);
    MixParts(a + 1, g.os, 0);
    MixParts(a, g.os, g.os - 1);
    MixParts(a, g.os, 0);
    PartsAre(Mix(a + 1, g.os, 0), g.os);
  }

  lemma NextChannel(g: Geometry, c: Cursor, a: nat)
    requires g.Valid() && OnChip(g, c) && c.pg == Mix(a, g.os, g.os - 1) && c.ch + 1 < g.nchs
    ensures var d := Cursor(c.ch + 1, c.lun, Mix(a, g.os, 0));
            NextCursor(g, c) == Some(d) && OnChip(g, d) && Slot(g, d) == Slot(g, c) + 1
  {
    hide Mix, Quo, Rem, Geometry.PgsPerBlk;
    WordLineEnd(g, c, a);
    var u := Mix(a, g.luns, c.lun);
    MixPlusOne(u, g.nchs, c.ch);
    MixPlusOne(Mix(u, g.nchs, c.ch), g.os, 0);
  }

  lemma NextLun(g: Geometry, c: Cursor, a: nat)
    requires g.Valid() && OnChip(g, c) && c.pg == Mix(a, g.os, g.os - 1)
    requires c.ch + 1 == g.nchs && c.lun + 1 < g.luns
    ensures var d := Cursor(0, c.lun + 1, Mix(a, g.os, 0));
            NextCursor(g, c) == Some(d) && OnChip(g, d) && Slot(g, d) == Slot(g, c) + 1
  {
    hide Mix, Quo, Rem, Geometry.PgsPerBlk;
    WordLineEnd(g, c, a);
    var u := Mix(a, g.luns, c.lun);
    MixPlusOne(a, g.luns, c.lun);
    MixPlusOne(u, g.nchs, 0);
    MixPlusOne(Mix(u, g.nchs, c.ch), g.os, 0);
  }

  lemma NextWordLine(g: Geometry, c: Cursor, a: nat)
    requires g.Valid() && OnChip(g, c) && c.pg == Mix(a, g.os, g.os - 1)
    requires c.ch + 1 == g.nchs && c.lun + 1 == g.luns && a + 1 < g.oneshots
    ensures var d := Cursor(0, 0, Mix(a + 1, g.os, 0));
            NextCursor(g, c) == Some(d) && OnChip(g, d) && Slot(g, d) == Slot(g, c) + 1
  {
    hide Mix, Quo, Rem, Geometry.PgsPerBlk;
    WordLineEnd(g, c, a);
    var u := Mix(a, g.luns, c.lun);
    MixPlusOne(a, g.luns, 0);
    MixPlusOne(u, g.nchs, 0);
    MixPlusOne(Mix(u, g.nchs, c.ch), g.os, 0);
  }

  lemma LastSlot(g: Geometry, c: Cursor, a: nat)
    requires g.Valid() && OnChip(g, c) && c.pg == Mix(a, g.os, g.os - 1)
    requires c.ch + 1 == g.nchs && c.lun + 1 == g.luns && a + 1 == g.oneshots
    ensures NextCursor(g, c).None? && Slot(g, c) + 1 == g.PgsPerLine()
  {
    hide Mix, Quo, Rem, Geometry.PgsPerLine, Geometry.PgsPerBlk;
    WordLineEnd(g, c, a);
    LineSize(g);
    var u := Mix(a, g.luns, c.lun);
    MixZero(g.oneshots, g.luns);
    MixZero(g.oneshots * g.luns, g.nchs);
    MixZero(g.oneshots * g.luns * g.nchs, g.os);
    MixPlusOne(a, g.luns, 0);
    MixPlusOne(u, g.nchs, 0);
    MixPlusOne(Mix(u, g.nchs, c.ch), g.os, 0);
  }

  lemma MixZero(q: nat, d: nat)
    ensures Mix(q, d, 0) == q * d
  {
    MixIs(q, d, 0);
  }
}
