/**
 What holds of an FTL partition between any two steps, and inside a collection: every line is in
 exactly one place, its counters count its pages, and the forward and reverse maps are mutual
 inverses over live data. Each step of FtlModel keeps all of it.
 */
module FtlInvariant {
  import opened Wrappers
  import opened FtlModel

  function In(pages: set<Page>, l: nat): set<Page> {
    set p | p in pages && p.line == l
  }

  function Bit(b: bool): nat { if b then 1 else 0 }

  // In how many places line l is; `gc` holds the line under collection, if any.
  function Places(sp: Space, gc: set<nat>, l: nat): nat {
    Bit(l in sp.free) + Bit(l in sp.full) + Bit(l in sp.victims) + Bit(l in gc)
    + Bit(l == sp.user.line) + Bit(l == sp.hot.line) + Bit(l == sp.cold.line)
  }

  // How many slots of line l have been programmed since its last erase.
  function Written(c: Config, sp: Space, l: nat): nat {
    if l in sp.free then 0
    else if l == sp.user.line then sp.user.next
    else if l == sp.hot.line then sp.hot.next
    else if l == sp.cold.line then sp.cold.next
    else c.ppl
  }

  ghost predicate NoDup(q: seq<nat>) {
    forall i, j :: 0 <= i < j < |q| ==> q[i] != q[j]
  }

  /** The three lists, the three open lines and the line under collection partition the lines. */
  ghost predicate Partition(c: Config, sp: Space, gc: set<nat>) {
    && |sp.lines| == c.lines
    && NoDup(sp.free)
    && TypedSpace(sp)
    && (forall l :: l in sp.full ==> l < c.lines)
    && (forall l :: l in gc ==> l < c.lines)
    && sp.user.next < c.ppl && sp.hot.next < c.ppl && sp.cold.next < c.ppl
    && (forall l :: 0 <= l < c.lines ==> Places(sp, gc, l) == 1)
  }

  // A line outside collection: exactly its first `w` slots are programmed, and the counters count
  // PG_VALID and PG_INVALID pages.
  ghost predicate Counted(s: Ftl, l: nat, w: nat)
    requires l < |s.sp.lines|
  {
    && s.sp.lines[l].vpc == |In(s.valid, l)|
    && s.sp.lines[l].ipc == |In(s.invalid, l)|
    && s.sp.lines[l].vpc + s.sp.lines[l].ipc == w
    && (forall k: nat :: Page(l, k) in s.valid || Page(l, k) in s.invalid <==> k < w)
  }

  /** Every line outside collection is Counted; a full line has no invalid page and a victim
      candidate has one. */
  ghost predicate Accounts(c: Config, s: Ftl, gc: set<nat>) {
    && |s.sp.lines| == c.lines
    && (forall l :: 0 <= l < c.lines && l !in gc ==> Counted(s, l, Written(c, s.sp, l)))
    && (forall l :: l in s.sp.full && l < c.lines ==> s.sp.lines[l].ipc == 0)
    && (forall l :: l in s.sp.victims && l < c.lines ==> s.sp.lines[l].ipc > 0)
    && s.valid !! s.invalid
    && (forall p :: p in s.valid ==> p.line < c.lines && p.slot < c.ppl)
    && (forall p :: p in s.invalid ==> p.line < c.lines && p.slot < c.ppl)
  }

  /** maptbl and rmap are mutual inverses over live pages: PG_VALID pages other than `stale`, the
      pages of the line under collection that have been copied but not yet erased. */
  ghost predicate Mapping(s: Ftl, stale: set<Page>) {
    && (forall lpn :: lpn in s.maptbl ==>
          var p := s.maptbl[lpn];
          p in s.valid && p !in stale && p in s.rmap && s.rmap[p] == lpn)
    && (forall p :: p in s.valid && p !in stale ==>
          p in s.rmap && s.rmap[p] in s.maptbl && s.maptbl[s.rmap[p]] == p)
    && (forall p :: p in s.valid ==> p in s.data && p in s.rmap)
  }

  ghost predicate Inv(c: Config, s: Ftl, gc: set<nat>, stale: set<Page>) {
    && Partition(c, s.sp, gc)
    && Accounts(c, s, gc)
    && Mapping(s, stale)
    && (forall p :: p in stale ==> p.line in gc)
  }

  // ----- one page through a write pointer -----

  lemma InPlus(pages: set<Page>, p: Page, l: nat)
    requires p !in pages
    ensures In(pages + {p}, l) == if p.line == l then In(pages, l) + {p} else In(pages, l)
    ensures |In(pages + {p}, l)| == |In(pages, l)| + Bit(p.line == l)
  {
    assert In(pages + {p}, l) == if p.line == l then In(pages, l) + {p} else In(pages, l);
  }

  lemma InMinus(pages: set<Page>, p: Page, l: nat)
    requires p in pages
    ensures In(pages - {p}, l) == if p.line == l then In(pages, l) - {p} else In(pages, l)
    ensures |In(pages - {p}, l)| == |In(pages, l)| - Bit(p.line == l)
  {
    assert In(pages - {p}, l) == if p.line == l then In(pages, l) - {p} else In(pages, l);
    assert p.line == l ==> p in In(pages, l);
  }

  lemma PopFront(q: seq<nat>)
    requires NoDup(q) && q != []
    ensures NoDup(q[1..]) && q[0] in q
    ensures forall l :: l in q[1..] <==> l in q && l != q[0]
  {
    assert q == [q[0]] + q[1..];
  }

  // An open line is in no list.
  lemma OpenPlace(c: Config, sp: Space, gc: set<nat>, st: Stream)
    requires Partition(c, sp, gc)
    ensures var l := sp.Open(st).line;
            l < c.lines && l !in gc && l !in sp.free && l !in sp.full && l !in sp.victims
            && Written(c, sp, l) == sp.Open(st).next
  {
    assert Places(sp, gc, sp.Open(st).line) == 1;
  }

  /** The page a write pointer is about to program is PG_FREE (the assertion at conv_ftl.c:1069). */
  lemma NextPageIsFree(c: Config, s: Ftl, gc: set<nat>, stale: set<Page>, st: Stream)
    requires Inv(c, s, gc, stale)
    ensures var o := s.sp.Open(st);
            o.line < c.lines && Page(o.line, o.next) !in s.valid && Page(o.line, o.next) !in s.invalid
  {
    OpenPlace(c, s.sp, gc, st);
    var o := s.sp.Open(st);
    assert Counted(s, o.line, o.next);
  }

  // What a step of the write pointer does to places: the partition stays, and the open line has
  // one more slot written.
  ghost predicate OneMoreWritten(c: Config, sp: Space, t: Space, gc: set<nat>, st: Stream) {
    && Partition(c, t, gc) && t.lines == sp.lines
    && forall l :: 0 <= l < c.lines && l !in gc ==>
         Written(c, t, l) == Written(c, sp, l) + Bit(l == sp.Open(st).line)
  }

  lemma AdvanceInLine(c: Config, sp: Space, gc: set<nat>, st: Stream)
    requires Partition(c, sp, gc)
    requires sp.Open(st).next + 1 < c.ppl
    ensures OneMoreWritten(c, sp, Advance(c, sp, st).value, gc, st)
  {
    OpenPlace(c, sp, gc, st);
    var t := Advance(c, sp, st).value;
    forall l | 0 <= l < c.lines
      ensures Places(t, gc, l) == 1
      ensures l !in gc ==> Written(c, t, l) == Written(c, sp, l) + Bit(l == sp.Open(st).line)
    {
      assert Places(sp, gc, l) == 1;
    }
  }

  lemma AdvanceToNextLine(c: Config, sp: Space, gc: set<nat>, st: Stream)
    requires Partition(c, sp, gc)
    requires sp.Open(st).next + 1 == c.ppl && sp.free != []
    ensures OneMoreWritten(c, sp, Advance(c, sp, st).value, gc, st)
  {
    OpenPlace(c, sp, gc, st);
    PopFront(sp.free);
    var t := Advance(c, sp, st).value;
    assert Places(sp, gc, sp.free[0]) == 1;
    forall l | 0 <= l < c.lines
      ensures Places(t, gc, l) == 1
      ensures l !in gc ==> Written(c, t, l) == Written(c, sp, l) + Bit(l == sp.Open(st).line)
    {
      assert Places(sp, gc, l) == 1;
    }
  }

  lemma AdvancePartition(c: Config, sp: Space, gc: set<nat>, st: Stream)
    requires Partition(c, sp, gc)
    requires Advance(c, sp, st).Some?
    ensures OneMoreWritten(c, sp, Advance(c, sp, st).value, gc, st)
  {
    OpenPlace(c, sp, gc, st);
    if sp.Open(st).next + 1 < c.ppl {
      AdvanceInLine(c, sp, gc, st);
    } else {
      AdvanceToNextLine(c, sp, gc, st);
    }
  }

  // A line that a close adds to a list: full only if every page is valid, otherwise a candidate
  // (the assertions at conv_ftl.c:814 and 818).
  lemma AdvanceLists(c: Config, sp: Space, st: Stream)
    requires TypedSpace(sp) && Advance(c, sp, st).Some?
    ensures var t := Advance(c, sp, st).value; var o := sp.Open(st);
            && (forall l :: l in t.full ==>
                  l in sp.full || (l == o.line && o.next + 1 >= c.ppl && sp.lines[l].vpc == c.ppl))
            && (forall l :: l in t.victims ==>
                  l in sp.victims || (l == o.line && o.next + 1 >= c.ppl && sp.lines[l].vpc != c.ppl))
  {
  }

  // A line whose pages and counters are those of before stays counted.
  lemma CountedFrame(s: Ftl, t: Ftl, l: nat, w: nat)
    requires l < |s.sp.lines| == |t.sp.lines| && Counted(s, l, w)
    requires In(t.valid, l) == In(s.valid, l) && In(t.invalid, l) == In(s.invalid, l)
    requires t.sp.lines[l].vpc == s.sp.lines[l].vpc && t.sp.lines[l].ipc == s.sp.lines[l].ipc
    ensures Counted(t, l, w)
  {
    forall k: nat
      ensures Page(l, k) in t.valid <==> Page(l, k) in s.valid
      ensures Page(l, k) in t.invalid <==> Page(l, k) in s.invalid
    {
      assert Page(l, k) in In(t.valid, l) <==> Page(l, k) in t.valid;
      assert Page(l, k) in In(s.valid, l) <==> Page(l, k) in s.valid;
      assert Page(l, k) in In(t.invalid, l) <==> Page(l, k) in t.invalid;
      assert Page(l, k) in In(s.invalid, l) <==> Page(l, k) in s.invalid;
    }
  }

  lemma AppendPartition(c: Config, s: Ftl, gc: set<nat>, stale: set<Page>, st: Stream, lpn: nat, v: Payload)
    requires Inv(c, s, gc, stale)
    requires Typed(s) && Append(c, s, st, lpn, v).Some?
    ensures OneMoreWritten(c, CountValid(s.sp, s.sp.Open(st).line), Append(c, s, st, lpn, v).value.sp, gc, st)
    ensures forall l :: Written(c, CountValid(s.sp, s.sp.Open(st).line), l) == Written(c, s.sp, l)
  {
    var counted := CountValid(s.sp, s.sp.Open(st).line);
    forall l | 0 <= l < c.lines ensures Places(counted, gc, l) == 1 {
      assert Places(s.sp, gc, l) == 1;
    }
    AdvancePartition(c, counted, gc, st);
  }

  lemma AppendCounted(c: Config, s: Ftl, gc: set<nat>, stale: set<Page>, st: Stream, lpn: nat, v: Payload, l: nat)
    requires Inv(c, s, gc, stale) && l < c.lines && l !in gc
    requires Typed(s) && Append(c, s, st, lpn, v).Some?
    ensures |Append(c, s, st, lpn, v).value.sp.lines| == c.lines
    ensures Counted(Append(c, s, st, lpn, v).value, l, Written(c, s.sp, l) + Bit(l == s.sp.Open(st).line))
  {
    var t := Append(c, s, st, lpn, v).value;
    var o := s.sp.Open(st);
    NextPageIsFree(c, s, gc, stale, st);
    OpenPlace(c, s.sp, gc, st);
    AppendPartition(c, s, gc, stale, st, lpn, v);
    assert Counted(s, l, Written(c, s.sp, l));
    InPlus(s.valid, Page(o.line, o.next), l);
    if l != o.line {
      CountedFrame(s, t, l, Written(c, s.sp, l));
    }
  }

  lemma AppendAccounts(c: Config, s: Ftl, gc: set<nat>, stale: set<Page>, st: Stream, lpn: nat, v: Payload)
    requires Inv(c, s, gc, stale)
    requires Typed(s) && Append(c, s, st, lpn, v).Some?
    ensures Accounts(c, Append(c, s, st, lpn, v).value, gc)
  {
    var t := Append(c, s, st, lpn, v).value;
    var o := s.sp.Open(st);
    NextPageIsFree(c, s, gc, stale, st);
    OpenPlace(c, s.sp, gc, st);
    AppendPartition(c, s, gc, stale, st, lpn, v);
    forall l | 0 <= l < c.lines && l !in gc
      ensures Counted(t, l, Written(c, t.sp, l))
    {
      AppendCounted(c, s, gc, stale, st, lpn, v, l);
    }
    AppendLists(c, s, gc, stale, st, lpn, v);
  }

  lemma AppendLists(c: Config, s: Ftl, gc: set<nat>, stale: set<Page>, st: Stream, lpn: nat, v: Payload)
    requires Inv(c, s, gc, stale)
    requires Typed(s) && Append(c, s, st, lpn, v).Some?
    ensures var t := Append(c, s, st, lpn, v).value.sp;
            && |t.lines| == c.lines
            && (forall l :: l in t.full && l < c.lines ==> t.lines[l].ipc == 0)
            && (forall l :: l in t.victims && l < c.lines ==> t.lines[l].ipc > 0)
  {
    var o := s.sp.Open(st);
    OpenPlace(c, s.sp, gc, st);
    AppendPartition(c, s, gc, stale, st, lpn, v);
    AdvanceLists(c, CountValid(s.sp, o.line), st);
    assert Counted(s, o.line, o.next);
  }

  lemma AppendMapping(c: Config, s: Ftl, gc: set<nat>, stale: set<Page>, st: Stream, lpn: nat, v: Payload)
    requires Inv(c, s, gc, stale) && lpn !in s.maptbl
    requires Typed(s) && Append(c, s, st, lpn, v).Some?
    ensures Mapping(Append(c, s, st, lpn, v).value, stale)
  {
    NextPageIsFree(c, s, gc, stale, st);
    OpenPlace(c, s.sp, gc, st);
  }

  lemma AppendHost(c: Config, s: Ftl, gc: set<nat>, stale: set<Page>, st: Stream, lpn: nat, v: Payload)
    requires Inv(c, s, gc, stale) && lpn !in s.maptbl
    requires Typed(s) && Append(c, s, st, lpn, v).Some?
    ensures Mapping(Append(c, s, st, lpn, v).value, stale)
    ensures Host(Append(c, s, st, lpn, v).value) == Host(s)[lpn := v]
  {
    AppendMapping(c, s, gc, stale, st, lpn, v);
    NextPageIsFree(c, s, gc, stale, st);
  }
}
