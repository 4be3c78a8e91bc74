/**
 Each step of the driver keeps the invariant: programming a page, invalidating the old copy of a
 rewritten LPN, every event of a collection, and returning the erased line to the free list.
 Collection preserves what the host reads.
 */
module FtlSteps {
  import opened Wrappers
  import opened FtlModel
  import opened FtlInvariant

  // A stream can take one more page: its line has another slot, or another line is free.
  predicate Room(c: Config, sp: Space, st: Stream) {
    sp.Open(st).next + 1 < c.ppl || sp.free != []
  }

  // A state with the same line management and counters as s, apart from one page appended.
  ghost predicate Appended(c: Config, s: Ftl, t: Ftl, gc: set<nat>) {
    && FreePages(c, t.sp) == FreePages(c, s.sp) - 1
    && t.ct == s.ct
    && EraseCounts(t.sp) == EraseCounts(s.sp)
    && t.invalid == s.invalid
    && s.valid <= t.valid
    && (forall l :: l in gc && l < |s.sp.lines| == |t.sp.lines| ==>
          In(t.valid, l) == In(s.valid, l) && t.sp.lines[l] == s.sp.lines[l])
  }

  lemma AppendSome(c: Config, s: Ftl, st: Stream, lpn: nat, v: Payload)
    requires Typed(s) && s.sp.Open(st).next < c.ppl
    ensures Append(c, s, st, lpn, v).Some? <==> Room(c, s.sp, st)
  {
  }

  lemma AdvanceFreePages(c: Config, sp: Space, st: Stream)
    requires TypedSpace(sp) && Advance(c, sp, st).Some? && sp.Open(st).next < c.ppl
    ensures FreePages(c, Advance(c, sp, st).value) == FreePages(c, sp) - 1
  {
    if sp.Open(st).next + 1 >= c.ppl {
      assert |sp.free| * c.ppl == |sp.free[1..]| * c.ppl + c.ppl;
    }
  }

  lemma AppendEffect(c: Config, s: Ftl, gc: set<nat>, stale: set<Page>, st: Stream, lpn: nat, v: Payload)
    requires Inv(c, s, gc, stale) && Typed(s) && Append(c, s, st, lpn, v).Some?
    ensures Appended(c, s, Append(c, s, st, lpn, v).value, gc)
  {
    var o := s.sp.Open(st);
    var t := Append(c, s, st, lpn, v).value;
    NextPageIsFree(c, s, gc, stale, st);
    OpenPlace(c, s.sp, gc, st);
    AdvanceFreePages(c, CountValid(s.sp, o.line), st);
    forall l | l in gc ensures In(t.valid, l) == In(s.valid, l) {
      InPlus(s.valid, Page(o.line, o.next), l);
    }
  }

  /** Storing an unmapped LPN through any stream: never fails while there is room, keeps the
      invariant, uses one free page and adds exactly this LPN to what the host reads. */
  lemma AppendKeeps(c: Config, s: Ftl, gc: set<nat>, stale: set<Page>, st: Stream, lpn: nat, v: Payload)
    requires Inv(c, s, gc, stale) && Typed(s) && lpn !in s.maptbl && Room(c, s.sp, st)
    ensures Append(c, s, st, lpn, v).Some?
    ensures var t := Append(c, s, st, lpn, v).value;
            Inv(c, t, gc, stale) && Appended(c, s, t, gc)
            && Host(t) == Host(s)[lpn := v] && t.maptbl.Keys == s.maptbl.Keys + {lpn}
  {
    AppendSome(c, s, st, lpn, v);
    AppendAccounts(c, s, gc, stale, st, lpn, v);
    AppendPartition(c, s, gc, stale, st, lpn, v);
    AppendHost(c, s, gc, stale, st, lpn, v);
    AppendEffect(c, s, gc, stale, st, lpn, v);
  }

  lemma PutBack<V>(m: map<nat, V>, k: nat, v: V)
    ensures (m - {k})[k := v] == m[k := v]
    ensures (m - {k}).Keys + {k} == m.Keys + {k}
  {
  }

  // The forward entry of an LPN makes no difference to an append that overwrites it.
  lemma AppendOverwrites(c: Config, s: Ftl, st: Stream, lpn: nat, v: Payload)
    requires Typed(s)
    ensures Typed(s.(maptbl := s.maptbl - {lpn}))
    ensures Append(c, s, st, lpn, v) == Append(c, s.(maptbl := s.maptbl - {lpn}), st, lpn, v)
  {
    var o := s.sp.Open(st);
    PutBack(s.maptbl, lpn, Page(o.line, o.next));
  }

  // ----- invalidating the old copy -----

  // vpc equals pgs_per_line exactly for the lines of the full list, which is how the driver finds
  // out that a line was full (conv_ftl.c:1041-1042).
  lemma FullIffAllValid(c: Config, s: Ftl, gc: set<nat>, l: nat)
    requires Partition(c, s.sp, gc) && Accounts(c, s, gc) && l < c.lines && l !in gc && 0 < c.ppl
    ensures s.sp.lines[l].vpc == c.ppl <==> l in s.sp.full
  {
    assert Places(s.sp, gc, l) == 1;
    assert Counted(s, l, Written(c, s.sp, l));
  }

  lemma InvalidatePartition(c: Config, s: Ftl, l: nat)
    requires Partition(c, s.sp, {}) && Accounts(c, s, {}) && l < c.lines && 0 < c.ppl
    ensures Partition(c, CountInvalid(c, s.sp, l), {})
    ensures forall k :: 0 <= k < c.lines ==> Written(c, CountInvalid(c, s.sp, l), k) == Written(c, s.sp, k)
  {
    FullIffAllValid(c, s, {}, l);
    var t := CountInvalid(c, s.sp, l);
    forall k | 0 <= k < c.lines
      ensures Places(t, {}, k) == 1
    {
      assert Places(s.sp, {}, k) == 1;
    }
  }

  lemma InvalidateCounted(c: Config, s: Ftl, p: Page, l: nat)
    requires Inv(c, s, {}, {}) && Typed(s) && p in s.valid && l < c.lines
    ensures Counted(Invalidate(c, s, p), l, Written(c, s.sp, l))
  {
    var t := Invalidate(c, s, p);
    assert Counted(s, l, Written(c, s.sp, l));
    InMinus(s.valid, p, l);
    InPlus(s.invalid, p, l);
    if l != p.line {
      CountedFrame(s, t, l, Written(c, s.sp, l));
    }
  }

  lemma InvalidateAccounts(c: Config, s: Ftl, p: Page)
    requires Inv(c, s, {}, {}) && Typed(s) && p in s.valid && 0 < c.ppl
    ensures Accounts(c, Invalidate(c, s, p), {})
  {
    var t := Invalidate(c, s, p);
    InvalidatePartition(c, s, p.line);
    FullIffAllValid(c, s, {}, p.line);
    forall l | 0 <= l < c.lines
      ensures Counted(t, l, Written(c, t.sp, l))
    {
      InvalidateCounted(c, s, p, l);
    }
    assert Counted(s, p.line, Written(c, s.sp, p.line));
    assert Places(s.sp, {}, p.line) == 1;
  }

  // The line accounts depend on the pages and lines alone.
  lemma AccountsFrame(c: Config, s: Ftl, t: Ftl, gc: set<nat>)
    requires Accounts(c, s, gc) && t.sp == s.sp && t.valid == s.valid && t.invalid == s.invalid
    ensures Accounts(c, t, gc)
  {
    forall l | 0 <= l < c.lines && l !in gc ensures Counted(t, l, Written(c, t.sp, l)) {
      assert Counted(s, l, Written(c, s.sp, l));
    }
  }

  // Without LPN lpn in the forward map, and with its page invalid, the maps are inverses again.
  lemma InvalidateMapping(c: Config, s: Ftl, lpn: nat)
    requires Mapping(s, {}) && Typed(s) && lpn in s.maptbl
    ensures s.maptbl[lpn] in s.valid
    ensures var t := Invalidate(c, s, s.maptbl[lpn]).(maptbl := s.maptbl - {lpn});
            Mapping(t, {}) && Host(t) == Host(s) - {lpn}
  {
  }

  /** Invalidating the page of a mapped LPN and forgetting the mapping keeps the invariant, and the
      host loses exactly that LPN. The page was PG_VALID (the assertion at conv_ftl.c:1033). */
  lemma InvalidateKeeps(c: Config, s: Ftl, lpn: nat)
    requires Inv(c, s, {}, {}) && Typed(s) && lpn in s.maptbl && 0 < c.ppl
    ensures s.maptbl[lpn] in s.valid && s.maptbl[lpn].line < |s.sp.lines|
    ensures var t := Invalidate(c, s, s.maptbl[lpn]).(maptbl := s.maptbl - {lpn});
            && Inv(c, t, {}, {}) && Typed(t) && Host(t) == Host(s) - {lpn}
            && FreePages(c, t.sp) == FreePages(c, s.sp) && t.ct == s.ct
            && EraseCounts(t.sp) == EraseCounts(s.sp)
  {
    var p := s.maptbl[lpn];
    InvalidateMapping(c, s, lpn);
    InvalidateAccounts(c, s, p);
    InvalidatePartition(c, s, p.line);
    AccountsFrame(c, Invalidate(c, s, p), Invalidate(c, s, p).(maptbl := s.maptbl - {lpn}), {});
  }

  // ----- writing one logical page -----

  // The counters play no part in the invariant or in what the host reads.
  lemma CountersFrame(c: Config, s: Ftl, ct: Counters, gc: set<nat>, stale: set<Page>)
    requires Inv(c, s, gc, stale) && Typed(s)
    ensures Inv(c, s.(ct := ct), gc, stale) && Typed(s.(ct := ct)) && Host(s.(ct := ct)) == Host(s)
  {
    AccountsFrame(c, s, s.(ct := ct), gc);
  }

  lemma WriteFresh(c: Config, s: Ftl, lpn: nat, v: Payload)
    requires Inv(c, s, {}, {}) && Typed(s) && Room(c, s.sp, UserIo) && lpn !in s.maptbl
    ensures HostWrite(c, s, lpn, v).Some?
    ensures var t := HostWrite(c, s, lpn, v).value;
            && Inv(c, t, {}, {}) && Host(t) == Host(s)[lpn := v]
            && t.maptbl.Keys == s.maptbl.Keys + {lpn}
            && FreePages(c, t.sp) == FreePages(c, s.sp) - 1
            && t.ct == s.ct.(hostWritten := s.ct.hostWritten + 1)
            && EraseCounts(t.sp) == EraseCounts(s.sp)
  {
    hide Inv, Typed, FreePages, Room, Append;
    var ct := s.ct.(hostWritten := s.ct.hostWritten + 1);
    CountersFrame(c, s, ct, {}, {});
    AppendKeeps(c, s.(ct := ct), {}, {}, UserIo, lpn, v);
  }

  lemma InvalidateRoom(c: Config, s: Ftl, p: Page)
    requires Typed(s) && p.line < |s.sp.lines|
    ensures Room(c, Invalidate(c, s, p).sp, UserIo) <==> Room(c, s.sp, UserIo)
  {
  }

  // What HostWrite does for a mapped LPN, spelled out.
  lemma WriteAgainIs(c: Config, s: Ftl, lpn: nat, v: Payload, ct: Counters)
    requires Typed(s) && lpn in s.maptbl
    requires ct == s.ct.(hostWritten := s.ct.hostWritten + 1)
    ensures var s1 := Invalidate(c, s, s.maptbl[lpn]).(ct := ct);
            Typed(s1) && HostWrite(c, s, lpn, v) == Append(c, s1, UserIo, lpn, v)
  {
  }

  lemma WriteAgain(c: Config, s: Ftl, lpn: nat, v: Payload)
    requires Inv(c, s, {}, {}) && Typed(s) && Room(c, s.sp, UserIo) && lpn in s.maptbl && 0 < c.ppl
    ensures HostWrite(c, s, lpn, v).Some?
    ensures var t := HostWrite(c, s, lpn, v).value;
            && Inv(c, t, {}, {}) && Host(t) == Host(s)[lpn := v]
            && t.maptbl.Keys == s.maptbl.Keys + {lpn}
            && FreePages(c, t.sp) == FreePages(c, s.sp) - 1
            && t.ct == s.ct.(hostWritten := s.ct.hostWritten + 1)
            && EraseCounts(t.sp) == EraseCounts(s.sp)
  {
    var ct := s.ct.(hostWritten := s.ct.hostWritten + 1);
    hide Inv, FreePages, Room, Append, Invalidate, HostWrite, Host, Typed;
    InvalidateKeeps(c, s, lpn);
    var s1 := Invalidate(c, s, s.maptbl[lpn]);
    var s2 := s1.(maptbl := s.maptbl - {lpn});
    InvalidateRoom(c, s, s.maptbl[lpn]);
    CountersFrame(c, s2, ct, {}, {});
    AppendOverwrites(c, s1.(ct := ct), UserIo, lpn, v);
    assert s1.(ct := ct).(maptbl := s1.(ct := ct).maptbl - {lpn}) == s2.(ct := ct);
    AppendKeeps(c, s2.(ct := ct), {}, {}, UserIo, lpn, v);
    WriteAgainIs(c, s, lpn, v, ct);
    PutBack(Host(s), lpn, v);
    PutBack(s.maptbl, lpn, s.maptbl[lpn]);
  }

  /** conv_write's loop body up to the credits: while the user stream has room it never fails, keeps
      the invariant, uses one free page, and makes the host read v at this LPN and what it read
      before everywhere else. */
  lemma HostWriteKeeps(c: Config, s: Ftl, lpn: nat, v: Payload)
    requires Inv(c, s, {}, {}) && Typed(s) && Room(c, s.sp, UserIo) && 0 < c.ppl
    ensures HostWrite(c, s, lpn, v).Some?
    ensures var t := HostWrite(c, s, lpn, v).value;
            && Inv(c, t, {}, {}) && Host(t) == Host(s)[lpn := v]
            && t.maptbl.Keys == s.maptbl.Keys + {lpn}
            && FreePages(c, t.sp) == FreePages(c, s.sp) - 1
            && t.ct == s.ct.(hostWritten := s.ct.hostWritten + 1)
            && EraseCounts(t.sp) == EraseCounts(s.sp)
  {
    if lpn in s.maptbl {
      WriteAgain(c, s, lpn, v);
    } else {
      WriteFresh(c, s, lpn, v);
    }
  }

  // ----- when a step can be taken -----

  /** A host write fails exactly if the user stream has no room. */
  lemma HostWriteSome(c: Config, s: Ftl, lpn: nat, v: Payload)
    requires Typed(s) && s.sp.user.next < c.ppl
    ensures HostWrite(c, s, lpn, v).Some? <==> Room(c, s.sp, UserIo)
  {
    hide Room, Append;
    if lpn in s.maptbl {
      var ct := s.ct.(hostWritten := s.ct.hostWritten + 1);
      WriteAgainIs(c, s, lpn, v, ct);
      InvalidatedUser(c, s, s.maptbl[lpn]);
      InvalidateRoom(c, s, s.maptbl[lpn]);
      AppendSome(c, Invalidate(c, s, s.maptbl[lpn]).(ct := ct), UserIo, lpn, v);
    } else {
      AppendSome(c, s.(ct := s.ct.(hostWritten := s.ct.hostWritten + 1)), UserIo, lpn, v);
    }
  }

  lemma InvalidatedUser(c: Config, s: Ftl, p: Page)
    requires Typed(s) && p.line < |s.sp.lines|
    ensures Invalidate(c, s, p).sp.user == s.sp.user
  {
  }

  // The page just written is the last one of the user's line, unless that was closed with it.
  lemma JustWritten(c: Config, s: Ftl, lpn: nat, v: Payload)
    requires Typed(s) && HostWrite(c, s, lpn, v).Some?
    ensures var t := HostWrite(c, s, lpn, v).value; LastValid(t)
  {
    hide TypedSpace;
  }

  ghost predicate LastValid(s: Ftl) {
    s.sp.user.next == 0 || Page(s.sp.user.line, s.sp.user.next - 1) in s.valid
  }

  // The next page of a stream with room: it is PG_FREE, its line is no candidate, and after
  // counting it the stream can advance.
  ghost predicate Programmable(c: Config, s: Ftl, gc: set<nat>, st: Stream)
    requires Typed(s)
  {
    var o := s.sp.Open(st);
    && Page(o.line, o.next) !in s.valid && Page(o.line, o.next) !in s.invalid
    && o.line !in s.sp.victims
    && Partition(c, CountValid(s.sp, o.line), gc) && Room(c, CountValid(s.sp, o.line), st)
  }

  lemma CountedPartition(c: Config, sp: Space, gc: set<nat>, l: nat)
    requires Partition(c, sp, gc) && l < c.lines
    ensures Partition(c, CountValid(sp, l), gc)
  {
    forall k | 0 <= k < c.lines ensures Places(CountValid(sp, l), gc, k) == 1 {
      assert Places(sp, gc, k) == 1;
    }
  }

  lemma ReadyToProgram(c: Config, s: Ftl, gc: set<nat>, stale: set<Page>, st: Stream)
    requires Inv(c, s, gc, stale) && Typed(s) && Room(c, s.sp, st)
    ensures Programmable(c, s, gc, st)
  {
    NextPageIsFree(c, s, gc, stale, st);
    OpenPlace(c, s.sp, gc, st);
    CountedPartition(c, s.sp, gc, s.sp.Open(st).line);
  }

  // What conv_write does first: the old copy of the LPN, if any, is invalidated.
  ghost function Forgotten(c: Config, s: Ftl, lpn: nat): (r: Ftl)
    requires Typed(s)
    ensures Typed(r)
  {
    if lpn in s.maptbl then Invalidate(c, s, s.maptbl[lpn]) else s
  }

  lemma ReadyToWrite(c: Config, s: Ftl, lpn: nat)
    requires Inv(c, s, {}, {}) && Typed(s) && Room(c, s.sp, UserIo) && 0 < c.ppl
    ensures Programmable(c, Forgotten(c, s, lpn), {}, UserIo)
  {
    if lpn in s.maptbl {
      InvalidateKeeps(c, s, lpn);
      InvalidateRoom(c, s, s.maptbl[lpn]);
      ReadyToProgram(c, Forgotten(c, s, lpn).(maptbl := s.maptbl - {lpn}), {}, {}, UserIo);
    } else {
      ReadyToProgram(c, s, {}, {}, UserIo);
    }
  }

  // The next page of a stream programmed, before the write pointer moves.
  ghost function Placed(s: Ftl, st: Stream, lpn: nat, v: Payload): Ftl
    requires TypedSpace(s.sp)
  {
    var o := s.sp.Open(st);
    var p := Page(o.line, o.next);
    s.(maptbl := s.maptbl[lpn := p], rmap := s.rmap[p := lpn], valid := s.valid + {p},
       data := s.data[p := v], sp := CountValid(s.sp, o.line))
  }

  lemma PlacedCounters(s: Ftl, st: Stream, lpn: nat, v: Payload, ct: Counters)
    requires TypedSpace(s.sp)
    ensures Placed(s.(ct := ct), st, lpn, v) == Placed(s, st, lpn, v).(ct := ct)
    ensures Placed(s, st, lpn, v).ct == s.ct
  {
  }

  // A write is: forget the old copy, program the next page of the user stream, count, advance.
  lemma HostWriteIs(c: Config, s: Ftl, s1: Ftl, lpn: nat, v: Payload, t: Ftl)
    requires Typed(s) && s1 == Forgotten(c, s, lpn)
    requires var u := Placed(s1.(ct := s1.ct.(hostWritten := s1.ct.hostWritten + 1)), UserIo, lpn, v);
             TypedSpace(u.sp) && Advance(c, u.sp, UserIo) == Some(t.sp) && t == u.(sp := t.sp)
    ensures HostWrite(c, s, lpn, v) == Some(t)
  {
  }

  // An append is: program the next page of the stream, advance.
  lemma AppendIs(c: Config, s: Ftl, st: Stream, lpn: nat, v: Payload, t: Ftl)
    requires Typed(s)
    requires var u := Placed(s, st, lpn, v);
             TypedSpace(u.sp) && Advance(c, u.sp, st) == Some(t.sp) && t == u.(sp := t.sp)
    ensures Append(c, s, st, lpn, v) == Some(t)
  {
  }
}
