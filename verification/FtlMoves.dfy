/**
 Where the pages of LPNs are after a write of the runs in FtlLimit: the LPN stored is on the user's
 line, the LPNs of a line collected into one stream are on that stream's line, all others stay.
 */
module FtlMoves {
  import opened Wrappers
  import opened FtlModel
  import opened FtlInvariant
  import opened FtlSteps
  import opened FtlGc
  import opened FtlRuns
  import opened FtlLimit

  // ----- collecting a line into one stream with room for all of it -----

  // The LPNs of line v's slots cleaned so far are on `line`, the others where they were.
  ghost predicate MovedSoFar(c: Config, s0: Ftl, t: Ftl, v: nat, line: nat, i: nat)
    requires i <= |c.schedule|
  {
    t.maptbl.Keys == s0.maptbl.Keys && forall lpn :: lpn in s0.maptbl ==>
      if s0.maptbl[lpn].line == v && s0.maptbl[lpn].slot in Cleaned(c.schedule, i)
      then t.maptbl[lpn].line == line
      else t.maptbl[lpn] == s0.maptbl[lpn]
  }

  lemma AppendMoves(c: Config, s: Ftl, st: Stream, lpn: nat, v: Payload)
    requires Typed(s) && Append(c, s, st, lpn, v).Some?
    ensures Append(c, s, st, lpn, v).value.maptbl == s.maptbl[lpn := Page(s.sp.Open(st).line, s.sp.Open(st).next)]
  {
  }

  // Page (v, k) is copied; it was the page of one LPN.
  lemma MovedClean(c: Config, s0: Ftl, t: Ftl, u: Ftl, v: nat, line: nat, i: nat, lpn: nat)
    requires i < |c.schedule| && c.schedule[i].Clean?
    requires MovedSoFar(c, s0, t, v, line, i) && line != v
    requires lpn in t.maptbl && t.maptbl[lpn] == Page(v, c.schedule[i].slot)
    requires forall a, b :: a in t.maptbl && b in t.maptbl && t.maptbl[a] == t.maptbl[b] ==> a == b
    requires u.maptbl.Keys == t.maptbl.Keys && u.maptbl[lpn].line == line
    requires forall a :: a in t.maptbl && a != lpn ==> u.maptbl[a] == t.maptbl[a]
    ensures MovedSoFar(c, s0, u, v, line, i + 1)
  {
    assert lpn in s0.maptbl;
    forall a | a in s0.maptbl && a != lpn ensures s0.maptbl[a] != Page(v, c.schedule[i].slot) {
      assert a in t.maptbl;
    }
  }

  // No copy: the slot holds no LPN's page.
  lemma MovedNothing(c: Config, s0: Ftl, t: Ftl, v: nat, line: nat, i: nat)
    requires i < |c.schedule| && MovedSoFar(c, s0, t, v, line, i)
    requires c.schedule[i].Clean? ==> forall lpn :: lpn in s0.maptbl ==> s0.maptbl[lpn] != Page(v, c.schedule[i].slot)
    ensures MovedSoFar(c, s0, t, v, line, i + 1)
  {
    if c.schedule[i].Clean? {
      forall lpn | lpn in s0.maptbl && s0.maptbl[lpn].line == v ensures s0.maptbl[lpn].slot != c.schedule[i].slot {
        assert s0.maptbl[lpn] == Page(s0.maptbl[lpn].line, s0.maptbl[lpn].slot);
      }
    }
  }

  lemma NothingMoved(c: Config, s0: Ftl, v: nat, line: nat)
    ensures MovedSoFar(c, s0, s0, v, line, 0)
  {
  }

  lemma ToppedLine(sp0: Space, sp: Space, st: Stream, m: nat)
    requires sp0.Open(st).line < |sp0.lines| && sp == Topped(sp0, st, m)
    ensures sp.Open(st).line == sp0.Open(st).line
  {
  }

  lemma OpenElsewhere(c: Config, s0: Ftl, v: nat, st: Stream)
    requires Inv(c, s0, {v}, {})
    ensures s0.sp.Open(st).line != v
  {
    assert Places(s0.sp, {v}, s0.sp.Open(st).line) == 1 || s0.sp.Open(st).line != v;
    assert TypedSpace(s0.sp);
  }

  // The LPN of a valid page that has not been copied.
  lemma LpnOf(c: Config, t: Ftl, gc: set<nat>, stale: set<Page>, p: Page)
    requires Inv(c, t, gc, stale) && p in t.valid && p !in stale
    ensures p in t.rmap && t.rmap[p] in t.maptbl && t.maptbl[t.rmap[p]] == p
    ensures forall a, b :: a in t.maptbl && b in t.maptbl && t.maptbl[a] == t.maptbl[b] ==> a == b
  {
    hide Partition, Accounts;
    forall a, b | a in t.maptbl && b in t.maptbl && t.maptbl[a] == t.maptbl[b] ensures a == b {
      assert t.rmap[t.maptbl[a]] == a && t.rmap[t.maptbl[b]] == b;
    }
  }

  lemma MappedValid(c: Config, s: Ftl, gc: set<nat>, lpn: nat)
    requires Inv(c, s, gc, {}) && lpn in s.maptbl
    ensures s.maptbl[lpn] in s.valid
  {
  }

  // One Clean event.
  lemma MoveOne(c: Config, s0: Ftl, t: Ftl, v: nat, hot: Page -> bool, st: Stream, i: nat)
    requires GoodSchedule(c.ppl, c.schedule) && i < |c.schedule| && c.schedule[i].Clean?
    requires Inv(c, s0, {v}, {}) && Typed(s0) && v < |s0.sp.lines|
    requires forall p :: p in In(s0.valid, v) ==> (if hot(p) then GcHot else GcCold) == st
    requires Typed(t) && Inv(c, t, {v}, Stale(c, s0, v, i)) && Progress(c, s0, t, v, i)
    requires t.sp.Open(st).line == s0.sp.Open(st).line != v && GcStep(c, t, v, hot, c.schedule[i]).Some?
    requires MovedSoFar(c, s0, t, v, s0.sp.Open(st).line, i)
    ensures MovedSoFar(c, s0, GcStep(c, t, v, hot, c.schedule[i]).value, v, s0.sp.Open(st).line, i + 1)
  {
    hide Inv, Progress, Stale, GcStep, GoodSchedule, CopiedBy, Append, Host, Typed, Cleaned, Erased, MovedSoFar;
    var p, line := Page(v, c.schedule[i].slot), s0.sp.Open(st).line;
    CleanedPage(c, s0, t, v, i, p.slot);
    GcStepIs(c, t, v, hot, c.schedule[i]);
    if p in t.valid {
      LpnOf(c, t, {v}, Stale(c, s0, v, i), p);
      AppendMoves(c, t.(ct := t.ct.(copied := t.ct.copied + 1)), st, t.rmap[p], t.data[p]);
      MovedClean(c, s0, t, GcStep(c, t, v, hot, c.schedule[i]).value, v, line, i, t.rmap[p]);
    } else {
      forall lpn | lpn in s0.maptbl ensures s0.maptbl[lpn] != p {
        MappedValid(c, s0, {v}, lpn);
      }
      MovedNothing(c, s0, t, v, line, i);
    }
  }

  lemma ErasesNoLpn(c: Config, s0: Ftl, t: Ftl, v: nat, hot: Page -> bool, line: nat, i: nat)
    requires i < |c.schedule| && c.schedule[i].Erase? && Typed(t) && MovedSoFar(c, s0, t, v, line, i)
    ensures GcStep(c, t, v, hot, c.schedule[i]).Some?
    ensures MovedSoFar(c, s0, GcStep(c, t, v, hot, c.schedule[i]).value, v, line, i + 1)
  {
    hide Without;
    GcStepIs(c, t, v, hot, c.schedule[i]);
  }

  lemma {:induction false} GcMoves(c: Config, s0: Ftl, v: nat, hot: Page -> bool, st: Stream, i: nat)
    requires GoodSchedule(c.ppl, c.schedule) && i <= |c.schedule|
    requires Inv(c, s0, {v}, {}) && Typed(s0) && v < |s0.sp.lines|
    requires forall p :: p in In(s0.valid, v) ==> (if hot(p) then GcHot else GcCold) == st
    requires s0.sp.Open(st).next + |In(s0.valid, v)| < c.ppl
    ensures GcRun(c, s0, v, hot, i).Some?
    ensures MovedSoFar(c, s0, GcRun(c, s0, v, hot, i).value, v, s0.sp.Open(st).line, i)
  {
    hide Inv, Progress, Stale, GcStep, GoodSchedule, CopiedBy, Append, Host, Typed, Topped, Cleaned, Erased, Without,
         MovedSoFar, In;
    GcTops(c, s0, v, hot, st, i);
    if i == 0 {
      NothingMoved(c, s0, v, s0.sp.Open(st).line);
    } else {
      GcMoves(c, s0, v, hot, st, i - 1);
      GcTops(c, s0, v, hot, st, i - 1);
      GcRunKeeps(c, s0, v, hot, i - 1);
      var t := GcRun(c, s0, v, hot, i - 1).value;
      ToppedLine(s0.sp, t.sp, st, CopiedBy(c, s0, v, i - 1));
      OpenElsewhere(c, s0, v, st);
      if c.schedule[i - 1].Clean? {
        MoveOne(c, s0, t, v, hot, st, i - 1);
      } else {
        ErasesNoLpn(c, s0, t, v, hot, s0.sp.Open(st).line, i - 1);
      }
    }
  }

  // The LPNs of line v are on `line` now, the others where they were.
  ghost predicate MovedAll(before: map<nat, Page>, after: map<nat, Page>, v: nat, line: nat) {
    after.Keys == before.Keys && forall lpn :: lpn in before ==>
      if before[lpn].line == v then after[lpn].line == line else after[lpn] == before[lpn]
  }

  lemma CollectMoves(c: Config, u: Ftl, v: nat, hot: Page -> bool, st: Stream)
    requires c.Valid() && Inv(c, u, {}, {}) && Typed(u) && v in u.sp.victims && v < |u.sp.lines|
    requires forall p :: p in In(u.valid, v) ==> (if hot(p) then GcHot else GcCold) == st
    requires u.sp.Open(st).next + (c.ppl - u.sp.lines[v].ipc) < c.ppl
    ensures Collect(c, u, v, hot).Some?
    ensures MovedAll(u.maptbl, Collect(c, u, v, hot).value.maptbl, v, u.sp.Open(st).line)
  {
    hide Inv, GcRun, CopiedBy, GoodSchedule, Progress, Host, FreePages, EraseCounts, Topped, Stale, MovedSoFar;
    GoodConfig(c);
    TakeVictimKeeps(c, u, v);
    var s0, n := TakeVictim(u, v), |c.schedule|;
    GcMoves(c, s0, v, hot, st, n);
    AllMoved(c, s0, GcRun(c, s0, v, hot, n).value, v, u.sp.Open(st).line);
  }

  lemma AllMoved(c: Config, s0: Ftl, t: Ftl, v: nat, line: nat)
    requires c.Valid() && Inv(c, s0, {v}, {}) && MovedSoFar(c, s0, t, v, line, |c.schedule|)
    ensures MovedAll(s0.maptbl, t.maptbl, v, line)
  {
    hide Partition, Cleaned, GoodSchedule;
    forall lpn | lpn in s0.maptbl && s0.maptbl[lpn].line == v
      ensures s0.maptbl[lpn].slot in Cleaned(c.schedule, |c.schedule|)
    {
      assert s0.maptbl[lpn] in s0.valid;
      GoodConfig(c);
      AllCleaned(c, s0.maptbl[lpn].slot);
    }
  }

  // ----- the writes of the runs in FtlLimit -----

  // The page that the user's write pointer is at.
  function NextUser(s: Ftl): Page { Page(s.sp.user.line, s.sp.user.next) }

  lemma HostMoves(c: Config, s: Ftl, lpn: nat, v: Payload)
    requires Typed(s) && HostWrite(c, s, lpn, v).Some?
    ensures HostWrite(c, s, lpn, v).value.maptbl == s.maptbl[lpn := NextUser(s)]
  {
    hide Advance;
  }

  lemma RewriteMoves(c: Config, s: Ftl, n: nat, w: Shape, st: Stream, q: Request)
    requires c.Valid() && Looks(c, s, n, w) && Admissible(c, q)
    requires q.lpn in s.maptbl && s.maptbl[q.lpn].line == s.sp.Open(st).line
    requires s.sp.lines[s.sp.Open(st).line].vpc > 0
    requires w.un + 1 < c.ppl || (w.ui == 0 && st != UserIo && w.free > 0)
    ensures WriteStep(c, s, q).Some? && WriteStep(c, s, q).value.maptbl == s.maptbl[q.lpn := NextUser(s)]
  {
    hide Sound, WriteStep, StoreSpace, Admissible, Sane, LooksOpen, HostWrite;
    SaneIs(c, s);
    SoundTyped(c, s);
    RewriteSpace(c, s.sp, w, st);
    StepWithoutGc(c, s, q);
    HostMoves(c, s, q.lpn, q.v);
  }

  lemma ReclaimMoves(c: Config, s: Ftl, n: nat, w: Shape, x: nat, st: Stream, q: Request)
    requires c.Valid() && Looks(c, s, n, w) && x in s.sp.full && Admissible(c, q)
    requires q.lpn in s.maptbl && s.maptbl[q.lpn].line == x
    requires forall p :: p in In(s.valid, x) && p != s.maptbl[q.lpn] ==> (if q.hot(p) then GcHot else GcCold) == st
    requires 1 < c.ppl && w.un + 1 < c.ppl && w.free + 1 <= c.thres
    requires if st == GcHot then w.hn == w.hv == 0 else st == GcCold && w.cn == w.cv == 0
    ensures WriteStep(c, s, q).Some?
    ensures MovedAll(s.maptbl[q.lpn := NextUser(s)], WriteStep(c, s, q).value.maptbl, x, s.sp.Open(st).line)
  {
    hide Sound, WriteStep, StoreSpace, Admissible, Sane, LooksOpen, Inv, Typed, Collect, HostWrite, MovedAll;
    hide OldLine, Host, TypedSpace, In, Policy;
    SaneIs(c, s);
    SoundTyped(c, s);
    OldLineIs(s, q.lpn);
    FullSpace(c, s.sp, w, x);
    OnlyPick(c, q, StoreSpace(c, s.sp, Some(x)).value, x);
    var u := StepWithGc(c, s, q, x);
    LeftIn(c, s, q, u, x);
    Fresh(u.sp, w.(un := w.un + 1), st);
    HostMoves(c, s, q.lpn, q.v);
    CollectMoves(c, u, x, q.hot, st);
    SameStream(c, s.sp, x, st);
  }

  // Storing a page of a full line leaves the collection streams alone.
  lemma SameStream(c: Config, sp: Space, x: nat, st: Stream)
    requires TypedSpace(sp) && x < |sp.lines| && StoreSpace(c, sp, Some(x)).Some? && st != UserIo
    ensures StoreSpace(c, sp, Some(x)).value.Open(st) == sp.Open(st)
  {
  }

  // Which lines are open after a write: those from before, or a free one for the user.
  ghost predicate SameLines(sp: Space, t: Space) {
    t.hot.line == sp.hot.line && t.cold.line == sp.cold.line && (t.user.line == sp.user.line || t.user.line in sp.free)
  }

  lemma StoreLines(c: Config, sp: Space, from: nat)
    requires TypedSpace(sp) && from < |sp.lines| && StoreSpace(c, sp, Some(from)).Some?
    ensures var r := StoreSpace(c, sp, Some(from)).value;
            && SameLines(sp, r)
            && (sp.user.next + 1 < c.ppl ==> r.user.line == sp.user.line)
            && (sp.user.next + 1 >= c.ppl ==> r.user.line in sp.free)
  {
  }

  lemma RewriteLines(c: Config, s: Ftl, n: nat, w: Shape, st: Stream, q: Request)
    requires c.Valid() && Looks(c, s, n, w) && Admissible(c, q)
    requires q.lpn in s.maptbl && s.maptbl[q.lpn].line == s.sp.Open(st).line
    requires s.sp.lines[s.sp.Open(st).line].vpc > 0
    requires w.un + 1 < c.ppl || (w.ui == 0 && st != UserIo && w.free > 0)
    ensures WriteStep(c, s, q).Some? && SameLines(s.sp, WriteStep(c, s, q).value.sp)
    ensures var user := WriteStep(c, s, q).value.sp.user.line;
            if w.un + 1 < c.ppl then user == s.sp.user.line else user in s.sp.free
  {
    hide Sound, WriteStep, StoreSpace, Admissible, Sane, HostWrite, SameLines;
    SaneIs(c, s);
    SoundTyped(c, s);
    RewriteSpace(c, s.sp, w, st);
    StepWithoutGc(c, s, q);
    StoreLines(c, s.sp, s.sp.Open(st).line);
  }

  lemma ReclaimLines(c: Config, s: Ftl, n: nat, w: Shape, x: nat, st: Stream, q: Request)
    requires c.Valid() && Looks(c, s, n, w) && x in s.sp.full && Admissible(c, q)
    requires q.lpn in s.maptbl && s.maptbl[q.lpn].line == x
    requires forall p :: p in In(s.valid, x) && p != s.maptbl[q.lpn] ==> (if q.hot(p) then GcHot else GcCold) == st
    requires 1 < c.ppl && w.un + 1 < c.ppl && w.free + 1 <= c.thres
    requires if st == GcHot then w.hn == w.hv == 0 else st == GcCold && w.cn == w.cv == 0
    ensures WriteStep(c, s, q).Some?
    ensures var t := WriteStep(c, s, q).value.sp; SameLines(s.sp, t) && t.user.line == s.sp.user.line
  {
    hide Sound, WriteStep, StoreSpace, Admissible, Sane, LooksOpen, Inv, Typed, Collect, HostWrite, MovedAll;
    hide OldLine, Host, TypedSpace, In, Policy, Topped;
    SaneIs(c, s);
    SoundTyped(c, s);
    OldLineIs(s, q.lpn);
    FullSpace(c, s.sp, w, x);
    OnlyPick(c, q, StoreSpace(c, s.sp, Some(x)).value, x);
    var u := StepWithGc(c, s, q, x);
    LeftIn(c, s, q, u, x);
    Fresh(u.sp, w.(un := w.un + 1), st);
    CollectTops(c, u, x, q.hot, st);
    ToppedLines(u.sp.(victims := u.sp.victims - {x}), st, c.ppl - u.sp.lines[x].ipc);
  }

  lemma ToppedLines(sp: Space, st: Stream, m: nat)
    requires sp.Open(st).line < |sp.lines|
    ensures var t := Topped(sp, st, m);
            t.user.line == sp.user.line && t.hot.line == sp.hot.line && t.cold.line == sp.cold.line
  {
  }

  // ----- which LPNs a line holds -----

  lemma FreeIsEmpty(c: Config, s: Ftl, l: nat)
    requires Sound(c, s) && l in s.sp.free
    ensures In(s.valid, l) == {}
  {
    assert Places(s.sp, {}, l) == 1;
    assert Counted(s, l, 0);
  }

  lemma NoLpnOnFree(c: Config, s: Ftl, lpn: nat)
    requires Sound(c, s) && lpn in s.maptbl
    ensures s.maptbl[lpn].line !in s.sp.free
  {
    hide Sound;
    LpnValid(c, s, lpn);
    if s.maptbl[lpn].line in s.sp.free {
      FreeIsEmpty(c, s, s.maptbl[lpn].line);
    }
  }

  // A line with an LPN that is not open is full, while there is no candidate.
  lemma ClosedIsFull(c: Config, s: Ftl, lpn: nat)
    requires Sound(c, s) && lpn in s.maptbl && s.sp.victims == {}
    requires var l := s.maptbl[lpn].line; l != s.sp.user.line && l != s.sp.hot.line && l != s.sp.cold.line
    ensures s.maptbl[lpn].line in s.sp.full
  {
    NoLpnOnFree(c, s, lpn);
    assert s.maptbl[lpn] in s.valid;
    assert Places(s.sp, {}, s.maptbl[lpn].line) == 1;
  }

  lemma OpenValid(c: Config, s: Ftl, st: Stream)
    requires Sound(c, s)
    ensures s.sp.Open(st).line < |s.sp.lines|
    ensures s.sp.lines[s.sp.Open(st).line].vpc == |In(s.valid, s.sp.Open(st).line)|
  {
    OpenPlace(c, s.sp, {}, st);
    assert Counted(s, s.sp.Open(st).line, s.sp.Open(st).next);
  }

  // An open line without valid pages holds no LPN.
  lemma NoLpnOnEmpty(c: Config, s: Ftl, st: Stream, lpn: nat)
    requires Sound(c, s) && lpn in s.maptbl && s.sp.Open(st).line < |s.sp.lines|
    requires s.sp.lines[s.sp.Open(st).line].vpc == 0
    ensures s.maptbl[lpn].line != s.sp.Open(st).line
  {
    hide Sound;
    OpenValid(c, s, st);
    LpnValid(c, s, lpn);
  }

  lemma LpnValid(c: Config, s: Ftl, lpn: nat)
    requires Sound(c, s) && lpn in s.maptbl
    ensures s.maptbl[lpn] in In(s.valid, s.maptbl[lpn].line)
  {
  }

  // An open line with one valid page holds one LPN.
  lemma OneLpn(c: Config, s: Ftl, st: Stream, a: nat, b: nat)
    requires Sound(c, s) && a in s.maptbl && b in s.maptbl && s.sp.Open(st).line < |s.sp.lines|
    requires s.sp.lines[s.sp.Open(st).line].vpc == 1
    requires s.maptbl[a].line == s.maptbl[b].line == s.sp.Open(st).line
    ensures a == b
  {
    hide Sound, In;
    OpenValid(c, s, st);
    LpnValid(c, s, a);
    LpnValid(c, s, b);
    if s.maptbl[a] != s.maptbl[b] {
      Subset({s.maptbl[a], s.maptbl[b]}, In(s.valid, s.sp.Open(st).line));
    } else {
      Injective(c, s, a, b);
    }
  }

  lemma Injective(c: Config, s: Ftl, a: nat, b: nat)
    requires Sound(c, s) && a in s.maptbl && b in s.maptbl && s.maptbl[a] == s.maptbl[b]
    ensures a == b
  {
    assert s.rmap[s.maptbl[a]] == a && s.rmap[s.maptbl[b]] == b;
  }
}
