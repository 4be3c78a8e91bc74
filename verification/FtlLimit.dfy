/**
 Capacity is the exact limit. Whatever chooses the victims, there is a run over one LPN more, with a
 choice of routes, in which a copy or a write finds no free line; and writing the LPNs one after
 the other, once each, always ends without a free line, two lines before the physical capacity.
 */
module FtlLimit {
  import opened Wrappers
  import opened FtlModel
  import opened FtlInvariant
  import opened FtlSteps
  import opened FtlGc
  import opened FtlRuns

  ghost predicate AllAdmissible(c: Config, reqs: seq<Request>) {
    forall i :: 0 <= i < |reqs| ==> Admissible(c, reqs[i])
  }

  // ----- what a write does to line management -----

  // The line management after an LPN is stored: the old page's line, if any, is recounted, a page of
  // the user's line is counted, the user's write pointer moves.
  function StoreSpace(c: Config, sp: Space, from: Option<nat>): Option<Space>
    requires TypedSpace(sp) && (from.Some? ==> from.value < |sp.lines|)
  {
    var sp1 := if from.Some? then CountInvalid(c, sp, from.value) else sp;
    Advance(c, CountValid(sp1, sp1.user.line), UserIo)
  }

  function OldLine(s: Ftl, lpn: nat): Option<nat> {
    if lpn in s.maptbl then Some(s.maptbl[lpn].line) else None
  }

  lemma StoreSpaceIs(c: Config, s: Ftl, lpn: nat, v: Payload)
    requires Typed(s)
    ensures var r := StoreSpace(c, s.sp, OldLine(s, lpn)); var t := HostWrite(c, s, lpn, v);
            && (t.Some? <==> r.Some?)
            && (t.Some? ==> t.value.sp == r.value && t.value.ct.credits == s.ct.credits
                            && t.value.ct.refill == s.ct.refill)
  {
    hide Advance;
  }

  // An iteration after which no collection is due or possible: the credits run on, or are renewed,
  // or a single one is added.
  lemma StepWithoutGc(c: Config, s: Ftl, q: Request)
    requires c.Valid() && Sound(c, s) && Admissible(c, q)
    requires StoreSpace(c, s.sp, OldLine(s, q.lpn)).Some?
    requires var sp := StoreSpace(c, s.sp, OldLine(s, q.lpn)).value;
             s.ct.credits > 1 || |sp.free| > c.thres || sp.victims == {}
    ensures WriteStep(c, s, q).Some?
    ensures var sp := StoreSpace(c, s.sp, OldLine(s, q.lpn)).value; var t := WriteStep(c, s, q).value;
            && t.sp == sp
            && (s.ct.credits > 1 ==> t.ct.credits == s.ct.credits - 1 && t.ct.refill == s.ct.refill)
            && (s.ct.credits == 1 && |sp.free| > c.thres && s.ct.refill > 0 ==>
                  t.ct.credits == s.ct.refill == t.ct.refill)
            && (s.ct.credits == 1 && |sp.free| <= c.thres ==> t.ct.credits == 1)
    ensures HostWrite(c, s, q.lpn, q.v).Some?
    ensures WriteStep(c, s, q).value.maptbl == HostWrite(c, s, q.lpn, q.v).value.maptbl
  {
    hide Inv, Typed, StoreSpace, HostWrite, Collect, Policy, Conserved, FreePages, Host, EraseCounts, LastValid;
    StoreSpaceIs(c, s, q.lpn, q.v);
    StoreSound(c, s, q.lpn, q.v);
    var t := HostWrite(c, s, q.lpn, q.v).value;
    var u := t.(ct := t.ct.(credits := t.ct.credits - 1));
    if u.ct.credits == 0 {
      RefillCases(c, u, q.pick, q.hot);
    }
  }

  lemma StepFails(c: Config, s: Ftl, q: Request)
    requires c.Valid() && Sound(c, s) && Admissible(c, q)
    requires StoreSpace(c, s.sp, OldLine(s, q.lpn)).None?
    ensures WriteStep(c, s, q).None?
  {
    hide Inv, StoreSpace, HostWrite, RefillCredits, Policy;
    StoreSpaceIs(c, s, q.lpn, q.v);
  }

  // ----- writing each LPN once -----

  ghost predicate Once(reqs: seq<Request>) {
    forall i, j :: 0 <= i < j < |reqs| ==> reqs[i].lpn != reqs[j].lpn
  }

  // k lines are full of valid pages and the next one is being written; nothing else has happened.
  ghost predicate Filled(c: Config, s: Ftl, k: nat) {
    && k + |s.sp.free| + 3 == c.lines
    && s.sp.victims == {} && s.invalid == {}
    && s.sp.hot.next == 0 && s.sp.cold.next == 0
    && (if |s.sp.free| > c.thres then s.ct.credits == c.ppl - s.sp.user.next && s.ct.refill == c.ppl
        else s.ct.credits == 1)
  }

  // With no invalid page, the user's line has as many valid pages as were written to it.
  lemma UserLineValid(c: Config, s: Ftl)
    requires Inv(c, s, {}, {}) && s.invalid == {}
    ensures s.sp.user.line < |s.sp.lines| && s.sp.lines[s.sp.user.line].vpc == s.sp.user.next < c.ppl
  {
    OpenPlace(c, s.sp, {}, UserIo);
    assert Counted(s, s.sp.user.line, s.sp.user.next);
    assert In(s.invalid, s.sp.user.line) == {};
  }

  lemma FillSpace(c: Config, sp: Space)
    requires TypedSpace(sp) && sp.lines[sp.user.line].vpc == sp.user.next < c.ppl
    ensures var r := StoreSpace(c, sp, None);
            && (sp.user.next + 1 < c.ppl ==>
                  r.Some? && r.value.user == sp.user.(next := sp.user.next + 1) && r.value.free == sp.free
                  && r.value.victims == sp.victims && r.value.hot == sp.hot && r.value.cold == sp.cold)
            && (sp.user.next + 1 == c.ppl && sp.free == [] ==> r.None?)
            && (sp.user.next + 1 == c.ppl && sp.free != [] ==>
                  r.Some? && r.value.user == OpenLine(sp.free[0], 0) && r.value.free == sp.free[1..]
                  && r.value.victims == sp.victims && r.value.hot == sp.hot && r.value.cold == sp.cold)
  {
  }

  lemma StillNoInvalid(c: Config, s: Ftl, q: Request)
    requires Typed(s) && Admissible(c, q) && q.lpn !in s.maptbl && s.invalid == {} && WriteStep(c, s, q).Some?
    requires HostWrite(c, s, q.lpn, q.v).value.sp.victims == {}
    ensures WriteStep(c, s, q).value.invalid == {}
  {
    hide Advance, Collect;
  }

  // One more LPN for the first time.
  lemma FillStep(c: Config, s: Ftl, q: Request, k: nat)
    requires c.Valid() && Sound(c, s) && Filled(c, s, k) && Admissible(c, q) && q.lpn !in s.maptbl
    ensures s.sp.user.next < c.ppl
    ensures s.sp.user.next + 1 < c.ppl ==>
              && WriteStep(c, s, q).Some? && Filled(c, WriteStep(c, s, q).value, k)
              && WriteStep(c, s, q).value.sp.user.next == s.sp.user.next + 1
    ensures s.sp.user.next + 1 == c.ppl && s.sp.free != [] ==>
              && WriteStep(c, s, q).Some? && Filled(c, WriteStep(c, s, q).value, k + 1)
              && WriteStep(c, s, q).value.sp.user.next == 0
    ensures s.sp.user.next + 1 == c.ppl && s.sp.free == [] ==> WriteStep(c, s, q).None?
  {
    hide Inv, Typed, StoreSpace, HostWrite, WriteStep, Conserved, Policy;
    UserLineValid(c, s);
    SoundTyped(c, s);
    FillSpace(c, s.sp);
    if StoreSpace(c, s.sp, None).Some? {
      StepWithoutGc(c, s, q);
      StoreSpaceIs(c, s, q.lpn, q.v);
      WriteStepStored(c, s, q);
      StillNoInvalid(c, s, q);
    } else {
      StepFails(c, s, q);
    }
  }

  lemma SoundTyped(c: Config, s: Ftl)
    requires Sound(c, s)
    ensures Typed(s) && TypedSpace(s.sp)
  {
  }

  lemma WriteStepStored(c: Config, s: Ftl, q: Request)
    requires Typed(s) && Admissible(c, q) && WriteStep(c, s, q).Some?
    ensures HostWrite(c, s, q.lpn, q.v).Some?
  {
    hide HostWrite, RefillCredits;
  }

  lemma {:induction false} OnceTouched(reqs: seq<Request>)
    requires Once(reqs)
    ensures |Touched(reqs)| == |reqs|
  {
    if reqs == [] {
      NothingTouched();
    } else {
      var n := |reqs| - 1;
      OnceTouched(reqs[..n]);
      TouchedLess(reqs);
      NotTouched(reqs);
    }
  }

  lemma NotTouched(reqs: seq<Request>)
    requires Once(reqs) && reqs != []
    ensures reqs[|reqs| - 1].lpn !in Touched(reqs[..|reqs| - 1])
  {
  }

  // Writing n different LPNs, as long as they fit all lines but two.
  lemma {:induction false} FillRun(c: Config, reqs: seq<Request>) returns (k: nat)
    requires c.Valid() && AllAdmissible(c, reqs) && Once(reqs) && |reqs| < (c.lines - 2) * c.ppl
    ensures Run(c, reqs).Some?
    ensures var s := Run(c, reqs).value; Filled(c, s, k) && |reqs| == k * c.ppl + s.sp.user.next
  {
    hide Sound, WriteStep, Touched, Admissible, Filled;
    if reqs == [] {
      k := 0;
      InitFilled(c);
    } else {
      var pre := reqs[..|reqs| - 1];
      k := FillRun(c, pre);
      RunSound(c, pre);
      NotTouched(reqs);
      var s := Run(c, pre).value;
      FillStep(c, s, reqs[|reqs| - 1], k);
      if s.sp.user.next + 1 == c.ppl {
        Distributed(k, 1, c.ppl);
        FreeLeft(c, s, k);
        k := k + 1;
      }
    }
  }

  lemma InitFilled(c: Config)
    requires c.Valid()
    ensures Filled(c, Init(c), 0) && Init(c).sp.user.next == 0
  {
  }

  lemma FreeLeft(c: Config, s: Ftl, k: nat)
    requires Filled(c, s, k) && (k + 1) * c.ppl < (c.lines - 2) * c.ppl
    ensures s.sp.free != []
  {
  }

  /** Writing LPNs one after the other, once each, fails exactly when (tt_lines - 2) * pgs_per_line of
      them are to be written, with any victim policy and any routing: there is never a victim, and
      two of the three open lines are never used. */
  lemma FillingFails(c: Config, reqs: seq<Request>)
    requires c.Valid() && AllAdmissible(c, reqs) && Once(reqs)
    ensures Run(c, reqs).None? <==> |reqs| >= (c.lines - 2) * c.ppl
  {
    hide Admissible, WriteStep, Sound, Filled, Run;
    var n := (c.lines - 2) * c.ppl;
    if |reqs| < n {
      var k := FillRun(c, reqs);
    } else {
      AtLeast(c.lines - 2, 1, c.ppl);
      LastFillFails(c, reqs[..n]);
      PrefixFails(c, reqs, n);
    }
  }

  lemma LastFillFails(c: Config, reqs: seq<Request>)
    requires c.Valid() && AllAdmissible(c, reqs) && Once(reqs) && |reqs| == (c.lines - 2) * c.ppl > 0
    ensures Run(c, reqs).None?
  {
    hide Admissible, WriteStep, Sound, Touched;
    var pre := reqs[..|reqs| - 1];
    var k := FillRun(c, pre);
    var s := Run(c, pre).value;
    RunSound(c, pre);
    NotTouched(reqs);
    FillStep(c, s, reqs[|reqs| - 1], k);
    FullUp(c, s, k);
  }

  lemma FullUp(c: Config, s: Ftl, k: nat)
    requires Filled(c, s, k) && s.sp.user.next < c.ppl && k * c.ppl + s.sp.user.next + 1 == (c.lines - 2) * c.ppl
    ensures s.sp.user.next + 1 == c.ppl && s.sp.free == []
  {
    Distributed(c.lines - 3, 1, c.ppl);
    if k + 3 < c.lines {
      AtLeast(c.lines - 4, k, c.ppl);
      Distributed(c.lines - 4, 1, c.ppl);
    }
  }

  lemma {:induction false} PrefixFails(c: Config, reqs: seq<Request>, n: nat)
    requires c.Valid() && AllAdmissible(c, reqs) && n <= |reqs| && Run(c, reqs[..n]).None?
    ensures Run(c, reqs).None?
  {
    hide WriteStep, Admissible;
    if n < |reqs| {
      assert reqs[..|reqs| - 1][..n] == reqs[..n];
      PrefixFails(c, reqs[..|reqs| - 1], n);
    } else {
      assert reqs[..n] == reqs;
    }
  }

  // ----- one LPN too many -----

  /** How the driver chooses victims: a policy for each iteration, which may depend on the requests so
      far in any way. It is given, not chosen: whatever the mode, the clock and the agent make of it. */
  type Strategy = seq<Request> -> (Space -> nat)

  ghost predicate AllPolicies(strategy: Strategy) {
    forall reqs :: Policy(strategy(reqs))
  }

  ghost predicate Follows(strategy: Strategy, reqs: seq<Request>) {
    forall i :: 0 <= i < |reqs| ==> reqs[i].pick == strategy(reqs[..i])
  }

  ghost predicate Reaches(c: Config, strategy: Strategy, n: nat, reqs: seq<Request>, s: Ftl) {
    && c.Valid() && AllAdmissible(c, reqs) && Follows(strategy, reqs)
    && Touched(reqs) <= Below(n) && Run(c, reqs) == Some(s)
  }

  ghost predicate FailsWith(c: Config, strategy: Strategy, n: nat, reqs: seq<Request>) {
    && c.Valid() && AllAdmissible(c, reqs) && Follows(strategy, reqs)
    && Touched(reqs) <= Below(n) && Run(c, reqs).None?
  }

  // A state that a run over the first n LPNs reaches, and a run over them that fails.
  ghost predicate Reachable(c: Config, strategy: Strategy, n: nat, s: Ftl) {
    exists reqs :: Reaches(c, strategy, n, reqs, s)
  }

  ghost predicate CanFail(c: Config, strategy: Strategy, n: nat) {
    exists reqs :: FailsWith(c, strategy, n, reqs)
  }

  // The policy that the strategy follows after some run that reaches s.
  ghost predicate PicksNext(c: Config, strategy: Strategy, n: nat, s: Ftl, pick: Space -> nat) {
    Policy(pick) && exists reqs :: Reaches(c, strategy, n, reqs, s) && pick == strategy(reqs)
  }

  lemma NextPick(c: Config, strategy: Strategy, n: nat, s: Ftl) returns (pick: Space -> nat)
    requires AllPolicies(strategy) && Reachable(c, strategy, n, s)
    ensures PicksNext(c, strategy, n, s, pick)
  {
    hide Reaches, Policy;
    var reqs :| Reaches(c, strategy, n, reqs, s);
    pick := strategy(reqs);
  }

  lemma FollowsOne(strategy: Strategy, reqs: seq<Request>, q: Request)
    requires Follows(strategy, reqs) && q.pick == strategy(reqs)
    ensures Follows(strategy, reqs + [q]) && (reqs + [q])[..|reqs|] == reqs
  {
    var more := reqs + [q];
    forall i | 0 <= i < |more| ensures more[i].pick == strategy(more[..i]) {
      if i < |reqs| {
        assert more[..i] == reqs[..i];
      } else {
        assert more[..i] == reqs;
      }
    }
  }

  lemma ReachStep(c: Config, strategy: Strategy, n: nat, s: Ftl, q: Request)
    requires PicksNext(c, strategy, n, s, q.pick) && Typed(s) && Admissible(c, q) && q.lpn < n
    ensures WriteStep(c, s, q).Some? ==> Reachable(c, strategy, n, WriteStep(c, s, q).value)
    ensures WriteStep(c, s, q).None? ==> CanFail(c, strategy, n)
  {
    hide WriteStep, Typed, Admissible, Touched, Follows, Policy;
    var reqs :| Reaches(c, strategy, n, reqs, s) && q.pick == strategy(reqs);
    var more := reqs + [q];
    FollowsOne(strategy, reqs, q);
    TouchedLess(more);
    if WriteStep(c, s, q).Some? {
      assert Reaches(c, strategy, n, more, WriteStep(c, s, q).value);
    } else {
      assert FailsWith(c, strategy, n, more);
    }
  }

  // What the runs below look at: how many lines are free, and of each open line how many slots are
  // written; how many pages of the user's line are invalid, and how many of the others valid.
  datatype Shape = Shape(free: nat, un: nat, ui: nat, hn: nat, hv: nat, cn: nat, cv: nat)

  ghost predicate Looks(c: Config, s: Ftl, n: nat, w: Shape) {
    && Sound(c, s) && s.maptbl.Keys == Below(n) && n <= c.lpns
    && s.sp.victims == {} && s.ct.credits == 1 && |s.sp.free| == w.free <= c.thres
    && LooksOpen(s.sp, w)
  }

  ghost predicate LooksOpen(sp: Space, w: Shape) {
    && TypedSpace(sp)
    && sp.user.next == w.un && sp.lines[sp.user.line].ipc == w.ui
    && sp.hot.next == w.hn && sp.lines[sp.hot.line].vpc == w.hv
    && sp.cold.next == w.cn && sp.lines[sp.cold.line].vpc == w.cv
  }

  // What the invariant says of line management alone.
  ghost predicate Sane(c: Config, sp: Space) {
    && TypedSpace(sp) && |sp.lines| == c.lines
    && sp.user.line != sp.hot.line && sp.user.line != sp.cold.line && sp.hot.line != sp.cold.line
    && (forall st: Stream :: IsOpen(c, sp, st))
    && (forall i :: 0 <= i < |sp.free| ==> IsClosed(sp, sp.free[i], 0))
    && (forall l :: l in sp.full ==> IsClosed(sp, l, c.ppl))
  }

  // A line that is not open, with v valid pages and no invalid one.
  ghost predicate IsClosed(sp: Space, l: nat, v: nat) {
    && l < |sp.lines| && sp.lines[l].vpc == v && sp.lines[l].ipc == 0
    && l != sp.user.line && l != sp.hot.line && l != sp.cold.line
  }

  ghost predicate IsOpen(c: Config, sp: Space, st: Stream)
    requires TypedSpace(sp)
  {
    var o := sp.Open(st);
    && o.next < c.ppl && sp.lines[o.line].vpc + sp.lines[o.line].ipc == o.next
    && 0 <= sp.lines[o.line].vpc && 0 <= sp.lines[o.line].ipc
    && o.line !in sp.victims && o.line !in sp.full
  }

  lemma OpenIs(c: Config, s: Ftl, st: Stream)
    requires Sound(c, s)
    ensures IsOpen(c, s.sp, st)
  {
    OpenPlace(c, s.sp, {}, st);
    assert Counted(s, s.sp.Open(st).line, s.sp.Open(st).next);
  }

  lemma FreeIs(c: Config, s: Ftl, l: nat)
    requires Sound(c, s) && l in s.sp.free
    ensures l < c.lines == |s.sp.lines| && s.sp.lines[l].vpc == 0 && s.sp.lines[l].ipc == 0
    ensures l != s.sp.user.line && l != s.sp.hot.line && l != s.sp.cold.line
  {
    assert Places(s.sp, {}, l) == 1;
    assert Counted(s, l, 0);
  }

  lemma FullIs(c: Config, s: Ftl, l: nat)
    requires Sound(c, s) && l in s.sp.full
    ensures l < c.lines == |s.sp.lines| && s.sp.lines[l].vpc == c.ppl == |In(s.valid, l)| && s.sp.lines[l].ipc == 0
    ensures l != s.sp.user.line && l != s.sp.hot.line && l != s.sp.cold.line
  {
    assert Places(s.sp, {}, l) == 1;
    assert Counted(s, l, c.ppl);
  }

  // The three open lines are distinct, since each line is in one place only.
  lemma OpenApart(c: Config, sp: Space)
    requires Partition(c, sp, {})
    ensures |sp.lines| == c.lines && TypedSpace(sp)
    ensures sp.user.line != sp.hot.line && sp.user.line != sp.cold.line && sp.hot.line != sp.cold.line
  {
    assert Places(sp, {}, sp.user.line) == 1 && Places(sp, {}, sp.hot.line) == 1;
  }

  lemma SoundPartition(c: Config, s: Ftl)
    requires Sound(c, s)
    ensures Partition(c, s.sp, {})
  {
  }

  lemma SaneIs(c: Config, s: Ftl)
    requires Sound(c, s)
    ensures Sane(c, s.sp)
  {
    hide Sound, IsOpen;
    SoundPartition(c, s);
    OpenApart(c, s.sp);
    forall st: Stream ensures IsOpen(c, s.sp, st) {
      OpenIs(c, s, st);
    }
    forall i | 0 <= i < |s.sp.free| ensures IsClosed(s.sp, s.sp.free[i], 0) {
      FreeIs(c, s, s.sp.free[i]);
    }
    forall l | l in s.sp.full ensures IsClosed(s.sp, l, c.ppl) {
      FullIs(c, s, l);
    }
  }

  // A live page of a line that has one, and its LPN.
  lemma LiveIn(c: Config, s: Ftl, l: nat) returns (lpn: nat)
    requires Sound(c, s) && In(s.valid, l) != {}
    ensures lpn in s.maptbl && s.maptbl[lpn].line == l && OldLine(s, lpn) == Some(l)
  {
    var p :| p in In(s.valid, l);
    lpn := s.rmap[p];
  }

  lemma OpenHasLive(c: Config, s: Ftl, st: Stream)
    requires Sound(c, s) && TypedSpace(s.sp) && s.sp.lines[s.sp.Open(st).line].vpc > 0
    ensures In(s.valid, s.sp.Open(st).line) != {}
  {
    OpenPlace(c, s.sp, {}, st);
    assert Counted(s, s.sp.Open(st).line, s.sp.Open(st).next);
  }

  // ----- rewriting a page of an open line -----

  // One page of the stream's line becomes invalid, one page of the user's line is written.
  function Rewritten(c: Config, w: Shape, st: Stream): Shape {
    var w1 := match st
      case UserIo => w.(ui := w.ui + 1)
      case GcHot => w.(hv := if w.hv > 0 then w.hv - 1 else 0)
      case GcCold => w.(cv := if w.cv > 0 then w.cv - 1 else 0);
    if w.un + 1 < c.ppl then w1.(un := w.un + 1)
    else w1.(un := 0, ui := 0, free := if w.free > 0 then w.free - 1 else 0)
  }

  lemma RewriteSpace(c: Config, sp: Space, w: Shape, st: Stream)
    requires Sane(c, sp) && LooksOpen(sp, w) && sp.victims == {} && |sp.free| == w.free
    requires sp.lines[sp.Open(st).line].vpc > 0
    requires w.un + 1 < c.ppl || (w.ui == 0 && st != UserIo && w.free > 0)
    ensures var r := StoreSpace(c, sp, Some(sp.Open(st).line));
            && r.Some? && r.value.victims == {} && |r.value.free| == Rewritten(c, w, st).free
            && LooksOpen(r.value, Rewritten(c, w, st))
  {
    assert IsOpen(c, sp, st) && IsOpen(c, sp, UserIo);
  }

  // Storing an LPN whose page is on an open line, where no line is a candidate.
  lemma RewriteLooks(c: Config, s: Ftl, n: nat, w: Shape, st: Stream, q: Request)
    requires c.Valid() && Looks(c, s, n, w) && Admissible(c, q)
    requires q.lpn in s.maptbl && s.maptbl[q.lpn].line == s.sp.Open(st).line
    requires s.sp.lines[s.sp.Open(st).line].vpc > 0
    requires w.un + 1 < c.ppl || (w.ui == 0 && st != UserIo && w.free > 0)
    ensures WriteStep(c, s, q).Some? && Looks(c, WriteStep(c, s, q).value, n, Rewritten(c, w, st))
  {
    hide Sound, WriteStep, StoreSpace, Admissible, Sane, LooksOpen, Inv, Typed, Host, OldLine, TypedSpace;
    SaneIs(c, s);
    SoundTyped(c, s);
    OldLineIs(s, q.lpn);
    RewriteSpace(c, s.sp, w, st);
    StepWithoutGc(c, s, q);
    WriteStepSound(c, s, q);
    assert s.maptbl.Keys + {q.lpn} == s.maptbl.Keys;
  }

  /** Rewriting an LPN whose page is on an open line, where no line is a candidate. */
  lemma Rewrite(c: Config, strategy: Strategy, s: Ftl, n: nat, w: Shape, st: Stream) returns (t: Ftl)
    requires c.Valid() && AllPolicies(strategy) && Reachable(c, strategy, n, s) && Looks(c, s, n, w)
    requires s.sp.lines[s.sp.Open(st).line].vpc > 0
    requires w.un + 1 < c.ppl || (w.ui == 0 && st != UserIo && w.free > 0)
    ensures Reachable(c, strategy, n, t) && Looks(c, t, n, Rewritten(c, w, st))
  {
    hide Sound, WriteStep, PicksNext, Reachable, LooksOpen, AllPolicies, Policy, Rewritten, Config.Valid;
    SoundTyped(c, s);
    OpenHasLive(c, s, st);
    var lpn := LiveIn(c, s, s.sp.Open(st).line);
    var pick := NextPick(c, strategy, n, s);
    var q := Request(lpn, [], pick, (p: Page) => false);
    Picked(c, strategy, n, s, q);
    RewriteLooks(c, s, n, w, st, q);
    ReachStep(c, strategy, n, s, q);
    t := WriteStep(c, s, q).value;
  }

  lemma Picked(c: Config, strategy: Strategy, n: nat, s: Ftl, q: Request)
    requires PicksNext(c, strategy, n, s, q.pick) && q.lpn < c.lpns
    ensures Admissible(c, q)
  {
  }

  // ----- rewriting a page of a full line, and collecting that line -----

  // m more valid pages at the end of a stream's line.
  function Topped(sp: Space, st: Stream, m: nat): Space
    requires sp.Open(st).line < |sp.lines|
  {
    var o := sp.Open(st);
    sp.(lines := sp.lines[o.line := sp.lines[o.line].(vpc := sp.lines[o.line].vpc + m)])
    .SetOpen(st, o.(next := o.next + m))
  }

  // A page appended to a line that has room for one more after it.
  lemma AppendTops(c: Config, s: Ftl, st: Stream, lpn: nat, v: Payload, sp0: Space, m: nat)
    requires Typed(s) && sp0.Open(st).line < |sp0.lines| && s.sp == Topped(sp0, st, m)
    requires sp0.Open(st).next + m + 1 < c.ppl
    ensures Append(c, s, st, lpn, v).Some? && Append(c, s, st, lpn, v).value.sp == Topped(sp0, st, m + 1)
  {
  }

  lemma CopiedBound(c: Config, s0: Ftl, v: nat, i: nat)
    requires i <= |c.schedule|
    ensures CopiedBy(c, s0, v, i) <= |In(s0.valid, v)|
  {
    hide Cleaned;
    Subset(Inside(In(s0.valid, v), Cleaned(c.schedule, i)), In(s0.valid, v));
  }

  // All copies go to one stream whose line has room for them.
  lemma {:induction false} GcTops(c: Config, s0: Ftl, v: nat, hot: Page -> bool, st: Stream, i: nat)
    requires GoodSchedule(c.ppl, c.schedule) && i <= |c.schedule|
    requires Inv(c, s0, {v}, {}) && Typed(s0) && v < |s0.sp.lines|
    requires forall p :: p in In(s0.valid, v) ==> (if hot(p) then GcHot else GcCold) == st
    requires s0.sp.Open(st).next + |In(s0.valid, v)| < c.ppl
    ensures GcRun(c, s0, v, hot, i).Some?
    ensures s0.sp.Open(st).line < |s0.sp.lines|
    ensures GcRun(c, s0, v, hot, i).value.sp == Topped(s0.sp, st, CopiedBy(c, s0, v, i))
  {
    hide Inv, Progress, Stale, GcStep, GoodSchedule, CopiedBy, Append, Host, Typed, Topped, Cleaned, Erased, Without;
    TypedOpen(s0, st);
    if i == 0 {
      ProgressStart(c, s0, v);
      NothingCopied(c, s0, v);
      ToppedNone(s0.sp, st);
    } else {
      GcTops(c, s0, v, hot, st, i - 1);
      GcRunKeeps(c, s0, v, hot, i - 1);
      var t, e := GcRun(c, s0, v, hot, i - 1).value, c.schedule[i - 1];
      GcStepIs(c, t, v, hot, e);
      CopiedBound(c, s0, v, i);
      if e.Clean? {
        CleanedPage(c, s0, t, v, i - 1, e.slot);
        if Page(v, e.slot) in t.valid {
          var p, t1 := Page(v, e.slot), t.(ct := t.ct.(copied := t.ct.copied + 1));
          AppendTops(c, t1, st, t.rmap[p], t.data[p], s0.sp, CopiedBy(c, s0, v, i - 1));
        }
      } else {
        ErasesCopyNothing(c, s0, v, i);
      }
    }
  }

  lemma TypedOpen(s: Ftl, st: Stream)
    requires Typed(s)
    ensures s.sp.Open(st).line < |s.sp.lines|
  {
  }

  lemma ToppedNone(sp: Space, st: Stream)
    requires sp.Open(st).line < |sp.lines|
    ensures Topped(sp, st, 0) == sp
  {
  }

  lemma NothingCopied(c: Config, s0: Ftl, v: nat)
    ensures CopiedBy(c, s0, v, 0) == 0
  {
    assert Inside(In(s0.valid, v), Cleaned(c.schedule, 0)) == {};
  }

  lemma ErasesCopyNothing(c: Config, s0: Ftl, v: nat, i: nat)
    requires 0 < i <= |c.schedule| && c.schedule[i - 1].Erase?
    ensures CopiedBy(c, s0, v, i) == CopiedBy(c, s0, v, i - 1)
  {
  }

  lemma AllCopied(c: Config, s0: Ftl, t: Ftl, v: nat)
    requires GoodSchedule(c.ppl, c.schedule) && Inv(c, s0, {v}, {}) && Progress(c, s0, t, v, |c.schedule|)
    ensures CopiedBy(c, s0, v, |c.schedule|) == |In(s0.valid, v)|
  {
    hide Inv, Progress, GoodSchedule;
    SlotsBelow(c, s0, {v}, {});
    ErasedAll(c, s0, t, v);
  }

  // Collecting a candidate into one stream with room for all of it.
  lemma CollectTops(c: Config, u: Ftl, v: nat, hot: Page -> bool, st: Stream)
    requires c.Valid() && Inv(c, u, {}, {}) && Typed(u) && v in u.sp.victims && v < |u.sp.lines|
    requires forall p :: p in In(u.valid, v) ==> (if hot(p) then GcHot else GcCold) == st
    requires u.sp.Open(st).next + (c.ppl - u.sp.lines[v].ipc) < c.ppl
    ensures Collect(c, u, v, hot).Some?
    ensures var sp0 := u.sp.(victims := u.sp.victims - {v}); var m := c.ppl - u.sp.lines[v].ipc;
            && m >= 0 && sp0.Open(st).line < |sp0.lines|
            && var top := Topped(sp0, st, m);
               v < |top.lines| && Collect(c, u, v, hot).value.sp ==
               top.(lines := top.lines[v := Line(0, 0, top.lines[v].eraseCnt + 1)], free := top.free + [v])
  {
    hide Inv, GcRun, CopiedBy, GoodSchedule, Progress, Host, FreePages, EraseCounts, Topped, Stale;
    TakeVictimKeeps(c, u, v);
    var s0 := TakeVictim(u, v);
    GcTops(c, s0, v, hot, st, |c.schedule|);
    GcRunKeeps(c, s0, v, hot, |c.schedule|);
    AllCopied(c, s0, GcRun(c, s0, v, hot, |c.schedule|).value, v);
  }

  // The line management after a page of full line x was rewritten.
  lemma FullSpace(c: Config, sp: Space, w: Shape, x: nat)
    requires Sane(c, sp) && LooksOpen(sp, w) && sp.victims == {} && |sp.free| == w.free && x in sp.full
    requires w.un + 1 < c.ppl && 1 < c.ppl
    ensures x < |sp.lines|
    ensures var r := StoreSpace(c, sp, Some(x));
            && r.Some? && r.value.victims == {x} && r.value.free == sp.free && |r.value.lines| == |sp.lines|
            && r.value.lines[x].ipc == 1 && x != r.value.user.line && x != r.value.hot.line && x != r.value.cold.line
            && r.value.user.line == sp.user.line && r.value.hot == sp.hot && r.value.cold == sp.cold
            && LooksOpen(r.value, w.(un := w.un + 1))
  {
    assert IsClosed(sp, x, c.ppl) && IsOpen(c, sp, UserIo);
  }

  function Collected(c: Config, w: Shape, st: Stream): Shape
    requires c.ppl > 0
  {
    var w1 := w.(un := w.un + 1, free := w.free + 1);
    if st == GcHot then w1.(hn := c.ppl - 1, hv := c.ppl - 1) else w1.(cn := c.ppl - 1, cv := c.ppl - 1)
  }

  lemma CollectedSpace(c: Config, sp: Space, w: Shape, x: nat, st: Stream)
    requires c.ppl > 1 && TypedSpace(sp) && LooksOpen(sp, w.(un := w.un + 1)) && |sp.free| == w.free
    requires sp.victims == {x} && x < |sp.lines| && x != sp.user.line && x != sp.hot.line && x != sp.cold.line
    requires sp.user.line != sp.hot.line && sp.user.line != sp.cold.line && sp.hot.line != sp.cold.line
    requires if st == GcHot then w.hn == w.hv == 0 else st == GcCold && w.cn == w.cv == 0
    ensures var top := Topped(sp.(victims := {}), st, c.ppl - 1);
            && x < |top.lines|
            && var r := top.(lines := top.lines[x := Line(0, 0, top.lines[x].eraseCnt + 1)], free := top.free + [x]);
               r.victims == {} && |r.free| == w.free + 1 && LooksOpen(r, Collected(c, w, st))
  {
  }

  // An iteration that collects line x: the state u from which it does.
  lemma StepWithGc(c: Config, s: Ftl, q: Request, x: nat) returns (u: Ftl)
    requires c.Valid() && Sound(c, s) && Admissible(c, q) && s.ct.credits == 1
    requires StoreSpace(c, s.sp, OldLine(s, q.lpn)).Some?
    requires var sp := StoreSpace(c, s.sp, OldLine(s, q.lpn)).value;
             |sp.free| <= c.thres && x in sp.victims && q.pick(sp) == x
    ensures Inv(c, u, {}, {}) && Typed(u) && u.sp == StoreSpace(c, s.sp, OldLine(s, q.lpn)).value && x < |u.sp.lines|
    ensures Stored(c, s, q.lpn, q.v, u)
    ensures WriteStep(c, s, q).Some? <==> Collect(c, u, x, q.hot).Some?
    ensures WriteStep(c, s, q).Some? ==>
              var t := WriteStep(c, s, q).value;
              && t.sp == Collect(c, u, x, q.hot).value.sp && t.ct.credits == u.sp.lines[x].ipc
              && t.maptbl == Collect(c, u, x, q.hot).value.maptbl
  {
    hide Inv, Typed, StoreSpace, HostWrite, Collect, Policy, Conserved, FreePages, Host, EraseCounts, LastValid;
    StoreSpaceIs(c, s, q.lpn, q.v);
    StoreSound(c, s, q.lpn, q.v);
    var t := HostWrite(c, s, q.lpn, q.v).value;
    u := t.(ct := t.ct.(credits := t.ct.credits - 1));
    RefillCases(c, u, q.pick, q.hot);
    if Collect(c, u, x, q.hot).Some? {
      CollectKeeps(c, u, x, q.hot);
      GoodConfig(c);
    }
  }

  lemma GoodConfig(c: Config)
    requires c.Valid()
    ensures GoodSchedule(c.ppl, c.schedule)
  {
  }

  lemma FullHasLive(c: Config, s: Ftl, x: nat)
    requires Sound(c, s) && x in s.sp.full && 0 < c.ppl
    ensures In(s.valid, x) != {}
  {
    hide Sound;
    FullIs(c, s, x);
  }

  // Storing an LPN of a full line, with that line collected into a collection stream that is fresh.
  lemma ReclaimLooks(c: Config, s: Ftl, n: nat, w: Shape, x: nat, st: Stream, q: Request)
    requires c.Valid() && Looks(c, s, n, w) && x in s.sp.full && Admissible(c, q)
    requires q.lpn in s.maptbl && s.maptbl[q.lpn].line == x
    requires forall p :: p in In(s.valid, x) && p != s.maptbl[q.lpn] ==> (if q.hot(p) then GcHot else GcCold) == st
    requires 1 < c.ppl && w.un + 1 < c.ppl && w.free + 1 <= c.thres
    requires if st == GcHot then w.hn == w.hv == 0 else st == GcCold && w.cn == w.cv == 0
    ensures WriteStep(c, s, q).Some? && Looks(c, WriteStep(c, s, q).value, n, Collected(c, w, st))
  {
    hide Sound, WriteStep, StoreSpace, Admissible, Sane, LooksOpen, Inv, Typed, Collect, Topped, Collected;
    hide Stored, OldLine, Host, TypedSpace, In, Policy;
    SaneIs(c, s);
    SoundTyped(c, s);
    OldLineIs(s, q.lpn);
    FullSpace(c, s.sp, w, x);
    OnlyPick(c, q, StoreSpace(c, s.sp, Some(x)).value, x);
    var u := StepWithGc(c, s, q, x);
    LeftIn(c, s, q, u, x);
    Fresh(u.sp, w.(un := w.un + 1), st);
    CollectTops(c, u, x, q.hot, st);
    Apart(c, s.sp);
    assert u.sp.victims - {x} == {};
    CollectedSpace(c, u.sp, w, x, st);
    WriteStepSound(c, s, q);
    assert s.maptbl.Keys + {q.lpn} == s.maptbl.Keys;
    CollectedFree(c, w, st);
  }

  lemma OldLineIs(s: Ftl, lpn: nat)
    requires lpn in s.maptbl
    ensures OldLine(s, lpn) == Some(s.maptbl[lpn].line)
  {
  }

  lemma OnlyPick(c: Config, q: Request, sp: Space, x: nat)
    requires Admissible(c, q) && sp.victims == {x}
    ensures q.pick(sp) == x
  {
  }

  // What is left of a line after one of its LPNs was stored elsewhere.
  lemma LeftIn(c: Config, s: Ftl, q: Request, u: Ftl, x: nat)
    requires Stored(c, s, q.lpn, q.v, u) && q.lpn in s.maptbl && s.maptbl[q.lpn].line == x != s.sp.user.line
    ensures In(u.valid, x) == In(s.valid, x) - {s.maptbl[q.lpn]}
  {
    hide Advance;
  }

  /** Rewriting an LPN of a full line, with that line collected into a collection stream that is
      fresh: all its other pages move there, and one more line is free. */
  lemma Reclaim(c: Config, strategy: Strategy, s: Ftl, n: nat, w: Shape, x: nat, st: Stream) returns (t: Ftl)
    requires c.Valid() && AllPolicies(strategy) && Reachable(c, strategy, n, s) && Looks(c, s, n, w)
    requires x in s.sp.full && 1 < c.ppl && w.un + 1 < c.ppl && w.free + 1 <= c.thres
    requires if st == GcHot then w.hn == w.hv == 0 else st == GcCold && w.cn == w.cv == 0
    ensures Reachable(c, strategy, n, t) && Looks(c, t, n, Collected(c, w, st))
  {
    hide Sound, WriteStep, PicksNext, Reachable, LooksOpen, AllPolicies, Policy, Collected, In;
    SoundTyped(c, s);
    FullHasLive(c, s, x);
    var lpn := LiveIn(c, s, x);
    var pick := NextPick(c, strategy, n, s);
    var q := Request(lpn, [], pick, (p: Page) => st == GcHot);
    Picked(c, strategy, n, s, q);
    ReclaimLooks(c, s, n, w, x, st, q);
    ReachStep(c, strategy, n, s, q);
    t := WriteStep(c, s, q).value;
  }

  lemma CollectedFree(c: Config, w: Shape, st: Stream)
    requires c.ppl > 0
    ensures Collected(c, w, st).free == w.free + 1
  {
  }

  lemma Apart(c: Config, sp: Space)
    requires Sane(c, sp)
    ensures sp.user.line != sp.hot.line && sp.user.line != sp.cold.line && sp.hot.line != sp.cold.line
  {
  }

  lemma Fresh(sp: Space, w: Shape, st: Stream)
    requires LooksOpen(sp, w) && if st == GcHot then w.hn == 0 else st == GcCold && w.cn == 0
    ensures sp.Open(st).next == 0 && TypedSpace(sp)
  {
  }

  // Rewriting all pages of a collection stream's line: in the meantime the user fills one line.
  lemma {:induction false} Drain(c: Config, strategy: Strategy, s: Ftl, n: nat, w: Shape, st: Stream)
    returns (t: Ftl)
    requires c.Valid() && AllPolicies(strategy) && Reachable(c, strategy, n, s) && Looks(c, s, n, w)
    requires st != UserIo && w.ui == 0 && w.un < c.ppl && 1 < c.ppl
    requires var live := if st == GcHot then w.hv else w.cv;
             (w.un + live == c.ppl + 1 && w.free == 3) || (w.un + live == 1 && w.free == 2)
    ensures Reachable(c, strategy, n, t)
    ensures Looks(c, t, n, if st == GcHot then w.(un := 1, free := 2, hv := 0) else w.(un := 1, free := 2, cv := 0))
    decreases if st == GcHot then w.hv else w.cv
  {
    hide Sound, Reachable, AllPolicies;
    var live := if st == GcHot then w.hv else w.cv;
    if live == 0 {
      t := s;
    } else {
      var s1 := Rewrite(c, strategy, s, n, w, st);
      t := Drain(c, strategy, s1, n, Rewritten(c, w, st), st);
    }
  }

  // Rewriting the one live page of the user's line until its last slot is next.
  lemma {:induction false} Waste(c: Config, strategy: Strategy, s: Ftl, n: nat, w: Shape) returns (t: Ftl)
    requires c.Valid() && AllPolicies(strategy) && Reachable(c, strategy, n, s) && Looks(c, s, n, w)
    requires w.ui + 1 == w.un < c.ppl
    ensures Reachable(c, strategy, n, t) && Looks(c, t, n, w.(un := c.ppl - 1, ui := c.ppl - 2))
    decreases c.ppl - w.un
  {
    hide Sound, Reachable, AllPolicies;
    if w.un + 1 == c.ppl {
      t := s;
    } else {
      OpenIs(c, s, UserIo);
      var s1 := Rewrite(c, strategy, s, n, w, UserIo);
      t := Waste(c, strategy, s1, n, Rewritten(c, w, UserIo));
    }
  }

  // ----- a collection into two streams with one slot left each, and one free line -----

  lemma AppendCounts(c: Config, s: Ftl, st: Stream, lpn: nat, v: Payload)
    requires Typed(s) && Append(c, s, st, lpn, v).Some? && st != UserIo
    ensures var sp, r := s.sp, Append(c, s, st, lpn, v).value.sp; var last := sp.Open(st).next + 1 >= c.ppl;
            && |r.free| == |sp.free| - Bit(last)
            && r.Open(st).next == (if last then 0 else sp.Open(st).next + 1)
            && (st != GcHot ==> r.hot == sp.hot) && (st != GcCold ==> r.cold == sp.cold)
  {
  }

  // With one page routed to the hot stream and all others to the cold one: the lines taken so far.
  ghost predicate Taken(c: Config, sp: Space, hc: nat, cc: int) {
    && cc >= 0 && |sp.free| == 1 - Bit(hc > 0) - Bit(cc > 0)
    && (hc == 0 ==> sp.hot.next + 1 == c.ppl)
    && (if cc == 0 then sp.cold.next + 1 == c.ppl else sp.cold.next + 1 == cc)
  }

  function HotCopies(c: Config, p: Page, i: nat): nat
    requires i <= |c.schedule|
  {
    Bit(p.slot in Cleaned(c.schedule, i))
  }

  // Of the pages of line v, p alone is hot.
  ghost predicate OneHot(s0: Ftl, v: nat, hot: Page -> bool, p: Page) {
    p in In(s0.valid, v) && forall q :: q in In(s0.valid, v) ==> (hot(q) <==> q == p)
  }

  lemma {:induction false} SplitRun(c: Config, s0: Ftl, v: nat, hot: Page -> bool, p: Page, i: nat)
    requires GoodSchedule(c.ppl, c.schedule) && i <= |c.schedule|
    requires Inv(c, s0, {v}, {}) && Typed(s0) && v < |s0.sp.lines|
    requires OneHot(s0, v, hot, p) && |In(s0.valid, v)| < c.ppl && Taken(c, s0.sp, 0, 0)
    requires GcRun(c, s0, v, hot, i).Some?
    ensures Taken(c, GcRun(c, s0, v, hot, i).value.sp, HotCopies(c, p, i),
                  CopiedBy(c, s0, v, i) - HotCopies(c, p, i))
  {
    hide Inv, Progress, Stale, GcStep, GoodSchedule, CopiedBy, Append, Host, Typed;
    if i == 0 {
      NothingCopied(c, s0, v);
    } else {
      SplitRun(c, s0, v, hot, p, i - 1);
      GcRunKeeps(c, s0, v, hot, i - 1);
      var t, e := GcRun(c, s0, v, hot, i - 1).value, c.schedule[i - 1];
      GcStepIs(c, t, v, hot, e);
      CopiedBound(c, s0, v, i);
      if e.Clean? {
        CleanedPage(c, s0, t, v, i - 1, e.slot);
        if Page(v, e.slot) in t.valid {
          var q, t1 := Page(v, e.slot), t.(ct := t.ct.(copied := t.ct.copied + 1));
          AppendCounts(c, t1, if q == p then GcHot else GcCold, t.rmap[q], t.data[q]);
        }
      } else {
        ErasesCopyNothing(c, s0, v, i);
      }
    }
  }

  lemma AllCleaned(c: Config, k: nat)
    requires GoodSchedule(c.ppl, c.schedule) && k < c.ppl
    ensures k in Cleaned(c.schedule, |c.schedule|)
  {
    ErasedWasCleaned(c.ppl, c.schedule, |c.schedule|);
  }

  // A candidate with two valid pages or more, one of them hot, cannot be collected.
  lemma SplitFails(c: Config, u: Ftl, x: nat, hot: Page -> bool, p: Page)
    requires c.Valid() && Inv(c, u, {}, {}) && Typed(u) && x in u.sp.victims && x < |u.sp.lines|
    requires 2 <= c.ppl - u.sp.lines[x].ipc && Taken(c, u.sp, 0, 0) && OneHot(u, x, hot, p)
    ensures Collect(c, u, x, hot).None?
  {
    hide Inv, GcRun, CopiedBy, GoodSchedule, Progress, Host, FreePages, EraseCounts, Stale, Cleaned;
    GoodConfig(c);
    TakeVictimKeeps(c, u, x);
    var s0, n := TakeVictim(u, x), |c.schedule|;
    if GcRun(c, s0, x, hot, n).Some? {
      SplitRun(c, s0, x, hot, p, n);
      GcRunKeeps(c, s0, x, hot, n);
      AllCopied(c, s0, GcRun(c, s0, x, hot, n).value, x);
      SlotsBelow(c, s0, {x}, {});
      AllCleaned(c, p.slot);
      assert false;
    }
  }

  // The line management after a page of full line x was rewritten into the user's last slot: each
  // candidate still has two valid pages.
  lemma LastSpace(c: Config, sp: Space, w: Shape, x: nat)
    requires Sane(c, sp) && LooksOpen(sp, w) && sp.victims == {} && |sp.free| == 2 && x in sp.full
    requires w.un + 1 == c.ppl && 0 < w.ui < w.un && w.hn + 1 == w.cn + 1 == c.ppl && 3 <= c.ppl
    ensures x < |sp.lines|
    ensures var r := StoreSpace(c, sp, Some(x));
            && r.Some? && r.value.victims == {x, sp.user.line} && Taken(c, r.value, 0, 0)
            && |r.value.lines| == |sp.lines| && r.value.lines[sp.user.line].ipc == w.ui
            && (forall l :: l in r.value.victims ==> l < |sp.lines| && 2 <= c.ppl - r.value.lines[l].ipc)
  {
    assert IsClosed(sp, x, c.ppl) && IsOpen(c, sp, UserIo);
  }

  // A candidate with two valid pages has one.
  lemma OthersLive(c: Config, u: Ftl, x: nat) returns (p: Page)
    requires Inv(c, u, {}, {}) && Typed(u) && x in u.sp.victims && x < |u.sp.lines|
    requires 2 <= c.ppl - u.sp.lines[x].ipc
    ensures p in In(u.valid, x)
  {
    hide Inv, Host, FreePages;
    TakeVictimKeeps(c, u, x);
    p :| p in In(u.valid, x);
  }

  // The end: a page of full line x rewritten into the last slot of the user's line. The strategy may
  // collect x or the user's line; either way one page that goes to the hot stream is too many.
  lemma Exhaust(c: Config, strategy: Strategy, s: Ftl, n: nat, w: Shape, x: nat)
    requires c.Valid() && AllPolicies(strategy) && Reachable(c, strategy, n, s) && Looks(c, s, n, w)
    requires x in s.sp.full && 3 <= c.ppl
    requires w.free == 2 && w.un + 1 == c.ppl && 0 < w.ui < w.un && w.hn + 1 == w.cn + 1 == c.ppl
    ensures CanFail(c, strategy, n)
  {
    hide Sound, WriteStep, StoreSpace, Admissible, Sane, Reachable, LooksOpen, Inv, Typed, Collect, Taken, CanFail;
    hide AllPolicies, PicksNext, In, Policy;
    SaneIs(c, s);
    SoundTyped(c, s);
    FullHasLive(c, s, x);
    var lpn := LiveIn(c, s, x);
    LastSpace(c, s.sp, w, x);
    var pick := NextPick(c, strategy, n, s);
    var sp := StoreSpace(c, s.sp, Some(x)).value;
    var v := pick(sp);
    TakenFree(c, sp);
    var q0 := Request(lpn, [], pick, Routing({}));
    Picked(c, strategy, n, s, q0);
    PickIn(c, q0, sp);
    var u0 := StepWithGc(c, s, q0, v);
    var p := OthersLive(c, u0, v);
    var q := Request(lpn, [], pick, Routing({p}));
    Picked(c, strategy, n, s, q);
    var u := StepWithGc(c, s, q, v);
    assert u == u0;
    SplitFails(c, u, v, q.hot, p);
    ReachStep(c, strategy, n, s, q);
  }

  lemma PickIn(c: Config, q: Request, sp: Space)
    requires Admissible(c, q) && sp.victims != {}
    ensures q.pick(sp) in sp.victims
  {
  }

  lemma TakenFree(c: Config, sp: Space)
    requires Taken(c, sp, 0, 0)
    ensures |sp.free| == 1
  {
  }

  // ----- the run -----

  // Writing the first n LPNs in order.
  ghost function Sequential(strategy: Strategy, n: nat): (reqs: seq<Request>)
    ensures |reqs| == n && forall i :: 0 <= i < n ==> reqs[i].lpn == i
  {
    if n == 0 then []
    else
      var reqs := Sequential(strategy, n - 1);
      reqs + [Request(n - 1, [], strategy(reqs), (p: Page) => false)]
  }

  lemma {:induction false} SequentialFollows(c: Config, strategy: Strategy, n: nat)
    requires AllPolicies(strategy) && n <= c.lpns
    ensures AllAdmissible(c, Sequential(strategy, n)) && Follows(strategy, Sequential(strategy, n))
  {
    hide Policy;
    if n > 0 {
      SequentialFollows(c, strategy, n - 1);
      var reqs := Sequential(strategy, n - 1);
      FollowsOne(strategy, reqs, Sequential(strategy, n)[n - 1]);
    }
  }

  lemma SequentialIs(c: Config, strategy: Strategy, n: nat)
    requires AllPolicies(strategy) && n <= c.lpns
    ensures AllAdmissible(c, Sequential(strategy, n)) && Follows(strategy, Sequential(strategy, n))
    ensures Once(Sequential(strategy, n)) && Touched(Sequential(strategy, n)) == Below(n)
  {
    hide AllAdmissible, Follows, AllPolicies;
    SequentialFollows(c, strategy, n);
    var reqs := Sequential(strategy, n);
    forall x | x in Below(n) ensures x in Touched(reqs) {
      assert reqs[x].lpn == x;
    }
    forall x | x in Touched(reqs) ensures x in Below(n) {
      var i :| 0 <= i < n && reqs[i].lpn == x;
    }
  }

  // The lines that n pages fill.
  lemma WholeLines(a: nat, b: nat, r: nat, n: nat)
    requires 1 < n && r < n && a * n + 1 == b * n + r
    ensures a == b && r == 1
  {
    if a < b {
      AtLeast(b, a + 1, n);
      Distributed(a, 1, n);
    } else if b < a {
      AtLeast(a, b + 1, n);
      Distributed(b, 1, n);
    }
  }

  // Full lines, and at most one page of the next.
  lemma FilledLooks(c: Config, s: Ftl, n: nat, k: nat)
    requires c.Valid() && Sound(c, s) && Filled(c, s, k) && s.maptbl.Keys == Below(n) && n <= c.lpns
    requires c.lines <= k + 5 && s.sp.user.next <= 1 < c.ppl
    ensures Looks(c, s, n, Shape(|s.sp.free|, s.sp.user.next, 0, 0, 0, 0, 0)) && |s.sp.free| + k + 3 == c.lines
  {
    OpenIs(c, s, UserIo);
    OpenIs(c, s, GcHot);
    OpenIs(c, s, GcCold);
    hide Sound;
    SoundTyped(c, s);
    UserLineFull(c, s);
  }

  lemma UserLineFull(c: Config, s: Ftl)
    requires Sound(c, s) && s.invalid == {}
    ensures s.sp.user.line < |s.sp.lines| && s.sp.lines[s.sp.user.line].vpc == s.sp.user.next
  {
    hide FreePages, EraseCounts, Typed;
    UserLineValid(c, s);
  }

  // The state after n different LPNs were written in order.
  lemma FillAll(c: Config, strategy: Strategy, n: nat) returns (s: Ftl, k: nat)
    requires c.Valid() && AllPolicies(strategy) && n < (c.lines - 2) * c.ppl && n <= c.lpns
    ensures Reachable(c, strategy, n, s) && Sound(c, s) && Filled(c, s, k) && s.maptbl.Keys == Below(n)
    ensures n == k * c.ppl + s.sp.user.next && s.sp.user.next < c.ppl
  {
    hide Sound, Filled, Touched, AllAdmissible, Run, AllPolicies, Follows;
    var reqs := Sequential(strategy, n);
    SequentialIs(c, strategy, n);
    s, k := FillState(c, reqs);
    assert Reaches(c, strategy, n, reqs, s);
  }

  lemma FillState(c: Config, reqs: seq<Request>) returns (s: Ftl, k: nat)
    requires c.Valid() && AllAdmissible(c, reqs) && Once(reqs) && |reqs| < (c.lines - 2) * c.ppl
    ensures Run(c, reqs) == Some(s) && Sound(c, s) && Filled(c, s, k) && s.maptbl.Keys == Touched(reqs)
    ensures |reqs| == k * c.ppl + s.sp.user.next && s.sp.user.next < c.ppl
  {
    hide Sound, Filled, Touched, Admissible, Run;
    k := FillRun(c, reqs);
    RunSound(c, reqs);
    s := Run(c, reqs).value;
    NextInLine(c, s);
  }

  // Filling all lines but five, and one page more.
  lemma FillTheMost(c: Config, strategy: Strategy, n: nat) returns (s: Ftl)
    requires c.Valid() && AllPolicies(strategy) && 1 < c.ppl && n == (c.lines - 5) * c.ppl + 1
    ensures Reachable(c, strategy, n, s) && Looks(c, s, n, Shape(2, 1, 0, 0, 0, 0, 0))
  {
    hide Sound, Touched, AllAdmissible, Run, Looks, AllPolicies, Follows;
    var reqs := Sequential(strategy, n);
    FewEnough(c, n);
    SequentialIs(c, strategy, n);
    s := FillLooks(c, reqs, n);
    assert Reaches(c, strategy, n, reqs, s);
  }

  lemma FillLooks(c: Config, reqs: seq<Request>, n: nat) returns (s: Ftl)
    requires c.Valid() && 1 < c.ppl && n == (c.lines - 5) * c.ppl + 1
    requires AllAdmissible(c, reqs) && Once(reqs) && Touched(reqs) == Below(n) && |reqs| == n
    ensures Run(c, reqs) == Some(s) && Looks(c, s, n, Shape(2, 1, 0, 0, 0, 0, 0))
  {
    hide Sound, Filled, Touched, Admissible, Run, Looks;
    FewEnough(c, n);
    var k;
    s, k := FillState(c, reqs);
    WholeLines(c.lines - 5, k, s.sp.user.next, c.ppl);
    FilledLooks(c, s, n, k);
  }

  lemma NextInLine(c: Config, s: Ftl)
    requires Sound(c, s)
    ensures s.sp.user.next < c.ppl
  {
  }

  lemma FewEnough(c: Config, n: nat)
    requires c.Valid() && 1 < c.ppl && n == (c.lines - 5) * c.ppl + 1
    ensures n < (c.lines - 2) * c.ppl && n <= c.lpns
  {
    Distributed(c.lines - 5, 3, c.ppl);
    Distributed(c.lines - 5, 5, c.ppl);
  }

  lemma SomeFull(c: Config, s: Ftl, n: nat, w: Shape) returns (x: nat)
    requires Looks(c, s, n, w) && w.free + 3 < c.lines
    ensures x in s.sp.full
  {
    SoundInv(c, s);
    FullLines(c, s);
    x :| x in s.sp.full;
  }

  lemma SoundInv(c: Config, s: Ftl)
    requires Sound(c, s)
    ensures Inv(c, s, {}, {})
  {
  }

  // With pgs_per_line at least 3: a choice of LPNs and routes leaves each collection stream with one
  // slot of an otherwise invalid line, the user with the last slot of one, and two free lines; storing
  // one more page takes one of them, and collecting any candidate there is then needs two.
  lemma LongLinesFail(c: Config, strategy: Strategy, n: nat)
    requires c.Valid() && AllPolicies(strategy) && 3 <= c.ppl && n == (c.lines - 5) * c.ppl + 1
    ensures CanFail(c, strategy, n)
  {
    hide Looks, Reachable, CanFail, Config.Valid, AllPolicies;
    Sizes(c);
    var w := Shape(2, 1, 0, 0, 0, 0, 0);
    var s := FillTheMost(c, strategy, n);
    var x := SomeFull(c, s, n, w);
    s := Reclaim(c, strategy, s, n, w, x, GcHot);
    w := Collected(c, w, GcHot);
    s := Drain(c, strategy, s, n, w, GcHot);
    w := w.(un := 1, free := 2, hv := 0);
    x := SomeFull(c, s, n, w);
    s := Reclaim(c, strategy, s, n, w, x, GcCold);
    w := Collected(c, w, GcCold);
    s := Drain(c, strategy, s, n, w, GcCold);
    w := w.(un := 1, free := 2, cv := 0);
    s := Waste(c, strategy, s, n, w);
    w := w.(un := c.ppl - 1, ui := c.ppl - 2);
    x := SomeFull(c, s, n, w);
    Exhaust(c, strategy, s, n, w, x);
  }

  lemma Sizes(c: Config)
    requires c.Valid()
    ensures 7 <= c.lines && 3 <= c.thres && Capacity(c) >= 0
  {
    AtLeast(c.lines - 5, 1, c.ppl);
  }

  // ----- lines of one page or two -----

  // With one page in a line, the LPNs fill all lines but the open ones; writing any of them again finds
  // no line.
  lemma SinglePagesFail(c: Config, strategy: Strategy, n: nat)
    requires c.Valid() && AllPolicies(strategy) && c.ppl == 1 && n == c.lines - 3
    ensures CanFail(c, strategy, n)
  {
    hide Sound, Filled, Reachable, AllPolicies, PicksNext, WriteStep, CanFail, Admissible, Policy;
    var s, k := FillAll(c, strategy, n);
    NoLineLeft(c, s, k);
    var pick := NextPick(c, strategy, n, s);
    var q := Request(0, [], pick, Routing({}));
    Picked(c, strategy, n, s, q);
    NoneStored(c, s, OldLine(s, 0));
    StepFails(c, s, q);
    ReachStep(c, strategy, n, s, q);
  }

  lemma NoLineLeft(c: Config, s: Ftl, k: nat)
    requires Sound(c, s) && Filled(c, s, k) && k + 3 == c.lines
    ensures s.sp.free == [] && Typed(s)
  {
  }

  lemma NoneStored(c: Config, s: Ftl, from: Option<nat>)
    requires Typed(s) && s.sp.free == [] && s.sp.user.next + 1 >= c.ppl && (from.Some? ==> from.value < |s.sp.lines|)
    ensures StoreSpace(c, s.sp, from).None?
  {
  }

  // The line management after one page was appended to a stream's line.
  function Grown(c: Config, sp: Space, st: Stream): Option<Space>
    requires TypedSpace(sp)
  {
    Advance(c, CountValid(sp, sp.Open(st).line), st)
  }

  lemma AppendGrows(c: Config, s: Ftl, st: Stream, lpn: nat, v: Payload)
    requires Typed(s)
    ensures Append(c, s, st, lpn, v).Some? <==> Grown(c, s.sp, st).Some?
    ensures Append(c, s, st, lpn, v).Some? ==> Append(c, s, st, lpn, v).value.sp == Grown(c, s.sp, st).value
  {
  }

  // Collecting a line with a single valid page.
  lemma {:induction false} OneCopyRun(c: Config, s0: Ftl, v: nat, hot: Page -> bool, st: Stream, i: nat)
    requires GoodSchedule(c.ppl, c.schedule) && i <= |c.schedule|
    requires Inv(c, s0, {v}, {}) && Typed(s0) && v < |s0.sp.lines| && |In(s0.valid, v)| <= 1
    requires forall p :: p in In(s0.valid, v) ==> (if hot(p) then GcHot else GcCold) == st
    ensures var r := if CopiedBy(c, s0, v, i) == 0 then Some(s0.sp) else Grown(c, s0.sp, st);
            && (GcRun(c, s0, v, hot, i).Some? <==> r.Some?)
            && (r.Some? ==> GcRun(c, s0, v, hot, i).value.sp == r.value)
  {
    hide Inv, Progress, Stale, GcStep, GoodSchedule, CopiedBy, Append, Host, Typed, Grown, Cleaned, Erased, Without;
    TypedOpen(s0, st);
    if i == 0 {
      NothingCopied(c, s0, v);
    } else {
      OneCopyRun(c, s0, v, hot, st, i - 1);
      CopiedBound(c, s0, v, i);
      if GcRun(c, s0, v, hot, i - 1).Some? {
        GcRunKeeps(c, s0, v, hot, i - 1);
        var t, e := GcRun(c, s0, v, hot, i - 1).value, c.schedule[i - 1];
        GcStepIs(c, t, v, hot, e);
        if e.Clean? {
          CleanedPage(c, s0, t, v, i - 1, e.slot);
          if Page(v, e.slot) in t.valid {
            var p, t1 := Page(v, e.slot), t.(ct := t.ct.(copied := t.ct.copied + 1));
            AppendGrows(c, t1, st, t.rmap[p], t.data[p]);
          }
        } else {
          ErasesCopyNothing(c, s0, v, i);
        }
      } else {
        MoreCopied(c, s0, v, i);
      }
    }
  }

  lemma MoreCopied(c: Config, s0: Ftl, v: nat, i: nat)
    requires 0 < i <= |c.schedule|
    ensures CopiedBy(c, s0, v, i - 1) <= CopiedBy(c, s0, v, i)
  {
    Subset(Inside(In(s0.valid, v), Cleaned(c.schedule, i - 1)), Inside(In(s0.valid, v), Cleaned(c.schedule, i)));
  }

  lemma CollectOne(c: Config, u: Ftl, v: nat, hot: Page -> bool, st: Stream)
    requires c.Valid() && Inv(c, u, {}, {}) && Typed(u) && v in u.sp.victims && v < |u.sp.lines|
    requires c.ppl - u.sp.lines[v].ipc == 1
    requires forall p :: p in In(u.valid, v) ==> (if hot(p) then GcHot else GcCold) == st
    ensures var r := Grown(c, u.sp.(victims := u.sp.victims - {v}), st);
            && (Collect(c, u, v, hot).Some? <==> r.Some?)
            && (r.Some? ==> v < |r.value.lines| && Collect(c, u, v, hot).value.sp == Freed(r.value, v))
  {
    hide Inv, GcRun, CopiedBy, GoodSchedule, Progress, Host, FreePages, EraseCounts, Stale, Cleaned, Grown;
    GoodConfig(c);
    TakeVictimKeeps(c, u, v);
    var s0, n := TakeVictim(u, v), |c.schedule|;
    OneCopyRun(c, s0, v, hot, st, n);
    if GcRun(c, s0, v, hot, n).Some? {
      GcRunKeeps(c, s0, v, hot, n);
      AllCopied(c, s0, GcRun(c, s0, v, hot, n).value, v);
    }
  }

  // The line management after line v was freed.
  function Freed(sp: Space, v: nat): Space
    requires v < |sp.lines|
  {
    sp.(lines := sp.lines[v := Line(0, 0, sp.lines[v].eraseCnt + 1)], free := sp.free + [v])
  }

  // Both collection streams at the last of two slots, the other one invalid, and one line free: a page
  // of a full line is stored, and the other one goes to the hot stream.
  lemma PairSpace(c: Config, sp: Space, w: Shape, x: nat)
    requires c.ppl == 2 && Sane(c, sp) && LooksOpen(sp, w) && sp.victims == {} && |sp.free| == 1 && x in sp.full
    requires w == Shape(1, 0, 0, 1, 0, 1, 0)
    ensures x < |sp.lines| && StoreSpace(c, sp, Some(x)).Some?
    ensures var r1 := StoreSpace(c, sp, Some(x)).value;
            && r1.victims == {x} && |r1.free| == 1 && |r1.lines| == |sp.lines| && r1.lines[x].ipc == 1
            && var g := Grown(c, r1.(victims := {}), GcHot);
               && g.Some? && |g.value.lines| == |sp.lines|
               && OneSlotLeft(c, Freed(g.value, x), sp.hot.line) && Freed(g.value, x).full == sp.full - {x}
  {
    assert IsClosed(sp, x, c.ppl) && IsOpen(c, sp, UserIo) && IsOpen(c, sp, GcHot) && IsOpen(c, sp, GcCold);
    assert IsClosed(sp, sp.free[0], 0);
  }

  // The only candidate has one valid page; the user's line is full but for its last slot, and so is the
  // cold stream's.
  ghost predicate OneSlotLeft(c: Config, sp: Space, v: nat) {
    && TypedSpace(sp) && sp.victims == {v} && v < |sp.lines| && c.ppl - sp.lines[v].ipc == 1
    && |sp.free| == 1 && sp.user.next + 1 == c.ppl && sp.cold.next + 1 == c.ppl
    && sp.user.line !in sp.full && sp.user.line != v && sp.user.line != sp.cold.line
    && sp.lines[sp.user.line].vpc + 1 == c.ppl
  }

  // Another full line's page stored then takes the last free line.
  lemma LastLineTaken(c: Config, sp: Space, v: nat, y: nat)
    requires OneSlotLeft(c, sp, v) && y in sp.full && y < |sp.lines| && sp.lines[y].vpc == c.ppl == 2
    requires sp.lines[y].ipc == 0 && y != v && y != sp.cold.line
    ensures var r := StoreSpace(c, sp, Some(y));
            && r.Some? && r.value.victims == {v, y} && r.value.free == [] && |r.value.lines| == |sp.lines|
            && c.ppl - r.value.lines[v].ipc == 1 == c.ppl - r.value.lines[y].ipc
            && Grown(c, r.value.(victims := r.value.victims - {v}), GcCold).None?
            && Grown(c, r.value.(victims := r.value.victims - {y}), GcCold).None?
  {
  }

  // The last but one write of the failing run with lines of two pages.
  lemma HotLineTaken(c: Config, strategy: Strategy, s: Ftl, n: nat, x: nat) returns (t: Ftl)
    requires c.Valid() && c.ppl == 2 && AllPolicies(strategy) && Reachable(c, strategy, n, s)
    requires Looks(c, s, n, Shape(1, 0, 0, 1, 0, 1, 0)) && x in s.sp.full
    ensures Reachable(c, strategy, n, t) && Sound(c, t) && t.maptbl.Keys == Below(n) && t.ct.credits == 1
    ensures OneSlotLeft(c, t.sp, s.sp.hot.line) && t.sp.full == s.sp.full - {x}
  {
    hide Sound, WriteStep, StoreSpace, Admissible, Sane, Reachable, LooksOpen, Inv, Typed, Collect, Grown;
    hide AllPolicies, PicksNext, In, Policy, OneSlotLeft, Freed, Stored;
    SaneIs(c, s);
    SoundTyped(c, s);
    FullHasLive(c, s, x);
    var lpn := LiveIn(c, s, x);
    PairSpace(c, s.sp, Shape(1, 0, 0, 1, 0, 1, 0), x);
    var pick := NextPick(c, strategy, n, s);
    var q := Request(lpn, [], pick, (p: Page) => true);
    Picked(c, strategy, n, s, q);
    OnlyPick(c, q, StoreSpace(c, s.sp, Some(x)).value, x);
    var u := StepWithGc(c, s, q, x);
    assert u.sp.victims - {x} == {};
    CollectOne(c, u, x, q.hot, GcHot);
    ReachStep(c, strategy, n, s, q);
    WriteStepSound(c, s, q);
    t := WriteStep(c, s, q).value;
    assert s.maptbl.Keys + {lpn} == s.maptbl.Keys;
  }

  // And the last one: neither candidate's page finds a line.
  lemma ColdLineMissing(c: Config, strategy: Strategy, s: Ftl, n: nat, v: nat, y: nat)
    requires c.Valid() && c.ppl == 2 && AllPolicies(strategy) && Reachable(c, strategy, n, s)
    requires Sound(c, s) && s.maptbl.Keys == Below(n) && n <= c.lpns && s.ct.credits == 1
    requires OneSlotLeft(c, s.sp, v) && y in s.sp.full
    ensures CanFail(c, strategy, n)
  {
    hide Sound, WriteStep, StoreSpace, Admissible, Sane, Reachable, Inv, Typed, Collect, Grown, CanFail;
    hide AllPolicies, PicksNext, In, Policy, OneSlotLeft, Freed, Stored;
    SoundTyped(c, s);
    FullHasLive(c, s, y);
    FullIs(c, s, y);
    FullNotVictim(c, s, y, v);
    var lpn := LiveIn(c, s, y);
    LastLineTaken(c, s.sp, v, y);
    var pick := NextPick(c, strategy, n, s);
    var q := Request(lpn, [], pick, (p: Page) => false);
    Picked(c, strategy, n, s, q);
    var sp := StoreSpace(c, s.sp, Some(y)).value;
    PickIn(c, q, sp);
    var u := StepWithGc(c, s, q, pick(sp));
    CollectOne(c, u, pick(sp), q.hot, GcCold);
    ReachStep(c, strategy, n, s, q);
  }

  lemma FullNotVictim(c: Config, s: Ftl, y: nat, v: nat)
    requires Sound(c, s) && y in s.sp.full && OneSlotLeft(c, s.sp, v)
    ensures y != v
  {
    FullIs(c, s, y);
    hide Sound;
    assert s.sp.lines[y].ipc == 0;
  }

  // A page of a full line stored and the other one collected into a fresh stream, and that one stored
  // as well: the stream is left with one slot.
  lemma Spend(c: Config, strategy: Strategy, s: Ftl, n: nat, w: Shape, st: Stream) returns (t: Ftl)
    requires c.Valid() && c.ppl == 2 && AllPolicies(strategy) && Reachable(c, strategy, n, s) && Looks(c, s, n, w)
    requires w.un == w.ui == 0 && w.free == 1
    requires if st == GcHot then w.hn == w.hv == 0 else st == GcCold && w.cn == w.cv == 0
    ensures Reachable(c, strategy, n, t) && Looks(c, t, n, if st == GcHot then w.(hn := 1) else w.(cn := 1))
  {
    hide Sound, Reachable, AllPolicies, GoodSchedule;
    var x := SomeFull(c, s, n, w);
    var s1 := Reclaim(c, strategy, s, n, w, x, st);
    t := Rewrite(c, strategy, s1, n, Collected(c, w, st), st);
  }

  lemma FillPairs(c: Config, strategy: Strategy, n: nat) returns (s: Ftl)
    requires c.Valid() && AllPolicies(strategy) && c.ppl == 2 && n == 2 * (c.lines - 4)
    ensures Reachable(c, strategy, n, s) && Looks(c, s, n, Shape(1, 0, 0, 0, 0, 0, 0))
  {
    hide Looks, Reachable, AllPolicies, Sound, Filled, Config.Valid;
    PairsFit(c, n);
    var k;
    s, k := FillAll(c, strategy, n);
    InPairs(k, c.ppl, s.sp.user.next, c.lines - 4);
    FilledLooks(c, s, n, k);
  }

  lemma PairsFit(c: Config, n: nat)
    requires c.Valid() && c.ppl == 2 && n == 2 * (c.lines - 4)
    ensures n < (c.lines - 2) * c.ppl && n <= c.lpns && 4 <= c.lines
  {
    hide GoodSchedule;
    assert c.lines * c.ppl == 2 * c.lines;
  }

  lemma InPairs(k: nat, two: nat, r: nat, m: nat)
    requires two == 2 && r < two && 2 * m == k * two + r
    ensures k == m && r == 0
  {
    assert k * two == 2 * k;
  }

  // With two pages in a line: both collection streams are left with the last slot of an otherwise
  // invalid line and one line is free; two more writes take it and need another one.
  lemma PairsFail(c: Config, strategy: Strategy, n: nat)
    requires c.Valid() && AllPolicies(strategy) && c.ppl == 2 && n == 2 * (c.lines - 4)
    ensures CanFail(c, strategy, n)
  {
    hide Looks, Reachable, CanFail, AllPolicies, Sound, OneSlotLeft, Config.Valid;
    var s := FillPairs(c, strategy, n);
    s := Spend(c, strategy, s, n, Shape(1, 0, 0, 0, 0, 0, 0), GcHot);
    s := Spend(c, strategy, s, n, Shape(1, 0, 0, 1, 0, 0, 0), GcCold);
    PairsEnd(c, strategy, s, n);
  }

  lemma PairsEnd(c: Config, strategy: Strategy, s: Ftl, n: nat)
    requires c.Valid() && AllPolicies(strategy) && c.ppl == 2 && Reachable(c, strategy, n, s)
    requires Looks(c, s, n, Shape(1, 0, 0, 1, 0, 1, 0))
    ensures CanFail(c, strategy, n)
  {
    hide Reachable, CanFail, AllPolicies, Sound, OneSlotLeft, GoodSchedule;
    var x, y := TwoFull(c, s, n, Shape(1, 0, 0, 1, 0, 1, 0));
    var t := HotLineTaken(c, strategy, s, n, x);
    ColdLineMissing(c, strategy, t, n, s.sp.hot.line, y);
  }

  lemma TwoFull(c: Config, s: Ftl, n: nat, w: Shape) returns (x: nat, y: nat)
    requires c.Valid() && Looks(c, s, n, w) && w.free == 1
    ensures x in s.sp.full && y in s.sp.full && x != y
  {
    SoundInv(c, s);
    FullLines(c, s);
    x :| x in s.sp.full;
    assert |s.sp.full - {x}| == |s.sp.full| - 1;
    y :| y in s.sp.full - {x};
  }

  /** With one LPN more than Capacity there is a run that fails, whatever the strategy. */
  lemma OneTooMany(c: Config, strategy: Strategy, n: nat)
    requires c.Valid() && AllPolicies(strategy) && n == Capacity(c) + 1
    ensures CanFail(c, strategy, n)
  {
    hide CanFail, AllPolicies, GoodSchedule;
    if c.ppl == 1 {
      SinglePagesFail(c, strategy, n);
    } else if c.ppl == 2 {
      PairsFail(c, strategy, n);
    } else {
      LongLinesFail(c, strategy, n);
    }
  }

  /** Capacity is exact, whatever chooses the victims: all runs over at most n LPNs in which the strategy
      picks the victims, with any routing, find a free line whenever they need one if and only if n is
      at most Capacity. */
  lemma CapacityIsExact(c: Config, strategy: Strategy, n: nat)
    requires c.Valid() && AllPolicies(strategy)
    ensures (forall reqs :: AllAdmissible(c, reqs) && Follows(strategy, reqs) && |Touched(reqs)| <= n ==>
               Run(c, reqs).Some?)
            <==> n <= Capacity(c)
  {
    hide Run, Touched, Admissible, Config.Valid, Capacity, AllPolicies, Follows;
    if n <= Capacity(c) {
      forall reqs | AllAdmissible(c, reqs) && |Touched(reqs)| <= n ensures Run(c, reqs).Some? {
        NeverOutOfLines(c, reqs);
      }
    } else {
      Sizes(c);
      OneTooMany(c, strategy, Capacity(c) + 1);
      var reqs :| FailsWith(c, strategy, Capacity(c) + 1, reqs);
      Subset(Touched(reqs), Below(Capacity(c) + 1));
      assert AllAdmissible(c, reqs) && Follows(strategy, reqs) && |Touched(reqs)| <= n && Run(c, reqs).None?;
    }
  }
}
