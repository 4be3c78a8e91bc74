/**
 The limit of FtlLimit holds for the driver itself in greedy mode: the candidate with the fewest
 valid pages is collected, page_is_hot routes each copy by how often and how recently its LPN was
 written and by the clock, and only the LPNs and the clock readings, which never go back, are free.
 */
module FtlGreedy {
  import opened Arith
  import opened Wrappers
  import opened FtlModel
  import opened FtlInvariant
  import opened FtlSteps
  import opened FtlGc
  import opened FtlRuns
  import opened FtlLimit
  import opened FtlMoves
  import opened HotCold
  import VictimScore

  // ----- the driver's writes -----

  // struct page_meta of every LPN, and avg_hot_degree.
  datatype Meta = Meta(updates: map<nat, nat>, last: map<nat, nat>, average: nat)

  // A host write, the time at which it is noted, and the time at which each event of a collection that
  // it sets off reads the clock.
  datatype Write = Write(lpn: nat, v: Payload, now: nat, clock: nat -> nat)

  function Count(m: Meta, lpn: nat): nat { if lpn in m.updates then m.updates[lpn] else 0 }

  function LastOf(m: Meta, lpn: nat): nat { if lpn in m.last then m.last[lpn] else 0 }

  // The update of page_meta and of the average (conv_ftl.c:1486-1492).
  function Noted(m: Meta, w: Write): Meta {
    var n := Count(m, w.lpn) + 1;
    Meta(m.updates[w.lpn := n], m.last[w.lpn := w.now], NextAverage(m.average, HotDegree(n, w.now, w.now)))
  }

  function MetaOf(ws: seq<Write>): Meta {
    if ws == [] then Meta(map[], map[], 16) else Noted(MetaOf(ws[..|ws| - 1]), ws[|ws| - 1])
  }

  // The notes that the driver keeps in place say the same.
  ghost predicate Agrees(m: Meta, notes: Notes) {
    && |notes.updates| == |notes.lastWrites| && notes.average == m.average
    && forall l :: 0 <= l < |notes.updates| ==> notes.updates[l] == Count(m, l) && notes.lastWrites[l] == LastOf(m, l)
  }

  /** They start the same and stay the same, and then page_is_hot decides the same. */
  lemma NotesAgree(m: Meta, notes: Notes, w: Write, n: nat)
    requires Agrees(m, notes) && w.lpn < |notes.updates|
    ensures Agrees(Meta(map[], map[], 16), Notes(seq(n, _ => 0), seq(n, _ => 0), 16))
    ensures Agrees(Noted(m, w), NoteWrite(notes, w.lpn, w.now))
    ensures forall l: nat, now: nat :: l < |notes.updates| ==>
              Decides(notes, l, IsHot(Count(m, l), LastOf(m, l), now, m.average))
  {
    hide IsHot, HotDegree, NextAverage;
  }

  // The event that cleans slot k.
  ghost function CleanedAt(c: Config, k: nat): nat {
    if exists i: nat :: i < |c.schedule| && c.schedule[i] == Clean(k)
    then var i: nat :| i < |c.schedule| && c.schedule[i] == Clean(k); i
    else 0
  }

  /** gc_write_page's choice of the stream (conv_ftl.c:1121-1128). */
  ghost function Route(c: Config, u: Ftl, m: Meta, clock: nat -> nat): Page -> bool {
    (p: Page) =>
      p in u.rmap
      && IsHot(Count(m, u.rmap[p]), LastOf(m, u.rmap[p]), clock(CleanedAt(c, p.slot)), m.average)
  }

  // A write as the model sees it: the pages are routed by what is noted of their LPNs then.
  ghost function AsRequest(c: Config, s: Ftl, m: Meta, pick: Space -> nat, w: Write): Request
    requires Typed(s)
  {
    var u := HostWrite(c, s, w.lpn, w.v);
    Request(w.lpn, w.v, pick, if u.Some? then Route(c, u.value, m, w.clock) else (p: Page) => false)
  }

  /** select_victim_greedy as a policy: a candidate with the fewest valid pages. */
  ghost predicate Greedy(pick: Space -> nat) {
    Policy(pick) && forall sp :: TypedSpace(sp) && sp.victims != {} ==> Fewest(sp, pick(sp))
  }

  // Which of the fewest the heap gives, after any writes.
  type Heap = seq<Write> -> (Space -> nat)

  ghost predicate AllGreedy(heap: Heap) {
    forall ws :: Greedy(heap(ws))
  }

  // There is a candidate with the fewest valid pages.
  lemma {:induction false} FewestExists(sp: Space, some: set<nat>) returns (v: nat)
    requires some != {} && forall l :: l in some ==> l < |sp.lines|
    ensures v in some && forall l :: l in some ==> sp.lines[v].vpc <= sp.lines[l].vpc
  {
    v :| v in some;
    if some != {v} {
      var u := FewestExists(sp, some - {v});
      if sp.lines[u].vpc < sp.lines[v].vpc {
        v := u;
      }
    }
  }

  ghost function PickFewest(sp: Space): nat {
    if sp.victims == {} then 0
    else if exists v :: v in sp.victims && Fewest(sp, v) then var v :| v in sp.victims && Fewest(sp, v); v
    else AnyOf(sp.victims)
  }

  /** Greedy policies exist. */
  lemma GreedyExists() returns (heap: Heap)
    ensures AllGreedy(heap)
  {
    forall sp: Space | TypedSpace(sp) && sp.victims != {} ensures Fewest(sp, PickFewest(sp)) {
      var v := FewestExists(sp, sp.victims);
      assert v in sp.victims && Fewest(sp, v);
    }
    heap := _ => PickFewest;
  }

  ghost predicate AllBelow(ws: seq<Write>, n: nat) {
    forall i :: 0 <= i < |ws| ==> ws[i].lpn < n
  }

  ghost function DriverRun(c: Config, heap: Heap, ws: seq<Write>): (r: Option<Ftl>)
    requires c.Valid() && AllGreedy(heap) && AllBelow(ws, c.lpns)
    ensures r.Some? ==> Typed(r.value)
  {
    if ws == [] then Some(Init(c))
    else
      var n := |ws| - 1;
      match DriverRun(c, heap, ws[..n])
      case None => None
      case Some(s) => WriteStep(c, s, AsRequest(c, s, MetaOf(ws), heap(ws[..n]), ws[n]))
  }

  // The clock does not go back during a write, and has not passed t when it is over.
  ghost predicate OneTick(c: Config, w: Write) {
    forall a, b :: 0 <= a <= b < |c.schedule| ==> w.now <= w.clock(a) <= w.clock(b)
  }

  ghost predicate By(c: Config, w: Write, t: nat) {
    w.now <= t && forall a :: 0 <= a < |c.schedule| ==> w.clock(a) <= t
  }

  ghost predicate AllBy(c: Config, ws: seq<Write>, t: nat) {
    forall i :: 0 <= i < |ws| ==> By(c, ws[i], t)
  }

  /** The clock never goes back. */
  ghost predicate Ticks(c: Config, ws: seq<Write>) {
    ws == [] || var n := |ws| - 1; Ticks(c, ws[..n]) && OneTick(c, ws[n]) && AllBy(c, ws[..n], ws[n].now)
  }

  ghost function Lpns(ws: seq<Write>): set<nat> {
    set i | 0 <= i < |ws| :: ws[i].lpn
  }

  // ----- the driver's runs are runs of the model -----

  lemma {:induction false} DriverIsRun(c: Config, heap: Heap, ws: seq<Write>) returns (reqs: seq<Request>)
    requires c.Valid() && AllGreedy(heap) && AllBelow(ws, c.lpns)
    ensures AllAdmissible(c, reqs) && Run(c, reqs) == DriverRun(c, heap, ws)
    ensures |reqs| == |ws| && forall i :: 0 <= i < |ws| ==> reqs[i].lpn == ws[i].lpn
  {
    hide WriteStep, Run, AllGreedy, DriverRun, Admissible, Config.Valid;
    if ws == [] {
      reqs := [];
      NoRun(c, heap);
    } else {
      var n := |ws| - 1;
      var pre := DriverIsRun(c, heap, ws[..n]);
      var q := DriverUnfolds(c, heap, ws);
      RunUnfolds(c, pre, q);
      reqs := pre + [q];
    }
  }

  lemma NoRun(c: Config, heap: Heap)
    requires c.Valid() && AllGreedy(heap)
    ensures Run(c, []) == DriverRun(c, heap, []) == Some(Init(c))
  {
  }

  // The last write as a request, whether or not the run comes to it.
  lemma DriverUnfolds(c: Config, heap: Heap, ws: seq<Write>) returns (q: Request)
    requires c.Valid() && AllGreedy(heap) && AllBelow(ws, c.lpns) && ws != []
    ensures Admissible(c, q) && q.lpn == ws[|ws| - 1].lpn
    ensures var r := DriverRun(c, heap, ws[..|ws| - 1]);
            DriverRun(c, heap, ws) == if r.Some? then WriteStep(c, r.value, q) else None
  {
    hide WriteStep, Route, Noted, AllGreedy, MetaOf;
    var n := |ws| - 1;
    var s, pick := DriverRun(c, heap, ws[..n]), heap(ws[..n]);
    GreedyPolicy(heap, ws[..n]);
    q := if s.Some? then AsRequest(c, s.value, MetaOf(ws), pick, ws[n])
         else Request(ws[n].lpn, ws[n].v, pick, (p: Page) => false);
  }

  lemma RunUnfolds(c: Config, reqs: seq<Request>, q: Request)
    requires c.Valid() && AllAdmissible(c, reqs) && Admissible(c, q)
    ensures AllAdmissible(c, reqs + [q])
    ensures Run(c, reqs + [q]) == if Run(c, reqs).Some? then WriteStep(c, Run(c, reqs).value, q) else None
  {
    hide WriteStep, Admissible;
    assert (reqs + [q])[..|reqs|] == reqs;
  }

  lemma GreedyPolicy(heap: Heap, ws: seq<Write>)
    requires AllGreedy(heap)
    ensures Greedy(heap(ws)) && Policy(heap(ws))
  {
  }

  // ----- hot and cold -----

  const LATER: nat := VictimScore.TH_WARM

  lemma DegreeNow(n: nat, t: nat)
    ensures HotDegree(n, t, t) == n * 1000
  {
    assert VictimScore.AgeWeight(VictimScore.Elapsed(t, t)) == 1;
    PartsAre(n * 1000, 1);
  }

  // A page written just now is hot if the average is no more than its own degree.
  lemma HotNow(n: nat, t: nat, average: nat)
    requires average <= 16000 * n
    ensures IsHot(n, t, t, average)
  {
    DegreeNow(n, t);
  }

  // A page not written for a minute is cold unless the average is low.
  lemma ColdLater(n: nat, last: nat, now: nat, average: nat)
    requires last + LATER <= now && 160 * n < average
    ensures !IsHot(n, last, now, average)
  {
    assert VictimScore.AgeWeight(VictimScore.Elapsed(now, last)) == 100;
    PartsAre(n * 1000, 100);
  }

  // The average after a write of an LPN for the n-th time.
  lemma AverageAfter(average: nat, n: nat, t: nat, k: nat)
    requires average <= 16000 * k && n <= k
    ensures var next := NextAverage(average, HotDegree(n, t, t));
            next <= 16000 * k && 1000 * n <= next && 16 * next + 15 >= 15 * average + 16000 * n
  {
    DegreeNow(n, t);
  }

  // ----- reaching states -----

  ghost predicate Goes(c: Config, heap: Heap, n: nat, ws: seq<Write>, t: nat) {
    && c.Valid() && AllGreedy(heap) && n <= c.lpns && AllBelow(ws, n) && AllBelow(ws, c.lpns)
    && Ticks(c, ws) && AllBy(c, ws, t)
  }

  // Writes of the first n LPNs lead to s and m by time t, and the heap gives `pick` next.
  ghost predicate Arrives(c: Config, heap: Heap, n: nat, ws: seq<Write>, t: nat, s: Ftl, m: Meta, pick: Space -> nat) {
    && Goes(c, heap, n, ws, t) && DriverRun(c, heap, ws) == Some(s)
    && m == MetaOf(ws) && pick == heap(ws)
  }

  ghost predicate At(c: Config, heap: Heap, n: nat, t: nat, s: Ftl, m: Meta) {
    exists ws, pick :: Arrives(c, heap, n, ws, t, s, m, pick)
  }

  ghost predicate Next(c: Config, heap: Heap, n: nat, t: nat, s: Ftl, m: Meta, pick: Space -> nat) {
    Greedy(pick) && exists ws :: Arrives(c, heap, n, ws, t, s, m, pick)
  }

  ghost predicate Breaks(c: Config, heap: Heap, n: nat) {
    exists ws, t: nat :: Goes(c, heap, n, ws, t) && DriverRun(c, heap, ws) == None
  }

  lemma NextOf(c: Config, heap: Heap, n: nat, t: nat, s: Ftl, m: Meta) returns (pick: Space -> nat)
    requires At(c, heap, n, t, s, m)
    ensures Next(c, heap, n, t, s, m, pick)
  {
    hide DriverRun, Greedy;
    var ws;
    ws, pick :| Arrives(c, heap, n, ws, t, s, m, pick);
    GreedyPolicy(heap, ws);
  }

  lemma GoesOn(c: Config, heap: Heap, n: nat, ws: seq<Write>, t: nat, w: Write, t': nat)
    requires Goes(c, heap, n, ws, t) && w.lpn < n && OneTick(c, w) && t <= w.now && By(c, w, t')
    ensures Goes(c, heap, n, ws + [w], t') && (ws + [w])[..|ws|] == ws
  {
    hide AllGreedy, OneTick, By, Config.Valid;
    var more := ws + [w];
    assert more[..|ws|] == ws;
    NotBefore(c, w, t');
    forall i | 0 <= i < |ws| ensures By(c, ws[i], w.now) && By(c, ws[i], t') {
      ByLater(c, ws[i], t, w.now);
      ByLater(c, ws[i], t, t');
    }
  }

  lemma NotBefore(c: Config, w: Write, t: nat)
    requires By(c, w, t)
    ensures w.now <= t
  {
  }

  lemma ByLater(c: Config, w: Write, t: nat, t': nat)
    requires By(c, w, t) && t <= t'
    ensures By(c, w, t')
  {
  }

  // The clock read at one time t only during a write.
  function Steady(t: nat): nat -> nat { (_: nat) => t }

  lemma SteadyTicks(c: Config, w: Write, t: nat)
    requires w.now == t && w.clock == Steady(t)
    ensures OneTick(c, w) && By(c, w, t)
  {
  }

  lemma Goto(c: Config, heap: Heap, n: nat, t: nat, s: Ftl, m: Meta, pick: Space -> nat, w: Write, t': nat)
    requires Next(c, heap, n, t, s, m, pick) && w.lpn < n && OneTick(c, w) && t <= w.now && By(c, w, t')
    requires Typed(s) && Admissible(c, AsRequest(c, s, Noted(m, w), pick, w))
    ensures var r := WriteStep(c, s, AsRequest(c, s, Noted(m, w), pick, w));
            && (r.Some? ==> At(c, heap, n, t', r.value, Noted(m, w)))
            && (r.None? ==> Breaks(c, heap, n))
  {
    hide WriteStep, Route, Noted, Greedy, Admissible, Goes, OneTick, By, HostWrite, Typed;
    var ws :| Arrives(c, heap, n, ws, t, s, m, pick);
    GoesOn(c, heap, n, ws, t, w, t');
    var more := ws + [w];
    DriverStep(c, heap, n, ws, t, w, t', s);
    var r := WriteStep(c, s, AsRequest(c, s, Noted(m, w), pick, w));
    if r.Some? {
      assert Arrives(c, heap, n, more, t', r.value, Noted(m, w), heap(more));
    }
  }

  lemma DriverStep(c: Config, heap: Heap, n: nat, ws: seq<Write>, t: nat, w: Write, t': nat, s: Ftl)
    requires Goes(c, heap, n, ws, t) && DriverRun(c, heap, ws) == Some(s)
    requires Goes(c, heap, n, ws + [w], t') && (ws + [w])[..|ws|] == ws
    requires Typed(s) && Admissible(c, AsRequest(c, s, Noted(MetaOf(ws), w), heap(ws), w))
    ensures DriverRun(c, heap, ws + [w]) == WriteStep(c, s, AsRequest(c, s, Noted(MetaOf(ws), w), heap(ws), w))
    ensures MetaOf(ws + [w]) == Noted(MetaOf(ws), w)
  {
    hide WriteStep, AsRequest, Noted, AllGreedy, Ticks, AllBy;
  }

  // ----- the writes of the run -----

  // LPN `lpn` written at time t, the clock standing still.
  function WriteAt(lpn: nat, t: nat): Write { Write(lpn, [], t, Steady(t)) }

  ghost function RequestAt(c: Config, s: Ftl, m: Meta, pick: Space -> nat, lpn: nat, t: nat): Request
    requires Typed(s)
  {
    AsRequest(c, s, Noted(m, WriteAt(lpn, t)), pick, WriteAt(lpn, t))
  }

  lemma RequestIs(c: Config, heap: Heap, n: nat, t: nat, s: Ftl, m: Meta, pick: Space -> nat, lpn: nat, t': nat)
    requires Next(c, heap, n, t, s, m, pick) && Typed(s) && lpn < n
    ensures var q := RequestAt(c, s, m, pick, lpn, t'); Admissible(c, q) && q.lpn == lpn && q.pick == pick
  {
    hide DriverRun, Route, Noted;
  }

  // One page of an open line rewritten, as in FtlLimit.Rewrite.
  lemma DriveRewrite(c: Config, heap: Heap, n: nat, t: nat, s: Ftl, m: Meta, w: Shape, st: Stream, lpn: nat)
    returns (s': Ftl, m': Meta)
    requires c.Valid() && At(c, heap, n, t, s, m) && Looks(c, s, n, w)
    requires lpn in s.maptbl && s.maptbl[lpn].line == s.sp.Open(st).line && s.sp.lines[s.sp.Open(st).line].vpc > 0
    requires w.un + 1 < c.ppl || (w.ui == 0 && st != UserIo && w.free > 0)
    ensures At(c, heap, n, t, s', m') && Looks(c, s', n, Rewritten(c, w, st)) && m' == Noted(m, WriteAt(lpn, t))
    ensures s'.maptbl == s.maptbl[lpn := NextUser(s)] && SameLines(s.sp, s'.sp)
    ensures if w.un + 1 < c.ppl then s'.sp.user.line == s.sp.user.line else s'.sp.user.line in s.sp.free
  {
    hide Sound, WriteStep, LooksOpen, At, Next, Noted, AsRequest, Rewritten, Config.Valid, SameLines, Admissible;
    SoundTyped(c, s);
    var pick := NextOf(c, heap, n, t, s, m);
    var q := RequestAt(c, s, m, pick, lpn, t);
    RequestIs(c, heap, n, t, s, m, pick, lpn, t);
    RewriteLooks(c, s, n, w, st, q);
    RewriteMoves(c, s, n, w, st, q);
    RewriteLines(c, s, n, w, st, q);
    SteadyTicks(c, WriteAt(lpn, t), t);
    Goto(c, heap, n, t, s, m, pick, WriteAt(lpn, t), t);
    s', m' := WriteStep(c, s, q).value, Noted(m, WriteAt(lpn, t));
  }

  // The reverse map after an LPN was stored.
  lemma HostRmap(c: Config, s: Ftl, lpn: nat, v: Payload, p: Page)
    requires Sound(c, s) && lpn in s.maptbl && HostWrite(c, s, lpn, v).Some?
    requires p in s.valid && p != s.maptbl[lpn]
    ensures var u := HostWrite(c, s, lpn, v).value; var l := s.rmap[p];
            && p in u.rmap && u.rmap[p] == l && l in s.maptbl && s.maptbl[l] == p && l != lpn
  {
    UserFree(c, s);
    hide Advance, Partition, Accounts, Conserved;
  }

  // The user's next page is not valid.
  lemma UserFree(c: Config, s: Ftl)
    requires Sound(c, s)
    ensures NextUser(s) !in s.valid
  {
    NextPageIsFree(c, s, {}, {}, UserIo);
  }

  // What page_is_hot says of the pages of line x after an LPN of it was stored.
  lemma RoutesAs(c: Config, s: Ftl, m: Meta, pick: Space -> nat, lpn: nat, t: nat, x: nat, hot: bool)
    requires Sound(c, s) && Typed(s) && lpn in s.maptbl && HostWrite(c, s, lpn, []).Some?
    requires var m' := Noted(m, WriteAt(lpn, t));
             forall l :: l in s.maptbl && l != lpn && s.maptbl[l].line == x ==>
               IsHot(Count(m', l), LastOf(m', l), t, m'.average) == hot
    ensures forall p :: p in In(s.valid, x) && p != s.maptbl[lpn] ==> RequestAt(c, s, m, pick, lpn, t).hot(p) == hot
  {
    hide Sound, HostWrite, Noted, IsHot, Typed;
    forall p | p in In(s.valid, x) && p != s.maptbl[lpn] ensures RequestAt(c, s, m, pick, lpn, t).hot(p) == hot {
      HostRmap(c, s, lpn, [], p);
    }
  }

  lemma UserHasRoom(c: Config, s: Ftl, n: nat, w: Shape, lpn: nat)
    requires Looks(c, s, n, w) && w.un + 1 < c.ppl
    ensures Typed(s) && HostWrite(c, s, lpn, []).Some?
  {
    SoundTyped(c, s);
    hide Sound;
    HostWriteSome(c, s, lpn, []);
  }

  // One page of full line x rewritten and the others collected, as in FtlLimit.Reclaim.
  lemma DriveReclaim(c: Config, heap: Heap, n: nat, t0: nat, s: Ftl, m: Meta, w: Shape, x: nat, st: Stream,
                     lpn: nat, t: nat)
    returns (s': Ftl, m': Meta)
    requires c.Valid() && At(c, heap, n, t0, s, m) && t0 <= t && Looks(c, s, n, w) && x in s.sp.full
    requires lpn in s.maptbl && s.maptbl[lpn].line == x
    requires 1 < c.ppl && w.un + 1 < c.ppl && w.free + 1 <= c.thres
    requires if st == GcHot then w.hn == w.hv == 0 else st == GcCold && w.cn == w.cv == 0
    requires var m1 := Noted(m, WriteAt(lpn, t));
             forall l :: l in s.maptbl && l != lpn && s.maptbl[l].line == x ==>
               IsHot(Count(m1, l), LastOf(m1, l), t, m1.average) == (st == GcHot)
    ensures At(c, heap, n, t, s', m') && Looks(c, s', n, Collected(c, w, st)) && m' == Noted(m, WriteAt(lpn, t))
    ensures MovedAll(s.maptbl[lpn := NextUser(s)], s'.maptbl, x, s.sp.Open(st).line)
    ensures SameLines(s.sp, s'.sp) && s'.sp.user.line == s.sp.user.line
  {
    hide Sound, WriteStep, LooksOpen, At, Next, Noted, AsRequest, Collected, Config.Valid, SameLines, MovedAll;
    hide IsHot, In, Admissible;
    UserHasRoom(c, s, n, w, lpn);
    var pick := NextOf(c, heap, n, t0, s, m);
    var q := RequestAt(c, s, m, pick, lpn, t);
    RequestIs(c, heap, n, t0, s, m, pick, lpn, t);
    RoutesAs(c, s, m, pick, lpn, t, x, st == GcHot);
    ReclaimLooks(c, s, n, w, x, st, q);
    ReclaimMoves(c, s, n, w, x, st, q);
    ReclaimLines(c, s, n, w, x, st, q);
    SteadyTicks(c, WriteAt(lpn, t), t);
    Goto(c, heap, n, t0, s, m, pick, WriteAt(lpn, t), t);
    s', m' := WriteStep(c, s, q).value, Noted(m, WriteAt(lpn, t));
  }

  lemma NotedIs(m: Meta, lpn: nat, t: nat, k: nat)
    requires m.average <= 16000 * k && Count(m, lpn) + 1 <= k
    ensures var m' := Noted(m, WriteAt(lpn, t));
            && Count(m', lpn) == Count(m, lpn) + 1 && LastOf(m', lpn) == t
            && (forall l :: l != lpn ==> Count(m', l) == Count(m, l) && LastOf(m', l) == LastOf(m, l))
            && m'.average <= 16000 * k && 1000 * Count(m', lpn) <= m'.average
            && 16 * m'.average + 15 >= 15 * m.average + 16000 * Count(m', lpn)
  {
    hide HotDegree, NextAverage;
    AverageAfter(m.average, Count(m, lpn) + 1, t, k);
  }

  // ----- filling -----

  // Written once, at the start; written twice, the second time a minute later.
  predicate Untouched(m: Meta, lpn: nat) { Count(m, lpn) == 1 && LastOf(m, lpn) == 0 }

  predicate Redone(m: Meta, lpn: nat) { Count(m, lpn) == 2 && LastOf(m, lpn) == LATER }

  function InOrder(n: nat): (ws: seq<Write>)
    ensures |ws| == n && forall i :: 0 <= i < n ==> ws[i] == WriteAt(i, 0)
  {
    if n == 0 then [] else InOrder(n - 1) + [WriteAt(n - 1, 0)]
  }

  lemma MetaSteps(ws: seq<Write>)
    ensures ws == [] ==> MetaOf(ws) == Meta(map[], map[], 16)
    ensures ws != [] ==> MetaOf(ws) == Noted(MetaOf(ws[..|ws| - 1]), ws[|ws| - 1])
  {
  }

  lemma {:induction false} InOrderMeta(n: nat)
    ensures var m := MetaOf(InOrder(n));
            && m.average <= 16000
            && forall l: nat :: if l < n then Untouched(m, l) else Count(m, l) == 0
  {
    hide Noted, MetaOf, NextAverage;
    MetaSteps(InOrder(n));
    if n > 0 {
      InOrderMeta(n - 1);
      assert InOrder(n)[..n - 1] == InOrder(n - 1);
      NotedIs(MetaOf(InOrder(n - 1)), n - 1, 0, 1);
    }
  }

  lemma {:induction false} InOrderTicks(c: Config, n: nat)
    ensures Ticks(c, InOrder(n)) && AllBy(c, InOrder(n), 0)
  {
    hide OneTick;
    forall i | 0 <= i < n ensures By(c, InOrder(n)[i], 0) {
      SteadyTicks(c, WriteAt(i, 0), 0);
    }
    if n > 0 {
      InOrderTicks(c, n - 1);
      assert InOrder(n)[..n - 1] == InOrder(n - 1);
      SteadyTicks(c, WriteAt(n - 1, 0), 0);
    }
  }

  lemma DriveFill(c: Config, heap: Heap, n: nat) returns (s: Ftl, m: Meta)
    requires c.Valid() && AllGreedy(heap) && 1 < c.ppl && n == (c.lines - 5) * c.ppl + 1
    ensures At(c, heap, n, 0, s, m) && Looks(c, s, n, Shape(2, 1, 0, 0, 0, 0, 0))
    ensures m.average <= 16000 && forall l :: l in s.maptbl ==> Untouched(m, l)
  {
    hide Looks, AllGreedy, Run, DriverRun, AllAdmissible, Untouched, MetaOf, Config.Valid, At, Goes;
    FewEnough(c, n);
    InOrderMeta(n);
    InOrderGoes(c, heap, n);
    var reqs := FillRequests(c, heap, n);
    s := FillLooks(c, reqs, n);
    m := MetaOf(InOrder(n));
    Arrived(c, heap, n, InOrder(n), 0, s);
    MappedBelow(c, s, n, Shape(2, 1, 0, 0, 0, 0, 0));
  }

  lemma MappedBelow(c: Config, s: Ftl, n: nat, w: Shape)
    requires Looks(c, s, n, w)
    ensures s.maptbl.Keys == Below(n)
  {
  }

  lemma FillRequests(c: Config, heap: Heap, n: nat) returns (reqs: seq<Request>)
    requires Goes(c, heap, n, InOrder(n), 0)
    ensures AllAdmissible(c, reqs) && Once(reqs) && Touched(reqs) == Below(n) && |reqs| == n
    ensures Run(c, reqs) == DriverRun(c, heap, InOrder(n))
  {
    hide AllGreedy, Run, DriverRun, AllAdmissible, Ticks, AllBy, Config.Valid;
    reqs := DriverIsRun(c, heap, InOrder(n));
    InOrderRequests(reqs, n);
  }

  lemma InOrderGoes(c: Config, heap: Heap, n: nat)
    requires c.Valid() && AllGreedy(heap) && n <= c.lpns
    ensures Goes(c, heap, n, InOrder(n), 0)
  {
    InOrderTicks(c, n);
  }

  lemma Arrived(c: Config, heap: Heap, n: nat, ws: seq<Write>, t: nat, s: Ftl)
    requires Goes(c, heap, n, ws, t) && DriverRun(c, heap, ws) == Some(s)
    ensures At(c, heap, n, t, s, MetaOf(ws))
  {
    hide DriverRun, Goes;
    assert Arrives(c, heap, n, ws, t, s, MetaOf(ws), heap(ws));
  }

  lemma InOrderRequests(reqs: seq<Request>, n: nat)
    requires |reqs| == n && forall i :: 0 <= i < n ==> reqs[i].lpn == i
    ensures Once(reqs) && Touched(reqs) == Below(n)
  {
    forall x | x in Below(n) ensures x in Touched(reqs) {
      assert reqs[x].lpn == x;
    }
    forall x | x in Touched(reqs) ensures x in Below(n) {
      var i :| 0 <= i < n && reqs[i].lpn == x;
    }
  }

  // ----- the cold stream -----

  // From the first collection to the second: each LPN was written once or twice; those on the cold
  // stream's line once, those that share a line with the user's pointer or with LPN e twice.
  ghost predicate ColdPass(f: map<nat, Page>, sp: Space, m: Meta, e: nat) {
    && e in f && Untouched(m, e) && m.average <= 32000
    && (forall l :: l in f ==> Untouched(m, l) || Redone(m, l))
    && (forall l :: l in f && f[l].line == sp.cold.line ==> Untouched(m, l))
    && (forall l :: l in f && l != e && (f[l].line == sp.user.line || f[l].line == f[e].line) ==> Redone(m, l))
    && f[e].line != sp.hot.line && f[e].line != sp.cold.line
  }

  lemma ColdStart(f: map<nat, Page>, f': map<nat, Page>, sp: Space, sp': Space, m: Meta, e: nat, r: nat, p: Page)
    requires e in f && r in f && r != e && m.average <= 16000
    requires forall l :: l in f ==> Untouched(m, l)
    requires f[r].line != sp.user.line && f[e].line == p.line == sp.user.line
    requires sp.user.line != sp.hot.line && sp.user.line != sp.cold.line
    requires forall l :: l in f && f[l].line == sp.user.line ==> l == e
    requires forall l :: l in f ==> f[l].line != sp.cold.line
    requires MovedAll(f[r := p], f', f[r].line, sp.cold.line)
    requires SameLines(sp, sp') && sp'.user.line == sp.user.line
    ensures ColdPass(f', sp', Noted(m, WriteAt(r, LATER)), e) && f'[e].line == sp'.user.line
  {
    hide Noted;
    NotedIs(m, r, LATER, 2);
  }

  lemma ColdStep(f: map<nat, Page>, sp: Space, sp': Space, m: Meta, e: nat, r: nat, p: Page)
    requires ColdPass(f, sp, m, e) && r in f && f[r].line == sp.cold.line && p.line == sp.user.line
    requires sp.user.line != sp.hot.line && sp.user.line != sp.cold.line
    requires SameLines(sp, sp')
    requires sp'.user.line != sp.user.line ==> forall l :: l in f ==> f[l].line != sp'.user.line
    ensures ColdPass(f[r := p], sp', Noted(m, WriteAt(r, LATER)), e) && r != e
  {
    hide Noted;
    NotedIs(m, r, LATER, 2);
  }

  // What Looks says of the three open lines.
  lemma LooksLines(c: Config, s: Ftl, n: nat, w: Shape)
    requires Looks(c, s, n, w)
    ensures Typed(s) && s.maptbl.Keys == Below(n)
    ensures var sp := s.sp;
            && sp.user.line != sp.hot.line && sp.user.line != sp.cold.line && sp.hot.line != sp.cold.line
            && sp.user.line < |sp.lines| && sp.hot.line < |sp.lines| && sp.cold.line < |sp.lines|
            && sp.lines[sp.user.line].vpc == w.un - w.ui && w.un < c.ppl
            && sp.lines[sp.hot.line].vpc == w.hv && sp.lines[sp.cold.line].vpc == w.cv
  {
    SoundTyped(c, s);
    SoundPartition(c, s);
    OpenApart(c, s.sp);
    OpenIs(c, s, UserIo);
  }

  lemma FullApart(c: Config, s: Ftl, n: nat, w: Shape, x: nat)
    requires Looks(c, s, n, w) && x in s.sp.full
    ensures x != s.sp.user.line && x != s.sp.hot.line && x != s.sp.cold.line
  {
    FullIs(c, s, x);
  }

  // An LPN on an open line that has a valid page.
  lemma LpnOn(c: Config, s: Ftl, n: nat, w: Shape, st: Stream) returns (lpn: nat)
    requires Looks(c, s, n, w)
    requires match st case UserIo => w.ui < w.un case GcHot => 0 < w.hv case GcCold => 0 < w.cv
    ensures lpn in s.maptbl && s.maptbl[lpn].line == s.sp.Open(st).line
    ensures s.sp.Open(st).line < |s.sp.lines| && s.sp.lines[s.sp.Open(st).line].vpc > 0
  {
    hide Sound, LooksOpen;
    LooksLines(c, s, n, w);
    OpenHasLive(c, s, st);
    lpn := LiveIn(c, s, s.sp.Open(st).line);
  }

  lemma LpnOnFull(c: Config, s: Ftl, n: nat, w: Shape, x: nat) returns (lpn: nat)
    requires Looks(c, s, n, w) && x in s.sp.full && 0 < c.ppl
    ensures lpn in s.maptbl && s.maptbl[lpn].line == x
  {
    hide Sound;
    FullHasLive(c, s, x);
    lpn := LiveIn(c, s, x);
  }

  // The user's line holds one LPN, the cold stream's none.
  lemma AfterFill(c: Config, s: Ftl, n: nat, w: Shape, e: nat)
    requires Looks(c, s, n, w) && w.un == w.ui + 1 && w.cv == 0 && e in s.maptbl && s.maptbl[e].line == s.sp.user.line
    ensures forall l :: l in s.maptbl && s.maptbl[l].line == s.sp.user.line ==> l == e
    ensures forall l :: l in s.maptbl ==> s.maptbl[l].line != s.sp.cold.line
  {
    hide Sound, LooksOpen;
    LooksLines(c, s, n, w);
    forall l | l in s.maptbl
      ensures s.maptbl[l].line == s.sp.user.line ==> l == e
      ensures s.maptbl[l].line != s.sp.cold.line
    {
      if s.maptbl[l].line == s.sp.user.line {
        OneLpn(c, s, UserIo, l, e);
      }
      NoLpnOnEmpty(c, s, GcCold, l);
    }
  }

  lemma OthersCold(f: map<nat, Page>, m: Meta, r: nat)
    requires r in f && m.average <= 16000 && forall l :: l in f ==> Untouched(m, l)
    ensures var m1 := Noted(m, WriteAt(r, LATER));
            forall l :: l in f && l != r ==> !IsHot(Count(m1, l), LastOf(m1, l), LATER, m1.average)
  {
    hide Noted, IsHot;
    NotedIs(m, r, LATER, 2);
    ColdLater(1, 0, LATER, Noted(m, WriteAt(r, LATER)).average);
  }

  // A minute later a page of a full line is written again, and the others of that line are cold.
  lemma FirstCollection(c: Config, heap: Heap, n: nat, s: Ftl, m: Meta) returns (s': Ftl, m': Meta, e: nat)
    requires c.Valid() && 3 <= c.ppl && At(c, heap, n, 0, s, m) && Looks(c, s, n, Shape(2, 1, 0, 0, 0, 0, 0))
    requires m.average <= 16000 && forall l :: l in s.maptbl ==> Untouched(m, l)
    ensures At(c, heap, n, LATER, s', m') && Looks(c, s', n, Shape(3, 2, 0, 0, 0, c.ppl - 1, c.ppl - 1))
    ensures ColdPass(s'.maptbl, s'.sp, m', e) && s'.maptbl[e].line == s'.sp.user.line
  {
    hide Looks, At, Noted, IsHot, ColdPass, MovedAll, SameLines, GoodSchedule, Untouched, Count, LastOf;
    var w := Shape(2, 1, 0, 0, 0, 0, 0);
    LooksLines(c, s, n, w);
    var x := SomeFull(c, s, n, w);
    FullApart(c, s, n, w, x);
    var r := LpnOnFull(c, s, n, w, x);
    e := LpnOn(c, s, n, w, UserIo);
    AfterFill(c, s, n, w, e);
    OthersCold(s.maptbl, m, r);
    s', m' := DriveReclaim(c, heap, n, 0, s, m, w, x, GcCold, r, LATER);
    ColdStart(s.maptbl, s'.maptbl, s.sp, s'.sp, m, e, r, NextUser(s));
  }

  // The LPNs on the cold stream's line are all written again.
  lemma {:induction false} DrainCold(c: Config, heap: Heap, n: nat, s: Ftl, m: Meta, w: Shape, e: nat)
    returns (s': Ftl, m': Meta)
    requires c.Valid() && At(c, heap, n, LATER, s, m) && Looks(c, s, n, w) && ColdPass(s.maptbl, s.sp, m, e)
    requires w.ui == 0 && w.un < c.ppl && 1 < c.ppl
    requires || (w.un + w.cv == c.ppl + 1 && w.free == 3 && s.maptbl[e].line == s.sp.user.line)
             || (w.un + w.cv == 1 && w.free == 2 && s.maptbl[e].line != s.sp.user.line)
    ensures At(c, heap, n, LATER, s', m') && Looks(c, s', n, w.(un := 1, free := 2, cv := 0))
    ensures ColdPass(s'.maptbl, s'.sp, m', e) && s'.maptbl[e].line != s'.sp.user.line
    decreases w.cv
  {
    hide At, Looks, ColdPass, Config.Valid;
    if w.cv == 0 {
      s', m' := s, m;
    } else {
      var s1, m1 := DrainStep(c, heap, n, s, m, w, e);
      s', m' := DrainCold(c, heap, n, s1, m1, Rewritten(c, w, GcCold), e);
    }
  }

  lemma DrainStep(c: Config, heap: Heap, n: nat, s: Ftl, m: Meta, w: Shape, e: nat) returns (s': Ftl, m': Meta)
    requires c.Valid() && At(c, heap, n, LATER, s, m) && Looks(c, s, n, w) && ColdPass(s.maptbl, s.sp, m, e)
    requires w.ui == 0 && w.un < c.ppl && 0 < w.cv && (w.un + 1 < c.ppl || w.free > 0)
    ensures At(c, heap, n, LATER, s', m') && Looks(c, s', n, Rewritten(c, w, GcCold))
    ensures ColdPass(s'.maptbl, s'.sp, m', e) && s'.maptbl[e] == s.maptbl[e]
    ensures if w.un + 1 < c.ppl then s'.sp.user.line == s.sp.user.line else s'.sp.user.line != s'.maptbl[e].line
  {
    hide At, Looks, ColdPass, Noted, SameLines, Config.Valid, Rewritten;
    LooksLines(c, s, n, w);
    var r := LpnOn(c, s, n, w, GcCold);
    s', m' := DriveRewrite(c, heap, n, LATER, s, m, w, GcCold, r);
    NotFree(c, s, n, w, s'.sp.user.line);
    InMap(s.maptbl, s.sp, m, e);
    ColdStep(s.maptbl, s.sp, s'.sp, m, e, r, NextUser(s));
  }

  lemma InMap(f: map<nat, Page>, sp: Space, m: Meta, e: nat)
    requires ColdPass(f, sp, m, e)
    ensures e in f
  {
  }

  // A free line holds no LPN.
  lemma NotFree(c: Config, s: Ftl, n: nat, w: Shape, line: nat)
    requires Looks(c, s, n, w)
    ensures line in s.sp.free ==> forall l :: l in s.maptbl ==> s.maptbl[l].line != line
  {
    hide Sound;
    forall l | l in s.maptbl ensures s.maptbl[l].line !in s.sp.free {
      NoLpnOnFree(c, s, l);
    }
  }

  // ----- the hot stream -----

  // From the second collection on: each LPN was written at most three times, those on the hot stream's
  // line at most twice, those on the user's line at least twice, and a minute after the start.
  ghost predicate HotPass(f: map<nat, Page>, sp: Space, m: Meta) {
    && m.average <= 48000
    && (forall l :: l in f ==> 1 <= Count(m, l) <= 3)
    && (forall l :: l in f && f[l].line == sp.hot.line ==> Count(m, l) <= 2)
    && (forall l :: l in f && f[l].line == sp.user.line ==> 2 <= Count(m, l) && LastOf(m, l) == LATER)
  }

  lemma HotStart(f: map<nat, Page>, f': map<nat, Page>, sp: Space, sp': Space, m: Meta, e: nat, p: Page)
    requires ColdPass(f, sp, m, e) && f[e].line != sp.user.line && p.line == sp.user.line != sp.hot.line
    requires MovedAll(f[e := p], f', f[e].line, sp.hot.line)
    requires SameLines(sp, sp') && sp'.user.line == sp.user.line
    ensures HotPass(f', sp', Noted(m, WriteAt(e, LATER)))
  {
    hide Noted;
    NotedIs(m, e, LATER, 2);
  }

  lemma HotStep(f: map<nat, Page>, sp: Space, sp': Space, m: Meta, r: nat, p: Page)
    requires HotPass(f, sp, m) && r in f && f[r].line == sp.hot.line && p.line == sp.user.line != sp.hot.line
    requires SameLines(sp, sp')
    requires sp'.user.line != sp.user.line ==> forall l :: l in f ==> f[l].line != sp'.user.line
    ensures HotPass(f[r := p], sp', Noted(m, WriteAt(r, LATER)))
  {
    hide Noted;
    NotedIs(m, r, LATER, 3);
  }

  lemma OthersHot(f: map<nat, Page>, sp: Space, m: Meta, e: nat)
    requires ColdPass(f, sp, m, e)
    ensures var m1 := Noted(m, WriteAt(e, LATER));
            forall l :: l in f && l != e && f[l].line == f[e].line ==>
              IsHot(Count(m1, l), LastOf(m1, l), LATER, m1.average)
  {
    hide Noted, IsHot;
    NotedIs(m, e, LATER, 2);
    HotNow(2, LATER, Noted(m, WriteAt(e, LATER)).average);
  }

  // LPN e written again, and the others of its line, all written twice by now, are hot.
  lemma SecondCollection(c: Config, heap: Heap, n: nat, s: Ftl, m: Meta, e: nat) returns (s': Ftl, m': Meta)
    requires c.Valid() && 3 <= c.ppl && At(c, heap, n, LATER, s, m)
    requires Looks(c, s, n, Shape(2, 1, 0, 0, 0, c.ppl - 1, 0))
    requires ColdPass(s.maptbl, s.sp, m, e) && s.maptbl[e].line != s.sp.user.line
    ensures At(c, heap, n, LATER, s', m') && Looks(c, s', n, Shape(3, 2, 0, c.ppl - 1, c.ppl - 1, c.ppl - 1, 0))
    ensures HotPass(s'.maptbl, s'.sp, m')
  {
    hide Looks, At, Noted, IsHot, ColdPass, MovedAll, SameLines, GoodSchedule, Untouched, Count, LastOf, HotPass;
    var w := Shape(2, 1, 0, 0, 0, c.ppl - 1, 0);
    LooksLines(c, s, n, w);
    InMap(s.maptbl, s.sp, m, e);
    LineIsFull(c, s, n, w, m, e);
    OthersHot(s.maptbl, s.sp, m, e);
    s', m' := DriveReclaim(c, heap, n, LATER, s, m, w, s.maptbl[e].line, GcHot, e, LATER);
    HotStart(s.maptbl, s'.maptbl, s.sp, s'.sp, m, e, NextUser(s));
  }

  lemma LineIsFull(c: Config, s: Ftl, n: nat, w: Shape, m: Meta, e: nat)
    requires Looks(c, s, n, w) && ColdPass(s.maptbl, s.sp, m, e) && s.maptbl[e].line != s.sp.user.line
    ensures s.maptbl[e].line in s.sp.full
  {
    hide Sound, LooksOpen;
    ClosedIsFull(c, s, e);
  }

  // The LPNs on the hot stream's line are all written again.
  lemma {:induction false} DrainHot(c: Config, heap: Heap, n: nat, s: Ftl, m: Meta, w: Shape)
    returns (s': Ftl, m': Meta)
    requires c.Valid() && At(c, heap, n, LATER, s, m) && Looks(c, s, n, w) && HotPass(s.maptbl, s.sp, m)
    requires w.ui == 0 && w.un < c.ppl && 1 < c.ppl
    requires (w.un + w.hv == c.ppl + 1 && w.free == 3) || (w.un + w.hv == 1 && w.free == 2)
    ensures At(c, heap, n, LATER, s', m') && Looks(c, s', n, w.(un := 1, free := 2, hv := 0))
    ensures HotPass(s'.maptbl, s'.sp, m')
    decreases w.hv
  {
    hide At, Looks, HotPass, Config.Valid;
    if w.hv == 0 {
      s', m' := s, m;
    } else {
      var s1, m1 := DrainHotStep(c, heap, n, s, m, w);
      s', m' := DrainHot(c, heap, n, s1, m1, Rewritten(c, w, GcHot));
    }
  }

  lemma DrainHotStep(c: Config, heap: Heap, n: nat, s: Ftl, m: Meta, w: Shape) returns (s': Ftl, m': Meta)
    requires c.Valid() && At(c, heap, n, LATER, s, m) && Looks(c, s, n, w) && HotPass(s.maptbl, s.sp, m)
    requires w.ui == 0 && w.un < c.ppl && 0 < w.hv && (w.un + 1 < c.ppl || w.free > 0)
    ensures At(c, heap, n, LATER, s', m') && Looks(c, s', n, Rewritten(c, w, GcHot))
    ensures HotPass(s'.maptbl, s'.sp, m')
  {
    hide At, Looks, HotPass, Noted, SameLines, Config.Valid, Rewritten;
    LooksLines(c, s, n, w);
    var r := LpnOn(c, s, n, w, GcHot);
    s', m' := DriveRewrite(c, heap, n, LATER, s, m, w, GcHot, r);
    NotFree(c, s, n, w, s'.sp.user.line);
    HotStep(s.maptbl, s.sp, s'.sp, m, r, NextUser(s));
  }

  // ----- the user's line -----

  // LPN z alone is on the user's line; it was written more often than the slots there, the others at
  // most three times.
  ghost predicate WastePass(f: map<nat, Page>, sp: Space, m: Meta, z: nat, un: nat) {
    && z in f && f[z].line == sp.user.line && LastOf(m, z) == LATER && un < Count(m, z)
    && (forall l :: l in f && l != z ==> Count(m, l) <= 3)
    && m.average <= 16000 * Most(m, z) && (2 <= un ==> 1000 * Count(m, z) <= m.average)
  }

  function Most(m: Meta, z: nat): nat { if Count(m, z) < 3 then 3 else Count(m, z) }

  lemma WasteStep(f: map<nat, Page>, sp: Space, sp': Space, m: Meta, z: nat, un: nat, p: Page)
    requires WastePass(f, sp, m, z, un) && p.line == sp.user.line == sp'.user.line
    ensures WastePass(f[z := p], sp', Noted(m, WriteAt(z, LATER)), z, un + 1)
  {
    hide Noted;
    NotedIs(m, z, LATER, if Count(m, z) + 1 < 3 then 3 else Count(m, z) + 1);
  }

  // LPN z rewritten until the last slot of the user's line is next.
  lemma {:induction false} DriveWaste(c: Config, heap: Heap, n: nat, s: Ftl, m: Meta, w: Shape, z: nat)
    returns (s': Ftl, m': Meta)
    requires c.Valid() && At(c, heap, n, LATER, s, m) && Looks(c, s, n, w) && WastePass(s.maptbl, s.sp, m, z, w.un)
    requires w.ui + 1 == w.un < c.ppl
    ensures At(c, heap, n, LATER, s', m') && Looks(c, s', n, w.(un := c.ppl - 1, ui := c.ppl - 2))
    ensures WastePass(s'.maptbl, s'.sp, m', z, c.ppl - 1)
    decreases c.ppl - w.un
  {
    hide At, Looks, WastePass, Config.Valid;
    if w.un + 1 == c.ppl {
      s', m' := s, m;
    } else {
      var s1, m1 := WasteOnce(c, heap, n, s, m, w, z);
      s', m' := DriveWaste(c, heap, n, s1, m1, w.(un := w.un + 1, ui := w.ui + 1), z);
    }
  }

  lemma WasteOnce(c: Config, heap: Heap, n: nat, s: Ftl, m: Meta, w: Shape, z: nat) returns (s': Ftl, m': Meta)
    requires c.Valid() && At(c, heap, n, LATER, s, m) && Looks(c, s, n, w) && WastePass(s.maptbl, s.sp, m, z, w.un)
    requires w.ui + 1 == w.un && w.un + 1 < c.ppl
    ensures At(c, heap, n, LATER, s', m') && Looks(c, s', n, w.(un := w.un + 1, ui := w.ui + 1))
    ensures WastePass(s'.maptbl, s'.sp, m', z, w.un + 1)
  {
    hide At, Looks, WastePass, Config.Valid, Noted, SameLines;
    LooksLines(c, s, n, w);
    OnUserLine(s.maptbl, s.sp, m, z, w.un);
    s', m' := DriveRewrite(c, heap, n, LATER, s, m, w, UserIo, z);
    WasteStep(s.maptbl, s.sp, s'.sp, m, z, w.un, NextUser(s));
  }

  lemma OnUserLine(f: map<nat, Page>, sp: Space, m: Meta, z: nat, un: nat)
    requires WastePass(f, sp, m, z, un)
    ensures z in f && f[z].line == sp.user.line
  {
  }

  lemma WasteStart(c: Config, s: Ftl, n: nat, w: Shape, m: Meta, z: nat)
    requires HotPass(s.maptbl, s.sp, m) && z in s.maptbl && s.maptbl[z].line == s.sp.user.line
    ensures WastePass(s.maptbl, s.sp, m, z, 1)
  {
  }

  // ----- the last write -----

  lemma {:induction false} CleanedMeans(sched: seq<GcEvent>, n: nat, k: nat) returns (i: nat)
    requires n <= |sched| && k in Cleaned(sched, n)
    ensures i < n && sched[i] == Clean(k)
  {
    if n > 0 && sched[n - 1] == Clean(k) {
      i := n - 1;
    } else {
      i := CleanedMeans(sched, n - 1, k);
    }
  }

  lemma CleanedAtIs(c: Config, k: nat)
    requires c.Valid() && k < c.ppl
    ensures CleanedAt(c, k) < |c.schedule| && c.schedule[CleanedAt(c, k)] == Clean(k)
  {
    hide Cleaned, Erased;
    AllCleaned(c, k);
    var i := CleanedMeans(c.schedule, |c.schedule|, k);
  }

  // A clock that stands still up to event i and goes on by a minute before it.
  function Jump(t: nat, i: nat): nat -> nat { (a: nat) => if a < i then t else t + LATER }

  lemma JumpTicks(c: Config, lpn: nat, t: nat, i: nat)
    ensures OneTick(c, Write(lpn, [], t, Jump(t, i))) && By(c, Write(lpn, [], t, Jump(t, i)), t + LATER)
  {
  }

  // Two pages, of which the first was written often enough: whichever is copied first, the clock can
  // make one of them hot and the other one cold.
  lemma OneOfTwo(nz: nat, nt: nat, average: nat, iz: nat, it: nat) returns (i: nat, zHot: bool)
    requires average <= 16000 * nz && 160 * nz < average && 160 * nt < average && iz != it
    ensures IsHot(nz, LATER, Jump(LATER, i)(iz), average) == zHot
    ensures IsHot(nt, LATER, Jump(LATER, i)(it), average) == !zHot
  {
    hide IsHot;
    HotNow(nz, LATER, average);
    ColdLater(nz, LATER, LATER + LATER, average);
    ColdLater(nt, LATER, LATER + LATER, average);
    if iz < it {
      i, zHot := it, true;
    } else if IsHot(nt, LATER, LATER, average) {
      i, zHot := iz, false;
    } else {
      i, zHot := iz + 1, true;
    }
  }

  // The line management after a page of full line x was stored in the user's last slot: the user's line
  // is the candidate with the fewest valid pages.
  lemma EndSpace(c: Config, sp: Space, w: Shape, x: nat)
    requires Sane(c, sp) && LooksOpen(sp, w) && sp.victims == {} && |sp.free| == 2 && x in sp.full
    requires w.un + 1 == c.ppl && w.ui + 1 == w.un && w.hn + 1 == w.cn + 1 == c.ppl && 4 <= c.ppl
    ensures x < |sp.lines| && StoreSpace(c, sp, Some(x)).Some?
    ensures var r := StoreSpace(c, sp, Some(x)).value;
            && TypedSpace(r) && r.victims == {x, sp.user.line}
            && r.lines[sp.user.line].vpc == 2 && r.lines[x].vpc == c.ppl - 1
  {
    assert IsClosed(sp, x, c.ppl) && IsOpen(c, sp, UserIo);
  }

  lemma GreedyTakes(pick: Space -> nat, sp: Space, x: nat, user: nat)
    requires Greedy(pick) && TypedSpace(sp) && sp.victims == {x, user} && sp.lines[user].vpc < sp.lines[x].vpc
    ensures pick(sp) == user
  {
    assert Fewest(sp, pick(sp));
  }

  // The valid pages of that line: those of LPN z and of the LPN just stored.
  lemma EndPages(c: Config, s: Ftl, n: nat, w: Shape, z: nat, t: nat, u: Ftl)
    requires Looks(c, s, n, w) && w.un == w.ui + 1 && z in s.maptbl && s.maptbl[z].line == s.sp.user.line
    requires t in s.maptbl && s.maptbl[t].line != s.sp.user.line && Stored(c, s, t, [], u)
    ensures In(u.valid, s.sp.user.line) == {s.maptbl[z], NextUser(s)}
    ensures s.maptbl[z] in u.rmap && u.rmap[s.maptbl[z]] == z && NextUser(s) in u.rmap && u.rmap[NextUser(s)] == t
    ensures s.maptbl[z].slot < c.ppl && NextUser(s).slot < c.ppl && s.maptbl[z].slot != NextUser(s).slot
  {
    hide Looks, Sound, Stored, In;
    SoleUserPage(c, s, n, w);
    OnlyPage(c, s, z);
    StoredPages(c, s, t, u);
    SwapIn(s.valid, s.maptbl[t], NextUser(s));
    Apart2(s.valid, s.maptbl[z], NextUser(s));
  }

  lemma SoleUserPage(c: Config, s: Ftl, n: nat, w: Shape)
    requires Looks(c, s, n, w) && w.un == w.ui + 1
    ensures Sound(c, s) && |In(s.valid, s.sp.user.line)| == 1
  {
    hide Sound;
    OpenValid(c, s, UserIo);
    LooksLines(c, s, n, w);
  }

  lemma SwapIn(pages: set<Page>, a: Page, b: Page)
    requires a.line != b.line
    ensures In(pages - {a} + {b}, b.line) == In(pages, b.line) + {b}
  {
  }

  lemma Apart2(pages: set<Page>, a: Page, b: Page)
    requires a in pages && b !in pages && a.line == b.line
    ensures a.slot != b.slot && a != b
  {
    assert a == Page(a.line, a.slot) && b == Page(b.line, b.slot);
  }

  lemma OnlyPage(c: Config, s: Ftl, z: nat)
    requires Sound(c, s) && z in s.maptbl && |In(s.valid, s.maptbl[z].line)| == 1
    ensures In(s.valid, s.maptbl[z].line) == {s.maptbl[z]} && s.maptbl[z].slot < c.ppl
    ensures s.maptbl[z] in s.rmap && s.rmap[s.maptbl[z]] == z && s.maptbl[z] in s.valid
  {
    var pages := In(s.valid, s.maptbl[z].line);
    assert s.maptbl[z] in pages;
    forall p | p in pages ensures p == s.maptbl[z] {
      if p != s.maptbl[z] {
        Subset({p, s.maptbl[z]}, pages);
      }
    }
  }

  lemma StoredPages(c: Config, s: Ftl, t: nat, u: Ftl)
    requires Sound(c, s) && t in s.maptbl && Stored(c, s, t, [], u) && s.maptbl[t].line != s.sp.user.line
    ensures u.valid == s.valid - {s.maptbl[t]} + {NextUser(s)} && NextUser(s) !in s.valid
    ensures NextUser(s) in u.rmap && u.rmap[NextUser(s)] == t && NextUser(s).slot < c.ppl
    ensures forall p :: p in s.rmap && p != NextUser(s) && p != s.maptbl[t] ==> p in u.rmap && u.rmap[p] == s.rmap[p]
  {
    UserFree(c, s);
    NextInLine(c, s);
    hide Advance, Sound;
  }

  // The counts and the average when the last LPN t is noted.
  lemma EndMeta(f: map<nat, Page>, sp: Space, m: Meta, z: nat, t: nat, un: nat)
    requires WastePass(f, sp, m, z, un) && 3 <= un && t in f && t != z
    ensures var m1 := Noted(m, WriteAt(t, LATER));
            && LastOf(m1, z) == LATER && LastOf(m1, t) == LATER
            && m1.average <= 16000 * Count(m1, z)
            && 160 * Count(m1, z) < m1.average && 160 * Count(m1, t) < m1.average
  {
    hide Noted;
    NotedIs(m, t, LATER, Count(m, z));
  }

  lemma NotedAnyClock(m: Meta, lpn: nat, t: nat, clock: nat -> nat)
    ensures Noted(m, Write(lpn, [], t, clock)) == Noted(m, WriteAt(lpn, t))
  {
  }

  // What the routes of the last write are.
  lemma EndHot(c: Config, s: Ftl, m1: Meta, pick: Space -> nat, w: Write, u: Ftl, line: nat, pz: Page, pt: Page,
               z: nat, t: nat, zHot: bool)
    requires Typed(s) && w.v == [] && w.lpn == t && Stored(c, s, t, [], u)
    requires In(u.valid, line) == {pz, pt} && pz != pt
    requires pz in u.rmap && u.rmap[pz] == z && pt in u.rmap && u.rmap[pt] == t
    requires IsHot(Count(m1, z), LastOf(m1, z), w.clock(CleanedAt(c, pz.slot)), m1.average) == zHot
    requires IsHot(Count(m1, t), LastOf(m1, t), w.clock(CleanedAt(c, pt.slot)), m1.average) == !zHot
    ensures OneHot(u, line, AsRequest(c, s, m1, pick, w).hot, if zHot then pz else pt)
  {
    hide IsHot, CleanedAt, HostWrite, Typed;
  }

  // The two pages of the user's line, and a clock that separates them.
  lemma EndClock(c: Config, s: Ftl, n: nat, w: Shape, m: Meta, z: nat, t: nat, u: Ftl, pick: Space -> nat)
    returns (wr: Write, p: Page)
    requires c.Valid() && 4 <= c.ppl && Looks(c, s, n, w) && w.un + 1 == c.ppl && w.un == w.ui + 1
    requires WastePass(s.maptbl, s.sp, m, z, w.un)
    requires t in s.maptbl && s.maptbl[t].line != s.sp.user.line && Stored(c, s, t, [], u)
    ensures OneTick(c, wr) && By(c, wr, LATER + LATER) && wr.now == LATER && wr.lpn == t && wr.v == []
    ensures Typed(s) && OneHot(u, s.sp.user.line, AsRequest(c, s, Noted(m, wr), pick, wr).hot, p)
  {
    hide Looks, WastePass, Noted, IsHot, CleanedAt, Stored, AsRequest, OneHot, OneTick, By, In, GoodSchedule;
    LooksLines(c, s, n, w);
    OnUserLine(s.maptbl, s.sp, m, z, w.un);
    EndMeta(s.maptbl, s.sp, m, z, t, w.un);
    EndPages(c, s, n, w, z, t, u);
    var pz, pt, m1 := s.maptbl[z], NextUser(s), Noted(m, WriteAt(t, LATER));
    CleanedAtIs(c, pz.slot);
    CleanedAtIs(c, pt.slot);
    var i, zHot := OneOfTwo(Count(m1, z), Count(m1, t), m1.average, CleanedAt(c, pz.slot), CleanedAt(c, pt.slot));
    wr := Write(t, [], LATER, Jump(LATER, i));
    JumpTicks(c, t, LATER, i);
    NotedAnyClock(m, t, LATER, Jump(LATER, i));
    EndHot(c, s, m1, pick, wr, u, s.sp.user.line, pz, pt, z, t, zHot);
    p := if zHot then pz else pt;
  }

  // The line management before the last collection.
  lemma EndState(c: Config, s: Ftl, n: nat, w: Shape, t: nat, pick: Space -> nat) returns (u: Ftl)
    requires c.Valid() && 4 <= c.ppl && Looks(c, s, n, w) && Greedy(pick)
    requires w == Shape(2, c.ppl - 1, c.ppl - 2, c.ppl - 1, 0, c.ppl - 1, 0)
    requires t in s.maptbl && s.maptbl[t].line in s.sp.full
    ensures Stored(c, s, t, [], u) && Typed(s) && OldLine(s, t).Some? && OldLine(s, t).value < |s.sp.lines|
    ensures StoreSpace(c, s.sp, OldLine(s, t)) == Some(u.sp) && s.sp.user.line < |u.sp.lines|
    ensures |u.sp.free| == 1 && Taken(c, u.sp, 0, 0) && s.sp.user.line in u.sp.victims
    ensures pick(u.sp) == s.sp.user.line && 2 <= c.ppl - u.sp.lines[s.sp.user.line].ipc
  {
    hide Sound, LooksOpen, StoreSpace, Sane, Greedy, HostWrite, Taken, GoodSchedule;
    SaneIs(c, s);
    SoundTyped(c, s);
    OldLineIs(s, t);
    var x := s.maptbl[t].line;
    EndSpace(c, s.sp, w, x);
    LastSpace(c, s.sp, w, x);
    StoreSpaceIs(c, s, t, []);
    GreedyTakes(pick, StoreSpace(c, s.sp, Some(x)).value, x, s.sp.user.line);
    TakenFree(c, StoreSpace(c, s.sp, Some(x)).value);
    var h := HostWrite(c, s, t, []).value;
    u := h.(ct := h.ct.(credits := h.ct.credits - 1));
  }

  // The last write: the user's line is collected, one of its two pages is hot and the other one cold.
  lemma GreedyEnd(c: Config, heap: Heap, n: nat, s: Ftl, m: Meta, z: nat)
    requires c.Valid() && 4 <= c.ppl && At(c, heap, n, LATER, s, m)
    requires Looks(c, s, n, Shape(2, c.ppl - 1, c.ppl - 2, c.ppl - 1, 0, c.ppl - 1, 0))
    requires WastePass(s.maptbl, s.sp, m, z, c.ppl - 1)
    ensures Breaks(c, heap, n)
  {
    hide At, WastePass, Noted, AsRequest, OneHot, OneTick, By, Next, Breaks, Stored, Taken, Sound, LooksOpen;
    hide WriteStep, Greedy, Collect, Inv, Typed, StoreSpace, Admissible, OldLine, GoodSchedule, Policy, In;
    var w := Shape(2, c.ppl - 1, c.ppl - 2, c.ppl - 1, 0, c.ppl - 1, 0);
    var x := SomeFull(c, s, n, w);
    FullApart(c, s, n, w, x);
    var t := LpnOnFull(c, s, n, w, x);
    var pick := NextOf(c, heap, n, LATER, s, m);
    NextGreedy(c, heap, n, LATER, s, m, pick);
    var u := EndState(c, s, n, w, t, pick);
    var wr, p := EndClock(c, s, n, w, m, z, t, u, pick);
    var q := AsRequest(c, s, Noted(m, wr), pick, wr);
    AsRequestIs(c, heap, n, LATER, s, m, pick, wr);
    var u1 := StepWithGc(c, s, q, s.sp.user.line);
    SameStored(c, s, t, u, u1);
    SplitFails(c, u, s.sp.user.line, q.hot, p);
    Goto(c, heap, n, LATER, s, m, pick, wr, LATER + LATER);
  }

  lemma NextGreedy(c: Config, heap: Heap, n: nat, t: nat, s: Ftl, m: Meta, pick: Space -> nat)
    requires Next(c, heap, n, t, s, m, pick)
    ensures Greedy(pick)
  {
  }

  lemma AsRequestIs(c: Config, heap: Heap, n: nat, t: nat, s: Ftl, m: Meta, pick: Space -> nat, w: Write)
    requires Next(c, heap, n, t, s, m, pick) && Typed(s) && w.lpn < n && w.v == []
    ensures var q := AsRequest(c, s, Noted(m, w), pick, w);
            Admissible(c, q) && q.lpn == w.lpn && q.pick == pick && q.v == []
  {
    hide DriverRun, Route, Noted;
  }

  lemma SameStored(c: Config, s: Ftl, t: nat, u: Ftl, u1: Ftl)
    requires Stored(c, s, t, [], u) && Stored(c, s, t, [], u1)
    ensures u == u1
  {
  }

  // With at least four pages in a line, the driver in greedy mode fails over one LPN more than Capacity.
  lemma GreedyFails(c: Config, heap: Heap, n: nat)
    requires c.Valid() && AllGreedy(heap) && 4 <= c.ppl && n == (c.lines - 5) * c.ppl + 1
    ensures Breaks(c, heap, n)
  {
    hide At, Looks, ColdPass, HotPass, WastePass, Breaks, AllGreedy, Config.Valid, Untouched;
    Sizes(c);
    var s, m := DriveFill(c, heap, n);
    var e;
    s, m, e := FirstCollection(c, heap, n, s, m);
    s, m := DrainCold(c, heap, n, s, m, Shape(3, 2, 0, 0, 0, c.ppl - 1, c.ppl - 1), e);
    s, m := SecondCollection(c, heap, n, s, m, e);
    s, m := DrainHot(c, heap, n, s, m, Shape(3, 2, 0, c.ppl - 1, c.ppl - 1, c.ppl - 1, 0));
    var w := Shape(2, 1, 0, c.ppl - 1, 0, c.ppl - 1, 0);
    var z := LpnOn(c, s, n, w, UserIo);
    WasteStart(c, s, n, w, m, z);
    s, m := DriveWaste(c, heap, n, s, m, w, z);
    GreedyEnd(c, heap, n, s, m, z);
  }

  /** Capacity is the exact limit of the driver in greedy mode, with at least four pages in a line: all
      runs over at most n LPNs, whatever the clock, find a free line whenever they need one if and only
      if n is at most Capacity. */
  lemma GreedyCapacity(c: Config, heap: Heap, n: nat)
    requires c.Valid() && AllGreedy(heap) && 4 <= c.ppl
    ensures (forall ws :: AllBelow(ws, c.lpns) && Ticks(c, ws) && |Lpns(ws)| <= n ==>
               DriverRun(c, heap, ws).Some?)
            <==> n <= Capacity(c)
  {
    hide Run, AllGreedy, DriverRun, Ticks, Config.Valid, AllAdmissible, Touched;
    if n <= Capacity(c) {
      forall ws | AllBelow(ws, c.lpns) && Ticks(c, ws) && |Lpns(ws)| <= n ensures DriverRun(c, heap, ws).Some? {
        var reqs := DriverIsRun(c, heap, ws);
        SameLpns(ws, reqs);
        AllAdmissibleIs(c, reqs);
        NeverOutOfLines(c, reqs);
      }
    } else {
      Sizes(c);
      GreedyFails(c, heap, Capacity(c) + 1);
      var ws, t: nat :| Goes(c, heap, Capacity(c) + 1, ws, t) && DriverRun(c, heap, ws) == None;
      LpnsBelow(ws, Capacity(c) + 1);
    }
  }

  lemma AllAdmissibleIs(c: Config, reqs: seq<Request>)
    requires AllAdmissible(c, reqs)
    ensures forall i :: 0 <= i < |reqs| ==> Admissible(c, reqs[i])
  {
  }

  lemma SameLpns(ws: seq<Write>, reqs: seq<Request>)
    requires |reqs| == |ws| && forall i :: 0 <= i < |ws| ==> reqs[i].lpn == ws[i].lpn
    ensures Lpns(ws) == Touched(reqs)
  {
  }

  lemma LpnsBelow(ws: seq<Write>, n: nat)
    requires AllBelow(ws, n)
    ensures |Lpns(ws)| <= n
  {
    Subset(Lpns(ws), Below(n));
  }
}
