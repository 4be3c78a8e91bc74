/**
 The state of one page-mapped FTL partition (`struct conv_ftl`, conv_ftl.h:176-198) as a value,
 and the steps that the driver takes on it as functions: invalidate, place a page, advance a write
 pointer, collect a line, write one logical page.

 A physical page is named by its line and by its position in the order in which the write pointer
 programs that line (its slot); module Geometry ties slots to channel, LUN and page numbers.
 */
module FtlModel {
  import opened Wrappers

  type Byte = b: int | 0 <= b < 256

  // The host data a physical page holds. The driver keeps it outside the FTL; it is tracked here
  // so that one can say that garbage collection does not lose it.
  type Payload = seq<Byte>

  datatype Page = Page(line: nat, slot: nat)

  // A line's counters (struct line, conv_ftl.h:126-134).
  datatype Line = Line(vpc: int, ipc: int, eraseCnt: nat)

  // A write pointer: the line that is open and the next slot to program in it.
  datatype OpenLine = OpenLine(line: nat, next: nat)

  // Which write pointer a write goes through (conv_ftl.c:757-765).
  datatype Stream = UserIo | GcHot | GcCold

  // What the loops of do_gc do to the victim, in order: copy one page if it is valid, or erase a
  // block, that is, a set of slots.
  datatype GcEvent = Clean(slot: nat) | Erase(slots: set<nat>)

  /** The constants of a partition: pages per line, number of lines, the foreground threshold
      gc_thres_lines_high, the number of LPNs (tt_pgs) and the order in which a victim is cleaned. */
  datatype Config = Config(ppl: nat, lines: nat, thres: nat, lpns: nat, schedule: seq<GcEvent>) {
    ghost predicate Valid() {
      && 0 < ppl
      && 3 <= thres
      && thres + 4 <= lines
      && lpns == ppl * lines
      && GoodSchedule(ppl, schedule)
    }
  }

  // Line management (struct line_mgmt) and the three write pointers. `victims` are the lines in
  // victim_line_pq, `free` is free_line_list from its first entry, `full` is full_line_list.
  datatype Space = Space(lines: seq<Line>, free: seq<nat>, full: set<nat>, victims: set<nat>,
                         user: OpenLine, hot: OpenLine, cold: OpenLine) {
    function Open(st: Stream): OpenLine {
      match st
      case UserIo => user
      case GcHot => hot
      case GcCold => cold
    }

    function SetOpen(st: Stream, o: OpenLine): Space {
      match st
      case UserIo => this.(user := o)
      case GcHot => this.(hot := o)
      case GcCold => this.(cold := o)
    }
  }

  // write_credits and credits_to_refill; gc_count, gc_copied_pages and host_written_pages.
  datatype Counters = Counters(credits: int, refill: int, gcCount: nat, copied: nat, hostWritten: nat)

  datatype Ftl = Ftl(
    maptbl: map<nat, Page>,      // forward map; an absent key is UNMAPPED_PPA
    rmap: map<Page, nat>,        // reverse map; an absent key is INVALID_LPN
    valid: set<Page>,            // pages whose status is PG_VALID
    invalid: set<Page>,          // pages whose status is PG_INVALID; all others are PG_FREE
    data: map<Page, Payload>,
    sp: Space,
    ct: Counters)

  // Slots that the first n events of a schedule clean.
  function Cleaned(sched: seq<GcEvent>, n: nat): (r: set<nat>)
    requires n <= |sched|
  {
    if n == 0 then {}
    else match sched[n - 1]
      case Clean(k) => Cleaned(sched, n - 1) + {k}
      case Erase(_) => Cleaned(sched, n - 1)
  }

  // Slots that the first n events of a schedule erase.
  function Erased(sched: seq<GcEvent>, n: nat): (r: set<nat>)
    requires n <= |sched|
  {
    if n == 0 then {}
    else match sched[n - 1]
      case Clean(_) => Erased(sched, n - 1)
      case Erase(e) => Erased(sched, n - 1) + e
  }

  /** A schedule that cleans every slot once, erases only slots it has already cleaned, never
      looks at an erased slot again, and in the end has erased the whole line. */
  ghost predicate GoodSchedule(ppl: nat, sched: seq<GcEvent>) {
    && (forall i :: 0 <= i < |sched| ==>
          match sched[i]
          case Clean(k) => k < ppl && k !in Cleaned(sched, i)
          case Erase(e) => e <= Cleaned(sched, i) && e !! Erased(sched, i))
    && (forall k :: 0 <= k < ppl ==> k in Erased(sched, |sched|))
  }

  // The state after conv_init_ftl (conv_ftl.c:875-900): lines 0, 1 and 2 are open.
  function Init(c: Config): Ftl {
    Ftl(map[], map[], {}, {}, map[],
        Space(seq(c.lines, i => Line(0, 0, 0)),
              seq(if c.lines < 3 then 0 else c.lines - 3, i => i + 3), {}, {},
              OpenLine(0, 0), OpenLine(1, 0), OpenLine(2, 0)),
        Counters(c.ppl, c.ppl, 0, 0, 0))
  }

  // One more valid page in line l (mark_page_valid, conv_ftl.c:1062-1077).
  function CountValid(sp: Space, l: nat): Space
    requires l < |sp.lines|
  {
    sp.(lines := sp.lines[l := sp.lines[l].(vpc := sp.lines[l].vpc + 1)])
  }

  /** The line side of mark_page_invalid (conv_ftl.c:1040-1056): a line that was full leaves the
      full list and becomes a victim candidate. */
  function CountInvalid(c: Config, sp: Space, l: nat): Space
    requires l < |sp.lines|
  {
    var old_ := sp.lines[l];
    var sp1 := sp.(lines := sp.lines[l := old_.(vpc := old_.vpc - 1, ipc := old_.ipc + 1)]);
    if old_.vpc == c.ppl then sp1.(full := sp.full - {l}, victims := sp.victims + {l}) else sp1
  }

  // Line numbers in the lists and write pointers are in range.
  ghost predicate TypedSpace(sp: Space) {
    && sp.user.line < |sp.lines| && sp.hot.line < |sp.lines| && sp.cold.line < |sp.lines|
    && (forall i :: 0 <= i < |sp.free| ==> sp.free[i] < |sp.lines|)
    && (forall l :: l in sp.victims ==> l < |sp.lines|)
  }

  // Line numbers are in range, and every valid page has a reverse entry and data.
  ghost predicate Typed(s: Ftl) {
    && TypedSpace(s.sp)
    && (forall p :: p in s.valid ==> p.line < |s.sp.lines| && p in s.rmap && p in s.data)
    && (forall lpn :: lpn in s.maptbl ==> s.maptbl[lpn].line < |s.sp.lines|)
  }

  /** advance_write_pointer (conv_ftl.c:783-830). None when a line is complete and no free line is
      left: the driver then dereferences the null pointer that get_next_free_line returned. */
  function Advance(c: Config, sp: Space, st: Stream): (r: Option<Space>)
    requires TypedSpace(sp)
    ensures r.Some? ==> TypedSpace(r.value) && r.value.lines == sp.lines
  {
    var o := sp.Open(st);
    if o.next + 1 < c.ppl then Some(sp.SetOpen(st, o.(next := o.next + 1)))
    else if sp.free == [] then None
    else
      var closed := if sp.lines[o.line].vpc == c.ppl
                    then sp.(full := sp.full + {o.line})
                    else sp.(victims := sp.victims + {o.line});
      Some(closed.(free := sp.free[1..]).SetOpen(st, OpenLine(sp.free[0], 0)))
  }

  /** One page programmed through a stream: get_new_page, set_maptbl_ent, set_rmap_ent,
      mark_page_valid, advance_write_pointer. */
  function Append(c: Config, s: Ftl, st: Stream, lpn: nat, v: Payload): (r: Option<Ftl>)
    requires Typed(s)
    ensures r.Some? ==> Typed(r.value) && |r.value.sp.lines| == |s.sp.lines|
  {
    var o := s.sp.Open(st);
    var p := Page(o.line, o.next);
    match Advance(c, CountValid(s.sp, o.line), st)
    case None => None
    case Some(sp) =>
      Some(s.(maptbl := s.maptbl[lpn := p], rmap := s.rmap[p := lpn],
              valid := s.valid + {p}, data := s.data[p := v], sp := sp))
  }

  /** mark_page_invalid and the reset of the reverse entry (conv_ftl.c:1454-1455). */
  function Invalidate(c: Config, s: Ftl, p: Page): (r: Ftl)
    requires Typed(s) && p.line < |s.sp.lines|
    ensures Typed(r) && |r.sp.lines| == |s.sp.lines|
  {
    s.(valid := s.valid - {p}, invalid := s.invalid + {p}, rmap := s.rmap - {p},
       sp := CountInvalid(c, s.sp, p.line))
  }

  /** The part of conv_write's loop body that stores one logical page (conv_ftl.c:1451-1494). */
  function HostWrite(c: Config, s: Ftl, lpn: nat, v: Payload): (r: Option<Ftl>)
    requires Typed(s)
    ensures r.Some? ==> Typed(r.value)
  {
    var s1 := if lpn in s.maptbl then Invalidate(c, s, s.maptbl[lpn]) else s;
    Append(c, s1.(ct := s1.ct.(hostWritten := s1.ct.hostWritten + 1)), UserIo, lpn, v)
  }

  // The pages that are not one of these slots of line v.
  function Without(pages: set<Page>, v: nat, slots: set<nat>): set<Page> {
    set p | p in pages && !(p.line == v && p.slot in slots)
  }

  /** One event of a collection of line v. `hot` is the hot/cold decision for each page copied
      (gc_write_page, conv_ftl.c:1118-1154; clean_one_flashpg, 1157-1194; mark_block_free, 1080-1091). */
  function GcStep(c: Config, s: Ftl, v: nat, hot: Page -> bool, e: GcEvent): (r: Option<Ftl>)
    requires Typed(s)
    ensures r.Some? ==> Typed(r.value) && |r.value.sp.lines| == |s.sp.lines|
  {
    match e
    case Clean(k) =>
      var p := Page(v, k);
      if p !in s.valid then Some(s)
      else Append(c, s.(ct := s.ct.(copied := s.ct.copied + 1)), if hot(p) then GcHot else GcCold,
                  s.rmap[p], s.data[p])
    case Erase(slots) =>
      Some(s.(valid := Without(s.valid, v, slots), invalid := Without(s.invalid, v, slots)))
  }

  // The first n events of collecting line v.
  function GcRun(c: Config, s: Ftl, v: nat, hot: Page -> bool, n: nat): (r: Option<Ftl>)
    requires Typed(s) && n <= |c.schedule|
    ensures r.Some? ==> Typed(r.value) && |r.value.sp.lines| == |s.sp.lines|
  {
    if n == 0 then Some(s)
    else match GcRun(c, s, v, hot, n - 1)
      case None => None
      case Some(t) => GcStep(c, t, v, hot, c.schedule[n - 1])
  }

  // Taking v out of the victim queue, and the credits that collecting it will give back
  // (conv_ftl.c:1223-1235).
  function TakeVictim(s: Ftl, v: nat): (r: Ftl)
    requires Typed(s) && v < |s.sp.lines|
    ensures Typed(r) && |r.sp.lines| == |s.sp.lines|
  {
    s.(sp := s.sp.(victims := s.sp.victims - {v}),
       ct := s.ct.(gcCount := s.ct.gcCount + 1, refill := s.sp.lines[v].ipc))
  }

  // mark_line_free (conv_ftl.c:1094-1104).
  function FreeLine(s: Ftl, v: nat): (r: Ftl)
    requires Typed(s) && v < |s.sp.lines|
    ensures Typed(r)
  {
    s.(sp := s.sp.(lines := s.sp.lines[v := Line(0, 0, s.sp.lines[v].eraseCnt + 1)],
                   free := s.sp.free + [v]))
  }

  /** do_gc on the chosen victim (conv_ftl.c:1228-1270). */
  function Collect(c: Config, s: Ftl, v: nat, hot: Page -> bool): (r: Option<Ftl>)
    requires Typed(s) && v < |s.sp.lines|
    ensures r.Some? ==> Typed(r.value)
  {
    match GcRun(c, TakeVictim(s, v), v, hot, |c.schedule|)
    case None => None
    case Some(t) => Some(FreeLine(t, v))
  }

  // A victim policy: it names a line of the victim queue whenever there is one.
  ghost predicate Policy(pick: Space -> nat) {
    forall sp: Space :: sp.victims != {} ==> pick(sp) in sp.victims
  }

  // No candidate has fewer valid pages than line v.
  ghost predicate Fewest(sp: Space, v: nat) {
    && v < |sp.lines|
    && forall l :: l in sp.victims ==> l < |sp.lines| && sp.lines[v].vpc <= sp.lines[l].vpc
  }

  ghost function AnyOf(ls: set<nat>): (r: nat)
    requires ls != {}
    ensures r in ls
  {
    var l :| l in ls;
    l
  }

  // The policy that takes line v whenever it can.
  ghost function Chosen(v: nat): Space -> nat {
    (sp: Space) => if v in sp.victims || sp.victims == {} then v else AnyOf(sp.victims)
  }

  lemma ChosenPolicy(v: nat)
    ensures Policy(Chosen(v))
  {
  }

  /** foreground_gc (conv_ftl.c:1284-1306): nothing while more than gc_thres_lines_high lines are
      free; with an empty victim queue do_gc only clears credits_to_refill (1223-1226). */
  function ForegroundGc(c: Config, s: Ftl, pick: Space -> nat, hot: Page -> bool): (r: Option<Ftl>)
    requires Typed(s) && Policy(pick)
    ensures r.Some? ==> Typed(r.value)
  {
    if |s.sp.free| > c.thres then Some(s)
    else if s.sp.victims == {} then Some(s.(ct := s.ct.(refill := 0)))
    else Collect(c, s, pick(s.sp), hot)
  }

  /** check_and_refill_write_credit (conv_ftl.c:240-251). */
  function RefillCredits(c: Config, s: Ftl, pick: Space -> nat, hot: Page -> bool): (r: Option<Ftl>)
    requires Typed(s) && Policy(pick)
    ensures r.Some? ==> Typed(r.value)
  {
    if s.ct.credits > 0 then Some(s)
    else match ForegroundGc(c, s, pick, hot)
      case None => None
      case Some(t) =>
        Some(t.(ct := t.ct.(credits := if t.ct.refill > 0 then t.ct.credits + t.ct.refill else 1)))
  }

  // A host write of one logical page, with the choices the driver makes along the way.
  datatype Request = Request(lpn: nat, v: Payload, pick: Space -> nat, hot: Page -> bool)

  ghost predicate Admissible(c: Config, r: Request) {
    r.lpn < c.lpns && Policy(r.pick)
  }

  /** One iteration of conv_write's loop (conv_ftl.c:1442-1506). */
  function WriteStep(c: Config, s: Ftl, q: Request): (r: Option<Ftl>)
    requires Typed(s) && Admissible(c, q)
    ensures r.Some? ==> Typed(r.value)
  {
    match HostWrite(c, s, q.lpn, q.v)
    case None => None
    case Some(t) =>
      RefillCredits(c, t.(ct := t.ct.(credits := t.ct.credits - 1)), q.pick, q.hot)
  }

  // Pages that can be programmed before any line is erased.
  function FreePages(c: Config, sp: Space): int {
    |sp.free| * c.ppl + (c.ppl - sp.user.next) + (c.ppl - sp.hot.next) + (c.ppl - sp.cold.next)
  }

  // The erase count of every line, and a sum of such counts.
  function EraseCounts(sp: Space): seq<nat> {
    seq(|sp.lines|, i requires 0 <= i < |sp.lines| => sp.lines[i].eraseCnt)
  }

  function Sum(q: seq<nat>): nat {
    if q == [] then 0 else Sum(q[..|q| - 1]) + q[|q| - 1]
  }

  lemma {:induction false} SumBound(q: seq<nat>, i: nat)
    requires i < |q|
    ensures q[i] <= Sum(q)
  {
    if i < |q| - 1 {
      SumBound(q[..|q| - 1], i);
    }
  }

  lemma {:induction false} SumZeros(q: seq<nat>)
    requires forall i :: 0 <= i < |q| ==> q[i] == 0
    ensures Sum(q) == 0
  {
    if q != [] {
      SumZeros(q[..|q| - 1]);
    }
  }

  // What the host reads: the data of the page each mapped LPN points to.
  function Host(s: Ftl): map<nat, Payload> {
    map lpn | lpn in s.maptbl && s.maptbl[lpn] in s.data :: s.data[s.maptbl[lpn]]
  }
}
