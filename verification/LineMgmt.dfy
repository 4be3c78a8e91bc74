/**
 Line management in place (struct line_mgmt and the three write pointers, conv_ftl.h:126-154):
 counters in arrays, the free and full lists, the victim heap. Each method is proved to do what the
 corresponding function of FtlModel does to the Space this object represents.
 */
module LineMgmt {
  import opened Wrappers
  import opened FtlModel
  import opened FtlInvariant
  import opened FtlSteps
  import opened Arith
  import opened Geometry
  import opened PQueue
  import opened GcOrder
  import opened VictimScore

  // struct write_pointer (conv_ftl.h:136-143); blk is the line and pl is 0.
  datatype WritePointer = WritePointer(line: nat, c: Cursor)

  // The configuration of a partition with this geometry.
  function ConfigOf(g: Geometry, thres: nat): Config
    requires g.Valid()
  {
    Config(g.PgsPerLine(), g.blks, thres, g.PgsPerLine() * g.blks, Schedule(g))
  }

  function OpenOf(g: Geometry, w: WritePointer): OpenLine
    requires g.os > 0
  {
    OpenLine(w.line, Slot(g, w.c))
  }

  function LinesOf(vpc: seq<int>, ipc: seq<int>, erases: seq<nat>): seq<Line>
    requires |vpc| == |ipc| == |erases|
  {
    seq(|vpc|, i requires 0 <= i < |vpc| => Line(vpc[i], ipc[i], erases[i]))
  }

  function SetOf(q: seq<nat>): set<nat> {
    set x | x in q
  }

  // list_del_init of an entry.
  function Unlink(q: seq<nat>, x: nat): seq<nat> {
    if q == [] then []
    else if q[0] == x then q[1..]
    else [q[0]] + Unlink(q[1..], x)
  }

  lemma {:induction false} UnlinkElements(q: seq<nat>, x: nat)
    requires NoDup(q)
    ensures NoDup(Unlink(q, x)) && SetOf(Unlink(q, x)) == SetOf(q) - {x}
    ensures |Unlink(q, x)| == |q| - Bit(x in q)
  {
    if q != [] {
      PopFront(q);
      assert SetOf(q) == {q[0]} + SetOf(q[1..]);
      if q[0] != x {
        UnlinkElements(q[1..], x);
        var r := Unlink(q[1..], x);
        assert SetOf([q[0]] + r) == {q[0]} + SetOf(r);
        assert q[0] !in SetOf(r);
        assert forall i :: 0 <= i < |r| ==> r[i] in SetOf(r);
      }
    }
  }

  lemma AppendElements(q: seq<nat>, x: nat)
    requires NoDup(q) && x !in q
    ensures NoDup(q + [x]) && SetOf(q + [x]) == SetOf(q) + {x}
  {
  }

  // What the fresh tables represent.
  lemma InitView(g: Geometry, vpc: seq<int>, ipc: seq<int>, erases: seq<nat>, free: seq<nat>)
    requires g.Valid() && 3 <= g.blks && |vpc| == |ipc| == |erases| == g.blks
    requires forall i :: 0 <= i < g.blks ==> vpc[i] == 0 && ipc[i] == 0 && erases[i] == 0
    requires free == seq(g.blks, k => k)[1..][1..][1..]
    ensures forall c: Config :: c.lines == g.blks ==>
              && LinesOf(vpc, ipc, erases) == Init(c).sp.lines && free == Init(c).sp.free
              && OpenOf(g, WritePointer(0, Cursor(0, 0, 0))) == Init(c).sp.user
              && OpenOf(g, WritePointer(1, Cursor(0, 0, 0))) == Init(c).sp.hot
              && OpenOf(g, WritePointer(2, Cursor(0, 0, 0))) == Init(c).sp.cold
              && Init(c).sp.full == {} && Init(c).sp.victims == {}
  {
    StartSlot(g);
  }

  // Back-pointers are never 0, and lines outside the heap keep their position.
  lemma Positions(d: seq<nat>, n: nat, pos: seq<nat>, was: seq<nat>, before: set<nat>)
    requires n <= |d| && InRange(d, n, |pos|) && BackPointers(d, n, pos)
    requires Elsewhere(pos, was, Elems(d, n)) && before <= Elems(d, n)
    requires forall l :: 0 <= l < |was| ==> (was[l] != 0 <==> l in before)
    ensures forall l :: 0 <= l < |pos| ==> (pos[l] != 0 <==> l in Elems(d, n))
  {
  }

  // After one line left the heap, the others' positions still tell whether they are in it.
  lemma OthersKeep(d: seq<nat>, n: nat, pos: seq<nat>, was: seq<nat>, before: set<nat>, v: nat)
    requires n <= |d| && InRange(d, n, |pos|) && BackPointers(d, n, pos)
    requires Elsewhere(pos, was, before) && Elems(d, n) == before - {v} && v in before
    requires forall l :: 0 <= l < |was| ==> (was[l] != 0 <==> l in before)
    ensures forall l :: 0 <= l < |pos| && l != v ==> (pos[l] != 0 <==> l in Elems(d, n))
    ensures |before| == |Elems(d, n)| + 1
  {
  }

  lemma Scanned(d: seq<nat>, i: nat)
    requires 1 <= i < |d|
    ensures Elems(d, i) <= Elems(d, i + 1) && d[i] in Elems(d, i + 1)
  {
  }

  lemma AllScanned(d: seq<nat>, n: nat)
    requires 1 <= n <= |d|
    ensures Elems(d, n) == {} <==> n == 1
    ensures forall x :: x in Elems(d, n) <==> exists j :: 1 <= j < n && d[j] == x
  {
    if n > 1 {
      assert d[1] in Elems(d, n);
    }
  }

  lemma BestFirst(f: Facts, now: nat, alpha: nat, delta: nat)
    ensures Best([] + [f], f, now, alpha, delta)
  {
  }

  lemma BestAt(seen: seq<Facts>, b: Facts, i: nat, now: nat, alpha: nat, delta: nat)
    requires Best(seen, b, now, alpha, delta) && i < |seen|
    ensures ScoreAtMost(seen[i], b, now, alpha, delta)
  {
  }

  lemma EmptySet()
    ensures SetOf([]) == {}
  {
  }

  lemma OpenLines(g: Geometry, w: WritePointer, h: WritePointer, c: WritePointer)
    requires g.os > 0
    ensures OpenOf(g, w).line == w.line && OpenOf(g, h).line == h.line && OpenOf(g, c).line == c.line
  {
  }

  lemma SmallLines(n: nat)
    requires 3 <= n
    ensures var free := seq(n, k => k)[1..][1..][1..]; forall i :: 0 <= i < |free| ==> free[i] < n
  {
  }

  lemma StartSlot(g: Geometry)
    requires g.Valid()
    ensures Slot(g, Cursor(0, 0, 0)) == 0 && OnChip(g, Cursor(0, 0, 0))
  {
    MixParts(0, g.os, 0);
    Positive(g);
  }

  class LineMgmt {
    const g: Geometry
    const vpc: array<int>
    const ipc: array<int>
    const pos: array<nat>
    const eraseCnt: array<nat>
    const lastModified: array<nat>
    const victimPq: VictimQueue
    var freeList: seq<nat>
    var fullList: seq<nat>
    var freeLineCnt: nat
    var fullLineCnt: nat
    var victimLineCnt: nat
    var wp: WritePointer
    var hotWp: WritePointer
    var coldWp: WritePointer

    ghost function Repr(): set<object>
    {
      {this, vpc, ipc, pos, eraseCnt, lastModified, victimPq, victimPq.d}
    }

    ghost predicate Shape()
    {
      && g.Valid()
      && vpc.Length == ipc.Length == pos.Length == eraseCnt.Length == lastModified.Length == g.blks
      && vpc != ipc && pos != eraseCnt && victimPq.d != pos && victimPq.d != eraseCnt
      && lastModified != pos && lastModified != eraseCnt && lastModified != victimPq.d
      && victimPq.pri == vpc && victimPq.pos == pos
    }

    // The counters of lm equal the sizes of its lists, and a line's pos is not 0 exactly while the
    // line is in the heap.
    ghost predicate Rep()
      reads Repr()
    {
      && Shape()
      && victimPq.Valid()
      && (forall l :: 0 <= l < g.blks ==> (pos[l] != 0 <==> l in victimPq.Lines()))
      && NoDup(fullList)
      && freeLineCnt == |freeList| && fullLineCnt == |fullList| && victimLineCnt == |victimPq.Lines()|
      && OnChip(g, wp.c) && OnChip(g, hotWp.c) && OnChip(g, coldWp.c)
      && TypedSpace(View())
    }

    ghost function View(): Space
      reads this, victimPq, victimPq.d, vpc, ipc, eraseCnt
      requires Shape() && victimPq.size <= victimPq.d.Length
    {
      Space(LinesOf(vpc[..], ipc[..], eraseCnt[..]), freeList, SetOf(fullList), victimPq.Lines(),
            OpenOf(g, wp), OpenOf(g, hotWp), OpenOf(g, coldWp))
    }

    // All counters are 0 and all lists are empty.
    ghost predicate Blank()
      reads this, victimPq, victimPq.d, vpc, ipc, pos, eraseCnt
    {
      && Shape() && victimPq.Valid() && victimPq.Lines() == {}
      && (forall l :: 0 <= l < g.blks ==> vpc[l] == 0 && ipc[l] == 0 && eraseCnt[l] == 0 && pos[l] == 0)
      && freeList == [] && fullList == []
      && freeLineCnt == 0 && fullLineCnt == 0 && victimLineCnt == 0
    }

    // The allocations of init_lines (conv_ftl.c:641-653).
    constructor (g: Geometry)
      requires g.Valid()
      ensures Blank() && this.g == g
      ensures fresh(Repr())
    {
      this.g := g;
      var v := new int[g.blks](_ => 0);
      var p := new nat[g.blks](_ => 0);
      vpc, pos := v, p;
      ipc := new int[g.blks](_ => 0);
      eraseCnt := new nat[g.blks](_ => 0);
      lastModified := new nat[g.blks](_ => 0);
      victimPq := new VictimQueue(v, p);
      fullList, fullLineCnt, victimLineCnt := [], 0, 0;
      freeList, freeLineCnt := [], 0;
      wp, hotWp, coldWp := WritePointer(0, Cursor(0, 0, 0)), WritePointer(1, Cursor(0, 0, 0)),
        WritePointer(2, Cursor(0, 0, 0));
    }

    /** init_lines and the three prepare_write_pointer calls (conv_ftl.c:655-671, 892-894). */
    method InitLines()
      requires Blank() && 3 <= g.blks
      modifies this
      ensures Rep()
      ensures forall c: Config :: c.lines == g.blks ==> View() == Init(c).sp
    {
      StartSlot(g);
      FillFreeList();
      PrepareWritePointer(UserIo);
      PrepareWritePointer(GcHot);
      PrepareWritePointer(GcCold);
      hide Slot, Init, OpenOf, OnChip, SetOf, VictimQueue.Lines, VictimQueue.Valid;
      InitView(g, vpc[..], ipc[..], eraseCnt[..], freeList);
      EmptySet();
      SmallLines(g.blks);
      OpenLines(g, wp, hotWp, coldWp);
    }

    // Every line joins the free list (conv_ftl.c:655-667).
    method FillFreeList()
      requires freeList == [] && freeLineCnt == 0
      modifies this`freeList, this`freeLineCnt
      ensures freeList == seq(g.blks, k => k) && freeLineCnt == g.blks
    {
      for i := 0 to g.blks
        invariant freeList == seq(i, k => k) && freeLineCnt == i
      {
        freeList := freeList + [i];
        freeLineCnt := freeLineCnt + 1;
      }
    }

    // get_next_free_line and prepare_write_pointer (conv_ftl.c:742-777).
    method PrepareWritePointer(st: Stream)
      requires freeList != [] && freeLineCnt > 0
      modifies this
      ensures freeList == old(freeList)[1..] && freeLineCnt == old(freeLineCnt) - 1
      ensures wp == if st == UserIo then WritePointer(old(freeList)[0], Cursor(0, 0, 0)) else old(wp)
      ensures hotWp == if st == GcHot then WritePointer(old(freeList)[0], Cursor(0, 0, 0)) else old(hotWp)
      ensures coldWp == if st == GcCold then WritePointer(old(freeList)[0], Cursor(0, 0, 0)) else old(coldWp)
      ensures fullList == old(fullList) && fullLineCnt == old(fullLineCnt) && victimLineCnt == old(victimLineCnt)
    {
      var cur := freeList[0];
      freeList := freeList[1..];
      freeLineCnt := freeLineCnt - 1;
      SetWp(st, WritePointer(cur, Cursor(0, 0, 0)));
    }

    function Wp(st: Stream): WritePointer
      reads this
    {
      match st
      case UserIo => wp
      case GcHot => hotWp
      case GcCold => coldWp
    }

    method SetWp(st: Stream, w: WritePointer)
      modifies this
      ensures wp == if st == UserIo then w else old(wp)
      ensures hotWp == if st == GcHot then w else old(hotWp)
      ensures coldWp == if st == GcCold then w else old(coldWp)
      ensures freeList == old(freeList) && fullList == old(fullList) && freeLineCnt == old(freeLineCnt)
      ensures fullLineCnt == old(fullLineCnt) && victimLineCnt == old(victimLineCnt)
    {
      match st
      case UserIo => wp := w;
      case GcHot => hotWp := w;
      case GcCold => coldWp := w;
    }

    /** line->vpc++ (conv_ftl.c:1076). */
    method MarkValid(l: nat)
      requires Rep() && l < g.blks && l !in victimPq.Lines()
      modifies vpc
      ensures Rep() && View() == CountValid(old(View()), l)
    {
      vpc[l] := vpc[l] + 1;
    }

    // The valid count is the heap's priority, so a queued line changes it through the heap
    // (conv_ftl.c:1045-1049).
    method DecreaseVpc(l: nat)
      requires Rep() && l < g.blks
      modifies vpc, pos, victimPq.d
      ensures Rep() && vpc[..] == old(vpc[..])[l := old(vpc[l]) - 1]
      ensures victimPq.Lines() == old(victimPq.Lines())
    {
      if pos[l] != 0 {
        victimPq.ChangePriority(vpc[l] - 1, l);
        Positions(victimPq.d[..], victimPq.size, pos[..], old(pos[..]), old(victimPq.Lines()));
      } else {
        vpc[l] := vpc[l] - 1;
      }
    }

    // pqueue_insert and the count of candidates (conv_ftl.c:1054-1055, 819-820).
    method Enqueue(l: nat)
      requires Rep() && l < g.blks && l !in victimPq.Lines()
      modifies this`victimLineCnt, pos, victimPq, victimPq.d
      ensures Rep() && victimPq.Lines() == old(victimPq.Lines()) + {l}
    {
      victimPq.Insert(l);
      Positions(victimPq.d[..], victimPq.size, pos[..], old(pos[..]), old(victimPq.Lines()));
      victimLineCnt := victimLineCnt + 1;
    }

    // One more invalid page and one fewer valid page in line l (conv_ftl.c:1043-1049).
    method Recount(l: nat)
      requires Rep() && l < g.blks
      modifies vpc, ipc, pos, victimPq.d
      ensures Rep()
      ensures View() == var v := old(View());
                        v.(lines := v.lines[l := v.lines[l].(vpc := v.lines[l].vpc - 1, ipc := v.lines[l].ipc + 1)])
    {
      ipc[l] := ipc[l] + 1;
      DecreaseVpc(l);
      assert ipc[..] == old(ipc[..])[l := old(ipc[l]) + 1];
    }

    // A line that was full becomes a candidate (conv_ftl.c:1051-1056).
    method LeaveFullList(l: nat)
      requires Rep() && l < g.blks && l in fullList && l !in victimPq.Lines()
      modifies this`fullList, this`fullLineCnt, this`victimLineCnt, pos, victimPq, victimPq.d
      ensures Rep()
      ensures View() == var v := old(View()); v.(full := v.full - {l}, victims := v.victims + {l})
    {
      UnlinkElements(fullList, l);
      fullList := Unlink(fullList, l);
      fullLineCnt := fullLineCnt - 1;
      Enqueue(l);
    }

    /** The line side of mark_page_invalid (conv_ftl.c:1040-1058). The driver tells that a line was
        full by its valid count, so that count must single out the lines of the full list. */
    method MarkInvalid(c: Config, l: nat, now: nat)
      requires Rep() && l < g.blks && c.ppl == g.PgsPerLine()
      requires vpc[l] == c.ppl <==> l in fullList
      requires l in fullList ==> l !in victimPq.Lines()
      modifies this`fullList, this`fullLineCnt, this`victimLineCnt
      modifies vpc, ipc, pos, lastModified, victimPq, victimPq.d
      ensures Rep() && View() == CountInvalid(c, old(View()), l)
      ensures lastModified[..] == old(lastModified[..])[l := now]
    {
      var wasFull := vpc[l] == c.ppl;
      ReadyToInvalidate(c, l);
      hide CountInvalid;
      Recount(l);
      if wasFull {
        LeaveFullList(l);
      }
      Touch(l, now);
    }

    // What invalidating a page of line l amounts to.
    lemma ReadyToInvalidate(c: Config, l: nat)
      requires Rep() && l < g.blks
      ensures var v := View();
              var counted := v.(lines := v.lines[l :=
                  v.lines[l].(vpc := v.lines[l].vpc - 1, ipc := v.lines[l].ipc + 1)]);
              CountInvalid(c, v, l) ==
              if vpc[l] == c.ppl then counted.(full := counted.full - {l}, victims := counted.victims + {l})
              else counted
    {
    }

    // line->last_modified_time = now (conv_ftl.c:1058).
    method Touch(l: nat, now: nat)
      requires Rep() && l < g.blks
      modifies lastModified
      ensures Rep() && View() == old(View()) && lastModified[..] == old(lastModified[..])[l := now]
    {
      lastModified[l] := now;
    }

    // ----- the write pointers -----

    // Opening the first free line for a stream (conv_ftl.c:824-825).
    method OpenNext(st: Stream)
      requires Rep() && freeList != []
      modifies this`freeList, this`freeLineCnt, this`wp, this`hotWp, this`coldWp
      ensures Rep()
      ensures View() == old(View()).(free := old(freeList)[1..]).SetOpen(st, OpenLine(old(freeList)[0], 0))
    {
      StartSlot(g);
      var cur := freeList[0];
      freeList := freeList[1..];
      freeLineCnt := freeLineCnt - 1;
      MoveWp(st, WritePointer(cur, Cursor(0, 0, 0)));
    }

    method MoveWp(st: Stream, w: WritePointer)
      requires OnChip(g, w.c) && w.line < g.blks
      requires Rep()
      modifies this`wp, this`hotWp, this`coldWp
      ensures Rep() && View() == old(View()).SetOpen(st, OpenOf(g, w))
    {
      match st
      case UserIo => wp := w;
      case GcHot => hotWp := w;
      case GcCold => coldWp := w;
    }

    // A completed line goes to the full list if all its pages are valid, else to the victim heap
    // (conv_ftl.c:813-821).
    method CloseLine(l: nat)
      requires Rep() && l < g.blks && l !in fullList && l !in victimPq.Lines()
      modifies this`fullList, this`fullLineCnt, this`victimLineCnt, pos, victimPq, victimPq.d
      ensures Rep()
      ensures View() == var v := old(View());
                        if v.lines[l].vpc == g.PgsPerLine() then v.(full := v.full + {l})
                        else v.(victims := v.victims + {l})
    {
      if vpc[l] == g.PgsPerLine() {
        AppendElements(fullList, l);
        fullList := fullList + [l];
        fullLineCnt := fullLineCnt + 1;
      } else {
        Enqueue(l);
      }
    }

    // The end of a line (conv_ftl.c:811-829).
    method CloseAndOpen(l: nat, st: Stream)
      requires Rep() && freeList != []
      requires l < g.blks && l !in fullList && l !in victimPq.Lines()
      modifies this`fullList, this`fullLineCnt, this`victimLineCnt, this`freeList, this`freeLineCnt
      modifies this`wp, this`hotWp, this`coldWp, pos, victimPq, victimPq.d
      ensures Rep()
      ensures View() == var v := old(View());
                        var closed := if v.lines[l].vpc == g.PgsPerLine() then v.(full := v.full + {l})
                                      else v.(victims := v.victims + {l});
                        closed.(free := v.free[1..]).SetOpen(st, OpenLine(v.free[0], 0))
    {
      CloseLine(l);
      OpenNext(st);
    }

    // The interleaving of advance_write_pointer (conv_ftl.c:789-812): page, channel, LUN, word line.
    method StepCursor(from: Cursor) returns (cur: Cursor, done: bool)
      requires g.Valid() && OnChip(g, from)
      ensures done <==> NextCursor(g, from).None?
      ensures !done ==> cur == NextCursor(g, from).value
    {
      cur := from.(pg := from.pg + 1);
      if cur.pg % g.os != 0 {
        return cur, false;
      }
      cur := cur.(pg := cur.pg - g.os);
      cur := cur.(ch := cur.ch + 1);
      if cur.ch != g.nchs {
        return cur, false;
      }
      cur := cur.(ch := 0);
      cur := cur.(lun := cur.lun + 1);
      if cur.lun != g.luns {
        return cur, false;
      }
      cur := cur.(lun := 0);
      cur := cur.(pg := cur.pg + g.os);
      done := cur.pg == g.PgsPerBlk();
    }

    /** advance_write_pointer (conv_ftl.c:783-830): the next page in the line's interleaving, or, at
        the end of the line, closing it and opening a free one. */
    method AdvanceWritePointer(c: Config, st: Stream, ghost gc: set<nat>)
      requires Rep() && c.ppl == g.PgsPerLine() && c.lines == g.blks
      requires Partition(c, View(), gc) && Room(c, View(), st)
      modifies this`fullList, this`fullLineCnt, this`victimLineCnt, this`freeList, this`freeLineCnt
      modifies this`wp, this`hotWp, this`coldWp, pos, victimPq, victimPq.d
      ensures Rep()
      ensures Advance(c, old(View()), st) == Some(View())
    {
      var w := Wp(st);
      ReadyToAdvance(c, st, gc);
      hide Slot, Partition, Room, Advance, NextCursor;
      var next, done := StepCursor(w.c);
      if done {
        CloseAndOpen(w.line, st);
      } else {
        MoveWp(st, w.(c := next));
      }
    }

    // What the next advance of a stream amounts to.
    lemma ReadyToAdvance(c: Config, st: Stream, gc: set<nat>)
      requires Rep() && c.ppl == g.PgsPerLine() && c.lines == g.blks
      requires Partition(c, View(), gc) && Room(c, View(), st)
      ensures var w := Wp(st);
              && OnChip(g, w.c) && w.line < g.blks && w.line !in fullList && w.line !in victimPq.Lines()
      ensures var w := Wp(st); var next := NextCursor(g, w.c);
              next.Some? ==>
                && OnChip(g, next.value)
                && Advance(c, View(), st) == Some(View().SetOpen(st, OpenOf(g, w.(c := next.value))))
      ensures var w := Wp(st); var v := View();
              NextCursor(g, w.c).None? ==>
                && freeList != []
                && var closed := if v.lines[w.line].vpc == c.ppl then v.(full := v.full + {w.line})
                                 else v.(victims := v.victims + {w.line});
                   Advance(c, v, st) == Some(closed.(free := v.free[1..]).SetOpen(st, OpenLine(v.free[0], 0)))
    {
      OpenIs(st);
      NextSlot(g, Wp(st).c);
      OpenPlace(c, View(), gc, st);
      AdvanceIs(c, View(), st);
    }

    // ----- victims -----

    // What the victim's caller does after taking it from the heap (conv_ftl.c:276-277, 319-320).
    method Detach(v: nat)
      requires Shape() && victimPq.Valid() && v < g.blks && v !in victimPq.Lines()
      requires forall l :: 0 <= l < g.blks && l != v ==> (pos[l] != 0 <==> l in victimPq.Lines())
      requires NoDup(fullList) && freeLineCnt == |freeList| && fullLineCnt == |fullList|
      requires victimLineCnt == |victimPq.Lines()| + 1
      requires OnChip(g, wp.c) && OnChip(g, hotWp.c) && OnChip(g, coldWp.c)
      requires TypedSpace(View())
      modifies this`victimLineCnt, pos
      ensures Rep() && View() == old(View())
    {
      pos[v] := 0;
      victimLineCnt := victimLineCnt - 1;
    }

    /** select_victim_greedy (conv_ftl.c:265-279): a candidate with the fewest valid pages. */
    method SelectVictimGreedy(force: bool) returns (r: Option<nat>)
      requires Rep()
      modifies this`victimLineCnt, pos, victimPq, victimPq.d
      ensures Rep()
      ensures r.None? ==> View() == old(View())
      ensures r.None? && force ==> old(victimPq.Lines()) == {}
      ensures !force ==>
                (r.None? <==> forall l :: l in old(victimPq.Lines()) ==> l < g.blks && vpc[l] > g.PgsPerLine() / 8)
      ensures r.Some? ==>
                && r.value in old(victimPq.Lines())
                && View() == old(View()).(victims := old(View()).victims - {r.value})
      ensures r.Some? ==> r.value < g.blks && Fewest(old(View()), r.value)
    {
      r := victimPq.Peek();
      if r.None? || (!force && vpc[r.value] > g.PgsPerLine() / 8) {
        return None;
      }
      PopVictim(r.value);
    }

    method PopVictim(v: nat)
      requires Rep() && victimPq.size > 1 && v == victimPq.d[1] && v in victimPq.Lines()
      modifies this`victimLineCnt, pos, victimPq, victimPq.d
      ensures Rep() && View() == old(View()).(victims := old(View()).victims - {v})
    {
      var popped := victimPq.Pop();
      OthersKeep(victimPq.d[..], victimPq.size, pos[..], old(pos[..]), old(victimPq.Lines()), v);
      Detach(v);
    }

    // Taking a chosen line out of the middle of the heap (conv_ftl.c:318-320).
    method RemoveVictim(v: nat)
      requires Rep() && v in victimPq.Lines()
      modifies this`victimLineCnt, pos, victimPq, victimPq.d
      ensures Rep() && View() == old(View()).(victims := old(View()).victims - {v})
    {
      victimPq.Remove(v);
      OthersKeep(victimPq.d[..], victimPq.size, pos[..], old(pos[..]), old(victimPq.Lines()), v);
      Detach(v);
    }

    // The facts a line's score depends on.
    function FactsOf(l: nat): Facts
      reads vpc, ipc, eraseCnt, lastModified
      requires l < vpc.Length && l < ipc.Length && l < eraseCnt.Length && l < lastModified.Length
    {
      Facts(vpc[l], ipc[l], eraseCnt[l], lastModified[l])
    }

    // No erase count exceeds e, no counter exceeds a line, and then nothing wraps.
    ghost predicate Tame(e: nat)
      reads vpc, ipc, eraseCnt, lastModified
      requires Shape()
    {
      NoWrap(g.PgsPerLine(), e) && forall l :: 0 <= l < g.blks ==> Bounded(FactsOf(l), g.PgsPerLine(), e)
    }

    // No candidate scores higher than line v.
    ghost predicate Highest(v: nat, candidates: set<nat>, now: nat, alpha: nat, delta: nat)
      reads vpc, ipc, eraseCnt, lastModified
      requires Shape() && v < g.blks
    {
      forall l :: l in candidates ==> l < g.blks && ScoreAtMost(FactsOf(l), FactsOf(v), now, alpha, delta)
    }

    /** Line v is the best by cost-benefit: by the pages it reclaims for each one kept and one more, both
        weighted by age. */
    ghost predicate BestByBenefit(v: nat, candidates: set<nat>, now: nat)
      reads vpc, ipc, lastModified
      requires Shape() && v < g.blks
    {
      forall l :: l in candidates ==>
        && l < g.blks
        && (AgeWeight(Elapsed(now, lastModified[l])) * ipc[l]) * (vpc[v] + 1) <=
           (AgeWeight(Elapsed(now, lastModified[v])) * ipc[v]) * (vpc[l] + 1)
    }

    /** Line v is the best by cost-age-times: the same, for each erase a line has had and one more. */
    ghost predicate BestByAgeTimes(v: nat, candidates: set<nat>, now: nat)
      reads vpc, ipc, eraseCnt, lastModified
      requires Shape() && v < g.blks
    {
      forall l :: l in candidates ==>
        && l < g.blks
        && (AgeWeight(Elapsed(now, lastModified[l])) * ipc[l]) * ((vpc[v] + 1) * (eraseCnt[v] + 1)) <=
           (AgeWeight(Elapsed(now, lastModified[v])) * ipc[v]) * ((vpc[l] + 1) * (eraseCnt[l] + 1))
    }

    /** Line v is the best by the powers of age weight and erase count that the levels stand for. */
    ghost predicate BestByPowers(v: nat, candidates: set<nat>, now: nat, alpha: nat, delta: nat)
      reads vpc, ipc, eraseCnt, lastModified
      requires Shape() && v < g.blks
    {
      forall l :: l in candidates ==> l < g.blks && PowersAtMost(FactsOf(l), FactsOf(v), now, alpha, delta)
    }

    lemma HighestIs(v: nat, candidates: set<nat>, now: nat, alpha: nat, delta: nat)
      requires Shape() && v < g.blks
      ensures Highest(v, candidates, now, alpha, delta) <==> BestByPowers(v, candidates, now, alpha, delta)
      ensures Highest(v, candidates, now, 1, 0) <==> BestByBenefit(v, candidates, now)
      ensures Highest(v, candidates, now, 1, 2) <==> BestByAgeTimes(v, candidates, now)
    {
      hide ScoreAtMost, PowersAtMost, AgeWeight, Elapsed;
      forall l | l in candidates && l < g.blks
        ensures ScoreAtMost(FactsOf(l), FactsOf(v), now, alpha, delta) <==>
                PowersAtMost(FactsOf(l), FactsOf(v), now, alpha, delta)
        ensures ScoreAtMost(FactsOf(l), FactsOf(v), now, 1, 0) <==> CostBenefitAtMost(FactsOf(l), FactsOf(v), now)
        ensures ScoreAtMost(FactsOf(l), FactsOf(v), now, 1, 2) <==> CostAgeTimesAtMost(FactsOf(l), FactsOf(v), now)
      {
        ScoreOrder(FactsOf(l), FactsOf(v), now, alpha, delta);
      }
    }

    // The scan of select_victim_scored (conv_ftl.c:290-315).
    method ScanVictims(now: nat, alpha: nat, delta: nat, ghost e: nat) returns (best: Option<nat>)
      requires Rep()
      requires forall l :: 0 <= l < g.blks ==> eraseCnt[l] < 0x1_0000_0000
      ensures best.None? <==> victimPq.Lines() == {}
      ensures best.Some? ==> best.value in victimPq.Lines() && best.value < g.blks
      ensures best.Some? && Tame(e) ==> Highest(best.value, victimPq.Lines(), now, alpha, delta)
    {
      best := None;
      var bestNum, bestDen := 0, 1;
      ghost var tame, ppl := Tame(e), g.PgsPerLine();
      ghost var d: seq<nat> := victimPq.d[..];
      ghost var seen: seq<Facts> := [];
      hide ScoreAtMost, ScoreNum, ScoreDen, NoWrap, Best, Elems;
      for i := 1 to victimPq.size
        invariant best.None? <==> i == 1
        invariant best.Some? ==> best.value < g.blks && best.value in Elems(d, i)
        invariant |seen| == i - 1 && forall j :: 1 <= j < i ==> seen[j - 1] == FactsOf(d[j])
        invariant tame && best.Some? ==>
                    bestNum == ScoreNum(FactsOf(best.value), now, alpha)
                    && bestDen == ScoreDen(FactsOf(best.value), delta)
        invariant tame ==> AllBounded(seen, ppl, e)
        invariant tame && best.Some? ==> Best(seen, FactsOf(best.value), now, alpha, delta)
      {
        var l := victimPq.d[i];
        Scanned(d, i);
        var num, den := ComputeVictimScore(FactsOf(l), now, alpha, delta);
        if tame {
          if best.None? {
            BestFirst(FactsOf(l), now, alpha, delta);
          } else {
            BestNext(seen, FactsOf(best.value), FactsOf(l), now, alpha, delta, ppl, e);
          }
        }
        seen := seen + [FactsOf(l)];
        if best.None? || U64(num * bestDen) > U64(bestNum * den) {
          best, bestNum, bestDen := Some(l), num, den;
        }
      }
      AllScanned(d, victimPq.size);
      if best.Some? && tame {
        forall l | l in victimPq.Lines()
          ensures l < g.blks && ScoreAtMost(FactsOf(l), FactsOf(best.value), now, alpha, delta)
        {
          var j :| 1 <= j < victimPq.size && d[j] == l;
          BestAt(seen, FactsOf(best.value), j - 1, now, alpha, delta);
        }
      }
    }

    /** select_victim_scored (conv_ftl.c:285-323): a candidate whose exact score no other candidate
        exceeds, at every alpha and delta level, as long as nothing wraps. */
    method SelectVictimScored(now: nat, alpha: nat, delta: nat, ghost e: nat) returns (r: Option<nat>)
      requires Rep()
      requires forall l :: 0 <= l < g.blks ==> eraseCnt[l] < 0x1_0000_0000
      modifies this`victimLineCnt, pos, victimPq, victimPq.d
      ensures Rep()
      ensures r.None? ==> View() == old(View()) && old(victimPq.Lines()) == {}
      ensures r.Some? ==>
                && r.value in old(victimPq.Lines()) && r.value < g.blks
                && View() == old(View()).(victims := old(View()).victims - {r.value})
      ensures r.Some? && Tame(e) ==>
                && Highest(r.value, old(victimPq.Lines()), now, alpha, delta)
                && BestByPowers(r.value, old(victimPq.Lines()), now, alpha, delta)
                && (alpha == 1 && delta == 0 ==> BestByBenefit(r.value, old(victimPq.Lines()), now))
                && (alpha == 1 && delta == 2 ==> BestByAgeTimes(r.value, old(victimPq.Lines()), now))
    {
      hide Highest, Tame, BestByPowers, BestByBenefit, BestByAgeTimes;
      r := ScanVictims(now, alpha, delta, e);
      if r.Some? {
        HighestIs(r.value, victimPq.Lines(), now, alpha, delta);
        RemoveVictim(r.value);
      }
    }

    // q is what a score depends on, for each candidate in the order of the heap.
    ghost predicate Candidates(q: seq<Facts>)
      reads this, victimPq, victimPq.d, vpc, ipc, eraseCnt, lastModified
      requires Shape()
    {
      && |q| + 1 == victimPq.size <= victimPq.d.Length
      && forall i :: 0 <= i < |q| ==> victimPq.d[i + 1] < g.blks && q[i] == FactsOf(victimPq.d[i + 1])
    }

    // What a scan of the victim queue sees (conv_ftl.c:431-436).
    method ReadCandidates() returns (q: seq<Facts>)
      requires Rep()
      ensures Candidates(q)
    {
      q := [];
      for i := 1 to victimPq.size
        invariant |q| == i - 1
        invariant forall j :: 0 <= j < |q| ==> victimPq.d[j + 1] < g.blks && q[j] == FactsOf(victimPq.d[j + 1])
      {
        InHeap(i);
        q := q + [FactsOf(victimPq.d[i])];
      }
    }

    lemma InHeap(i: nat)
      requires Rep() && 1 <= i < victimPq.size
      ensures i < victimPq.d.Length && victimPq.d[i] < g.blks
    {
    }

    /** mark_line_free (conv_ftl.c:1094-1104). */
    method MarkLineFree(l: nat)
      requires Rep() && l < g.blks && l !in victimPq.Lines()
      modifies this`freeList, this`freeLineCnt, vpc, ipc, eraseCnt
      ensures Rep()
      ensures View() == var v := old(View());
                        v.(lines := v.lines[l := Line(0, 0, v.lines[l].eraseCnt + 1)], free := v.free + [l])
    {
      ClearCounters(l);
      freeList := freeList + [l];
      freeLineCnt := freeLineCnt + 1;
    }

    method ClearCounters(l: nat)
      requires Rep() && l < g.blks && l !in victimPq.Lines()
      modifies vpc, ipc, eraseCnt
      ensures Rep()
      ensures View() == var v := old(View()); v.(lines := v.lines[l := Line(0, 0, v.lines[l].eraseCnt + 1)])
    {
      ipc[l] := 0;
      vpc[l] := 0;
      eraseCnt[l] := eraseCnt[l] + 1;
      assert eraseCnt[..] == old(eraseCnt[..])[l := old(eraseCnt[l]) + 1];
    }

    // A stream's write pointer in the view.
    lemma OpenIs(st: Stream)
      requires Rep()
      ensures View().Open(st) == OpenOf(g, Wp(st)) && OnChip(g, Wp(st).c) && g.Valid()
      ensures View().free == freeList && View().victims == victimPq.Lines()
      ensures View().full == SetOf(fullList) && Wp(st).line < g.blks
      ensures TypedSpace(View()) && |View().lines| == g.blks
    {
    }
  }

  // What Advance does, spelled out.
  lemma AdvanceIs(c: Config, sp: Space, st: Stream)
    requires TypedSpace(sp)
    ensures sp.Open(st).next + 1 < c.ppl ==>
              Advance(c, sp, st) == Some(sp.SetOpen(st, OpenLine(sp.Open(st).line, sp.Open(st).next + 1)))
    ensures sp.Open(st).next + 1 >= c.ppl && sp.free != [] ==>
              var l := sp.Open(st).line;
              var closed := if sp.lines[l].vpc == c.ppl then sp.(full := sp.full + {l})
                            else sp.(victims := sp.victims + {l});
              Advance(c, sp, st) == Some(closed.(free := sp.free[1..]).SetOpen(st, OpenLine(sp.free[0], 0)))
  {
  }
}
