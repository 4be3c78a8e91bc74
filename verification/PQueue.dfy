/**
 The victim queue: a binary min-heap of line numbers with back-pointers (pqueue/pqueue.c, with the
 callbacks of conv_ftl.c:208-227). `pri` and `pos` stand for the fields vpc and pos of the lines,
 which the heap reaches through its callbacks; slot 0 of `d` is unused.
 */
module PQueue {
  import opened Wrappers

  // Every node but the root is no smaller than its parent.
  ghost predicate Ordered(d: seq<nat>, n: nat, pri: seq<int>)
    requires n <= |d| && InRange(d, n, |pri|)
  {
    forall j :: 2 <= j < n ==> pri[d[j / 2]] <= pri[d[j]]
  }

  ghost predicate InRange(d: seq<nat>, n: nat, m: nat)
    requires n <= |d|
  {
    forall j :: 1 <= j < n ==> d[j] < m
  }

  ghost predicate BackPointers(d: seq<nat>, n: nat, pos: seq<nat>)
    requires n <= |d| && InRange(d, n, |pos|)
  {
    forall j :: 1 <= j < n ==> pos[d[j]] == j
  }

  function Elems(d: seq<nat>, n: nat): set<nat>
    requires n <= |d|
  {
    set j | 1 <= j < n :: d[j]
  }

  // Order everywhere but between node i and its parent, which i may undercut.
  ghost predicate OrderedAbove(d: seq<nat>, n: nat, pri: seq<int>, i: nat)
    requires n <= |d| && InRange(d, n, |pri|)
  {
    && (forall j :: 2 <= j < n && j != i ==> pri[d[j / 2]] <= pri[d[j]])
    && (forall j :: 2 <= j < n && j / 2 == i && i >= 2 ==> pri[d[i / 2]] <= pri[d[j]])
  }

  // Order everywhere but between node i and its children, which may undercut i.
  ghost predicate OrderedBelow(d: seq<nat>, n: nat, pri: seq<int>, i: nat)
    requires n <= |d| && InRange(d, n, |pri|)
  {
    && (forall j :: 2 <= j < n && j / 2 != i ==> pri[d[j / 2]] <= pri[d[j]])
    && (forall j :: 2 <= j < n && j / 2 == i && i >= 2 ==> pri[d[i / 2]] <= pri[d[j]])
  }

  lemma {:induction false} RootIsLeast(d: seq<nat>, n: nat, pri: seq<int>, j: nat)
    requires n <= |d| && InRange(d, n, |pri|) && Ordered(d, n, pri) && 1 <= j < n
    ensures pri[d[1]] <= pri[d[j]]
  {
    if j >= 2 {
      RootIsLeast(d, n, pri, j / 2);
    }
  }

  // Swapping two nodes changes no element.
  lemma SwapElems(d: seq<nat>, n: nat, i: nat, p: nat)
    requires n <= |d| && 1 <= i < n && 1 <= p < n
    ensures Elems(d[i := d[p]][p := d[i]], n) == Elems(d, n)
  {
    var e := d[i := d[p]][p := d[i]];
    forall x | x in Elems(d, n) ensures x in Elems(e, n) {
      var j :| 1 <= j < n && d[j] == x;
      assert e[if j == i then p else if j == p then i else j] == x;
    }
    forall x | x in Elems(e, n) ensures x in Elems(d, n) {
      var j :| 1 <= j < n && e[j] == x;
      assert d[if j == i then p else if j == p then i else j] == x;
    }
  }

  lemma PushElems(d: seq<nat>, n: nat, x: nat)
    requires 1 <= n < |d|
    ensures Elems(d[n := x], n + 1) == Elems(d, n) + {x}
  {
    var e := d[n := x];
    forall y | y in Elems(d, n) + {x} ensures y in Elems(e, n + 1) {
      if y in Elems(d, n) {
        var j :| 1 <= j < n && d[j] == y;
        assert e[j] == y;
      } else {
        assert e[n] == y;
      }
    }
    forall y | y in Elems(e, n + 1) ensures y in Elems(d, n) + {x} {
      var j :| 1 <= j < n + 1 && e[j] == y;
      if j < n { assert d[j] == y; }
    }
  }

  // Filling the place of node i with the last node removes exactly node i.
  lemma DropElems(d: seq<nat>, n: nat, i: nat)
    requires 1 <= i < n <= |d|
    requires forall j, k :: 1 <= j < k < n ==> d[j] != d[k]
    ensures Elems(d[i := d[n - 1]], n - 1) == Elems(d, n) - {d[i]}
  {
    var e := d[i := d[n - 1]];
    forall y | y in Elems(d, n) - {d[i]} ensures y in Elems(e, n - 1) {
      var j :| 1 <= j < n && d[j] == y;
      assert e[if j == n - 1 then i else j] == y;
    }
    forall y | y in Elems(e, n - 1) ensures y in Elems(d, n) - {d[i]} {
      var j :| 1 <= j < n - 1 && e[j] == y;
      assert d[if j == i then n - 1 else j] == y;
    }
  }

  // Back-pointers everywhere but at node i, which is in no other place.
  ghost predicate Hole(d: seq<nat>, n: nat, pos: seq<nat>, i: nat)
    requires n <= |d| && InRange(d, n, |pos|) && i < |d|
  {
    forall j :: 1 <= j < n && j != i ==> pos[d[j]] == j && d[j] != d[i]
  }

  // The positions of lines outside the heap have not changed.
  ghost predicate Elsewhere(p: seq<nat>, q: seq<nat>, elems: set<nat>) {
    |p| == |q| && forall x :: 0 <= x < |p| && x !in elems ==> p[x] == q[x]
  }

  lemma ElsewhereUpdate(p: seq<nat>, q: seq<nat>, elems: set<nat>, x: nat, v: nat)
    requires Elsewhere(p, q, elems) && x in elems && x < |p|
    ensures Elsewhere(p[x := v], q, elems)
  {
  }

  // Moving a node one level up, past a larger parent.
  lemma UpStep(d: seq<nat>, n: nat, pri: seq<int>, pos: seq<nat>, i: nat)
    requires 2 <= i < n <= |d| && |pri| == |pos| && InRange(d, n, |pri|)
    requires OrderedAbove(d, n, pri, i) && Hole(d, n, pos, i) && pri[d[i / 2]] > pri[d[i]]
    ensures var e := d[i := d[i / 2]][i / 2 := d[i]];
            && InRange(e, n, |pri|) && OrderedAbove(e, n, pri, i / 2)
            && Hole(e, n, pos[d[i / 2] := i], i / 2) && Elems(e, n) == Elems(d, n)
  {
    SwapElems(d, n, i, i / 2);
  }

  // A node that is no smaller than its parent completes the heap.
  lemma UpStop(d: seq<nat>, n: nat, pri: seq<int>, pos: seq<nat>, i: nat)
    requires 1 <= i < n <= |d| && |pri| == |pos| && InRange(d, n, |pri|)
    requires OrderedAbove(d, n, pri, i) && Hole(d, n, pos, i)
    requires i > 1 ==> pri[d[i / 2]] <= pri[d[i]]
    ensures Ordered(d, n, pri) && BackPointers(d, n, pos[d[i] := i]) && d[i] in Elems(d, n)
  {
  }

  // c is the child of node i that may take its place: 0 exactly for a leaf, otherwise a child no
  // larger than its sibling, and the left one unless the right one is smaller.
  ghost predicate IsMaxChild(d: seq<nat>, n: nat, pri: seq<int>, i: nat, c: nat)
    requires 1 <= i && n <= |d| && InRange(d, n, |pri|)
  {
    && (c == 0 <==> 2 * i >= n)
    && (c != 0 ==>
          && c < n && c / 2 == i
          && (forall j :: 1 <= j < n && j / 2 == i ==> pri[d[c]] <= pri[d[j]])
          && (c != 2 * i ==> pri[d[c]] < pri[d[2 * i]]))
  }

  // Moving a node one level down, past its smaller child.
  lemma DownStep(d: seq<nat>, n: nat, pri: seq<int>, pos: seq<nat>, i: nat, c: nat)
    requires 1 <= i < n <= |d| && |pri| == |pos| && InRange(d, n, |pri|)
    requires OrderedBelow(d, n, pri, i) && Hole(d, n, pos, i)
    requires IsMaxChild(d, n, pri, i, c) && c != 0 && pri[d[i]] > pri[d[c]]
    ensures var e := d[i := d[c]][c := d[i]];
            && InRange(e, n, |pri|) && OrderedBelow(e, n, pri, c)
            && Hole(e, n, pos[d[c] := i], c) && Elems(e, n) == Elems(d, n)
  {
    SwapElems(d, n, i, c);
    var e := d[i := d[c]][c := d[i]];
    forall j | 2 <= j < n && j / 2 != c ensures pri[e[j / 2]] <= pri[e[j]] {
      assert j / 2 == i ==> pri[d[c]] <= pri[d[j]];
    }
  }

  lemma DownStop(d: seq<nat>, n: nat, pri: seq<int>, pos: seq<nat>, i: nat, c: nat)
    requires 1 <= i < n <= |d| && |pri| == |pos| && InRange(d, n, |pri|)
    requires OrderedBelow(d, n, pri, i) && Hole(d, n, pos, i)
    requires IsMaxChild(d, n, pri, i, c) && (c != 0 ==> pri[d[i]] <= pri[d[c]])
    ensures Ordered(d, n, pri) && BackPointers(d, n, pos[d[i] := i]) && d[i] in Elems(d, n)
  {
    forall j | 2 <= j < n ensures pri[d[j / 2]] <= pri[d[j]] {
      assert j / 2 == i ==> j == 2 * i || j == 2 * i + 1;
    }
  }

  class VictimQueue {
    const d: array<nat>
    const pri: array<int>
    const pos: array<nat>
    var size: nat

    ghost predicate Shape()
      reads this
    {
      && d != pos && pri.Length == pos.Length
      && 1 <= size <= d.Length == pri.Length + 1
    }

    /** The heap invariant. */
    ghost predicate Valid()
      reads this, d, pri, pos
    {
      && Shape()
      && InRange(d[..], size, pri.Length)
      && Ordered(d[..], size, pri[..])
      && BackPointers(d[..], size, pos[..])
    }

    /** The lines in the queue. */
    ghost function Lines(): set<nat>
      reads this, d
      requires size <= d.Length
    {
      Elems(d[..], size)
    }

    /** pqueue_init (pqueue/pqueue.c:23-56) over the lines' fields. */
    constructor (pri: array<int>, pos: array<nat>)
      requires pri.Length == pos.Length
      ensures Valid() && Lines() == {} && fresh(d)
      ensures this.pri == pri && this.pos == pos
    {
      this.pri := pri;
      this.pos := pos;
      this.d := new nat[pri.Length + 1];
      this.size := 1;
    }

    // `q->d[i] = x; q->setpos(x, i)`, the assignment both loops are made of.
    method Put(i: nat, x: nat)
      requires Shape() && i < d.Length && x < pos.Length
      modifies d, pos
      ensures d[..] == old(d[..])[i := x] && pos[..] == old(pos[..])[x := i]
    {
      d[i] := x;
      pos[x] := i;
    }

    /** bubble_up (pqueue/pqueue.c:82-99). */
    method BubbleUp(start: nat)
      requires Shape() && 1 <= start < size
      requires InRange(d[..], size, pri.Length)
      requires OrderedAbove(d[..], size, pri[..], start) && Hole(d[..], size, pos[..], start)
      modifies d, pos
      ensures Valid() && Lines() == old(Lines())
      ensures Elsewhere(pos[..], old(pos[..]), Lines())
    {
      hide OrderedAbove, Hole, Elems, Ordered, BackPointers, Elsewhere, InRange;
      var i: nat := start;
      var moving: nat := d[i];
      Filled(d[..], size, pri.Length, i);
      var movingPri := pri[moving];
      ghost var e: seq<nat>, q := d[..], pri[..];
      ElsewhereSame(pos[..], Lines());
      while i > 1 && pri[d[i / 2]] > movingPri
        invariant 1 <= i < size && e == d[..][i := moving] && q == pri[..] && moving < pri.Length
        invariant i > 1 ==> d[i / 2] < pri.Length
        invariant InRange(e, size, |q|) && OrderedAbove(e, size, q, i)
        invariant Hole(e, size, pos[..], i) && Elems(e, size) == old(Lines())
        invariant Elsewhere(pos[..], old(pos[..]), old(Lines()))
      {
        var parent := i / 2;
        UpStep(e, size, q, pos[..], i);
        Member(e, size, parent);
        ElsewhereUpdate(pos[..], old(pos[..]), old(Lines()), e[parent], i);
        ghost var was: seq<nat> := d[..];
        Put(i, d[parent]);
        Shift(was, i, parent, moving);
        e := e[i := e[parent]][parent := e[i]];
        i := parent;
        Filled(e, size, pri.Length, if i > 1 then i / 2 else i);
      }
      UpStop(e, size, q, pos[..], i);
      ElsewhereUpdate(pos[..], old(pos[..]), old(Lines()), moving, i);
      Put(i, moving);
    }

    /** maxchild (pqueue/pqueue.c:105-118). */
    method SelectChild(i: nat) returns (c: nat)
      requires Shape() && 1 <= i && InRange(d[..], size, pri.Length)
      ensures IsMaxChild(d[..], size, pri[..], i, c)
    {
      c := 2 * i;
      if c >= size {
        return 0;
      }
      assert forall j :: j / 2 == i ==> j == 2 * i || j == 2 * i + 1;
      if c + 1 < size && pri[d[c]] > pri[d[c + 1]] {
        c := c + 1;
      }
    }

    /** percolate_down (pqueue/pqueue.c:126-143) from a node of the heap. */
    method SiftDown(start: nat)
      requires Shape() && 1 <= start < size
      requires InRange(d[..], size, pri.Length)
      requires OrderedBelow(d[..], size, pri[..], start) && Hole(d[..], size, pos[..], start)
      modifies d, pos
      ensures Valid() && Lines() == old(Lines())
      ensures Elsewhere(pos[..], old(pos[..]), Lines())
    {
      hide OrderedBelow, Hole, Elems, Ordered, BackPointers, Elsewhere, InRange, IsMaxChild;
      var i: nat := start;
      var moving: nat := d[i];
      Filled(d[..], size, pri.Length, i);
      var movingPri := pri[moving];
      ghost var e: seq<nat>, q := d[..], pri[..];
      ElsewhereSame(pos[..], Lines());
      NextChild(d[..], e, size, q, i, moving);
      var child: nat := SelectChild(i);
      ChosenChild(d[..], e, size, q, i, moving, child);
      while child != 0 && movingPri > pri[d[child]]
        invariant 1 <= i < size && e == d[..][i := moving] && q == pri[..] && moving < pri.Length
        invariant InRange(e, size, |q|) && OrderedBelow(e, size, q, i)
        invariant IsMaxChild(e, size, q, i, child)
        invariant child != 0 ==> i < child < size && d[child] < pri.Length
        invariant Hole(e, size, pos[..], i) && Elems(e, size) == old(Lines())
        invariant Elsewhere(pos[..], old(pos[..]), old(Lines()))
        decreases size - i
      {
        DownStep(e, size, q, pos[..], i, child);
        Member(e, size, child);
        ElsewhereUpdate(pos[..], old(pos[..]), old(Lines()), e[child], i);
        ghost var was: seq<nat> := d[..];
        Put(i, d[child]);
        Shift(was, i, child, moving);
        e := e[i := e[child]][child := e[i]];
        i := child;
        NextChild(d[..], e, size, q, i, moving);
        child := SelectChild(i);
        ChosenChild(d[..], e, size, q, i, moving, child);
      }
      DownStop(e, size, q, pos[..], i, child);
      ElsewhereUpdate(pos[..], old(pos[..]), old(Lines()), moving, i);
      Put(i, moving);
    }

    /** percolate_down from any place: also from the one just past the last node, where
        pqueue_remove and pqueue_pop call it after taking the last node away; no node is below it, so
        it only stores the node and its position again. */
    method PercolateDown(start: nat)
      requires Shape() && 1 <= start < d.Length && d[start] < pri.Length
      requires InRange(d[..], size, pri.Length)
      requires if start < size
               then OrderedBelow(d[..], size, pri[..], start) && Hole(d[..], size, pos[..], start)
               else Valid() && d[start] !in Lines()
      modifies d, pos
      ensures Valid() && Lines() == old(Lines())
      ensures Elsewhere(pos[..], old(pos[..]), Lines() + {old(d[start])})
    {
      if start < size {
        SiftDown(start);
      } else {
        PutPast(d[..], size, pri[..], pos[..], start);
        Put(start, d[start]);
      }
    }

    /** pqueue_insert (pqueue/pqueue.c:148-168). There is room: the heap holds distinct lines, and x is not
        among them. */
    method Insert(x: nat)
      requires Valid() && x < pri.Length && x !in Lines()
      modifies this, d, pos
      ensures Valid() && Lines() == old(Lines()) + {x}
      ensures Elsewhere(pos[..], old(pos[..]), Lines())
    {
      HasRoom(d[..], size, pos[..], x);
      PushLast(d[..], size, pri[..], pos[..], x);
      var i := size;
      size := size + 1;
      d[i] := x;
      assert d[..] == old(d[..])[i := x];
      BubbleUp(i);
    }

    /** pqueue_change_priority (pqueue/pqueue.c:175-189). */
    method ChangePriority(newPri: int, x: nat)
      requires Valid() && x in Lines()
      modifies d, pri, pos
      ensures x < pri.Length && pri[..] == old(pri[..])[x := newPri]
      ensures Valid() && Lines() == old(Lines())
      ensures Elsewhere(pos[..], old(pos[..]), Lines())
    {
      Located(d[..], size, pos[..], x);
      var oldPri := pri[x];
      Repriced(d[..], size, pri[..], pos[..], pos[x], newPri);
      pri[x] := newPri;
      assert pri[..] == old(pri[..])[x := newPri];
      var posn := pos[x];
      if oldPri > newPri {
        BubbleUp(posn);
      } else {
        PercolateDown(posn);
        assert Lines() + {x} == Lines();
      }
    }

    /** pqueue_remove (pqueue/pqueue.c:195-209), also of the last node. */
    method Remove(x: nat)
      requires Valid() && x in Lines()
      modifies this, d, pos
      ensures Valid() && Lines() == old(Lines()) - {x}
      ensures Elsewhere(pos[..], old(pos[..]), old(Lines()))
    {
      Located(d[..], size, pos[..], x);
      TakeOut(d[..], size, pri[..], pos[..], pos[x]);
      var posn := pos[x];
      size := size - 1;
      d[posn] := d[size];
      assert d[..] == old(d[..])[posn := old(d[size - 1])];
      if pri[x] > pri[d[posn]] {
        BubbleUp(posn);
      } else {
        PercolateDown(posn);
      }
    }

    /** pqueue_pop (pqueue/pqueue.c:215-227): a line of least priority, or None from an empty queue. */
    method Pop() returns (r: Option<nat>)
      requires Valid()
      modifies this, d, pos
      ensures Valid()
      ensures r.None? <==> old(Lines()) == {}
      ensures r.None? ==> Lines() == {} && pos[..] == old(pos[..])
      ensures r.Some? ==>
                && r.value == old(d[1])
                && r.value in old(Lines()) && Lines() == old(Lines()) - {r.value}
                && forall x :: x in old(Lines()) ==> pri[r.value] <= pri[x]
      ensures Elsewhere(pos[..], old(pos[..]), old(Lines()))
    {
      if size == 1 {
        return None;
      }
      Least(d[..], size, pri[..]);
      TakeOut(d[..], size, pri[..], pos[..], 1);
      var head := d[1];
      size := size - 1;
      d[1] := d[size];
      assert d[..] == old(d[..])[1 := old(d[size - 1])];
      PercolateDown(1);
      r := Some(head);
    }

    /** pqueue_peek (pqueue/pqueue.c:233-246). */
    method Peek() returns (r: Option<nat>)
      requires Valid()
      ensures r.None? <==> Lines() == {}
      ensures r.Some? ==> r.value == d[1] && r.value in Lines() && forall x :: x in Lines() ==> pri[r.value] <= pri[x]
    {
      if size == 1 {
        return None;
      }
      Least(d[..], size, pri[..]);
      r := Some(d[1]);
    }
  }

  // Storing a node past the end again changes nothing that the heap looks at.
  lemma PutPast(d: seq<nat>, n: nat, pri: seq<int>, pos: seq<nat>, i: nat)
    requires 1 <= n <= i < |d| && |pri| == |pos| && d[i] < |pri| && d[i] !in Elems(d, n)
    requires InRange(d, n, |pri|) && Ordered(d, n, pri) && BackPointers(d, n, pos)
    ensures var e := d[i := d[i]]; var p := pos[d[i] := i];
            && InRange(e, n, |pri|) && Ordered(e, n, pri) && BackPointers(e, n, p)
            && Elems(e, n) == Elems(d, n) && Elsewhere(p, pos, Elems(d, n) + {d[i]})
  {
    assert d[i := d[i]] == d;
    forall j | 1 <= j < n ensures d[j] != d[i] {
      assert d[j] in Elems(d, n);
    }
  }

  function Upto(n: nat): (r: set<nat>)
    ensures |r| == n && forall x: nat :: x in r <==> x < n
  {
    if n == 0 then {} else Upto(n - 1) + {n - 1}
  }

  lemma {:induction false} ElemsSize(d: seq<nat>, n: nat, pos: seq<nat>)
    requires 1 <= n <= |d| && InRange(d, n, |pos|) && BackPointers(d, n, pos)
    ensures |Elems(d, n)| == n - 1
  {
    if n == 1 {
      assert Elems(d, n) == {};
    } else {
      ElemsSize(d, n - 1, pos);
      assert Elems(d, n) == Elems(d, n - 1) + {d[n - 1]};
    }
  }

  lemma SubsetSize(a: set<nat>, b: set<nat>)
    requires a <= b
    ensures |a| <= |b|
  {
    assert b == a + (b - a);
  }

  lemma HasRoom(d: seq<nat>, n: nat, pos: seq<nat>, x: nat)
    requires 1 <= n <= |d| && InRange(d, n, |pos|) && BackPointers(d, n, pos)
    requires x < |pos| && x !in Elems(d, n)
    ensures n <= |pos|
  {
    ElemsSize(d, n, pos);
    SubsetSize(Elems(d, n) + {x}, Upto(|pos|));
  }

  lemma PushLast(d: seq<nat>, n: nat, pri: seq<int>, pos: seq<nat>, x: nat)
    requires 1 <= n < |d| && |pri| == |pos| && x < |pri| && x !in Elems(d, n)
    requires InRange(d, n, |pri|) && Ordered(d, n, pri) && BackPointers(d, n, pos)
    ensures var e := d[n := x];
            && InRange(e, n + 1, |pri|) && OrderedAbove(e, n + 1, pri, n) && Hole(e, n + 1, pos, n)
            && Elems(e, n + 1) == Elems(d, n) + {x}
  {
    PushElems(d, n, x);
  }

  lemma Located(d: seq<nat>, n: nat, pos: seq<nat>, x: nat)
    requires n <= |d| && InRange(d, n, |pos|) && BackPointers(d, n, pos) && x in Elems(d, n)
    ensures x < |pos| && 1 <= pos[x] < n && d[pos[x]] == x
  {
  }

  lemma Distinct(d: seq<nat>, n: nat, pos: seq<nat>)
    requires n <= |d| && InRange(d, n, |pos|) && BackPointers(d, n, pos)
    ensures forall j, k :: 1 <= j < k < n ==> d[j] != d[k]
  {
    forall j, k | 1 <= j < k < n ensures d[j] != d[k] {
      assert pos[d[j]] == j && pos[d[k]] == k;
    }
  }

  // A new priority for node i leaves the heap in order but for that node.
  lemma Repriced(d: seq<nat>, n: nat, pri: seq<int>, pos: seq<nat>, i: nat, newPri: int)
    requires 1 <= i < n <= |d| && |pri| == |pos|
    requires InRange(d, n, |pri|) && Ordered(d, n, pri) && BackPointers(d, n, pos)
    ensures var q := pri[d[i] := newPri];
            && InRange(d, n, |q|) && Hole(d, n, pos, i)
            && (pri[d[i]] > newPri ==> OrderedAbove(d, n, q, i))
            && (pri[d[i]] <= newPri ==> OrderedBelow(d, n, q, i))
  {
    Distinct(d, n, pos);
    var q := pri[d[i] := newPri];
    forall j | 1 <= j < n && j != i ensures q[d[j]] == pri[d[j]] {
    }
    assert i >= 2 ==> pri[d[i / 2]] <= pri[d[i]];
    forall j | 2 <= j < n && j / 2 == i ensures pri[d[i]] <= pri[d[j]] {
    }
  }

  // Node i gives its place to the last node: the rest is in order but for that place.
  lemma TakeOut(d: seq<nat>, n: nat, pri: seq<int>, pos: seq<nat>, i: nat)
    requires 1 <= i < n <= |d| && |pri| == |pos|
    requires InRange(d, n, |pri|) && Ordered(d, n, pri) && BackPointers(d, n, pos)
    ensures var e := d[i := d[n - 1]];
            && InRange(e, n - 1, |pri|) && Elems(e, n - 1) == Elems(d, n) - {d[i]}
            && e[i] < |pri| && (Elems(e, n - 1) + {e[i]}) <= Elems(d, n)
            && (i < n - 1 ==>
                  && Hole(e, n - 1, pos, i)
                  && (pri[d[i]] > pri[e[i]] ==> OrderedAbove(e, n - 1, pri, i))
                  && (pri[d[i]] <= pri[e[i]] ==> OrderedBelow(e, n - 1, pri, i)))
            && (i == n - 1 ==>
                  && Ordered(e, n - 1, pri) && BackPointers(e, n - 1, pos)
                  && e[i] == d[i] && e[i] !in Elems(e, n - 1))
  {
    Distinct(d, n, pos);
    DropElems(d, n, i);
    assert i >= 2 ==> pri[d[i / 2]] <= pri[d[i]];
    forall j | 2 <= j < n && j / 2 == i ensures pri[d[i]] <= pri[d[j]] {
    }
  }

  lemma Least(d: seq<nat>, n: nat, pri: seq<int>)
    requires 2 <= n <= |d| && InRange(d, n, |pri|) && Ordered(d, n, pri)
    ensures d[1] in Elems(d, n)
    ensures forall x :: x in Elems(d, n) ==> x < |pri| && pri[d[1]] <= pri[x]
  {
    forall x | x in Elems(d, n) ensures x < |pri| && pri[d[1]] <= pri[x] {
      var j :| 1 <= j < n && d[j] == x;
      RootIsLeast(d, n, pri, j);
    }
  }

  // Choosing a child looks at the nodes below i only, so the hole at i does not matter.
  lemma NextChild(d: seq<nat>, e: seq<nat>, n: nat, pri: seq<int>, i: nat, moving: nat)
    requires 1 <= i < n <= |d| && e == d[i := moving] && d[i] < |pri|
    requires InRange(e, n, |pri|)
    ensures InRange(d, n, |pri|)
  {
    forall j | 1 <= j < n ensures d[j] < |pri| {
      assert j != i ==> e[j] == d[j];
    }
  }

  lemma ChosenChild(d: seq<nat>, e: seq<nat>, n: nat, pri: seq<int>, i: nat, moving: nat, c: nat)
    requires 1 <= i < n <= |d| && e == d[i := moving] && d[i] < |pri|
    requires InRange(e, n, |pri|) && InRange(d, n, |pri|) && IsMaxChild(d, n, pri, i, c)
    ensures IsMaxChild(e, n, pri, i, c) && (c != 0 ==> i < c < n && d[c] < |pri|)
  {
    forall j | 1 <= j < n && j / 2 == i ensures e[j] == d[j] {
    }
  }

  lemma Filled(d: seq<nat>, n: nat, m: nat, i: nat)
    requires 1 <= i < n <= |d| && InRange(d, n, m)
    ensures d[i := d[i]] == d && d[i] < m
    ensures i > 1 ==> d[i / 2] < m
  {
  }

  lemma ElsewhereSame(p: seq<nat>, elems: set<nat>)
    ensures Elsewhere(p, p, elems)
  {
  }

  // The hole moves from i to j, and the node there moves to i.
  lemma Shift(d: seq<nat>, i: nat, j: nat, moving: nat)
    requires i < |d| && j < |d| && i != j
    ensures var e := d[i := moving];
            e[i := e[j]][j := e[i]] == d[i := d[j]][j := moving]
  {
  }

  lemma Member(d: seq<nat>, n: nat, j: nat)
    requires 1 <= j < n <= |d|
    ensures d[j] in Elems(d, n)
  {
  }
}
