/**
 The index of the key-value device (kv_ftl.c:154-377): a hash table with coalesced chaining. A new
 entry goes to its home slot, or else to the next free slot after the end of the chain that starts at
 its home slot, and is linked to that end. For keys of one length the table is a finite map.
 */
module KvIndex {
  import opened Wrappers

  const NIL: nat := 0xFFFF_FFFF

  type Key = seq<nat>

  // struct mapping_entry (kv_ftl.h); an unused entry has mem_offset -1, here None.
  datatype Entry = Entry(key: Key, offset: Option<nat>, length: nat, next: nat)

  datatype Location = Location(offset: nat, length: nat)

  predicate Used(e: seq<Entry>, s: nat) { s < |e| && e[s].offset.Some? }

  // The slot k links away from slot a.
  function Walk(e: seq<Entry>, a: nat, k: nat): nat {
    if k == 0 then a
    else
      var b := Walk(e, a, k - 1);
      if b < |e| then e[b].next else NIL
  }

  // Links lead from used slots to used slots filled later, so no chain is a cycle: rank[s] says as
  // how manieth of m entries slot s was filled.
  ghost predicate Chained(e: seq<Entry>, rank: seq<nat>, m: nat) {
    && |rank| == |e| < NIL
    && (forall s :: 0 <= s < |e| && Used(e, s) ==> rank[s] < m)
    && (forall s :: 0 <= s < |e| && e[s].next != NIL ==>
          Used(e, s) && Used(e, e[s].next) && rank[e[s].next] > rank[s])
  }

  ghost predicate ReachedFrom(e: seq<Entry>, a: nat, s: nat) {
    exists k: nat :: Walk(e, a, k) == s
  }

  // Every stored key is on the chain of its home slot.
  ghost predicate Findable(e: seq<Entry>, home: Key -> nat) {
    forall s :: 0 <= s < |e| && Used(e, s) ==> ReachedFrom(e, home(e[s].key), s)
  }

  ghost predicate Distinct(e: seq<Entry>) {
    forall s, t :: 0 <= s < |e| && 0 <= t < |e| && Used(e, s) && Used(e, t) && s != t ==> e[s].key != e[t].key
  }

  ghost predicate OneLength(e: seq<Entry>, n: nat) {
    forall s :: 0 <= s < |e| && Used(e, s) ==> |e[s].key| == n
  }

  /** What holds of the table between operations. */
  ghost predicate Ok(e: seq<Entry>, home: Key -> nat, n: nat, rank: seq<nat>, m: nat) {
    && Chained(e, rank, m) && Findable(e, home) && Distinct(e) && OneLength(e, n)
    && (forall k :: home(k) < |e|)
  }

  // ----- the map that the table stands for -----

  ghost function Keys(e: seq<Entry>): set<Key> {
    set s | 0 <= s < |e| && Used(e, s) :: e[s].key
  }

  ghost function Content(e: seq<Entry>): map<Key, Location> {
    map k | k in Keys(e) :: LocationOf(e, k)
  }

  ghost function LocationOf(e: seq<Entry>, k: Key): Location
    requires k in Keys(e)
  {
    var s :| 0 <= s < |e| && Used(e, s) && e[s].key == k;
    Location(e[s].offset.value, e[s].length)
  }

  lemma ContentAt(e: seq<Entry>, s: nat)
    requires Distinct(e) && Used(e, s)
    ensures e[s].key in Content(e)
    ensures Content(e)[e[s].key] == Location(e[s].offset.value, e[s].length)
  {
    assert e[s].key in Keys(e);
  }

  lemma StoredAt(e: seq<Entry>, k: Key) returns (s: nat)
    requires Distinct(e) && k in Content(e)
    ensures Used(e, s) && e[s].key == k && Content(e)[k] == Location(e[s].offset.value, e[s].length)
  {
    s :| 0 <= s < |e| && Used(e, s) && e[s].key == k;
    ContentAt(e, s);
  }

  // A map is what the table stands for if every entry is in it and every key of it has an entry.
  lemma ContentEquals(e: seq<Entry>, c: map<Key, Location>)
    requires Distinct(e)
    requires forall s :: 0 <= s < |e| && Used(e, s) ==>
               e[s].key in c && c[e[s].key] == Location(e[s].offset.value, e[s].length)
    requires forall k :: k in c ==> exists s :: 0 <= s < |e| && Used(e, s) && e[s].key == k
    ensures Content(e) == c
  {
    forall k ensures k in Content(e) <==> k in c {
    }
    forall k | k in c ensures Content(e)[k] == c[k] {
      var s := StoredAt(e, k);
    }
  }

  // ----- walking -----

  lemma {:induction false} WalkEnds(e: seq<Entry>, a: nat, j: nat, k: nat)
    requires j <= k && Walk(e, a, j) >= |e| && |e| < NIL
    ensures Walk(e, a, k) >= |e|
    decreases k - j
  {
    if j < k {
      WalkEnds(e, a, j, k - 1);
    }
  }

  // Where a search from slot a has got after k links without a match.
  ghost predicate Passed(e: seq<Entry>, a: nat, k: nat, key: Key) {
    forall j :: 0 <= j < k ==> Used(e, Walk(e, a, j)) && e[Walk(e, a, j)].key != key
  }

  // Nothing is behind the end of a chain.
  lemma Behind(e: seq<Entry>, rank: seq<nat>, m: nat, a: nat, k: nat, i: nat)
    requires Chained(e, rank, m) && !Used(e, Walk(e, a, k)) && k < i
    ensures Walk(e, a, i) >= |e|
  {
    var end := Walk(e, a, k);
    if end < |e| {
      assert e[end].next == NIL;
    }
    assert Walk(e, a, k + 1) == NIL;
    WalkEnds(e, a, k + 1, i);
  }

  /** A search that reaches the end of the chain, or an empty home slot, has not missed the key. */
  lemma NotStored(e: seq<Entry>, home: Key -> nat, n: nat, rank: seq<nat>, m: nat, k: nat, key: Key)
    requires Ok(e, home, n, rank, m) && Passed(e, home(key), k, key) && !Used(e, Walk(e, home(key), k))
    ensures key !in Content(e)
  {
    hide Walk, Content;
    if key in Content(e) {
      var s := StoredAt(e, key);
      assert ReachedFrom(e, home(key), s);
      var i: nat :| Walk(e, home(key), i) == s;
      if i > k {
        Behind(e, rank, m, home(key), k, i);
      }
    }
  }

  // ----- a new entry -----

  // A link added at the end of a chain, to a slot not in use before, keeps every walk.
  lemma {:induction false} WalkKept(e: seq<Entry>, e': seq<Entry>, a: nat, k: nat)
    requires |e'| == |e| && Walk(e, a, k) < |e| < NIL
    requires forall s :: 0 <= s < |e| && e[s].next != NIL ==> e'[s].next == e[s].next
    ensures Walk(e', a, k) == Walk(e, a, k)
  {
    if k > 0 {
      WalkBefore(e, a, k);
      WalkKept(e, e', a, k - 1);
    }
  }

  lemma WalkBefore(e: seq<Entry>, a: nat, k: nat)
    requires 0 < k && Walk(e, a, k) < |e| < NIL
    ensures Walk(e, a, k - 1) < |e|
  {
  }

  // The table after a key is put into slot t, linked from slot prev if it is not NIL.
  function Put(e: seq<Entry>, t: nat, key: Key, off: nat, len: nat, prev: nat): (r: seq<Entry>)
    requires t < |e| && (prev == NIL || prev < |e|)
    ensures |r| == |e|
  {
    var put := e[t := Entry(key, Some(off), len, e[t].next)];
    if prev == NIL then put else put[prev := put[prev].(next := t)]
  }

  // t is the place for a new key: its home slot, or a free slot to be linked from the chain's end.
  ghost predicate PlaceFor(e: seq<Entry>, home: Key -> nat, key: Key, t: nat, prev: nat) {
    && t < |e| && !Used(e, t) && home(key) < |e|
    && (prev == NIL ==> t == home(key))
    && (prev != NIL ==> Used(e, prev) && e[prev].next == NIL && ReachedFrom(e, home(key), prev))
  }

  lemma PutChained(e: seq<Entry>, rank: seq<nat>, m: nat, t: nat, key: Key, off: nat, len: nat, prev: nat)
    requires Chained(e, rank, m) && t < |e| && !Used(e, t)
    requires prev != NIL ==> Used(e, prev) && e[prev].next == NIL
    ensures Chained(Put(e, t, key, off, len, prev), rank[t := m], m + 1)
  {
  }

  // What Put leaves and adds.
  lemma PutIs(e: seq<Entry>, t: nat, key: Key, off: nat, len: nat, prev: nat)
    requires t < |e| && !Used(e, t) && (prev == NIL || Used(e, prev))
    ensures var r := Put(e, t, key, off, len, prev);
            && Used(r, t) && r[t].key == key && r[t].offset == Some(off) && r[t].length == len
            && (forall s :: 0 <= s < |e| && s != t ==>
                  r[s].key == e[s].key && r[s].offset == e[s].offset && r[s].length == e[s].length)
            && (forall s :: 0 <= s < |e| && s != prev ==> r[s].next == e[s].next)
            && (prev != NIL ==> r[prev].next == t)
  {
  }

  // The new key is found behind the end of its home slot's chain.
  lemma NewFound(e: seq<Entry>, r: seq<Entry>, a: nat, t: nat, prev: nat)
    requires |r| == |e| < NIL && prev < |e| && r[prev].next == t && ReachedFrom(e, a, prev)
    requires forall s :: 0 <= s < |e| && e[s].next != NIL ==> r[s].next == e[s].next
    ensures ReachedFrom(r, a, t)
  {
    var k: nat :| Walk(e, a, k) == prev;
    WalkKept(e, r, a, k);
    assert Walk(r, a, k + 1) == t;
  }

  lemma StillFound(e: seq<Entry>, r: seq<Entry>, a: nat, s: nat)
    requires |r| == |e| < NIL && s < |e| && ReachedFrom(e, a, s)
    requires forall x :: 0 <= x < |e| && e[x].next != NIL ==> r[x].next == e[x].next
    ensures ReachedFrom(r, a, s)
  {
    var k: nat :| Walk(e, a, k) == s;
    WalkKept(e, r, a, k);
  }

  lemma PutFindable(e: seq<Entry>, home: Key -> nat, rank: seq<nat>, m: nat, t: nat, key: Key,
                    off: nat, len: nat, prev: nat)
    requires Chained(e, rank, m) && Findable(e, home) && PlaceFor(e, home, key, t, prev)
    ensures Findable(Put(e, t, key, off, len, prev), home)
  {
    hide Put, ReachedFrom;
    var r := Put(e, t, key, off, len, prev);
    PutIs(e, t, key, off, len, prev);
    SameSize(e, t, key, off, len, prev);
    assert prev != NIL ==> e[prev].next == NIL;
    forall s | 0 <= s < |r| && Used(r, s) ensures ReachedFrom(r, home(r[s].key), s) {
      if s != t {
        assert Used(e, s);
        StillFound(e, r, home(e[s].key), s);
      } else if prev == NIL {
        AtHome(r, t);
      } else {
        NewFound(e, r, home(key), t, prev);
      }
    }
  }

  lemma SameSize(e: seq<Entry>, t: nat, key: Key, off: nat, len: nat, prev: nat)
    requires t < |e| && (prev == NIL || prev < |e|)
    ensures |Put(e, t, key, off, len, prev)| == |e|
  {
  }

  lemma AtHome(e: seq<Entry>, a: nat)
    ensures ReachedFrom(e, a, a)
  {
    assert Walk(e, a, 0) == a;
  }

  lemma PutContent(e: seq<Entry>, t: nat, key: Key, off: nat, len: nat, prev: nat)
    requires Distinct(e) && t < |e| && !Used(e, t) && (prev == NIL || Used(e, prev)) && key !in Content(e)
    ensures Distinct(Put(e, t, key, off, len, prev))
    ensures Content(Put(e, t, key, off, len, prev)) == Content(e)[key := Location(off, len)]
  {
    hide Put, Content;
    var r, c := Put(e, t, key, off, len, prev), Content(e)[key := Location(off, len)];
    PutIs(e, t, key, off, len, prev);
    SameSize(e, t, key, off, len, prev);
    forall s | 0 <= s < |e| && Used(e, s)
      ensures e[s].key != key && e[s].key in Content(e)
      ensures Content(e)[e[s].key] == Location(e[s].offset.value, e[s].length)
    {
      ContentAt(e, s);
    }
    forall k | k in c ensures exists s :: 0 <= s < |r| && Used(r, s) && r[s].key == k {
      if k == key {
        assert Used(r, t) && r[t].key == k;
      } else {
        var s := StoredAt(e, k);
        assert Used(r, s) && r[s].key == k;
      }
    }
    ContentEquals(r, c);
  }

  /** A new key put in its place: the table stays well-formed and stands for the map with it. */
  lemma PutKeeps(e: seq<Entry>, home: Key -> nat, n: nat, rank: seq<nat>, m: nat, t: nat, key: Key,
                 off: nat, len: nat, prev: nat)
    requires Ok(e, home, n, rank, m) && PlaceFor(e, home, key, t, prev) && |key| == n && key !in Content(e)
    ensures Ok(Put(e, t, key, off, len, prev), home, n, rank[t := m], m + 1)
    ensures Content(Put(e, t, key, off, len, prev)) == Content(e)[key := Location(off, len)]
  {
    PutChained(e, rank, m, t, key, off, len, prev);
    PutFindable(e, home, rank, m, t, key, off, len, prev);
    PutContent(e, t, key, off, len, prev);
  }

  // A stored key's length changed.
  lemma ResizeKeeps(e: seq<Entry>, home: Key -> nat, n: nat, rank: seq<nat>, m: nat, s: nat, len: nat)
    requires Ok(e, home, n, rank, m) && Used(e, s)
    ensures var r := e[s := e[s].(length := len)];
            && Ok(r, home, n, rank, m)
            && Content(r) == Content(e)[e[s].key := Location(e[s].offset.value, len)]
  {
    hide Content, ReachedFrom;
    var r, c := e[s := e[s].(length := len)], Content(e)[e[s].key := Location(e[s].offset.value, len)];
    forall x | 0 <= x < |r| && Used(r, x) ensures ReachedFrom(r, home(r[x].key), x) {
      assert r[x].key == e[x].key && Used(e, x);
      StillFound(e, r, home(e[x].key), x);
    }
    forall x | 0 <= x < |r| && Used(r, x)
      ensures r[x].key in c && c[r[x].key] == Location(r[x].offset.value, r[x].length)
    {
      assert Used(e, x);
      ContentAt(e, x);
    }
    forall k | k in c ensures exists x :: 0 <= x < |r| && Used(r, x) && r[x].key == k {
      if k == e[s].key {
        assert Used(r, s) && r[s].key == k;
      } else {
        var x := StoredAt(e, k);
        assert Used(r, x) && r[x].key == k;
      }
    }
    ContentEquals(r, c);
  }
}
