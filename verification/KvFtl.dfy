/**
 The key-value device in place (kv_ftl.c, append_only.c): the mapping table as an array, values in
 flat storage handed out by an allocator that only appends. Storing and retrieving are proved to be
 what KvRuns says of them.
 */
module KvFtl {
  import opened Wrappers
  import opened KvIndex
  import opened KvRuns

  class KvFtl {
    const table: array<Entry>
    const hash: Key -> nat
    const keyLen: nat
    const storage: array<Byte>
    var latest: nat
    ghost var rank: seq<nat>
    ghost var filled: nat

    // get_hash_slot.
    function Home(key: Key): nat
      requires table.Length > 0
    {
      hash(key) % table.Length
    }

    ghost function HomeOf(): Key -> nat {
      key => if table.Length > 0 then hash(key) % table.Length else 0
    }

    ghost predicate Valid()
      reads this, table, storage
    {
      && table.Length > 0
      && Ok(table[..], HomeOf(), keyLen, rank, filled)
      && InBounds(View())
    }

    // What the table, the allocator and the storage stand for.
    ghost function View(): Device
      reads this, table, storage
    {
      Device(Content(table[..]), latest, storage[..])
    }

    /** The finite map that the host reads. */
    ghost function Values(): map<Key, seq<Byte>>
      reads this, table, storage
      requires Valid()
    {
      Reads(View())
    }

    /** An empty table (kv_init_namespace) and append_only_allocator_init (append_only.c:16-23). */
    constructor (slots: nat, size: nat, keyLen: nat, hash: Key -> nat)
      requires 0 < slots < NIL
      ensures Valid() && View().index == map[] && View().latest == 0
      ensures this.keyLen == keyLen && table.Length == slots && storage.Length == size
    {
      this.keyLen, this.hash := keyLen, hash;
      table := new Entry[slots](_ => Entry([], None, 0, NIL));
      storage := new Byte[size];
      latest, rank, filled := 0, seq(slots, _ => 0), 0;
      new;
      assert Content(table[..]) == map[];
    }

    // memcmp of the key with a table entry: as many bytes as the key has.
    predicate Matches(s: nat, key: Key)
      reads table
      requires s < table.Length
    {
      |key| <= |table[s].key| && table[s].key[..|key|] == key
    }

    lemma MatchIsEqual(s: nat, key: Key)
      requires Valid() && s < table.Length && table[s].offset.Some? && |key| == keyLen
      ensures Matches(s, key) <==> table[s].key == key
    {
      assert Used(table[..], s);
    }

    // One link of a search.
    lemma NextLink(slot: nat, a: nat, k: nat)
      requires Valid() && slot < table.Length && slot == Walk(table[..], a, k) && Used(table[..], slot)
      ensures Walk(table[..], a, k + 1) == table[slot].next
      ensures table[slot].next == NIL || (table[slot].next < table.Length && Used(table[..], table[slot].next))
      ensures slot < |rank| == table.Length < NIL && rank[slot] < filled
      ensures table[slot].next != NIL ==> rank[slot] < rank[table[slot].next] < filled
    {
      hide Findable, Distinct, OneLength, Content;
    }

    /** get_mapping_entry (kv_ftl.c:320-377): the entry of a stored key, NIL for any other. */
    method Lookup(key: Key) returns (slot: nat)
      requires Valid() && |key| == keyLen
      ensures slot != NIL <==> key in Content(table[..])
      ensures slot != NIL ==> slot < table.Length && Used(table[..], slot) && table[slot].key == key
    {
      hide Content, Walk, Chained, Findable, Distinct, OneLength;
      ghost var e, k, a := table[..], 0, HomeOf()(key);
      RankSize();
      slot := Home(key);
      WalkStart(e, a);
      ghost var left: int := filled;
      while table[slot].offset.Some?
        invariant slot < table.Length && slot == Walk(e, a, k) && Passed(e, a, k, key)
        invariant left >= 0 && (Used(e, slot) ==> slot < |rank| && left >= filled - rank[slot])
        decreases left
      {
        MatchIsEqual(slot, key);
        NextLink(slot, a, k);
        if Matches(slot, key) {
          ContentAt(e, slot);
          return;
        }
        var next := table[slot].next;
        left := filled - rank[slot] - 1;
        k := k + 1;
        if next == NIL {
          NotStored(e, HomeOf(), keyLen, rank, filled, k, key);
          return NIL;
        }
        slot := next;
      }
      NotStored(e, HomeOf(), keyLen, rank, filled, k, key);
      slot := NIL;
    }

    lemma RankSize()
      requires Valid()
      ensures |rank| == table.Length < NIL
      ensures forall s :: 0 <= s < table.Length && Used(table[..], s) ==> rank[s] < filled
    {
      hide Findable, Distinct, OneLength, Content;
    }

    static lemma WalkStart(e: seq<Entry>, a: nat)
      ensures Walk(e, a, 0) == a
    {
    }

    // The end of the chain from slot `a` (kv_ftl.c:169-175).
    method ChainEnd(a: nat) returns (prev: nat)
      requires Valid() && a < table.Length && table[a].offset.Some?
      ensures prev < table.Length && Used(table[..], prev) && table[prev].next == NIL
      ensures ReachedFrom(table[..], a, prev)
    {
      hide Content, Walk, Chained, Findable, Distinct, OneLength;
      ghost var e, k := table[..], 0;
      RankSize();
      WalkStart(e, a);
      prev := a;
      var tail: nat := a;
      ghost var left: int := filled + 1;
      while table[tail].offset.Some?
        invariant tail < table.Length && Used(e, tail) && tail == Walk(e, a, k)
        invariant left >= 0 && left >= filled - rank[tail]
        decreases left
      {
        NextLink(tail, a, k);
        prev := tail;
        tail := table[tail].next;
        left := filled - rank[prev] - 1;
        if tail == NIL {
          break;
        }
        k := k + 1;
      }
      assert Walk(e, a, k) == prev;
    }

    // Slot j is passed on the way from slot a to slot b, around the end of the table.
    predicate Passes(a: nat, b: nat, j: nat) { if a <= b then a <= j < b else a <= j || j < b }

    // The next free slot from `from` on, around the end of the table (kv_ftl.c:181-185).
    method NextFree(from: nat, ghost f: nat) returns (slot: nat)
      requires from < table.Length && f < table.Length && table[f].offset.None?
      ensures slot < table.Length && table[slot].offset.None?
      ensures forall j :: 0 <= j < table.Length && Passes(from, slot, j) ==> table[j].offset.Some?
    {
      slot := from;
      ghost var d: int := if f >= from then f - from else f + table.Length - from;
      while table[slot].offset.Some?
        invariant slot < table.Length && d >= 0
        invariant d == if f >= slot then f - slot else f + table.Length - slot
        invariant forall j :: 0 <= j < table.Length && Passes(from, slot, j) ==> table[j].offset.Some?
        decreases d
      {
        slot := slot + 1;
        if slot >= table.Length {
          slot := 0;
        }
        d := d - 1;
      }
    }

    /** new_mapping_entry with find_next_slot (kv_ftl.c:164-232): a key that is not stored is put into
        its place, in a table that is not full. */
    method NewMappingEntry(key: Key, len: nat, off: nat, ghost f: nat)
      requires Valid() && |key| == keyLen && key !in Content(table[..])
      requires f < table.Length && table[f].offset.None?
      modifies table, this`rank, this`filled
      ensures Ok(table[..], HomeOf(), keyLen, rank, filled)
      ensures Content(table[..]) == old(Content(table[..]))[key := Location(off, len)]
    {
      hide Content, Walk, Chained, Findable, Distinct, OneLength, ReachedFrom;
      ghost var e := table[..];
      RankSize();
      var slot, prev := Home(key), NIL;
      if table[slot].offset.Some? {
        prev := ChainEnd(slot);
        slot := NextFree(prev, f);
      }
      PutKeeps(e, HomeOf(), keyLen, rank, filled, slot, key, off, len, prev);
      rank := rank[slot := filled];
      filled := filled + 1;
      table[slot] := Entry(key, Some(off), len, table[slot].next);
      if prev != NIL {
        table[prev] := table[prev].(next := slot);
      }
      assert table[..] == Put(e, slot, key, off, len, prev);
    }

    // memcpy into the storage.
    method CopyIn(off: nat, value: seq<Byte>)
      requires off + |value| <= storage.Length
      modifies storage
      ensures storage[..] == Write(old(storage[..]), off, value)
    {
      for i := 0 to |value|
        invariant forall j :: 0 <= j < storage.Length ==>
                    storage[j] == if off <= j < off + i then value[j - off] else old(storage[j])
      {
        storage[off + i] := value[i];
      }
    }

    lemma ContentOf(slot: nat)
      requires Valid() && Used(table[..], slot)
      ensures table[slot].key in Content(table[..])
      ensures Content(table[..])[table[slot].key] == Location(table[slot].offset.value, table[slot].length)
      ensures table[slot].offset.value + table[slot].length <= storage.Length
    {
      ContentAt(table[..], slot);
    }

    // The update of a stored value (kv_ftl.c:530-540, 613-614, 632-633).
    method Overwrite(slot: nat, value: seq<Byte>)
      requires Valid() && Used(table[..], slot) && slot < table.Length
      requires HasRoom(View(), StoreCmd(table[slot].key, value))
      modifies table, storage
      ensures Valid() && View() == Apply(old(View()), StoreCmd(old(table[slot].key), value))
    {
      hide Content, Chained, Findable, Distinct, OneLength, Write;
      ghost var e := table[..];
      ContentOf(slot);
      var entry := table[slot];
      ghost var len := if Adjusts(|value|, entry.length) then |value| else entry.length;
      CopyIn(entry.offset.value, value);
      ResizeKeeps(e, HomeOf(), keyLen, rank, filled, slot, len);
      if |value| != entry.length && |value| <= SMALL_LENGTH && entry.length <= SMALL_LENGTH {
        table[slot] := table[slot].(length := |value|);
      }
      assert table[..] == e[slot := e[slot].(length := len)];
    }

    // A value for a key that is not stored (kv_ftl.c:524-528, 613-614, 630-631).
    method InsertNew(key: Key, value: seq<Byte>, ghost f: nat)
      requires Valid() && |key| == keyLen && key !in Content(table[..])
      requires f < table.Length && table[f].offset.None? && HasRoom(View(), StoreCmd(key, value))
      modifies this`latest, this`rank, this`filled, table, storage
      ensures Valid() && View() == Apply(old(View()), StoreCmd(key, value))
    {
      hide Content, Chained, Findable, Distinct, OneLength, Write;
      ghost var e := table[..];
      var off := latest;
      latest := latest + |value|;
      CopyIn(off, value);
      CopyKept(e);
      NewMappingEntry(key, |value|, off, f);
    }

    lemma CopyKept(e: seq<Entry>)
      requires table[..] == e
      ensures Content(table[..]) == Content(e)
    {
    }

    /** kv_store (kv_ftl.c:505-640), of a value that ends within the storage; for a key that is not
        stored, in a table that has a free slot. Whether other keys still read as before is decided by
        HarmlessExactly. */
    method Store(key: Key, value: seq<Byte>, ghost f: nat)
      requires Valid() && |key| == keyLen && HasRoom(View(), StoreCmd(key, value))
      requires key !in View().index ==> f < table.Length && table[f].offset.None?
      modifies this`latest, this`rank, this`filled, table, storage
      ensures Valid() && View() == Apply(old(View()), StoreCmd(key, value))
      ensures key in Values()
      ensures (key in old(Values()) ==>
                 var len := |old(Values())[key]|; |value| == len || (|value| <= 1024 && len <= 1024)) ==>
              Values()[key] == value
    {
      hide Content, Ok, InBounds, Apply, HasRoom, Slice;
      StoreThenRead(View(), StoreCmd(key, value));
      var slot := Lookup(key);
      if slot == NIL {
        InsertNew(key, value, f);
      } else {
        ContentOf(slot);
        Overwrite(slot, value);
      }
    }

    /** kv_retrieve of up to len bytes (kv_ftl.c:541-552, 615-616, 636-637); None stands for the status
        KV_ERR_KEY_NOT_EXIST. */
    method Retrieve(key: Key, len: nat) returns (r: Option<seq<Byte>>)
      requires Valid() && |key| == keyLen
      ensures r.None? <==> key !in Values()
      ensures r.Some? ==> r.value == Values()[key][..if len < |Values()[key]| then len else |Values()[key]|]
    {
      hide Content, Ok;
      var slot := Lookup(key);
      if slot == NIL {
        return None;
      }
      ContentOf(slot);
      var n := if len < table[slot].length then len else table[slot].length;
      var off := table[slot].offset.value;
      assert storage[off..off + n] == storage[..][off..off + table[slot].length][..n];
      r := Some(storage[off..off + n]);
    }
  }
}
