/**
 What a host that stores and reads values sees of the key-value device (kv_ftl.c:505-640,
 append_only.c). A first value takes the next free bytes of the storage; a later one is copied over
 the first, whatever its length. Which runs of stores read back as a finite map would is
 characterised exactly, by the keys and the lengths of the values alone.
 */
module KvRuns {
  import opened Wrappers
  import opened KvIndex

  const SMALL_LENGTH: nat := 1024

  type Byte = b: int | 0 <= b < 256

  // The index, the next free byte, and the storage.
  datatype Device = Device(index: map<Key, Location>, latest: nat, bytes: seq<Byte>)

  datatype StoreCmd = StoreCmd(key: Key, value: seq<Byte>)

  // The lengths between which the driver adjusts an entry (kv_ftl.c:533-538).
  predicate Adjusts(len: nat, entry: nat) { len == entry || (len <= SMALL_LENGTH && entry <= SMALL_LENGTH) }

  // ----- one store -----

  // The bytes after `value` was copied to offset `off`.
  function Write(bytes: seq<Byte>, off: nat, value: seq<Byte>): (r: seq<Byte>)
    requires off + |value| <= |bytes|
    ensures |r| == |bytes|
    ensures forall i :: 0 <= i < |bytes| ==> r[i] == if off <= i < off + |value| then value[i - off] else bytes[i]
  {
    bytes[..off] + value + bytes[off + |value|..]
  }

  function Slice(bytes: seq<Byte>, l: Location): seq<Byte>
    requires l.offset + l.length <= |bytes|
  {
    bytes[l.offset..l.offset + l.length]
  }

  // Every value is in the storage.
  predicate InBounds(d: Device) {
    d.latest <= |d.bytes| && forall k :: k in d.index ==> d.index[k].offset + d.index[k].length <= |d.bytes|
  }

  // What a host reads for each key.
  function Reads(d: Device): map<Key, seq<Byte>>
    requires InBounds(d)
  {
    map k | k in d.index :: Slice(d.bytes, d.index[k])
  }

  // Where a value for this key goes.
  function Target(d: Device, key: Key): nat { if key in d.index then d.index[key].offset else d.latest }

  // The value ends within the storage, and a new one starts in it (BUG_ON, kv_ftl.c:205).
  predicate HasRoom(d: Device, st: StoreCmd) {
    && Target(d, st.key) + |st.value| <= |d.bytes|
    && (st.key !in d.index ==> d.latest < |d.bytes|)
  }

  /** kv_store as the driver does it: no value is moved, and no length is checked. */
  function Apply(d: Device, st: StoreCmd): (r: Device)
    requires InBounds(d) && HasRoom(d, st)
    ensures InBounds(r) && |r.bytes| == |d.bytes|
  {
    var n, off := |st.value|, Target(d, st.key);
    var bytes := Write(d.bytes, off, st.value);
    if st.key in d.index then
      var entry := d.index[st.key];
      Device(d.index[st.key := Location(off, if Adjusts(n, entry.length) then n else entry.length)], d.latest, bytes)
    else Device(d.index[st.key := Location(off, n)], off + n, bytes)
  }

  // Two values that have no byte in common.
  predicate Disjoint(a: Location, b: Location) {
    a.length == 0 || b.length == 0 || a.offset + a.length <= b.offset || b.offset + b.length <= a.offset
  }

  // The bytes at b are no byte of a value of any other key.
  ghost predicate Clear(c: map<Key, Location>, key: Key, b: Location) {
    forall k :: k in c && k != key ==> Disjoint(c[k], b)
  }

  // What a finite map with the driver's rule for lengths holds after a value was stored.
  function Updated(old_: seq<Byte>, value: seq<Byte>): (r: seq<Byte>)
    ensures |r| == if Adjusts(|value|, |old_|) then |value| else |old_|
  {
    if Adjusts(|value|, |old_|) then value
    else if |value| < |old_| then value + old_[|value|..]
    else value[..|old_|]
  }

  function PutValue(m: map<Key, seq<Byte>>, st: StoreCmd): map<Key, seq<Byte>> {
    m[st.key := if st.key in m then Updated(m[st.key], st.value) else st.value]
  }

  // What is written away from a value leaves it alone.
  lemma OtherValue(bytes: seq<Byte>, off: nat, value: seq<Byte>, at: Location)
    requires off + |value| <= |bytes| && at.offset + at.length <= |bytes|
    requires Disjoint(at, Location(off, |value|))
    ensures Slice(Write(bytes, off, value), at) == Slice(bytes, at)
  {
  }

  // What is read where a value was written: its start, or the value and what was behind it.
  lemma OwnValue(bytes: seq<Byte>, off: nat, value: seq<Byte>, n: nat)
    requires off + |value| <= |bytes| && off + n <= |bytes|
    ensures n <= |value| ==> Slice(Write(bytes, off, value), Location(off, n)) == value[..n]
    ensures n >= |value| ==>
              Slice(Write(bytes, off, value), Location(off, n)) ==
              value + Slice(bytes, Location(off, n))[|value|..]
  {
    var x := Slice(Write(bytes, off, value), Location(off, n));
    assert n <= |value| ==> x == value[..n];
    assert n >= |value| ==> x == value + Slice(bytes, Location(off, n))[|value|..];
  }

  /** A store whose bytes are no other key's is an update of the map that the device stands for. */
  lemma ApplyReads(d: Device, st: StoreCmd)
    requires InBounds(d) && HasRoom(d, st)
    requires Clear(d.index, st.key, Location(Target(d, st.key), |st.value|))
    ensures Reads(Apply(d, st)) == PutValue(Reads(d), st)
  {
    hide Slice, Write, Disjoint, Adjusts;
    var t, off, n := Apply(d, st), Target(d, st.key), |st.value|;
    forall k | k in d.index && k != st.key ensures Slice(t.bytes, d.index[k]) == Slice(d.bytes, d.index[k]) {
      OtherValue(d.bytes, off, st.value, d.index[k]);
    }
    OwnRead(d, st);
  }

  lemma OwnRead(d: Device, st: StoreCmd)
    requires InBounds(d) && HasRoom(d, st)
    ensures Slice(Apply(d, st).bytes, Apply(d, st).index[st.key]) ==
            if st.key in d.index then Updated(Slice(d.bytes, d.index[st.key]), st.value) else st.value
  {
    hide Write;
    OwnValue(d.bytes, Target(d, st.key), st.value, Apply(d, st).index[st.key].length);
    assert st.value[..|st.value|] == st.value;
  }

  // ----- a store that reaches another key's value -----

  // Bytes that all differ from these.
  function Others(q: seq<Byte>): (r: seq<Byte>)
    ensures |r| == |q| && forall i :: 0 <= i < |q| ==> r[i] != q[i]
  {
    if q == [] then [] else [if q[0] == 0 then 1 else 0] + Others(q[1..])
  }

  // A value of the same length that spoils the value it reaches.
  lemma Spoils(d: Device, key: Key, n: nat) returns (value: seq<Byte>, k: Key)
    requires InBounds(d) && Target(d, key) + n <= |d.bytes|
    requires !Clear(d.index, key, Location(Target(d, key), n))
    ensures |value| == n && k in d.index && k != key
    ensures Slice(Write(d.bytes, Target(d, key), value), d.index[k]) != Slice(d.bytes, d.index[k])
  {
    var off := Target(d, key);
    k :| k in d.index && k != key && !Disjoint(d.index[k], Location(off, n));
    value := Others(d.bytes[off..off + n]);
    var a := d.index[k].offset;
    var i := if off <= a then a else off;
    var after := Write(d.bytes, off, value);
    assert after[i] == value[i - off] != d.bytes[off..off + n][i - off] == d.bytes[i];
    assert Slice(after, d.index[k])[i - a] == after[i];
    assert Slice(d.bytes, d.index[k])[i - a] == d.bytes[i];
  }

  // ----- runs of stores on an empty device -----

  function Run(size: nat, stores: seq<StoreCmd>): (r: Option<Device>)
    ensures r.Some? ==> InBounds(r.value) && |r.value.bytes| == size
  {
    if stores == [] then Some(Device(map[], 0, Zeros(size)))
    else match Run(size, stores[..|stores| - 1])
      case None => None
      case Some(d) =>
        var st := stores[|stores| - 1];
        if HasRoom(d, st) then Some(Apply(d, st)) else None
  }

  function Zeros(size: nat): (r: seq<Byte>)
    ensures |r| == size
  {
    if size == 0 then [] else Zeros(size - 1) + [0]
  }

  // What a finite map would hold.
  function Expected(stores: seq<StoreCmd>): map<Key, seq<Byte>> {
    if stores == [] then map[] else PutValue(Expected(stores[..|stores| - 1]), stores[|stores| - 1])
  }

  // How many bytes the first values took.
  function Allocated(stores: seq<StoreCmd>): nat {
    if stores == [] then 0
    else
      var n, st := |stores| - 1, stores[|stores| - 1];
      Allocated(stores[..n]) + if st.key in Expected(stores[..n]) then 0 else |st.value|
  }

  // Where the values of a key start: behind the first values of the keys stored before it.
  function Start(stores: seq<StoreCmd>, key: Key): nat {
    if key !in Expected(stores) then Allocated(stores)
    else
      var n := |stores| - 1;
      if key in Expected(stores[..n]) then Start(stores[..n], key) else Allocated(stores[..n])
  }

  /** A value of n bytes for this key reaches no byte that is read for another one: the host can tell
      from the lengths of the values it stored. */
  ghost predicate Harmless(stores: seq<StoreCmd>, key: Key, n: nat) {
    forall k :: k in Expected(stores) && k != key ==>
      Disjoint(Location(Start(stores, k), |Expected(stores)[k]|), Location(Start(stores, key), n))
  }

  ghost predicate AllHarmless(stores: seq<StoreCmd>) {
    forall i :: 0 <= i < |stores| ==> Harmless(stores[..i], stores[i].key, |stores[i].value|)
  }

  // The device reads as the map after every store.
  ghost predicate ReadsBack(size: nat, stores: seq<StoreCmd>) {
    forall i :: 0 <= i <= |stores| ==> ReadsAs(size, stores[..i])
  }

  ghost predicate ReadsAs(size: nat, stores: seq<StoreCmd>) {
    Run(size, stores).Some? && Reads(Run(size, stores).value) == Expected(stores)
  }

  // The index in terms of the host's stores, clobbered or not.
  lemma {:induction false} IndexIs(size: nat, stores: seq<StoreCmd>)
    requires Run(size, stores).Some?
    ensures var d := Run(size, stores).value;
            && d.latest == Allocated(stores) && d.index.Keys == Expected(stores).Keys
            && (forall k :: k in d.index ==> d.index[k] == Location(Start(stores, k), |Expected(stores)[k]|))
  {
    hide Adjusts, Updated, Write;
    if stores != [] {
      IndexIs(size, stores[..|stores| - 1]);
      IndexStep(size, stores);
    }
  }

  lemma IndexStep(size: nat, stores: seq<StoreCmd>)
    requires stores != [] && Run(size, stores).Some?
    requires var d, pre := Run(size, stores[..|stores| - 1]).value, stores[..|stores| - 1];
             && d.latest == Allocated(pre) && d.index.Keys == Expected(pre).Keys
             && (forall k :: k in d.index ==> d.index[k] == Location(Start(pre, k), |Expected(pre)[k]|))
    ensures var d := Run(size, stores).value;
            && d.latest == Allocated(stores) && d.index.Keys == Expected(stores).Keys
            && (forall k :: k in d.index ==> d.index[k] == Location(Start(stores, k), |Expected(stores)[k]|))
  {
    hide Adjusts, Write;
  }

  // Harmless in terms of the index.
  lemma HarmlessIs(size: nat, stores: seq<StoreCmd>, key: Key, n: nat)
    requires Run(size, stores).Some?
    ensures var d := Run(size, stores).value;
            && Target(d, key) == Start(stores, key)
            && (Harmless(stores, key, n) <==> Clear(d.index, key, Location(Target(d, key), n)))
  {
    hide Run, Disjoint;
    IndexIs(size, stores);
    var d := Run(size, stores).value;
    assert forall k :: k in d.index <==> k in Expected(stores);
  }

  /** A run of harmless stores reads back as a finite map after each of them. */
  lemma {:induction false} HarmlessReadsBack(size: nat, stores: seq<StoreCmd>)
    requires Run(size, stores).Some? && AllHarmless(stores)
    ensures ReadsBack(size, stores)
  {
    hide Harmless, Reads, Apply, PutValue;
    if stores == [] {
      EmptyReads(size);
    } else {
      var n := |stores| - 1;
      var pre, st := stores[..n], stores[n];
      PrefixHarmless(stores, n);
      HarmlessReadsBack(size, pre);
      assert pre[..n] == pre && ReadsAs(size, pre);
      HarmlessIs(size, pre, st.key, |st.value|);
      ApplyReads(Run(size, pre).value, st);
      forall i | 0 <= i <= |stores| ensures ReadsAs(size, stores[..i]) {
        if i <= n {
          assert stores[..i] == pre[..i];
        } else {
          assert stores[..i] == stores;
        }
      }
    }
  }

  lemma EmptyReads(size: nat)
    ensures ReadsBack(size, [])
  {
    var none: seq<StoreCmd> := [];
    forall i | 0 <= i <= 0 ensures ReadsAs(size, none[..i]) {
      assert none[..i] == none;
      assert Reads(Run(size, none).value) == map[];
    }
  }

  lemma PrefixHarmless(stores: seq<StoreCmd>, n: nat)
    requires AllHarmless(stores) && n <= |stores|
    ensures AllHarmless(stores[..n])
  {
    hide Harmless;
    forall i | 0 <= i < n ensures Harmless(stores[..n][..i], stores[i].key, |stores[i].value|) {
      assert stores[..n][..i] == stores[..i];
    }
  }

  // The same keys in the same order, with values of the same lengths.
  ghost predicate SameLengths(a: seq<StoreCmd>, b: seq<StoreCmd>) {
    |a| == |b| && forall i :: 0 <= i < |a| ==> a[i].key == b[i].key && |a[i].value| == |b[i].value|
  }

  lemma {:induction false} LengthsDecide(size: nat, a: seq<StoreCmd>, b: seq<StoreCmd>)
    requires SameLengths(a, b)
    ensures Expected(a).Keys == Expected(b).Keys && Allocated(a) == Allocated(b)
    ensures forall k :: k in Expected(a) ==> |Expected(a)[k]| == |Expected(b)[k]| && Start(a, k) == Start(b, k)
    ensures Run(size, a).Some? <==> Run(size, b).Some?
  {
    hide Adjusts, Updated, Write;
    if a != [] {
      var n := |a| - 1;
      LengthsDecide(size, a[..n], b[..n]);
      assert forall k :: k in Expected(a[..n]) <==> k in Expected(b[..n]);
      if Run(size, a[..n]).Some? {
        IndexIs(size, a[..n]);
        IndexIs(size, b[..n]);
      }
      LengthsStep(a, b);
    }
  }

  lemma LengthsStep(a: seq<StoreCmd>, b: seq<StoreCmd>)
    requires SameLengths(a, b) && a != []
    requires var n := |a| - 1;
             && Expected(a[..n]).Keys == Expected(b[..n]).Keys && Allocated(a[..n]) == Allocated(b[..n])
             && (forall k :: k in Expected(a[..n]) ==>
                   |Expected(a[..n])[k]| == |Expected(b[..n])[k]| && Start(a[..n], k) == Start(b[..n], k))
    ensures Expected(a).Keys == Expected(b).Keys && Allocated(a) == Allocated(b)
    ensures forall k :: k in Expected(a) ==> |Expected(a)[k]| == |Expected(b)[k]| && Start(a, k) == Start(b, k)
  {
    var n := |a| - 1;
    assert forall k :: k in Expected(a[..n]) <==> k in Expected(b[..n]);
  }

  lemma SameHarmless(a: seq<StoreCmd>, b: seq<StoreCmd>, key: Key, n: nat)
    requires SameLengths(a, b)
    ensures Harmless(a, key, n) <==> Harmless(b, key, n)
  {
    hide Disjoint;
    LengthsDecide(0, a, b);
    SameStart(a, b, key);
    assert forall k :: k in Expected(a) <==> k in Expected(b);
  }

  lemma SameStart(a: seq<StoreCmd>, b: seq<StoreCmd>, key: Key)
    requires SameLengths(a, b)
    ensures Start(a, key) == Start(b, key)
  {
    LengthsDecide(0, a, b);
    assert key in Expected(a) <==> key in Expected(b);
  }

  lemma SameAllHarmless(a: seq<StoreCmd>, b: seq<StoreCmd>)
    requires SameLengths(a, b) && AllHarmless(a)
    ensures AllHarmless(b)
  {
    hide Harmless;
    forall i | 0 <= i < |b| ensures Harmless(b[..i], b[i].key, |b[i].value|) {
      SameHarmless(a[..i], b[..i], b[i].key, |b[i].value|);
    }
  }

  // A store that is not harmless, with a value that spoils another one.
  lemma SpoiltRun(size: nat, stores: seq<StoreCmd>, key: Key, n: nat) returns (value: seq<Byte>)
    requires ReadsAs(size, stores) && !Harmless(stores, key, n)
    requires HasRoom(Run(size, stores).value, StoreCmd(key, Zeros(n)))
    ensures |value| == n && !ReadsAs(size, stores + [StoreCmd(key, value)])
  {
    hide Harmless, Updated;
    var d := Run(size, stores).value;
    HarmlessIs(size, stores, key, n);
    var k;
    value, k := Spoils(d, key, n);
    var st := StoreCmd(key, value);
    var more := stores + [st];
    assert more[..|stores|] == stores;
    assert k in Reads(d) && k in Expected(more) && Expected(more)[k] == Expected(stores)[k];
    assert Reads(Apply(d, st))[k] == Slice(Apply(d, st).bytes, d.index[k]);
  }

  // ----- plain maps -----

  /** What is read for a key after a store of it: the value, if the key is new, or the value is as long as
      the one before, or both are at most 1024 bytes; otherwise as many bytes as before, the rest of
      the old value behind a shorter one. */
  lemma StoreThenRead(d: Device, st: StoreCmd)
    requires InBounds(d) && HasRoom(d, st)
    ensures var n, r := |st.value|, Reads(Apply(d, st));
            && st.key in r
            && (st.key !in d.index ==> r[st.key] == st.value)
            && (st.key in d.index ==>
                  var old_ := Reads(d)[st.key];
                  && (n == |old_| || (n <= 1024 && |old_| <= 1024) ==> r[st.key] == st.value)
                  && (n > |old_| && n > 1024 ==> r[st.key] == st.value[..|old_|])
                  && (n < |old_| && |old_| > 1024 ==> r[st.key] == st.value + old_[n..]))
  {
    hide Slice, Write;
    OwnRead(d, st);
  }

  // The last value stored for each key.
  function LastValues(stores: seq<StoreCmd>): map<Key, seq<Byte>> {
    if stores == [] then map[]
    else LastValues(stores[..|stores| - 1])[stores[|stores| - 1].key := stores[|stores| - 1].value]
  }

  /** A value as long as the one stored before it for this key, or both at most 1024 bytes. */
  predicate Fits(stores: seq<StoreCmd>, st: StoreCmd) {
    st.key in LastValues(stores) ==>
      var n, len := |st.value|, |LastValues(stores)[st.key]|;
      n == len || (n <= 1024 && len <= 1024)
  }

  ghost predicate AllFit(stores: seq<StoreCmd>) {
    forall i :: 0 <= i < |stores| ==> Fits(stores[..i], stores[i])
  }

  // Every prefix of the run leads to the last values.
  ghost predicate IsPlain(stores: seq<StoreCmd>) {
    forall i :: 0 <= i <= |stores| ==> Expected(stores[..i]) == LastValues(stores[..i])
  }

  lemma PlainPrefix(stores: seq<StoreCmd>)
    requires stores != []
    ensures var n := |stores| - 1;
            && (AllFit(stores) <==> AllFit(stores[..n]) && Fits(stores[..n], stores[n]))
            && (IsPlain(stores) <==> IsPlain(stores[..n]) && Expected(stores) == LastValues(stores))
  {
    hide Fits, Expected, LastValues;
    var n := |stores| - 1;
    assert forall i :: 0 <= i <= n ==> stores[..n][..i] == stores[..i];
    assert stores[..n + 1] == stores;
    if AllFit(stores) {
      forall i | 0 <= i < n ensures Fits(stores[..n][..i], stores[..n][i]) {
        assert Fits(stores[..i], stores[i]);
      }
    }
    if AllFit(stores[..n]) && Fits(stores[..n], stores[n]) {
      forall i | 0 <= i <= n ensures Fits(stores[..i], stores[i]) {
        if i < n {
          assert Fits(stores[..n][..i], stores[..n][i]);
        }
      }
    }
    if IsPlain(stores) {
      forall i | 0 <= i <= n ensures Expected(stores[..n][..i]) == LastValues(stores[..n][..i]) {
        assert Expected(stores[..i]) == LastValues(stores[..i]);
      }
    }
    if IsPlain(stores[..n]) && Expected(stores) == LastValues(stores) {
      forall i | 0 <= i <= n + 1 ensures Expected(stores[..i]) == LastValues(stores[..i]) {
        if i <= n {
          assert Expected(stores[..n][..i]) == LastValues(stores[..n][..i]);
        }
      }
    }
  }

  lemma {:induction false} FitIsPlain(stores: seq<StoreCmd>)
    ensures IsPlain(stores) <==> AllFit(stores)
  {
    hide Fits;
    if stores != [] {
      var n := |stores| - 1;
      FitIsPlain(stores[..n]);
      PlainPrefix(stores);
      assert stores[..n][..n] == stores[..n];
      if IsPlain(stores[..n]) {
        assert Expected(stores[..n][..n]) == LastValues(stores[..n][..n]);
        PlainStep(stores);
      }
    }
  }

  lemma PlainStep(stores: seq<StoreCmd>)
    requires stores != [] && Expected(stores[..|stores| - 1]) == LastValues(stores[..|stores| - 1])
    ensures Expected(stores) == LastValues(stores) <==> Fits(stores[..|stores| - 1], stores[|stores| - 1])
  {
    var n := |stores| - 1;
    var m, st := LastValues(stores[..n]), stores[n];
    assert Expected(stores)[st.key] == if st.key in m then Updated(m[st.key], st.value) else st.value;
    assert LastValues(stores)[st.key] == st.value;
  }

  /** A run of harmless stores reads back as the plain map of last values, after each store, if and only
      if every value fits the one stored before it for its key; in particular if none is longer than
      1024 bytes. */
  lemma PlainExactly(size: nat, stores: seq<StoreCmd>)
    requires Run(size, stores).Some? && AllHarmless(stores)
    ensures forall i :: 0 <= i <= |stores| ==> Run(size, stores[..i]).Some?
    ensures (forall i :: 0 <= i <= |stores| ==> Reads(Run(size, stores[..i]).value) == LastValues(stores[..i]))
            <==> AllFit(stores)
    ensures (forall i :: 0 <= i < |stores| ==> |stores[i].value| <= 1024) ==> AllFit(stores)
  {
    hide Harmless, Reads, Fits, Expected, LastValues, Run;
    HarmlessReadsBack(size, stores);
    FitIsPlain(stores);
    forall i | 0 <= i <= |stores|
      ensures Run(size, stores[..i]).Some? && Reads(Run(size, stores[..i]).value) == Expected(stores[..i])
    {
      assert ReadsAs(size, stores[..i]);
    }
    if forall i :: 0 <= i < |stores| ==> |stores[i].value| <= 1024 {
      forall i | 0 <= i < |stores| ensures Fits(stores[..i], stores[i]) {
        SmallFits(stores[..i], stores[i]);
      }
    }
  }

  lemma {:induction false} SmallValues(stores: seq<StoreCmd>)
    requires forall i :: 0 <= i < |stores| ==> |stores[i].value| <= 1024
    ensures forall k :: k in LastValues(stores) ==> |LastValues(stores)[k]| <= 1024
  {
    if stores != [] {
      SmallValues(stores[..|stores| - 1]);
    }
  }

  lemma SmallFits(stores: seq<StoreCmd>, st: StoreCmd)
    requires |st.value| <= 1024 && forall i :: 0 <= i < |stores| ==> |stores[i].value| <= 1024
    ensures Fits(stores, st)
  {
    SmallValues(stores);
  }

  /** Exactly the runs of harmless stores read back: for given keys and lengths, the device reads as the
      finite map after every store, whatever the bytes, if and only if no store reaches the value of
      another key that is being read. */
  lemma HarmlessExactly(size: nat, stores: seq<StoreCmd>)
    requires Run(size, stores).Some?
    ensures (forall other :: SameLengths(stores, other) ==> ReadsBack(size, other)) <==> AllHarmless(stores)
  {
    hide Run, Harmless, ReadsAs;
    if AllHarmless(stores) {
      forall other | SameLengths(stores, other) ensures ReadsBack(size, other) {
        SameAllHarmless(stores, other);
        LengthsDecide(size, stores, other);
        HarmlessReadsBack(size, other);
      }
    } else if ReadsBack(size, stores) {
      var i :| 0 <= i < |stores| && !Harmless(stores[..i], stores[i].key, |stores[i].value|);
      var key, n := stores[i].key, |stores[i].value|;
      assert ReadsAs(size, stores[..i]) && ReadsAs(size, stores[..i + 1]);
      RoomFor(size, stores, i);
      var value := SpoiltRun(size, stores[..i], key, n);
      var other := stores[..i] + [StoreCmd(key, value)] + stores[i + 1..];
      assert other[..i + 1] == stores[..i] + [StoreCmd(key, value)];
      assert SameLengths(stores, other) && !ReadsBack(size, other);
    } else {
      assert SameLengths(stores, stores);
    }
  }

  lemma RoomFor(size: nat, stores: seq<StoreCmd>, i: nat)
    requires i < |stores| && ReadsAs(size, stores[..i]) && ReadsAs(size, stores[..i + 1])
    ensures HasRoom(Run(size, stores[..i]).value, StoreCmd(stores[i].key, Zeros(|stores[i].value|)))
  {
    hide Expected, Reads;
    assert stores[..i + 1][..i] == stores[..i];
  }

  lemma NothingStored(size: nat) returns (d: Device)
    ensures Run(size, []) == Some(d) && d.index == map[] && d.latest == 0
  {
    d := Run(size, []).value;
  }

  lemma OneMore(size: nat, stores: seq<StoreCmd>, d: Device, st: StoreCmd)
    requires Run(size, stores) == Some(d) && HasRoom(d, st)
    ensures Run(size, stores + [st]) == Some(Apply(d, st))
  {
    hide Apply, HasRoom;
    assert (stores + [st])[..|stores|] == stores;
  }

  lemma TwoStored(size: nat, s1: StoreCmd, s2: StoreCmd) returns (d: Device)
    requires 2 <= size && s1.key != s2.key && |s1.value| == |s2.value| == 1
    ensures Run(size, [s1, s2]) == Some(d) && d.index == map[s1.key := Location(0, 1), s2.key := Location(1, 1)]
  {
    hide Run, Write;
    var none: seq<StoreCmd> := [];
    var d0 := NothingStored(size);
    OneMore(size, none, d0, s1);
    var d1 := Apply(d0, s1);
    assert none + [s1] == [s1];
    OneMore(size, [s1], d1, s2);
    assert [s1] + [s2] == [s1, s2];
    d := Apply(d1, s2);
  }

  lemma SecondByte(bytes: seq<Byte>)
    requires 2 <= |bytes|
    ensures Slice(Write(bytes, 0, [2, 3]), Location(1, 1)) == [3]
  {
    assert Slice(Write(bytes, 0, [2, 3]), Location(1, 1))[0] == 3;
  }

  /** And it happens: a key stored again, one byte longer, overwrites the key stored after it. */
  lemma Clobbers(size: nat, a: Key, b: Key)
    requires 3 <= size && a != b
    ensures var stores := [StoreCmd(a, [0]), StoreCmd(b, [1]), StoreCmd(a, [2, 3])];
            && Run(size, stores).Some? && !AllHarmless(stores)
            && var r := Reads(Run(size, stores).value);
               b in r && r[b] == [3] && Expected(stores)[b] == [1]
  {
    hide Run, Harmless, Write, Start, Allocated;
    var s1, s2, s3 := StoreCmd(a, [0]), StoreCmd(b, [1]), StoreCmd(a, [2, 3]);
    var d2 := TwoStored(size, s1, s2);
    OneMore(size, [s1, s2], d2, s3);
    assert [s1, s2] + [s3] == [s1, s2, s3];
    HarmlessIs(size, [s1, s2], a, 2);
    assert !Disjoint(d2.index[b], Location(0, 2));
    assert [s1, s2, s3][..2] == [s1, s2] && [s1, s2][..1] == [s1];
    assert [s1][..0] == [];
    assert Expected([s1, s2]) == PutValue(Expected([s1]), s2) && b !in Expected([s1]);
    SecondByte(d2.bytes);
    assert Reads(Apply(d2, s3))[b] == Slice(Write(d2.bytes, 0, [2, 3]), Location(1, 1));
  }
}
