/**
 A namespace striped over FTL partitions: LPN n belongs to partition n % nr_parts, where it is
 LPN n / nr_parts (conv_ftl.c:1448-1449). conv_write is proved to store exactly the pages of its
 command, whatever garbage collections it sets off on the way.
 */
module Namespace {
  import opened Wrappers
  import opened Arith
  import opened FtlModel
  import opened FtlRuns
  import opened Geometry
  import opened FtlView
  import opened LineMgmt
  import opened ConvFtl
  import opened WearGap
  import RlAgent

  datatype Status = Success | LbaRange | Internal

  // An LPN is determined by its partition and its number there.
  lemma Striped(a: nat, b: nat, n: nat)
    requires 0 < n && Rem(a, n) == Rem(b, n) && Quo(a, n) == Quo(b, n)
    ensures a == b
  {
    PartsMix(a, n);
    PartsMix(b, n);
  }

  lemma Stripe(a: nat, n: nat)
    requires 0 < n
    ensures Rem(a, n) < n
  {
  }

  lemma QuoMono(a: nat, b: nat, n: nat)
    requires 0 < n && a <= b
    ensures Quo(a, n) <= Quo(b, n)
  {
    PartsMix(a, n);
    QuoBetween(b, n, Quo(a, n));
  }

  // LPNs of a space, and one more.
  lemma FewIn(keys: set<nat>, lpn: nat, space: set<nat>)
    requires lpn in space && keys <= space
    ensures |keys + {lpn}| <= |space|
  {
    FtlGc.Subset(keys + {lpn}, space);
  }

  import FtlGc

  // What the host reads in each partition, LPN by LPN there.
  type Hosts = seq<map<nat, Payload>>

  function Put(hosts: Hosts, lpn: nat, v: Payload): (r: Hosts)
    requires hosts != []
    ensures |r| == |hosts|
  {
    Stripe(lpn, |hosts|);
    var i := Rem(lpn, |hosts|);
    var host: map<nat, Payload> := hosts[i][Quo(lpn, |hosts|) := v];
    hosts[i := host]
  }

  lemma PutIs(hosts: Hosts, lpn: nat, v: Payload)
    requires hosts != []
    ensures var i := Rem(lpn, |hosts|);
            && i < |hosts| && Put(hosts, lpn, v)[i] == hosts[i][Quo(lpn, |hosts|) := v]
            && forall j :: 0 <= j < |hosts| && j != i ==> Put(hosts, lpn, v)[j] == hosts[j]
  {
  }

  function ReadAt(hosts: Hosts, lpn: nat): Option<Payload>
    requires hosts != []
  {
    Stripe(lpn, |hosts|);
    var host, local := hosts[Rem(lpn, |hosts|)], Quo(lpn, |hosts|);
    if local in host then Some(host[local]) else None
  }

  lemma ReadPut(hosts: Hosts, lpn: nat, v: Payload, at: nat)
    requires hosts != []
    ensures ReadAt(Put(hosts, lpn, v), at) == if at == lpn then Some(v) else ReadAt(hosts, at)
  {
    hide Rem, Quo;
    Stripe(lpn, |hosts|);
    Stripe(at, |hosts|);
    if Rem(at, |hosts|) == Rem(lpn, |hosts|) && Quo(at, |hosts|) == Quo(lpn, |hosts|) {
      Striped(at, lpn, |hosts|);
    }
  }

  // The pages a to b - 1 written, in order.
  ghost function Overwrite(hosts: Hosts, a: nat, b: nat, data: nat -> Payload): (r: Hosts)
    requires hosts != [] && a <= b
    ensures |r| == |hosts|
    decreases b - a
  {
    if a == b then hosts else Put(Overwrite(hosts, a, b - 1, data), b - 1, data(b - 1))
  }

  /** Reading after a write command: the new data inside it, and what was there before outside it. */
  lemma {:induction false} ReadOverwrite(hosts: Hosts, a: nat, b: nat, data: nat -> Payload, at: nat)
    requires hosts != [] && a <= b
    ensures ReadAt(Overwrite(hosts, a, b, data), at) == if a <= at < b then Some(data(at)) else ReadAt(hosts, at)
    decreases b - a
  {
    if a < b {
      ReadOverwrite(hosts, a, b - 1, data, at);
      ReadPut(Overwrite(hosts, a, b - 1, data), b - 1, data(b - 1), at);
    }
  }

  class ConvNamespace {
    const g: Geometry
    const thres: nat
    const secsPerPg: nat
    const parts: seq<ConvFtl>

    ghost const repr: set<object>

    constructor (g: Geometry, thres: nat, secsPerPg: nat, parts: seq<ConvFtl>, ghost repr: set<object>)
      ensures this.g == g && this.thres == thres && this.secsPerPg == secsPerPg && this.parts == parts
      ensures this.repr == repr
    {
      this.g, this.thres, this.secsPerPg, this.parts := g, thres, secsPerPg, parts;
      this.repr := repr;
    }

    ghost predicate Shape()
    {
      && g.Valid() && 0 < |parts| && 0 < secsPerPg
      && ConfigOf(g, thres).Valid() && g.PgsPerLine() <= INT_MAX
      && (forall i :: 0 <= i < |parts| ==> parts[i].g == g && parts[i].thres == thres)
      && Apart(parts) && (forall i :: 0 <= i < |parts| ==> parts[i].FullRepr() <= repr)
    }

    // Partition i is safe and reads as host, holds LPNs of the space only, and has room in its
    // erase counts for `more` collections.
    static ghost predicate PartIs(p: ConvFtl, host: map<nat, Payload>, space: set<nat>, more: nat)
      reads p.FullRepr()
    {
      && p.Rep() && p.StatsOk() && Safe(p.Cfg(), p.View()) && Host(p.View()) == host
      && p.View().maptbl.Keys <= space
      && p.View().ct.gcCount + more <= INT_MAX
    }

    // The namespace is safe, reads as hosts, and holds LPNs of a space of at most Capacity.
    ghost predicate Is(hosts: Hosts, space: set<nat>, more: nat)
      reads repr
    {
      && Shape() && |hosts| == |parts| && |space| <= Capacity(ConfigOf(g, thres))
      && (forall i :: 0 <= i < |parts| ==> PartIs(parts[i], hosts[i], space, more))
    }

    // One iteration of conv_write's loop.
    method WritePart(i: nat, local: nat, ghost v: Payload, ghost hosts: Hosts, ghost space: set<nat>, ghost more: nat)
      requires Is(hosts, space, more) && i < |parts| && local < TtPgs(g) && local in space && 0 < more
      modifies parts[i].FullRepr()
      ensures PartIs(parts[i], hosts[i][local := v], space, more - 1)
    {
      hide ConvFtl.View, Safe, Host, Capacity;
      FewIn(parts[i].View().maptbl.Keys, local, space);
      ghost var s := parts[i].View();
      ghost var q := parts[i].WriteLpn(local, v);
      OneGcAtMost(parts[i].Cfg(), s, q, parts[i].View());
    }

    static lemma StillIs(p: ConvFtl, host: map<nat, Payload>, space: set<nat>, more: nat)
      requires PartIs(p, host, space, more) && 0 < more
      ensures PartIs(p, host, space, more - 1)
    {
      hide ConvFtl.View, Safe;
    }

    // One iteration, in the namespace: the other partitions are left alone.
    method WriteAt(lpn: nat, ghost v: Payload, ghost hosts: Hosts, ghost space: set<nat>, ghost more: nat)
      requires Is(hosts, space, more) && 0 < more
      requires Quo(lpn, |parts|) < TtPgs(g) && Quo(lpn, |parts|) in space
      modifies repr
      ensures Is(Put(hosts, lpn, v), space, more - 1)
    {
      hide ConvFtl.View, ConvFtl.Rep, ConvFtl.Cfg, ConvFtl.Repr, ConvFtl.FullRepr, Safe, Host, Capacity, Rem, Quo, Put;
      PutIs(hosts, lpn, v);
      var i := Rem(lpn, |parts|);
      assert forall j :: 0 <= j < |parts| ==> PartIs(parts[j], hosts[j], space, more);
      WritePart(i, Quo(lpn, |parts|), v, hosts, space, more);
      forall j | 0 <= j < |parts| && j != i
        ensures PartIs(parts[j], hosts[j], space, more - 1)
      {
        assert parts[i].FullRepr() !! parts[j].FullRepr();
        assert PartIs(parts[j], hosts[j], space, more);
        StillIs(parts[j], hosts[j], space, more);
      }
    }

    /** conv_write (conv_ftl.c:1405-1515) of the sectors slba to slba + length. It fails without any
        effect when the last LPN is past the partitions' pages or the write buffer is full; otherwise
        every page of the command is stored, whatever is collected on the way, and nothing else
        changes for the host. The addresses may be any, as long as the space of those ever written has
        at most Capacity LPNs in a partition (with more, a partition can fail: CapacityIsExact). */
    method ConvWrite(slba: nat, length: nat, ghost data: nat -> Payload, bufferOk: bool,
                     ghost hosts: Hosts, ghost space: set<nat>, ghost more: nat)
      returns (status: Status)
      requires Is(hosts, space, more)
      requires var first, last := Quo(slba, secsPerPg), Quo(slba + length, secsPerPg);
               && last - first < more
               && (bufferOk && Quo(last, |parts|) < TtPgs(g) ==>
                     forall lpn :: first <= lpn <= last ==> Quo(lpn, |parts|) in space)
      modifies repr
      ensures var first, last := Quo(slba, secsPerPg), Quo(slba + length, secsPerPg);
              && (status == LbaRange <==> Quo(last, |parts|) >= TtPgs(g))
              && (status == Internal <==> Quo(last, |parts|) < TtPgs(g) && !bufferOk)
              && first <= last
              && (status == Success ==> Is(Overwrite(hosts, first, last + 1, data), space, more - (last - first + 1)))
              && (status != Success ==> Is(hosts, space, more))
    {
      hide Is, Rem, Quo, Put;
      ShapeOf(hosts, space, more);
      var first, last := Quo(slba, secsPerPg), Quo(slba + length, secsPerPg);
      QuoMono(slba, slba + length, secsPerPg);
      if Quo(last, |parts|) >= TtPgs(g) {
        return LbaRange;
      }
      if !bufferOk {
        return Internal;
      }
      for lpn := first to last + 1
        invariant Is(Overwrite(hosts, first, lpn, data), space, more - (lpn - first))
      {
        QuoMono(lpn, last, |parts|);
        WriteAt(lpn, data(lpn), Overwrite(hosts, first, lpn, data), space, more - (lpn - first));
      }
      status := Success;
    }

    lemma ShapeOf(hosts: Hosts, space: set<nat>, more: nat)
      requires Is(hosts, space, more)
      ensures 0 < |parts| == |hosts| && 0 < secsPerPg && g.Valid()
    {
    }
  }

  lemma FreshPart(p: ConvFtl, space: set<nat>)
    requires p.Rep() && p.StatsOk() && p.Cfg().Valid() && p.View() == Init(p.Cfg())
    ensures ConvNamespace.PartIs(p, map[], space, INT_MAX)
  {
    hide ConvFtl.View, Safe, Host;
    InitSafe(p.Cfg());
  }

  // The memory of a partition, with the statistics and the agent in their initial state.
  method NewFtl(g: Geometry, thres: nat, mode: int) returns (p: ConvFtl)
    requires g.Valid()
    ensures p.Shape() && p.lm.Blank() && p.data == map[] && p.g == g && p.thres == thres
    ensures fresh(p.FullRepr()) && p.StatsOk() && p.gcCount == p.copied == 0
  {
    hide LineMgmt.Blank, After, Geometry.Valid, RlAgent.Agent.Valid, Sum, RangeIs;
    var wgs := new WearGapStats();
    var agent := new RlAgent.Agent();
    p := new ConvFtl(g, thres, mode, wgs, agent);
    NoErases(p);
  }

  lemma NoErases(p: ConvFtl)
    requires p.lm.Blank() && p.Shape()
    ensures Sum(p.lm.eraseCnt[..]) == 0
  {
    SumZeros(p.lm.eraseCnt[..]);
  }

  // One more partition (conv_init_ftl).
  method NewPart(g: Geometry, thres: nat, mode: int, ghost space: set<nat>) returns (p: ConvFtl)
    requires g.Valid() && ConfigOf(g, thres).Valid()
    ensures fresh(p.FullRepr()) && p.g == g && p.thres == thres
    ensures ConvNamespace.PartIs(p, map[], space, INT_MAX)
  {
    hide ConvFtl.View, ConvFtl.Rep, ConvNamespace.PartIs, LineMgmt.Blank, ConvFtl.StatsOk, ConvFtl.Shape, Init;
    p := NewFtl(g, thres, mode);
    p.InitFtl();
    FreshPart(p, space);
  }

  // Nothing written yet.
  function Nothing(n: nat): (r: Hosts)
    ensures |r| == n && forall i :: 0 <= i < n ==> r[i] == map[]
  {
    seq(n, _ => map[])
  }

  lemma NothingReads(n: nat, lpn: nat)
    requires 0 < n
    ensures ReadAt(Nothing(n), lpn) == None
  {
    Stripe(lpn, n);
  }

  ghost predicate Apart(parts: seq<ConvFtl>) {
    forall i, j :: 0 <= i < |parts| && 0 <= j < |parts| && i != j ==> parts[i].FullRepr() !! parts[j].FullRepr()
  }

  // The partitions, one by one (conv_ftl.c:937-941).
  method NewParts(g: Geometry, thres: nat, mode: int, n: nat, ghost space: set<nat>)
    returns (parts: seq<ConvFtl>, ghost owned: set<object>)
    requires g.Valid() && ConfigOf(g, thres).Valid()
    ensures |parts| == n && fresh(owned) && Apart(parts)
    ensures forall j :: 0 <= j < n ==> parts[j].FullRepr() <= owned && parts[j].g == g && parts[j].thres == thres
    ensures forall j :: 0 <= j < n ==> ConvNamespace.PartIs(parts[j], map[], space, INT_MAX)
  {
    hide ConvFtl.View, ConvFtl.Rep, ConvFtl.Repr, ConvFtl.FullRepr;
    parts, owned := [], {};
    for i := 0 to n
      invariant |parts| == i && fresh(owned) && Apart(parts)
      invariant forall j :: 0 <= j < i ==> parts[j].FullRepr() <= owned && parts[j].g == g && parts[j].thres == thres
      invariant forall j :: 0 <= j < i ==> ConvNamespace.PartIs(parts[j], map[], space, INT_MAX)
    {
      var p := NewPart(g, thres, mode, space);
      OneMoreApart(parts, p, owned);
      owned := owned + p.FullRepr();
      parts := parts + [p];
    }
  }

  lemma OneMoreApart(parts: seq<ConvFtl>, p: ConvFtl, owned: set<object>)
    requires Apart(parts) && p.FullRepr() !! owned && forall j :: 0 <= j < |parts| ==> parts[j].FullRepr() <= owned
    ensures Apart(parts + [p])
  {
    hide ConvFtl.Repr, ConvFtl.FullRepr;
  }

  /** conv_init_namespace (conv_ftl.c:923-961): a namespace of fresh partitions, in which no LPN has
      any data. */
  method ConvInitNamespace(g: Geometry, thres: nat, mode: int, secsPerPg: nat, nrParts: nat, ghost space: set<nat>)
    returns (ns: ConvNamespace)
    requires g.Valid() && ConfigOf(g, thres).Valid() && 0 < secsPerPg && 0 < nrParts
    requires |space| <= Capacity(ConfigOf(g, thres)) && g.PgsPerLine() <= INT_MAX
    ensures ns.g == g && ns.thres == thres && ns.secsPerPg == secsPerPg && |ns.parts| == nrParts
    ensures fresh(ns) && fresh(ns.repr)
    ensures ns.Is(Nothing(nrParts), space, INT_MAX)
    ensures forall lpn: nat :: ReadAt(Nothing(nrParts), lpn) == None
  {
    hide ConvFtl.View, ConvFtl.Rep, ConvFtl.Repr, ConvFtl.FullRepr, Capacity;
    var parts;
    ghost var owned;
    parts, owned := NewParts(g, thres, mode, nrParts, space);
    ns := new ConvNamespace(g, thres, secsPerPg, parts, owned);
    forall lpn: nat ensures ReadAt(Nothing(nrParts), lpn) == None {
      NothingReads(nrParts, lpn);
    }
  }
}
