/**
 What the commands of ZnsZones mean for the host: which answer each one gives in which state, what it
 does to its zone, and that over any sequence of commands a zone is written in order, its write
 pointer behind the last LBA written since its last reset.
 */
module ZnsLaws {
  import opened Wrappers
  import opened Arith
  import opened ZnsZones

  // The zone before a command, and after it.
  function Before(p: Params, z: Zns, c: Command): Zone
    requires p.Valid() && Addressed(p, c) && |z.zones| == p.nr
  {
    z.zones[p.ZoneOf(c.slba)]
  }

  ghost function After(p: Params, z: Zns, c: Command): Zone
    requires Ok(p, z) && Addressed(p, c)
  {
    DoKeeps(p, z, c);
    Do(p, z, c).1.zones[p.ZoneOf(c.slba)]
  }

  function Answer(p: Params, z: Zns, c: Command): Status
    requires p.Valid() && Addressed(p, c) && |z.zones| == p.nr
  {
    Do(p, z, c).0
  }

  /** Close succeeds for an open or closed zone, which is closed then; finish and reset always succeed and
      leave a full and an empty zone; offline is refused, since no zone is read-only. */
  lemma ManagementAnswers(p: Params, z: Zns, slba: nat)
    requires Ok(p, z) && p.ZoneOf(slba) < p.nr
    ensures var c := ToClose(slba); var zone := Before(p, z, c);
            if zone.state in {OpenedImpl, OpenedExpl, Closed}
            then Answer(p, z, c) == Success && After(p, z, c) == zone.(state := Closed)
            else Answer(p, z, c) == InvalidTransition && After(p, z, c) == zone
    ensures var c := ToFinish(slba); var zone := Before(p, z, c);
            Answer(p, z, c) == Success && After(p, z, c) == zone.(state := IsFull)
    ensures var c := ToReset(slba); var zid := p.ZoneOf(slba);
            Answer(p, z, c) == Success && After(p, z, c) == Zone(Empty, zid * p.cap, false)
    ensures var c := ToOffline(slba);
            Answer(p, z, c) == InvalidTransition && After(p, z, c) == Before(p, z, c)
  {
    hide Quo;
    assert ZoneOk(p, p.ZoneOf(slba), z.zones[p.ZoneOf(slba)]);
  }

  /** Open is refused for a full zone, and for an empty one if a ZRWA is asked for and none is left;
      otherwise the zone is explicitly open, with a ZRWA if it was empty and that was asked for. */
  lemma OpenAnswers(p: Params, z: Zns, slba: nat, zrwa: bool)
    requires Ok(p, z) && p.ZoneOf(slba) < p.nr
    ensures var c := ToOpen(slba, zrwa); var zone := Before(p, z, c);
            && (zone.state == IsFull ==> Answer(p, z, c) == InvalidTransition && After(p, z, c) == zone)
            && (zone.state == Empty && zrwa && z.zrwaCnt == p.nr ==>
                  Answer(p, z, c) == ZrwaUnavailable && After(p, z, c) == zone)
            && (zone.state != IsFull && !(zone.state == Empty && zrwa && z.zrwaCnt == p.nr) ==>
                  && Answer(p, z, c) == Success
                  && After(p, z, c) == Zone(OpenedExpl, zone.wp, zone.zrwav || (zone.state == Empty && zrwa)))
  {
    hide Quo;
    CountersFit(p, z);
    assert ZoneOk(p, p.ZoneOf(slba), z.zones[p.ZoneOf(slba)]);
  }

  // An explicit flush that is done.
  predicate Flushes(p: Params, zid: nat, zone: Zone, slba: nat)
    requires p.Valid()
  {
    && zone.zrwav && zone.state in {OpenedImpl, OpenedExpl, Closed}
    && zone.wp <= slba < zone.wp + p.zrwa && slba < zid * p.cap + p.cap
    && p.fg > 0 && (slba + 1 - zone.wp) % p.fg == 0
  }

  /** An explicit flush succeeds for an active zone with a ZRWA, an LBA in it, and a whole number of flush
      granularities; then the write pointer is behind that LBA, and the zone full if that is its end. */
  lemma FlushAnswers(p: Params, z: Zns, slba: nat)
    requires Ok(p, z) && p.ZoneOf(slba) < p.nr
    ensures var c := ToFlush(slba); var zone := Before(p, z, c); var zid := p.ZoneOf(slba);
            && (Answer(p, z, c) == Success <==> Flushes(p, zid, zone, slba))
            && After(p, z, c) ==
               if Flushes(p, zid, zone, slba)
               then Zone(if slba + 1 == zid * p.cap + p.cap then IsFull else zone.state, slba + 1, true)
               else zone
  {
    hide Quo;
    assert ZoneOk(p, p.ZoneOf(slba), z.zones[p.ZoneOf(slba)]);
  }

  // A write to a zone without a ZRWA that is done.
  predicate Writes(p: Params, zid: nat, zone: Zone, slba: nat, n: nat, append: bool, room: bool)
    requires p.Valid()
  {
    && room && n % p.unit == 0 && zone.state != IsFull
    && (append || slba == zone.wp) && zone.wp + n <= zid * p.cap + p.cap
  }

  /** A write to a zone without a ZRWA succeeds if it is a whole number of write units, at the write
      pointer unless it is an append, and fits the zone, which is not full; then the write pointer is
      behind what was written, and the zone full if that is its end, or open. */
  lemma WriteAnswers(p: Params, z: Zns, slba: nat, n: nat, append: bool, room: bool)
    requires Ok(p, z) && p.ZoneOf(slba) < p.nr && 0 < n && !z.zones[p.ZoneOf(slba)].zrwav
    ensures var c := ToWrite(slba, n, append, room); var zone := Before(p, z, c); var zid := p.ZoneOf(slba);
            && (Answer(p, z, c) == Success <==> Writes(p, zid, zone, slba, n, append, room))
            && After(p, z, c) ==
               if Writes(p, zid, zone, slba, n, append, room)
               then Zone(if zone.wp + n == zid * p.cap + p.cap then IsFull
                         else if zone.state in {Empty, Closed} then OpenedImpl else zone.state, zone.wp + n, false)
               else zone
  {
    hide Quo, InOneZone;
    var zid := p.ZoneOf(slba);
    var zone := z.zones[zid];
    CountersFit(p, z);
    assert ZoneOk(p, zid, zone);
    InZone(p, slba);
    OneZoneIs(p, if append then zone.wp else slba, n);
    if zone.state != IsFull {
      WrittenZone(p, zid, zone.wp);
    }
  }

  /** The refusals of such a write, in the order in which they are found. */
  lemma WriteRefusals(p: Params, z: Zns, slba: nat, n: nat, append: bool, room: bool)
    requires Ok(p, z) && p.ZoneOf(slba) < p.nr && 0 < n && !z.zones[p.ZoneOf(slba)].zrwav
    ensures var c := ToWrite(slba, n, append, room); var zone := Before(p, z, c);
            var at := if append then zone.wp else slba;
            Answer(p, z, c) ==
            if !room then Retry
            else if n % p.unit != 0 then InvalidWrite
            else if at + n > p.ZoneOf(at) * p.cap + p.cap then BoundaryError
            else if at != zone.wp then InvalidWrite
            else if zone.state == IsFull then ZoneFull
            else Success
  {
    hide Quo, InOneZone;
    var zone := z.zones[p.ZoneOf(slba)];
    CountersFit(p, z);
    assert ZoneOk(p, p.ZoneOf(slba), zone);
    OneZoneIs(p, if append then zone.wp else slba, n);
  }

  // A write to a ZRWA that is done: it leaves the ZRWA by no more than its size.
  predicate WritesZrwa(p: Params, zid: nat, zone: Zone, slba: nat, n: nat, room: bool)
    requires p.Valid()
  {
    && n % p.unit == 0 && zone.state in {OpenedImpl, OpenedExpl, Closed}
    && zone.wp <= slba && slba + n <= zid * p.cap + p.cap && slba + n <= zone.wp + 2 * p.zrwa
    && (slba + n > zone.wp + p.zrwa ==> p.fg > 0 && room)
    && (slba + n == zid * p.cap + p.cap ==> room)
  }

  /** A write to a ZRWA moves the write pointer by the least number of flush granularities that leaves the
      write within the ZRWA, or to the zone's end if it ends there within the ZRWA, which fills the
      zone; otherwise not at all. */
  lemma ZrwaAnswers(p: Params, z: Zns, slba: nat, n: nat, append: bool, room: bool)
    requires Ok(p, z) && p.ZoneOf(slba) < p.nr && 0 < n && z.zones[p.ZoneOf(slba)].zrwav
    ensures var c := ToWrite(slba, n, append, room); var zone := Before(p, z, c); var zid := p.ZoneOf(slba);
            var t := After(p, z, c);
            && (Answer(p, z, c) == Success <==> WritesZrwa(p, zid, zone, slba, n, room))
            && t.zrwav
            && (!WritesZrwa(p, zid, zone, slba, n, room) ==>
                  && t.wp == zone.wp
                  && (Answer(p, z, c) != Retry && Answer(p, z, c) != DivideByZero ==> t == zone))
            && (WritesZrwa(p, zid, zone, slba, n, room) ==>
                  && (slba + n <= zone.wp + p.zrwa ==>
                        t.wp == if slba + n == zid * p.cap + p.cap then slba + n else zone.wp)
                  && (slba + n > zone.wp + p.zrwa ==>
                        && zone.wp < t.wp && (t.wp - zone.wp) % p.fg == 0
                        && slba + n <= t.wp + p.zrwa < slba + n + p.fg)
                  && t.state == if t.wp == zid * p.cap + p.cap then IsFull
                                else if zone.state == Closed then OpenedImpl else zone.state)
  {
    hide Quo, InOneZone, ImplicitFlush;
    var zid := p.ZoneOf(slba);
    var zone := z.zones[zid];
    CountersFit(p, z);
    assert ZoneOk(p, zid, zone);
    InZone(p, slba);
    OneZoneIs(p, slba, n);
    if zone.wp <= slba && slba + n <= zid * p.cap + p.cap {
      FlushWithin(p, zid, zone.wp, slba + n - 1);
      FlushedIs(p, zid, zone.wp, slba + n - 1);
    }
  }

  lemma FlushedIs(p: Params, zid: nat, wp: nat, elba: nat)
    requires p.Valid() && wp <= elba < p.End(zid)
    ensures ImplicitFlush(p, zid, wp, elba).Some? ==>
              var flush := ImplicitFlush(p, zid, wp, elba).value;
              if elba >= wp + p.zrwa then
                0 < flush && p.fg > 0 && flush % p.fg == 0 && elba + 1 <= wp + flush + p.zrwa < elba + 1 + p.fg
              else flush == if elba + 1 == p.End(zid) then elba + 1 - wp else 0
  {
    if elba >= wp + p.zrwa && p.fg > 0 {
      var x := elba - (wp + p.zrwa) + 1 + p.fg - 1;
      PartsMix(x, p.fg);
      WholeFlush(Quo(x, p.fg), p.fg);
    }
  }

  lemma WholeFlush(k: nat, m: nat)
    requires 0 < m
    ensures (k * m) % m == 0
  {
    hide Quo, Rem;
    PartsAre(k * m, m);
    MixIs(k, m, 0);
    MixParts(k, m, 0);
  }

  // ----- what is written, in order -----

  function From(a: nat, b: nat): (r: seq<nat>)
    ensures |r| == (if a <= b then b - a else 0) && forall i :: 0 <= i < |r| ==> r[i] == a + i
  {
    if a <= b then seq(b - a, i requires 0 <= i < b - a => a + i) else []
  }

  // The least multiple of m that is at least x.
  function RoundUp(x: int, m: nat): (r: nat)
    requires 0 < m
    ensures x <= r
    decreases if x > 0 then x else 0
  {
    if x <= 0 then 0 else m + RoundUp(x - m, m)
  }

  // The first LBA that stays in the ZRWA after a write up to `end`, from the write pointer wp.
  function Committed(p: Params, zid: nat, wp: nat, end: nat): nat {
    if end > wp + p.zrwa && p.fg > 0 then wp + RoundUp(end - p.zrwa - wp, p.fg)
    else if end == p.End(zid) then end
    else wp
  }

  // The LBAs written in zone zid, after one more command that succeeded for it: those that the host, or for
  // an append the end of what was written before, gives, and with a ZRWA those that left it.
  function Extended(p: Params, zid: nat, pre: seq<nat>, c: Command, zrwa: bool): seq<nat> {
    var end := p.Start(zid) + |pre|;
    match c
    case ToReset(_) => []
    case ToFlush(slba) => pre + From(end, slba + 1)
    case ToWrite(slba, n, append, _) =>
      if zrwa then pre + From(end, Committed(p, zid, end, slba + n))
      else if append then pre + From(end, end + n)
      else pre + From(slba, slba + n)
    case _ => pre
  }

  /** The LBAs of a zone written since its last reset, in the order in which the successful commands
      wrote them. */
  ghost function Written(p: Params, cs: seq<Command>, zid: nat): seq<nat>
    requires p.Valid() && forall i :: 0 <= i < |cs| ==> Addressed(p, cs[i])
  {
    if cs == [] then []
    else
      var n := |cs| - 1;
      var c, z, pre := cs[n], Run(p, cs[..n]), Written(p, cs[..n], zid);
      if p.ZoneOf(c.slba) == zid && Answer(p, z, c) == Success
      then Extended(p, zid, pre, c, Before(p, z, c).zrwav)
      else pre
  }

  lemma {:induction false} RoundUpIs(x: int, m: nat, k: nat)
    requires 0 < m && x <= k * m < x + m
    ensures RoundUp(x, m) == k * m
    decreases k
  {
    if k > 0 {
      Distribute(k - 1, 1, m);
      MulMono(0, k - 1, m);
      RoundUpIs(x - m, m, k - 1);
    }
  }

  // Where the write pointer at wp goes with a command that succeeds.
  predicate Moves(p: Params, zid: nat, c: Command, zrwa: bool, wp: nat, t: nat) {
    match c
    case ToReset(_) => t == p.Start(zid)
    case ToFlush(slba) => wp <= slba && t == slba + 1
    case ToWrite(slba, n, append, _) =>
      if zrwa then wp <= t && t == Committed(p, zid, wp, slba + n)
      else t == wp + n && (append || slba == wp)
    case _ => t == wp
  }

  lemma PointerMoves(p: Params, z: Zns, c: Command)
    requires Ok(p, z) && Addressed(p, c)
    ensures var wp, t := Before(p, z, c).wp, After(p, z, c).wp;
            if Answer(p, z, c) == Success then Moves(p, p.ZoneOf(c.slba), c, Before(p, z, c).zrwav, wp, t) else t == wp
  {
    hide Quo, Do, Ok, After;
    Sizes(p, z);
    match c {
      case ToOpen(slba, zrwa) => OpenAnswers(p, z, slba, zrwa);
      case ToFlush(slba) => FlushAnswers(p, z, slba);
      case ToWrite(slba, n, append, room) =>
        if Before(p, z, c).zrwav {
          ZrwaAnswers(p, z, slba, n, append, room);
          if Answer(p, z, c) == Success {
            ZrwaMoves(p, z, slba, n, append, room);
          }
        } else {
          WriteAnswers(p, z, slba, n, append, room);
        }
      case ToClose(slba) => ManagementAnswers(p, z, slba);
      case ToFinish(slba) => ManagementAnswers(p, z, slba);
      case ToReset(slba) => ManagementAnswers(p, z, slba);
      case ToOffline(slba) => ManagementAnswers(p, z, slba);
    }
  }

  lemma ZrwaMoves(p: Params, z: Zns, slba: nat, n: nat, append: bool, room: bool)
    requires Ok(p, z) && p.ZoneOf(slba) < p.nr && 0 < n && z.zones[p.ZoneOf(slba)].zrwav
    requires Answer(p, z, ToWrite(slba, n, append, room)) == Success
    ensures var c := ToWrite(slba, n, append, room); var wp := Before(p, z, c).wp;
            wp <= After(p, z, c).wp == Committed(p, p.ZoneOf(slba), wp, slba + n)
  {
    hide Quo, Do, Ok, After, RoundUp;
    ZrwaAnswers(p, z, slba, n, append, room);
    Sizes(p, z);
    var c := ToWrite(slba, n, append, room);
    var wp, t := Before(p, z, c).wp, After(p, z, c).wp;
    if slba + n > wp + p.zrwa {
      PartsAre(t - wp, p.fg);
      PartsMix(t - wp, p.fg);
      RoundUpIs(slba + n - p.zrwa - wp, p.fg, Quo(t - wp, p.fg));
    }
  }

  /** After any sequence of commands the LBAs of a zone from its start to its write pointer have been
      written, each once and in order, and no others since its last reset. */
  lemma {:induction false} WrittenInOrder(p: Params, cs: seq<Command>, zid: nat)
    requires p.Valid() && (forall i :: 0 <= i < |cs| ==> Addressed(p, cs[i])) && zid < p.nr
    ensures |Run(p, cs).zones| == p.nr
    ensures Written(p, cs, zid) == From(p.Start(zid), Run(p, cs).zones[zid].wp)
    ensures p.Start(zid) <= Run(p, cs).zones[zid].wp <= p.End(zid)
  {
    hide Quo, Do, Before, Answer, Extended;
    if cs != [] {
      var n := |cs| - 1;
      WrittenInOrder(p, cs[..n], zid);
      OneMoreCommand(p, cs, zid);
    }
    assert ZoneOk(p, zid, Run(p, cs).zones[zid]);
  }

  lemma OneMoreCommand(p: Params, cs: seq<Command>, zid: nat)
    requires p.Valid() && (forall i :: 0 <= i < |cs| ==> Addressed(p, cs[i])) && zid < p.nr && cs != []
    requires |Run(p, cs[..|cs| - 1]).zones| == p.nr
    requires var wp := Run(p, cs[..|cs| - 1]).zones[zid].wp;
             p.Start(zid) <= wp && Written(p, cs[..|cs| - 1], zid) == From(p.Start(zid), wp)
    ensures |Run(p, cs).zones| == p.nr && Written(p, cs, zid) == From(p.Start(zid), Run(p, cs).zones[zid].wp)
  {
    hide Quo, Do, Ok, Run, After, Before, Answer, From, Moves, Extended;
    var n := |cs| - 1;
    var z, c := Run(p, cs[..n]), cs[n];
    RunStep(p, cs, zid);
    PointerMoves(p, z, c);
    if p.ZoneOf(c.slba) == zid && Answer(p, z, c) == Success {
      ExtendedIs(p, zid, c, Before(p, z, c).zrwav, z.zones[zid].wp, After(p, z, c).wp);
    }
  }

  lemma ExtendedIs(p: Params, zid: nat, c: Command, zrwa: bool, wp: nat, t: nat)
    requires p.Start(zid) <= wp && Moves(p, zid, c, zrwa, wp, t)
    ensures Extended(p, zid, From(p.Start(zid), wp), c, zrwa) == From(p.Start(zid), t)
  {
    hide From, Committed;
    Joined(p.Start(zid), wp, t);
  }

  lemma RunStep(p: Params, cs: seq<Command>, zid: nat)
    requires p.Valid() && (forall i :: 0 <= i < |cs| ==> Addressed(p, cs[i])) && zid < p.nr && cs != []
    ensures var z, c := Run(p, cs[..|cs| - 1]), cs[|cs| - 1];
            && Ok(p, z) && |z.zones| == |Run(p, cs).zones| == p.nr
            && (p.ZoneOf(c.slba) == zid ==>
                  Before(p, z, c) == z.zones[zid] && Run(p, cs).zones[zid] == After(p, z, c))
            && (p.ZoneOf(c.slba) != zid ==> Run(p, cs).zones[zid] == z.zones[zid])
  {
    hide Quo, Do;
    OneZone(p, Run(p, cs[..|cs| - 1]), cs[|cs| - 1]);
  }

  lemma Joined(a: nat, b: nat, e: nat)
    requires a <= b
    ensures |From(a, b)| == b - a && From(a, a) == []
    ensures b <= e ==> From(a, b) + From(b, e) == From(a, e)
  {
  }
}
