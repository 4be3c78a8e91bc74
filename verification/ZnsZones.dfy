/**
 The zone state machine (zns_mgmt_send.c, zns_read_write.c, zns_ftl.h), which implements the state
 machine and the zone resources of the Zoned Namespace Command Set Specification 1.1a: commands as
 functions, and what every sequence of them keeps.
 */
module ZnsZones {
  import opened Wrappers
  import opened Arith

  datatype ZoneState = Empty | OpenedImpl | OpenedExpl | Closed | IsFull | ReadOnly | Offline

  datatype Zone = Zone(state: ZoneState, wp: nat, zrwav: bool)

  // A number of zones of `cap` LBAs each; lbas_per_zrwa, lbas_per_zrwafg, and the write unit in LBAs.
  datatype Params = Params(nr: nat, cap: nat, zrwa: nat, fg: nat, unit: nat) {
    // The flush granularity divides out of a write resource area at least as large, if there is one.
    predicate Valid() { 0 < cap && 0 < unit && fg <= zrwa }

    function Start(zid: nat): nat { zid * cap }

    function End(zid: nat): nat { zid * cap + cap }

    function ZoneOf(lba: nat): nat
      requires cap > 0
    {
      Quo(lba, cap)
    }
  }

  // The descriptors and the acquired counts of the resources; every total count is the number of
  // zones (zns_ftl.c:64-82).
  datatype Zns = Zns(zones: seq<Zone>, open: int, active: int, zrwaCnt: int)

  datatype Status = Success | InvalidTransition | NoActiveZone | NoOpenZone | ZrwaUnavailable
                  | InvalidZoneOperation | InvalidField | InvalidWrite | BoundaryError | ZoneFull
                  | ZoneReadOnly | ZoneOffline
                  | Retry       // the dispatcher tries the command again
                  | DivideByZero

  predicate IsOpen(z: Zone) { z.state == OpenedImpl || z.state == OpenedExpl }

  predicate IsActive(z: Zone) { IsOpen(z) || z.state == Closed }

  // ----- the commands -----

  // change_zone_state and the fields that go with it.
  function SetZone(z: Zns, zid: nat, zone: Zone): Zns
    requires zid < |z.zones|
  {
    z.(zones := z.zones[zid := zone])
  }

  // __zmgmt_send_close_zone (zns_mgmt_send.c:7-29).
  function CloseZone(z: Zns, zid: nat): (Status, Zns)
    requires zid < |z.zones|
  {
    var zone := z.zones[zid];
    match zone.state
    case OpenedImpl | OpenedExpl => (Success, SetZone(z, zid, zone.(state := Closed)).(open := z.open - 1))
    case Closed => (Success, z)
    case _ => (InvalidTransition, z)
  }

  // The resources that an active zone gives up (zns_mgmt_send.c:39-47, 134-142).
  function Release(z: Zns, zone: Zone): Zns {
    z.(open := if IsOpen(zone) then z.open - 1 else z.open,
       active := if IsActive(zone) then z.active - 1 else z.active,
       zrwaCnt := if IsActive(zone) && zone.zrwav then z.zrwaCnt - 1 else z.zrwaCnt)
  }

  // __zmgmt_send_finish_zone (zns_mgmt_send.c:31-64).
  function FinishZone(z: Zns, zid: nat): (Status, Zns)
    requires zid < |z.zones|
  {
    var zone := z.zones[zid];
    match zone.state
    case ReadOnly | Offline => (InvalidTransition, z)
    case _ => (Success, SetZone(Release(z, zone), zid, zone.(state := IsFull)))
  }

  // __zmgmt_send_open_zone (zns_mgmt_send.c:66-106).
  function OpenZone(p: Params, z: Zns, zid: nat, zrwa: bool): (Status, Zns)
    requires zid < |z.zones|
  {
    var zone := z.zones[zid];
    match zone.state
    case Empty =>
      if z.active == p.nr then (NoActiveZone, z)
      else if z.open == p.nr then (NoOpenZone, z)
      else if zrwa && z.zrwaCnt == p.nr then (ZrwaUnavailable, z)
      else
        (Success, SetZone(z, zid, zone.(state := OpenedExpl, zrwav := zone.zrwav || zrwa))
                  .(open := z.open + 1, active := z.active + 1, zrwaCnt := if zrwa then z.zrwaCnt + 1 else z.zrwaCnt))
    case Closed =>
      if z.open >= p.nr then (NoOpenZone, z)
      else (Success, SetZone(z, zid, zone.(state := OpenedExpl)).(open := z.open + 1))
    case OpenedImpl => (Success, SetZone(z, zid, zone.(state := OpenedExpl)))
    case OpenedExpl => (Success, z)
    case _ => (InvalidTransition, z)
  }

  // __zmgmt_send_reset_zone and __reset_zone (zns_mgmt_send.c:108-156).
  function ResetZone(p: Params, z: Zns, zid: nat): (Status, Zns)
    requires zid < |z.zones|
  {
    var zone := z.zones[zid];
    match zone.state
    case ReadOnly | Offline => (InvalidTransition, z)
    case _ => (Success, SetZone(Release(z, zone), zid, Zone(Empty, p.Start(zid), false)))
  }

  // __zmgmt_send_offline_zone (zns_mgmt_send.c:158-175).
  function OfflineZone(z: Zns, zid: nat): (Status, Zns)
    requires zid < |z.zones|
  {
    match z.zones[zid].state
    case ReadOnly => (Success, SetZone(z, zid, z.zones[zid].(state := Offline)))
    case Offline => (Success, z)
    case _ => (InvalidTransition, z)
  }

  // The last LBA of the write resource area, in 64 bits (zns_mgmt_send.c:189-191).
  function ZrwaEnd(p: Params, zid: nat, wp: nat): nat
    requires 0 < p.cap
  {
    if 0 < wp + p.zrwa <= p.End(zid) then wp + p.zrwa - 1 else p.End(zid) - 1
  }

  // __zmgmt_send_flush_explicit_zrwa (zns_mgmt_send.c:177-228).
  function FlushExplicit(p: Params, z: Zns, slba: nat): (Status, Zns)
    requires p.Valid() && p.ZoneOf(slba) < |z.zones|
  {
    var zid := p.ZoneOf(slba);
    var zone := z.zones[zid];
    if !zone.zrwav then (InvalidZoneOperation, z)
    else if !(zone.wp <= slba <= ZrwaEnd(p, zid, zone.wp)) then (InvalidZoneOperation, z)
    else if p.fg == 0 then (DivideByZero, z)
    else if (slba - zone.wp + 1) % p.fg != 0 then (InvalidField, z)
    else if !IsActive(zone) then (InvalidZoneOperation, z)
    else if slba + 1 == p.End(zid) then
      (Success, SetZone(Release(z, zone), zid, zone.(wp := slba + 1, state := IsFull)))
    else (Success, SetZone(z, zid, zone.(wp := slba + 1)))
  }

  // __increase_write_ptr for an opened zone (zns_read_write.c:17-39). It gives up the open and the
  // active resource of a zone it fills, but not its ZRWA.
  function IncreaseWp(p: Params, z: Zns, zid: nat, n: nat): Zns
    requires zid < |z.zones|
  {
    var zone := z.zones[zid];
    if zone.wp + n == p.End(zid) then
      SetZone(z, zid, zone.(wp := zone.wp + n, state := IsFull)).(open := z.open - 1, active := z.active - 1)
    else SetZone(z, zid, zone.(wp := zone.wp + n))
  }

  // __check_boundary_error (zns_read_write.c:12-15): true if the write stays in one zone.
  predicate InOneZone(p: Params, slba: nat, n: nat)
    requires p.cap > 0 && n > 0
  {
    p.ZoneOf(slba) == p.ZoneOf(slba + n - 1)
  }

  // __zns_write up to the NAND model (zns_read_write.c:64-170); `append` is a zone append, which
  // writes at the write pointer, and `buffered` says that the write buffer had room.
  function Write(p: Params, z: Zns, slba: nat, n: nat, append: bool, buffered: bool): (Status, Zns)
    requires p.Valid() && 0 < n && p.ZoneOf(slba) < |z.zones|
  {
    var zid := p.ZoneOf(slba);
    var zone := z.zones[zid];
    var at := if append then zone.wp else slba;
    if !buffered then (Retry, z)
    else if n % p.unit != 0 then (InvalidWrite, z)
    else if !InOneZone(p, at, n) then (BoundaryError, z)
    else if at != zone.wp then (InvalidWrite, z)
    else match zone.state
      case Empty =>
        if at != p.Start(zid) then (InvalidWrite, z)
        else if z.active == p.nr then (NoActiveZone, z)
        else if z.open == p.nr then (NoOpenZone, z)
        else (Success, IncreaseWp(p,
                                 SetZone(z, zid, zone.(state := OpenedImpl))
                                   .(open := z.open + 1, active := z.active + 1), zid, n))
      case Closed =>
        if z.open >= p.nr then (NoOpenZone, z)
        else (Success, IncreaseWp(p, SetZone(z, zid, zone.(state := OpenedImpl)).(open := z.open + 1), zid, n))
      case OpenedImpl | OpenedExpl => (Success, IncreaseWp(p, z, zid, n))
      case IsFull => (ZoneFull, z)
      case ReadOnly => (ZoneReadOnly, z)
      case Offline => (ZoneOffline, z)
  }

  // How many LBAs a write to the ZRWA flushes implicitly (zns_read_write.c:315-329); None when it
  // divides by zero.
  function ImplicitFlush(p: Params, zid: nat, wp: nat, elba: nat): Option<nat>
    requires p.Valid()
  {
    if elba >= wp + p.zrwa then
      if p.fg == 0 then None else Some(Quo(elba - (wp + p.zrwa) + 1 + p.fg - 1, p.fg) * p.fg)
    else if elba + 1 == p.End(zid) && wp <= elba then Some(elba - wp + 1)
    else Some(0)
  }

  // __zns_write_zrwa up to the NAND model (zns_read_write.c:225-336); flushed says that the ZRWA
  // buffer had room for what is flushed.
  function WriteZrwa(p: Params, z: Zns, slba: nat, n: nat, flushed: bool): (Status, Zns)
    requires p.Valid() && 0 < n && p.ZoneOf(slba) < |z.zones|
  {
    var zid := p.ZoneOf(slba);
    var zone := z.zones[zid];
    var elba := slba + n - 1;
    if n % p.unit != 0 then (InvalidWrite, z)
    else if !InOneZone(p, slba, n) then (BoundaryError, z)
    else if slba < zone.wp || (0 < zone.wp + 2 * p.zrwa <= elba) then (InvalidWrite, z)
    else match zone.state
      case IsFull => (ZoneFull, z)
      case ReadOnly => (ZoneReadOnly, z)
      case Offline => (ZoneOffline, z)
      case Closed | Empty =>
        if z.open >= p.nr then (NoOpenZone, z)
        else FlushImplicit(p, SetZone(z, zid, zone.(state := OpenedImpl)).(open := z.open + 1), zid, elba, flushed)
      case _ => FlushImplicit(p, z, zid, elba, flushed)
  }

  function FlushImplicit(p: Params, z: Zns, zid: nat, elba: nat, flushed: bool): (Status, Zns)
    requires p.Valid() && zid < |z.zones|
  {
    match ImplicitFlush(p, zid, z.zones[zid].wp, elba)
    case None => (DivideByZero, z)
    case Some(flush) =>
      if flush == 0 then (Success, z)
      else if !flushed then (Retry, z)
      else (Success, IncreaseWp(p, z, zid, flush))
  }

  // zns_write (zns_read_write.c:382-398).
  function WriteZone(p: Params, z: Zns, slba: nat, n: nat, append: bool, room: bool): (Status, Zns)
    requires p.Valid() && 0 < n && p.ZoneOf(slba) < |z.zones|
  {
    if z.zones[p.ZoneOf(slba)].zrwav then WriteZrwa(p, z, slba, n, room) else Write(p, z, slba, n, append, room)
  }

  // ----- what holds between commands -----

  // An empty zone has nothing written and no ZRWA; an active one has room left; no zone is read-only
  // or offline.
  predicate ZoneOk(p: Params, zid: nat, zone: Zone) {
    && p.Start(zid) <= zone.wp <= p.End(zid)
    && (zone.state == Empty ==> zone.wp == p.Start(zid) && !zone.zrwav)
    && (IsActive(zone) ==> zone.wp < p.End(zid))
    && zone.state != ReadOnly && zone.state != Offline
  }

  function CountOpen(zones: seq<Zone>): nat {
    if zones == [] then 0
    else CountOpen(zones[..|zones| - 1]) + if IsOpen(zones[|zones| - 1]) then 1 else 0
  }

  function CountActive(zones: seq<Zone>): nat {
    if zones == [] then 0
    else CountActive(zones[..|zones| - 1]) + if IsActive(zones[|zones| - 1]) then 1 else 0
  }

  /** The counters count the opened zones and the active ones. */
  ghost predicate Ok(p: Params, z: Zns) {
    && p.Valid() && |z.zones| == p.nr
    && z.open == CountOpen(z.zones) && z.active == CountActive(z.zones)
    && (forall i :: 0 <= i < p.nr ==> ZoneOk(p, i, z.zones[i]))
  }

  lemma {:induction false} CountsBound(zones: seq<Zone>)
    ensures CountOpen(zones) <= CountActive(zones) <= |zones|
  {
    if zones != [] {
      CountsBound(zones[..|zones| - 1]);
    }
  }

  lemma {:induction false} CountsPositive(zones: seq<Zone>, i: nat)
    requires i < |zones|
    ensures IsOpen(zones[i]) ==> CountOpen(zones) > 0
    ensures IsActive(zones[i]) ==> CountActive(zones) > 0
    ensures !IsOpen(zones[i]) ==> CountOpen(zones) < |zones|
    ensures !IsActive(zones[i]) ==> CountActive(zones) < |zones|
  {
    CountsBound(zones[..|zones| - 1]);
    if i < |zones| - 1 {
      CountsPositive(zones[..|zones| - 1], i);
    }
  }

  function OpenBit(z: Zone): nat { if IsOpen(z) then 1 else 0 }

  function ActiveBit(z: Zone): nat { if IsActive(z) then 1 else 0 }

  lemma {:induction false} CountsUpdate(zones: seq<Zone>, i: nat, zone: Zone)
    requires i < |zones|
    ensures CountOpen(zones[i := zone]) == CountOpen(zones) - OpenBit(zones[i]) + OpenBit(zone)
    ensures CountActive(zones[i := zone]) == CountActive(zones) - ActiveBit(zones[i]) + ActiveBit(zone)
  {
    var n := |zones| - 1;
    if i < n {
      CountsUpdate(zones[..n], i, zone);
      assert zones[i := zone][..n] == zones[..n][i := zone];
    } else {
      assert zones[i := zone][..n] == zones[..n];
    }
  }

  // A zone changed, and the counters with it.
  lemma ChangeKeeps(p: Params, z: Zns, zid: nat, zone: Zone, t: Zns)
    requires Ok(p, z) && zid < p.nr && ZoneOk(p, zid, zone) && t.zones == z.zones[zid := zone]
    requires t.open == z.open - OpenBit(z.zones[zid]) + OpenBit(zone)
    requires t.active == z.active - ActiveBit(z.zones[zid]) + ActiveBit(zone)
    ensures Ok(p, t)
  {
    CountsUpdate(z.zones, zid, zone);
  }

  /** Both counters stay within the total, so acquiring never fails for a zone that is not open, and
      releasing never goes below zero (zns_ftl.h:63-78). */
  lemma CountersFit(p: Params, z: Zns)
    requires Ok(p, z)
    ensures 0 <= z.open <= z.active <= p.nr
    ensures forall i :: 0 <= i < p.nr && IsOpen(z.zones[i]) ==> 0 < z.open
    ensures forall i :: 0 <= i < p.nr && IsActive(z.zones[i]) ==> 0 < z.active
    ensures forall i :: 0 <= i < p.nr && !IsOpen(z.zones[i]) ==> z.open < p.nr
    ensures forall i :: 0 <= i < p.nr && !IsActive(z.zones[i]) ==> z.active < p.nr
  {
    CountsBound(z.zones);
    forall i | 0 <= i < p.nr
      ensures IsOpen(z.zones[i]) ==> 0 < z.open
      ensures IsActive(z.zones[i]) ==> 0 < z.active
      ensures !IsOpen(z.zones[i]) ==> z.open < p.nr
      ensures !IsActive(z.zones[i]) ==> z.active < p.nr
    {
      CountsPositive(z.zones, i);
    }
  }

  lemma ManagementKeeps(p: Params, z: Zns, zid: nat, zrwa: bool)
    requires Ok(p, z) && zid < p.nr
    ensures Ok(p, CloseZone(z, zid).1) && Ok(p, FinishZone(z, zid).1) && Ok(p, OpenZone(p, z, zid, zrwa).1)
    ensures Ok(p, ResetZone(p, z, zid).1) && Ok(p, OfflineZone(z, zid).1)
  {
    var zone := z.zones[zid];
    assert ZoneOk(p, zid, zone);
    if IsOpen(zone) {
      ChangeKeeps(p, z, zid, zone.(state := Closed), CloseZone(z, zid).1);
    }
    ChangeKeeps(p, z, zid, zone.(state := IsFull), FinishZone(z, zid).1);
    ChangeKeeps(p, z, zid, Zone(Empty, p.Start(zid), false), ResetZone(p, z, zid).1);
    var t := OpenZone(p, z, zid, zrwa).1;
    if t != z {
      ChangeKeeps(p, z, zid, t.zones[zid], t);
    }
  }

  lemma FlushKeeps(p: Params, z: Zns, slba: nat)
    requires Ok(p, z) && p.ZoneOf(slba) < p.nr
    ensures Ok(p, FlushExplicit(p, z, slba).1)
  {
    hide Quo;
    var zid := p.ZoneOf(slba);
    var zone, t := z.zones[zid], FlushExplicit(p, z, slba).1;
    assert ZoneOk(p, zid, zone);
    if t != z {
      ChangeKeeps(p, z, zid, t.zones[zid], t);
    }
  }

  // Advancing the write pointer of an opened zone no further than its end.
  lemma IncreaseKeeps(p: Params, z: Zns, zid: nat, n: nat)
    requires Ok(p, z) && zid < p.nr && IsOpen(z.zones[zid]) && z.zones[zid].wp + n <= p.End(zid)
    ensures Ok(p, IncreaseWp(p, z, zid, n))
  {
    assert ZoneOk(p, zid, z.zones[zid]);
    var t := IncreaseWp(p, z, zid, n);
    ChangeKeeps(p, z, zid, t.zones[zid], t);
  }

  // An LBA lies between the ends of its zone.
  lemma InZone(p: Params, lba: nat)
    requires 0 < p.cap
    ensures p.Start(p.ZoneOf(lba)) <= lba < p.End(p.ZoneOf(lba))
  {
    PartsMix(lba, p.cap);
  }

  /** zns_write finds the same zone by page that the write functions find by LBA, as zones are whole
      pages (zns_ftl.h:89-107, zns_ftl.c:103). */
  lemma ZoneOfPage(p: Params, lba: nat, secsPerPg: nat, pgsPerZone: nat)
    requires 0 < secsPerPg && 0 < pgsPerZone && p.cap == pgsPerZone * secsPerPg
    ensures 0 < p.cap && Quo(Quo(lba, secsPerPg), pgsPerZone) == p.ZoneOf(lba)
  {
    QuoQuo(lba, secsPerPg, pgsPerZone);
  }

  // A zone that a write has to open, and the counts afterwards.
  function Opening(z: Zns, zid: nat): Zns
    requires zid < |z.zones|
  {
    var zone := z.zones[zid];
    SetZone(z, zid, zone.(state := OpenedImpl)).(open := z.open + 1, active := z.active + 1 - ActiveBit(zone))
  }

  // A zone opened implicitly.
  lemma OpenKeeps(p: Params, z: Zns, zid: nat)
    requires Ok(p, z) && zid < p.nr && !IsOpen(z.zones[zid]) && z.zones[zid].wp < p.End(zid)
    requires z.zones[zid].state == Empty || z.zones[zid].state == Closed
    ensures Ok(p, Opening(z, zid))
  {
    assert ZoneOk(p, zid, z.zones[zid]);
    ChangeKeeps(p, z, zid, z.zones[zid].(state := OpenedImpl), Opening(z, zid));
  }

  // A write that succeeds opens its zone if it has to, and then advances its write pointer.
  lemma WriteIs(p: Params, z: Zns, slba: nat, n: nat, append: bool, buffered: bool)
    requires p.Valid() && |z.zones| == p.nr && 0 < n && p.ZoneOf(slba) < p.nr
    ensures var zid := p.ZoneOf(slba);
            var zone, r := z.zones[zid], Write(p, z, slba, n, append, buffered);
            if r.0 == Success
            then InOneZone(p, if append then zone.wp else slba, n) && (append || zone.wp == slba)
                 && r.1 == IncreaseWp(p, if IsOpen(zone) then z else Opening(z, zid), zid, n)
                 && (IsOpen(zone) || zone.state == Empty || zone.state == Closed)
            else r.1 == z
  {
    hide Quo;
  }

  lemma WriteKeeps(p: Params, z: Zns, slba: nat, n: nat, append: bool, buffered: bool)
    requires Ok(p, z) && 0 < n && p.ZoneOf(slba) < p.nr
    ensures Ok(p, Write(p, z, slba, n, append, buffered).1)
  {
    hide Quo, Write;
    var zid := p.ZoneOf(slba);
    var zone, r := z.zones[zid], Write(p, z, slba, n, append, buffered);
    assert ZoneOk(p, zid, zone);
    WriteIs(p, z, slba, n, append, buffered);
    if r.0 == Success {
      InZone(p, zone.wp + n - 1);
      WrittenZone(p, zid, zone.wp);
      if IsOpen(zone) {
        IncreaseKeeps(p, z, zid, n);
      } else {
        OpenKeeps(p, z, zid);
        IncreaseKeeps(p, Opening(z, zid), zid, n);
      }
    }
  }

  // The LBAs from a zone's start to its end are in it.
  lemma WrittenZone(p: Params, zid: nat, lba: nat)
    requires 0 < p.cap && p.Start(zid) <= lba < p.End(zid)
    ensures p.ZoneOf(lba) == zid
  {
    MixIs(zid, p.cap, lba - p.Start(zid));
    MixParts(zid, p.cap, lba - p.Start(zid));
  }

  /** What is flushed implicitly never reaches past the write, and reaches the zone's end exactly if the
      write does so without leaving the ZRWA; the case that fills a zone by more than its end
      (zns_read_write.c:36-38) is dead. */
  lemma FlushWithin(p: Params, zid: nat, wp: nat, elba: nat)
    requires p.Valid() && wp <= elba < p.End(zid)
    ensures ImplicitFlush(p, zid, wp, elba).Some? ==>
              var flush := ImplicitFlush(p, zid, wp, elba).value;
              && wp + flush <= elba + 1
              && (wp + flush == p.End(zid) <==> elba + 1 == p.End(zid) && elba < wp + p.zrwa)
    ensures ImplicitFlush(p, zid, wp, elba).None? <==> p.fg == 0 && elba >= wp + p.zrwa
  {
    if elba >= wp + p.zrwa && p.fg > 0 {
      var x := elba - (wp + p.zrwa) + 1 + p.fg - 1;
      PartsMix(x, p.fg);
    }
  }

  lemma FlushImplicitKeeps(p: Params, z: Zns, zid: nat, elba: nat, flushed: bool)
    requires Ok(p, z) && zid < p.nr && IsOpen(z.zones[zid]) && z.zones[zid].wp <= elba < p.End(zid)
    ensures Ok(p, FlushImplicit(p, z, zid, elba, flushed).1)
  {
    hide ImplicitFlush;
    var zone := z.zones[zid];
    FlushWithin(p, zid, zone.wp, elba);
    if ImplicitFlush(p, zid, zone.wp, elba).Some? {
      IncreaseKeeps(p, z, zid, ImplicitFlush(p, zid, zone.wp, elba).value);
    }
  }

  /** A write to the ZRWA never finds its zone empty (zns_read_write.c:281-295 allows for it, without
      taking the active resource): a zone with a ZRWA is not empty. */
  lemma WriteZrwaKeeps(p: Params, z: Zns, slba: nat, n: nat, flushed: bool)
    requires Ok(p, z) && 0 < n && p.ZoneOf(slba) < p.nr && z.zones[p.ZoneOf(slba)].zrwav
    ensures z.zones[p.ZoneOf(slba)].state != Empty
    ensures Ok(p, WriteZrwa(p, z, slba, n, flushed).1)
  {
    hide Quo;
    var zid := p.ZoneOf(slba);
    var zone, elba := z.zones[zid], slba + n - 1;
    assert ZoneOk(p, zid, zone);
    InZone(p, elba);
    InZone(p, slba);
    if InOneZone(p, slba, n) && zone.wp <= slba && IsActive(zone) {
      if IsOpen(zone) {
        FlushImplicitKeeps(p, z, zid, elba, flushed);
      } else {
        OpenKeeps(p, z, zid);
        var t := SetZone(z, zid, zone.(state := OpenedImpl)).(open := z.open + 1);
        FlushImplicitKeeps(p, t, zid, elba, flushed);
      }
    }
  }

  // ----- commands in sequence -----

  datatype Command =
      ToClose(slba: nat) | ToFinish(slba: nat) | ToOpen(slba: nat, zrwa: bool) | ToReset(slba: nat)
    | ToOffline(slba: nat) | ToFlush(slba: nat)
    | ToWrite(slba: nat, n: nat, append: bool, room: bool)

  // A command for a zone of the namespace.
  predicate Addressed(p: Params, c: Command)
    requires p.Valid()
  {
    p.ZoneOf(c.slba) < p.nr && (c.ToWrite? ==> 0 < c.n)
  }

  // __zmgmt_send (zns_mgmt_send.c:230-258) and zns_write.
  function Do(p: Params, z: Zns, c: Command): (Status, Zns)
    requires p.Valid() && Addressed(p, c) && |z.zones| == p.nr
  {
    var zid := p.ZoneOf(c.slba);
    match c
    case ToClose(_) => CloseZone(z, zid)
    case ToFinish(_) => FinishZone(z, zid)
    case ToOpen(_, zrwa) => OpenZone(p, z, zid, zrwa)
    case ToReset(_) => ResetZone(p, z, zid)
    case ToOffline(_) => OfflineZone(z, zid)
    case ToFlush(slba) => FlushExplicit(p, z, slba)
    case ToWrite(slba, n, append, room) => WriteZone(p, z, slba, n, append, room)
  }

  lemma DoKeeps(p: Params, z: Zns, c: Command)
    requires Ok(p, z) && Addressed(p, c)
    ensures Ok(p, Do(p, z, c).1)
  {
    hide Ok, CloseZone, FinishZone, OpenZone, ResetZone, OfflineZone, FlushExplicit, Write, WriteZrwa;
    Sizes(p, z);
    match c {
      case ToFlush(slba) => FlushKeeps(p, z, slba);
      case ToWrite(slba, n, append, room) =>
        if z.zones[p.ZoneOf(slba)].zrwav {
          WriteZrwaKeeps(p, z, slba, n, room);
        } else {
          WriteKeeps(p, z, slba, n, append, room);
        }
      case ToOpen(slba, zrwa) => ManagementKeeps(p, z, p.ZoneOf(slba), zrwa);
      case _ => ManagementKeeps(p, z, p.ZoneOf(c.slba), false);
    }
  }

  lemma Sizes(p: Params, z: Zns)
    requires Ok(p, z)
    ensures p.Valid() && |z.zones| == p.nr
  {
  }

  // The state after zns_init_namespace (zns_ftl.c:32-82).
  function Init(p: Params): (z: Zns)
    ensures |z.zones| == p.nr
  {
    Zns(seq(p.nr, i requires 0 <= i < p.nr => Zone(Empty, p.Start(i), false)), 0, 0, 0)
  }

  lemma {:induction false} AllEmpty(zones: seq<Zone>)
    requires forall i :: 0 <= i < |zones| ==> zones[i].state == Empty
    ensures CountOpen(zones) == 0 && CountActive(zones) == 0
  {
    if zones != [] {
      AllEmpty(zones[..|zones| - 1]);
    }
  }

  lemma InitOk(p: Params)
    requires p.Valid()
    ensures Ok(p, Init(p))
  {
    AllEmpty(Init(p).zones);
  }

  // The state after a sequence of commands; select_all is the sequence over all zones.
  function Run(p: Params, cs: seq<Command>): (z: Zns)
    requires p.Valid() && forall i :: 0 <= i < |cs| ==> Addressed(p, cs[i])
    ensures Ok(p, z)
  {
    if cs == [] then
      InitOk(p);
      Init(p)
    else
      var z := Run(p, cs[..|cs| - 1]);
      DoKeeps(p, z, cs[|cs| - 1]);
      Do(p, z, cs[|cs| - 1]).1
  }

  /** After any sequence of commands: the open count is the number of opened zones, the active count
      that of opened and closed ones, both within the total; an empty zone has its write pointer at
      its start and no ZRWA; an active zone's write pointer is inside it. */
  lemma AfterAnyCommands(p: Params, cs: seq<Command>)
    requires p.Valid() && forall i :: 0 <= i < |cs| ==> Addressed(p, cs[i])
    ensures var z := Run(p, cs);
            && |z.zones| == p.nr && z.open == CountOpen(z.zones) && z.active == CountActive(z.zones)
            && 0 <= z.open <= z.active <= p.nr
            && (forall i :: 0 <= i < p.nr ==>
                  && (z.zones[i].state == Empty ==> z.zones[i].wp == p.Start(i) && !z.zones[i].zrwav)
                  && (IsActive(z.zones[i]) ==> p.Start(i) <= z.zones[i].wp < p.End(i))
                  && z.zones[i].state != ReadOnly && z.zones[i].state != Offline)
  {
    hide Run;
    var z := Run(p, cs);
    CountersFit(p, z);
    forall i | 0 <= i < p.nr ensures ZoneOk(p, i, z.zones[i]) {
    }
  }

  // ----- the ZRWA counter -----

  function HoldsBit(z: Zone): nat { if IsActive(z) && z.zrwav then 1 else 0 }

  // How many zones hold a ZRWA.
  function CountHolding(zones: seq<Zone>): nat {
    if zones == [] then 0 else CountHolding(zones[..|zones| - 1]) + HoldsBit(zones[|zones| - 1])
  }

  lemma {:induction false} HoldingUpdate(zones: seq<Zone>, i: nat, zone: Zone)
    requires i < |zones|
    ensures CountHolding(zones[i := zone]) == CountHolding(zones) - HoldsBit(zones[i]) + HoldsBit(zone)
  {
    var n := |zones| - 1;
    if i < n {
      HoldingUpdate(zones[..n], i, zone);
      assert zones[i := zone][..n] == zones[..n][i := zone];
    } else {
      assert zones[i := zone][..n] == zones[..n];
    }
  }

  // The ZRWA resources that are counted as acquired but that no zone holds.
  function Leaked(z: Zns): int { z.zrwaCnt - CountHolding(z.zones) }

  // A write to a zone's ZRWA that ends exactly at the zone's end, without leaving the ZRWA, and that
  // gets past the driver's checks.
  predicate FillsByWriting(p: Params, z: Zns, c: Command)
    requires p.Valid() && Addressed(p, c) && |z.zones| == p.nr
  {
    var zid := p.ZoneOf(c.slba);
    var zone := z.zones[zid];
    && c.ToWrite? && c.room && c.n % p.unit == 0
    && zone.zrwav && IsActive(zone) && zone.wp <= c.slba
    && c.slba + c.n == p.End(zid) && p.End(zid) <= zone.wp + p.zrwa
  }

  // A write is within one zone exactly if it ends by the zone's end.
  lemma OneZoneIs(p: Params, slba: nat, n: nat)
    requires p.cap > 0 && n > 0
    ensures InOneZone(p, slba, n) <==> slba + n <= p.End(p.ZoneOf(slba))
  {
    hide Quo;
    var zid := p.ZoneOf(slba);
    InZone(p, slba);
    InZone(p, slba + n - 1);
    if slba + n <= p.End(zid) {
      WrittenZone(p, zid, slba + n - 1);
    }
  }

  lemma FillsExactly(p: Params, z: Zns, c: Command)
    requires Ok(p, z) && Addressed(p, c) && c.ToWrite? && z.zones[p.ZoneOf(c.slba)].zrwav
    ensures var zid := p.ZoneOf(c.slba); var t := Do(p, z, c).1;
            && |t.zones| == p.nr
            && (FillsByWriting(p, z, c) <==> z.zones[zid].state != IsFull && t.zones[zid].state == IsFull)
  {
    hide Quo, ImplicitFlush, InOneZone;
    var zid := p.ZoneOf(c.slba);
    var zone, elba := z.zones[zid], c.slba + c.n - 1;
    CountersFit(p, z);
    assert ZoneOk(p, zid, zone);
    InZone(p, c.slba);
    OneZoneIs(p, c.slba, c.n);
    if zone.wp <= elba < p.End(zid) {
      FlushWithin(p, zid, zone.wp, elba);
    }
  }

  lemma LeakOfChange(z: Zns, zid: nat, zone: Zone, t: Zns)
    requires zid < |z.zones| && t.zones == z.zones[zid := zone]
    ensures Leaked(t) - Leaked(z) == t.zrwaCnt - z.zrwaCnt + HoldsBit(z.zones[zid]) - HoldsBit(zone)
  {
    HoldingUpdate(z.zones, zid, zone);
  }

  // A command touches its zone only.
  lemma OneZone(p: Params, z: Zns, c: Command)
    requires p.Valid() && Addressed(p, c) && |z.zones| == p.nr
    ensures var t := Do(p, z, c).1; var zid := p.ZoneOf(c.slba);
            |t.zones| == p.nr && t.zones == z.zones[zid := t.zones[zid]]
  {
    hide Quo, ImplicitFlush;
  }

  /** The specification has a zone give its ZRWA back when it becomes full. The driver does so on
      finish, reset and explicit flush; a command leaks one exactly when it is a write to a ZRWA that
      ends at the zone's end within the ZRWA, and no command gives a leaked one back. */
  lemma LeakExactly(p: Params, z: Zns, c: Command)
    requires Ok(p, z) && Addressed(p, c)
    ensures Leaked(Do(p, z, c).1) == Leaked(z) + if FillsByWriting(p, z, c) then 1 else 0
  {
    hide Quo, ImplicitFlush, Leaked, FillsByWriting;
    var zid := p.ZoneOf(c.slba);
    var t := Do(p, z, c).1;
    assert ZoneOk(p, zid, z.zones[zid]);
    OneZone(p, z, c);
    LeakOfChange(z, zid, t.zones[zid], t);
    if c.ToWrite? && z.zones[zid].zrwav {
      FillsExactly(p, z, c);
    } else {
      NotFilling(p, z, c);
    }
  }

  lemma NotFilling(p: Params, z: Zns, c: Command)
    requires p.Valid() && Addressed(p, c) && |z.zones| == p.nr && !(c.ToWrite? && z.zones[p.ZoneOf(c.slba)].zrwav)
    ensures !FillsByWriting(p, z, c)
  {
    hide Quo;
  }

  /** And it happens: opening a zone with a ZRWA of its size and writing all of it leaks one. */
  lemma LeakHappens(cap: nat)
    requires 0 < cap
    ensures var p, cs := Params(1, cap, cap, 1, 1), [ToOpen(0, true), ToWrite(0, cap, false, true)];
            && p.Valid() && (forall i :: 0 <= i < |cs| ==> Addressed(p, cs[i]))
            && Leaked(Run(p, cs)) == 1
  {
    hide Quo, Leaked, Ok;
    var p := Params(1, cap, cap, 1, 1);
    InZone(p, 0);
    WrittenZone(p, 0, 0);
    var open, write := ToOpen(0, true), ToWrite(0, cap, false, true);
    assert [open, write][..1] == [open] && [open][..0] == [];
    NothingLeaked(p);
    LeakExactly(p, Run(p, []), open);
    LeakExactly(p, Run(p, [open]), write);
  }

  lemma NothingLeaked(p: Params)
    requires p.Valid()
    ensures Leaked(Init(p)) == 0
  {
    NoneHolding(Init(p).zones);
  }

  lemma {:induction false} NoneHolding(zones: seq<Zone>)
    requires forall i :: 0 <= i < |zones| ==> zones[i].state == Empty
    ensures CountHolding(zones) == 0
  {
    if zones != [] {
      NoneHolding(zones[..|zones| - 1]);
    }
  }

  // ----- division by zero -----

  // A command that comes to the flush granularity, which is 0: an explicit flush of an LBA of the
  // ZRWA, or a write that ends beyond the ZRWA and gets past the driver's checks.
  predicate Divides(p: Params, z: Zns, c: Command)
    requires p.Valid() && Addressed(p, c) && |z.zones| == p.nr
  {
    var zid := p.ZoneOf(c.slba);
    var zone := z.zones[zid];
    && p.fg == 0 && zone.zrwav
    && match c
       case ToFlush(slba) => zone.wp <= slba <= ZrwaEnd(p, zid, zone.wp)
       case ToWrite(slba, n, _, _) =>
         && n % p.unit == 0 && IsActive(zone) && zone.wp <= slba && slba + n <= p.End(zid)
         && zone.wp + p.zrwa < slba + n && !(0 < zone.wp + 2 * p.zrwa < slba + n)
       case _ => false
  }

  /** A command divides by zero exactly if the flush granularity is 0 and the command comes to it. */
  lemma DividesExactly(p: Params, z: Zns, c: Command)
    requires Ok(p, z) && Addressed(p, c)
    ensures Do(p, z, c).0 == DivideByZero <==> Divides(p, z, c)
  {
    hide Quo, InOneZone, ImplicitFlush;
    var zid := p.ZoneOf(c.slba);
    var zone := z.zones[zid];
    CountersFit(p, z);
    assert ZoneOk(p, zid, zone);
    InZone(p, c.slba);
    if c.ToWrite? {
      OneZoneIs(p, c.slba, c.n);
      if zone.wp <= c.slba + c.n - 1 < p.End(zid) {
        FlushWithin(p, zid, zone.wp, c.slba + c.n - 1);
      }
    }
  }

  /** And it happens with the sizes that are shipped, a ZRWA and a flush granularity of 0: opening a zone
      with a ZRWA is admitted, and flushing or writing its first LBA then divides by zero. */
  lemma DivisionHappens(cap: nat, unit: nat)
    requires 0 < cap && 0 < unit
    ensures var p, c := Params(1, cap, 0, 0, unit), ToOpen(0, true);
            && p.Valid() && Addressed(p, c) && Addressed(p, ToFlush(0))
            && Do(p, Run(p, [c]), ToFlush(0)).0 == DivideByZero
            && (forall n, append, room ::
                  0 < n <= cap && n % unit == 0 ==>
                    var write := ToWrite(0, n, append, room);
                    Addressed(p, write) && Do(p, Run(p, [c]), write).0 == DivideByZero)
  {
    hide Quo, Ok, Do;
    var p, c := Params(1, cap, 0, 0, unit), ToOpen(0, true);
    WrittenZone(p, 0, 0);
    OpenedFirst(p, c);
    var z := Run(p, [c]);
    DividesExactly(p, z, ToFlush(0));
    forall n, append, room | 0 < n <= cap && n % unit == 0
      ensures var write := ToWrite(0, n, append, room);
              Addressed(p, write) && Do(p, z, write).0 == DivideByZero
    {
      DividesExactly(p, z, ToWrite(0, n, append, room));
    }
  }

  lemma OpenedFirst(p: Params, c: Command)
    requires p.Valid() && p.nr == 1 && c == ToOpen(0, true) && p.ZoneOf(0) == 0
    ensures Addressed(p, c) && Run(p, [c]).zones == [Zone(OpenedExpl, 0, true)]
  {
    hide Quo;
    assert [c][..0] == [];
    assert Init(p).zones == [Zone(Empty, 0, false)];
  }
}
