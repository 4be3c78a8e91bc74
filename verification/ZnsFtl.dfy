/**
 The zoned namespace in place (struct zns_ftl, zns_ftl.h:35-45): descriptors in an array, resource
 counters in fields. Each method is proved to be the command of ZnsZones, and that the release of a
 resource never goes below zero.
 */
module ZnsFtl {
  import opened Wrappers
  import opened Arith
  import opened ZnsZones

  class ZnsFtl {
    const p: Params
    const zones: array<Zone>
    var openCnt: int
    var activeCnt: int
    var zrwaCnt: int

    ghost function View(): Zns
      reads this, zones
    {
      Zns(zones[..], openCnt, activeCnt, zrwaCnt)
    }

    ghost predicate Valid()
      reads this, zones
    {
      Ok(p, View())
    }

    /** __init_descriptor and __init_resource (zns_ftl.c:10-82). */
    constructor (p: Params)
      requires p.Valid()
      ensures Valid() && View() == ZnsZones.Init(p) && this.p == p
    {
      this.p := p;
      zones := new Zone[p.nr](i requires 0 <= i < p.nr => Zone(Empty, p.Start(i), false));
      openCnt, activeCnt, zrwaCnt := 0, 0, 0;
      new;
      InitOk(p);
      assert zones[..] == ZnsZones.Init(p).zones;
    }

    // release_zone_resource (zns_ftl.h:73-78), whose assertion is compiled away.
    method ReleaseOpen()
      requires openCnt > 0
      modifies this`openCnt
      ensures openCnt == old(openCnt) - 1
    {
      openCnt := openCnt - 1;
    }

    method ReleaseActive()
      requires activeCnt > 0
      modifies this`activeCnt
      ensures activeCnt == old(activeCnt) - 1
    {
      activeCnt := activeCnt - 1;
    }

    // acquire_zone_resource (zns_ftl.h:63-71) for the open resource.
    method AcquireOpen() returns (ok: bool)
      modifies this`openCnt
      ensures ok <==> old(openCnt) < p.nr
      ensures openCnt == old(openCnt) + if ok then 1 else 0
    {
      ok := openCnt < p.nr;
      if ok {
        openCnt := openCnt + 1;
      }
    }

    // change_zone_state.
    method ChangeState(zid: nat, state: ZoneState)
      requires zid < zones.Length
      modifies zones
      ensures zones[..] == old(zones[..])[zid := old(zones[zid]).(state := state)]
    {
      zones[zid] := zones[zid].(state := state);
    }

    /** __zmgmt_send_close_zone (zns_mgmt_send.c:7-29). */
    method Close(zid: nat) returns (status: Status)
      requires Valid() && zid < p.nr
      modifies this`openCnt, zones
      ensures Valid() && (status, View()) == CloseZone(old(View()), zid)
    {
      ManagementKeeps(p, View(), zid, false);
      CountersFit(p, View());
      hide Ok;
      Lengths();
      match zones[zid].state {
        case OpenedImpl | OpenedExpl =>
          ChangeState(zid, Closed);
          ReleaseOpen();
          status := Success;
        case Closed => status := Success;
        case _ => status := InvalidTransition;
      }
    }

    // What an active zone gives up.
    method ReleaseAll(zid: nat)
      requires Valid() && zid < p.nr
      modifies this`openCnt, this`activeCnt, this`zrwaCnt
      ensures View() == Release(old(View()), zones[zid])
    {
      CountersFit(p, View());
      hide Ok;
      Lengths();
      var isZrwaZone := zones[zid].zrwav;
      var active := IsActive(zones[zid]);
      if IsOpen(zones[zid]) {
        ReleaseOpen();
      }
      if active {
        ReleaseActive();
        if isZrwaZone {
          zrwaCnt := zrwaCnt - 1;
        }
      }
    }

    lemma Lengths()
      requires Valid()
      ensures zones.Length == p.nr && p.Valid()
      ensures forall i :: 0 <= i < p.nr ==> View().zones[i] == zones[i]
    {
    }

    /** __zmgmt_send_finish_zone (zns_mgmt_send.c:31-64). */
    method Finish(zid: nat) returns (status: Status)
      requires Valid() && zid < p.nr
      modifies this`openCnt, this`activeCnt, this`zrwaCnt, zones
      ensures Valid() && (status, View()) == FinishZone(old(View()), zid)
    {
      hide Ok;
      ManagementKeeps(p, View(), zid, false);
      Lengths();
      if zones[zid].state == ReadOnly || zones[zid].state == Offline {
        return InvalidTransition;
      }
      ReleaseAll(zid);
      ChangeState(zid, IsFull);
      status := Success;
    }

    /** __zmgmt_send_reset_zone (zns_mgmt_send.c:108-156). */
    method Reset(zid: nat) returns (status: Status)
      requires Valid() && zid < p.nr
      modifies this`openCnt, this`activeCnt, this`zrwaCnt, zones
      ensures Valid() && (status, View()) == ResetZone(p, old(View()), zid)
    {
      hide Ok;
      ManagementKeeps(p, View(), zid, false);
      Lengths();
      if zones[zid].state == ReadOnly || zones[zid].state == Offline {
        return InvalidTransition;
      }
      ReleaseAll(zid);
      ghost var was := zones[..];
      zones[zid] := zones[zid].(state := Empty);
      zones[zid] := zones[zid].(wp := p.Start(zid), zrwav := false);
      assert zones[..] == was[zid := Zone(Empty, p.Start(zid), false)];
      status := Success;
    }

    /** __zmgmt_send_open_zone (zns_mgmt_send.c:66-106). */
    method Open(zid: nat, zrwa: bool) returns (status: Status)
      requires Valid() && zid < p.nr
      modifies this`openCnt, this`activeCnt, this`zrwaCnt, zones
      ensures Valid() && (status, View()) == OpenZone(p, old(View()), zid, zrwa)
    {
      hide Ok;
      ManagementKeeps(p, View(), zid, zrwa);
      CountersFit(p, View());
      Lengths();
      ghost var z := View();
      var state := zones[zid].state;
      if state == Empty {
        if activeCnt == p.nr {
          return NoActiveZone;
        }
        if openCnt == p.nr {
          return NoOpenZone;
        }
        if zrwa {
          if zrwaCnt == p.nr {
            return ZrwaUnavailable;
          }
          zrwaCnt := zrwaCnt + 1;
          zones[zid] := zones[zid].(zrwav := true);
        }
        activeCnt := activeCnt + 1;
      }
      if state == Empty || state == Closed {
        var ok := AcquireOpen();
        if !ok {
          return NoOpenZone;
        }
      }
      if state == Empty || state == Closed || state == OpenedImpl {
        zones[zid] := zones[zid].(state := OpenedExpl);
        assert zones[..] == z.zones[zid := zones[zid]];
      } else if state != OpenedExpl {
        return InvalidTransition;
      }
      status := Success;
    }

    /** __zmgmt_send_offline_zone (zns_mgmt_send.c:158-175). */
    method TakeOffline(zid: nat) returns (status: Status)
      requires Valid() && zid < p.nr
      modifies zones
      ensures Valid() && (status, View()) == OfflineZone(old(View()), zid)
    {
      hide Ok;
      ManagementKeeps(p, View(), zid, false);
      Lengths();
      match zones[zid].state {
        case ReadOnly =>
          ChangeState(zid, Offline);
          status := Success;
        case Offline => status := Success;
        case _ => status := InvalidTransition;
      }
    }

    /** __zmgmt_send_flush_explicit_zrwa (zns_mgmt_send.c:177-228). */
    method Flush(slba: nat) returns (status: Status)
      requires Valid() && p.ZoneOf(slba) < p.nr
      modifies this`openCnt, this`activeCnt, this`zrwaCnt, zones
      ensures Valid() && (status, View()) == FlushExplicit(p, old(View()), slba)
    {
      hide Ok, Quo;
      FlushKeeps(p, View(), slba);
      Lengths();
      var zid := p.ZoneOf(slba);
      var zone := zones[zid];
      if !zone.zrwav {
        return InvalidZoneOperation;
      }
      if !(zone.wp <= slba <= ZrwaEnd(p, zid, zone.wp)) {
        return InvalidZoneOperation;
      }
      if p.fg == 0 {
        return DivideByZero;
      }
      if (slba - zone.wp + 1) % p.fg != 0 {
        return InvalidField;
      }
      if !IsActive(zone) {
        return InvalidZoneOperation;
      }
      ghost var was := zones[..];
      if slba + 1 == p.End(zid) {
        ReleaseAll(zid);
        zones[zid] := zone.(wp := slba + 1, state := IsFull);
      } else {
        zones[zid] := zone.(wp := slba + 1);
      }
      assert zones[..] == was[zid := zones[zid]];
      status := Success;
    }

    /** __increase_write_ptr (zns_read_write.c:17-39) of an opened zone; past the end of the zone the
        source only logs an error, and that never happens. */
    method IncreaseWritePtr(zid: nat, n: nat)
      requires Valid() && zid < p.nr && IsOpen(zones[zid]) && zones[zid].wp + n <= p.End(zid)
      modifies this`openCnt, this`activeCnt, zones
      ensures Valid() && View() == IncreaseWp(p, old(View()), zid, n)
      ensures zones.Length == p.nr && zones[zid].wp == old(zones[zid].wp) + n
      ensures zones[zid].state == if zones[zid].wp == p.End(zid) then IsFull else old(zones[zid].state)
    {
      hide Ok;
      Lengths();
      IncreaseKeeps(p, View(), zid, n);
      CountersFit(p, View());
      ghost var was := zones[..];
      var wp := zones[zid].wp + n;
      zones[zid] := zones[zid].(wp := wp);
      if wp == p.End(zid) {
        ReleaseOpen();
        ReleaseActive();
        zones[zid] := zones[zid].(state := IsFull);
      }
      assert zones[..] == was[zid := zones[zid]];
    }

    // An empty or closed zone is opened by a write (zns_read_write.c:126-154, 281-295).
    method OpenImplicitly(zid: nat)
      requires Valid() && zid < p.nr && zones[zid].wp < p.End(zid)
      requires zones[zid].state == Empty || zones[zid].state == Closed
      modifies this`openCnt, this`activeCnt, zones
      ensures Valid() && zones.Length == p.nr && IsOpen(zones[zid]) && zones[zid].wp == old(zones[zid].wp)
      ensures var z := old(View());
              View() == SetZone(z, zid, z.zones[zid].(state := OpenedImpl))
                        .(open := z.open + 1, active := z.active + 1 - ActiveBit(z.zones[zid]))
    {
      hide Ok;
      Lengths();
      OpenKeeps(p, View(), zid);
      CountersFit(p, View());
      if zones[zid].state == Empty {
        activeCnt := activeCnt + 1;
      }
      var ok := AcquireOpen();
      ChangeState(zid, OpenedImpl);
    }

    // What a write that gets past its checks finds.
    lemma WriteRange(zid: nat, n: nat)
      requires Valid() && 0 < n && zid < p.nr && (IsActive(zones[zid]) || zones[zid].state == Empty)
      requires InOneZone(p, zones[zid].wp, n)
      ensures zones[zid].wp < p.End(zid) && zones[zid].wp + n <= p.End(zid)
    {
      hide Quo;
      var zone := View().zones[zid];
      assert ZoneOk(p, zid, zone);
      assert zone.wp < p.End(zid) by {
        assert zone.state == Empty ==> zone.wp == p.Start(zid);
      }
      WrittenZone(p, zid, zone.wp);
      InZone(p, zone.wp + n - 1);
    }

    /** __zns_write (zns_read_write.c:64-170). */
    method WriteSequential(slba: nat, n: nat, append: bool, buffered: bool) returns (status: Status)
      requires Valid() && 0 < n && p.ZoneOf(slba) < p.nr
      modifies this`openCnt, this`activeCnt, zones
      ensures Valid() && (status, View()) == Write(p, old(View()), slba, n, append, buffered)
      ensures zones.Length == p.nr
      ensures zones[p.ZoneOf(slba)].wp == old(View()).zones[p.ZoneOf(slba)].wp + if status == Success then n else 0
    {
      hide Ok, Quo;
      CountersFit(p, View());
      Lengths();
      var zid := p.ZoneOf(slba);
      var zone := zones[zid];
      var at := if append then zone.wp else slba;
      if !buffered {
        return Retry;
      }
      if n % p.unit != 0 {
        return InvalidWrite;
      }
      if !InOneZone(p, at, n) {
        return BoundaryError;
      }
      if at != zone.wp {
        return InvalidWrite;
      }
      match zone.state {
        case IsFull => return ZoneFull;
        case ReadOnly => return ZoneReadOnly;
        case Offline => return ZoneOffline;
        case Empty =>
          if at != p.Start(zid) {
            return InvalidWrite;
          }
          if activeCnt == p.nr {
            return NoActiveZone;
          }
          if openCnt == p.nr {
            return NoOpenZone;
          }
          WriteRange(zid, n);
          OpenImplicitly(zid);
        case Closed =>
          if openCnt >= p.nr {
            return NoOpenZone;
          }
          WriteRange(zid, n);
          OpenImplicitly(zid);
        case _ =>
          WriteRange(zid, n);
      }
      IncreaseWritePtr(zid, n);
      status := Success;
    }

    // The implicit flush of a write to the ZRWA (zns_read_write.c:315-336).
    method FlushForWrite(zid: nat, elba: nat, flushed: bool) returns (status: Status)
      requires Valid() && zid < p.nr && IsOpen(zones[zid]) && zones[zid].wp <= elba < p.End(zid)
      modifies this`openCnt, this`activeCnt, zones
      ensures Valid() && (status, View()) == FlushImplicit(p, old(View()), zid, elba, flushed)
    {
      hide Ok, Quo;
      Lengths();
      var wp := zones[zid].wp;
      FlushWithin(p, zid, wp, elba);
      var flush: nat := 0;
      if elba >= wp + p.zrwa {
        if p.fg == 0 {
          return DivideByZero;
        }
        flush := Quo(elba - (wp + p.zrwa) + 1 + p.fg - 1, p.fg) * p.fg;
      } else if elba + 1 == p.End(zid) {
        flush := elba - wp + 1;
      }
      if flush > 0 {
        if !flushed {
          return Retry;
        }
        IncreaseWritePtr(zid, flush);
      }
      status := Success;
    }

    /** __zns_write_zrwa (zns_read_write.c:225-336). */
    method WriteRandom(slba: nat, n: nat, flushed: bool) returns (status: Status)
      requires Valid() && 0 < n && p.ZoneOf(slba) < p.nr && p.ZoneOf(slba) < zones.Length && zones[p.ZoneOf(slba)].zrwav
      modifies this`openCnt, this`activeCnt, zones
      ensures Valid() && (status, View()) == WriteZrwa(p, old(View()), slba, n, flushed)
    {
      hide Ok, Quo;
      CountersFit(p, View());
      WriteZrwaKeeps(p, View(), slba, n, flushed);
      Lengths();
      InZone(p, slba);
      InZone(p, slba + n - 1);
      var zid := p.ZoneOf(slba);
      var zone := zones[zid];
      var elba := slba + n - 1;
      if n % p.unit != 0 {
        return InvalidWrite;
      }
      if !InOneZone(p, slba, n) {
        return BoundaryError;
      }
      if slba < zone.wp || (0 < zone.wp + 2 * p.zrwa <= elba) {
        return InvalidWrite;
      }
      match zone.state {
        case IsFull => return ZoneFull;
        case ReadOnly => return ZoneReadOnly;
        case Offline => return ZoneOffline;
        case Closed =>
          if openCnt >= p.nr {
            return NoOpenZone;
          }
          OpenImplicitly(zid);
        case _ =>
      }
      status := FlushForWrite(zid, elba, flushed);
    }

    // zns_write (zns_read_write.c:382-398).
    method ZnsWrite(slba: nat, n: nat, append: bool, room: bool) returns (status: Status)
      requires Valid() && 0 < n && p.ZoneOf(slba) < p.nr
      modifies this`openCnt, this`activeCnt, zones
      ensures Valid() && (status, View()) == WriteZone(p, old(View()), slba, n, append, room)
    {
      hide Ok, Quo, Write, WriteZrwa;
      Lengths();
      if zones[p.ZoneOf(slba)].zrwav {
        status := WriteRandom(slba, n, room);
      } else {
        status := WriteSequential(slba, n, append, room);
      }
    }

    /** zns_zmgmt_send with select_all (zns_mgmt_send.c:272-274): the command is done to every zone in
        turn, here for reset, and always reported as a success. */
    method ResetAll() returns (status: Status)
      requires Valid()
      modifies this`openCnt, this`activeCnt, this`zrwaCnt, zones
      ensures Valid() && status == Success
      ensures View() == old(View()).(zones := View().zones, open := 0, active := 0, zrwaCnt := View().zrwaCnt)
      ensures forall i :: 0 <= i < p.nr ==> View().zones[i] == Zone(Empty, p.Start(i), false)
    {
      for zid := 0 to p.nr
        invariant Valid()
        invariant forall i :: 0 <= i < zid ==> View().zones[i] == Zone(Empty, p.Start(i), false)
      {
        AllReset(zid);
        var r := Reset(zid);
      }
      AllEmpty(View().zones);
      status := Success;
    }

    lemma AllReset(zid: nat)
      requires Valid() && zid < p.nr
      ensures ResetZone(p, View(), zid).0 == Success
      ensures ResetZone(p, View(), zid).1.zones == View().zones[zid := Zone(Empty, p.Start(zid), false)]
    {
      assert ZoneOk(p, zid, View().zones[zid]);
    }
  }
}
