/**
 The wake-lock globals and the timed callbacks of ril/libril/ril.cpp as objects that are changed in
 place, tied to the event-loop protocol with wake lock (module `RilWakeLock`) and to the timer list.
 */
module RilCallbacks {
  import opened Sequences
  import opened Timevals
  import opened RilEventLists
  import RilLoop
  import opened RilWakeLock

  const TIMEVAL_WAKE_TIMEOUT := Timeval(0, 200_000)

  lemma WakeTimeoutsAgree()
    ensures TIMEVAL_WAKE_TIMEOUT.Normalised() && TIMEVAL_WAKE_TIMEOUT.Micros() == WAKE_TIMEOUT == 200_000
  {
  }

  /** A timed callback: `id` numbers its timer; a set `userParam` cancels a wake timer. */
  class UserCallbackInfo {
    ghost const id: nat
    const isWake: bool   // the callback is wakeTimeoutCallback
    const event: RilEvent
    var userParam: bool

    constructor (isWake: bool, ghost id: nat)
      ensures this.id == id && this.isWake == isWake && !userParam && fresh(event)
    {
      this.id, this.isWake, this.userParam := id, isWake, false;
      this.event := new RilEvent(-1, false);
    }
  }

  /** The event is on the timer list, at position p, for the given time after now. */
  ghost predicate IsTimed(before: seq<RilEvent>, p: nat, ev: RilEvent, after: seq<RilEvent>, now: Timeval, time: Timeval)
    reads before`timeout, ev`timeout
  {
    && ev.timeout == TimerAdd(now, time)
    && FitsAt(before, p, ev.timeout)
    && after == InsertAt(before, p, ev)
  }

  /** The same as the event-loop protocol sees it: its list of timers, before and after. */
  ghost predicate IsInserted(before: seq<RilLoop.Timer>, after: seq<RilLoop.Timer>, number: nat, now: Timeval, time: Timeval) {
    after == RilLoop.Insert(before, RilLoop.Timer(number, now.Micros() + time.Micros()))
  }

  /** internalRequestTimedCallback: without memory nothing happens; else the callback's event is on the
      timer list, due at once when no time is given. */
  method InternalRequestTimedCallback(
      isWake: bool, relativeTime: Option<Timeval>, allocOk: bool, now: Timeval, timers: EventList, ghost id: nat,
      ghost number: RilEvent -> nat)
    returns (info: UserCallbackInfo?, ghost p: nat)
    requires timers.Valid() && SortedRing(timers.ring) && now.Normalised()
    requires relativeTime.Some? ==> relativeTime.value.Normalised()
    modifies timers`ring, timers.ring`next, timers.ring`prev
    ensures timers.Valid() && SortedRing(timers.ring)
    ensures info != null <==> allocOk
    ensures info == null ==> timers.ring == old(timers.ring)
    ensures forall x :: x in timers.ring ==> x in old(timers.ring) || (info != null && x == info.event)
    ensures info != null ==>
              var time := if relativeTime.Some? then relativeTime.value else Timeval(0, 0);
              && fresh(info) && fresh(info.event) && info.isWake == isWake && info.id == id && !info.userParam
              && IsTimed(old(timers.ring), p, info.event, timers.ring, now, time)
              && IsInserted(old(Model(timers.ring, number)), Model(timers.ring, number), number(info.event), now, time)
  {
    hide Model, RilLoop.Insert;
    hide IsRing, SortedRing, TimerAdd, InsertAt;
    if !allocOk {
      return null, 0;
    }
    var it := new UserCallbackInfo(isWake, id);
    var time := if relativeTime.Some? then relativeTime.value else Timeval(0, 0);
    ghost var ring := timers.ring;
    p := AddTimer(timers, it.event, Some(time), now, number);
    InsertAddsOne(ring, p, it.event);
    return it, p;
  }

  class PartialWakeLock {
    const version: int
    var count: nat
    var held: bool
    var last: UserCallbackInfo?
    ghost var infos: map<nat, UserCallbackInfo>   // every wake timer so far
    ghost var lastGrab: int

    ghost predicate Valid()
      reads this
    {
      && (forall id :: id in infos ==> infos[id].id == id && infos[id].isWake)
      && (last != null ==> Known(last))
    }

    ghost predicate Known(info: UserCallbackInfo)
      reads this
    {
      info.id in infos && infos[info.id] == info
    }

    ghost function Model(): Wake
      reads this, infos.Values
    {
      Wake(count, held, if last == null then None else Some(last.id),
           (set id | id in infos && infos[id].userParam), infos.Keys, lastGrab)
    }

    constructor (version: int, ghost now: int)
      ensures Valid() && this.version == version && Model() == Wake(0, false, None, {}, {}, now)
    {
      this.version := version;
      count, held, last, infos, lastGrab := 0, false, null, map[], now;
    }

    /** Counts a grab, makes its timer the remembered one and cancels the previous one. */
    method CountGrab(info: UserCallbackInfo, ghost now: int)
      requires Valid() && held && info.isWake && !info.userParam && info.id !in infos
      modifies this`count, this`last, this`infos, this`lastGrab, last
      ensures Valid() && Known(info) && last == info && infos == old(infos)[info.id := info]
      ensures Model() == AfterGrab(old(Model()), info.id, now)
    {
      count := count + 1;
      if last != null {
        last.userParam := true;
      }
      last := info;
      infos, lastGrab := infos[info.id := info], now;
    }

    /** A grab is the protocol's; below version 13 it only takes the kernel lock. */
    method GrabPartialWakeLock(allocOk: bool, now: Timeval, timers: EventList, ghost id: nat,
                               ghost number: RilEvent -> nat)
      returns (info: UserCallbackInfo?, ghost p: nat)
      requires Valid() && id !in infos
      requires timers.Valid() && SortedRing(timers.ring) && now.Normalised()
      modifies this, last, timers`ring, timers.ring`next, timers.ring`prev
      ensures Valid() && timers.Valid() && SortedRing(timers.ring)
      ensures info != null <==> version >= 13 && allocOk
      ensures info == null ==> timers.ring == old(timers.ring) && last == old(last) && infos == old(infos)
      ensures forall x :: x in timers.ring ==> x in old(timers.ring) || (info != null && x == info.event)
      ensures info == null ==> Model() == old(Model()).(held := version < 13)
      ensures info != null ==>
                && fresh(info) && fresh(info.event) && last == info && info.id == id && infos == old(infos)[id := info]
                && Known(info) && Model() == AfterGrab(old(Model()), id, now.Micros())
      ensures info != null ==>
                && IsTimed(old(timers.ring), p, info.event, timers.ring, now, TIMEVAL_WAKE_TIMEOUT)
                && IsInserted(old(RilEventLists.Model(timers.ring, number)), RilEventLists.Model(timers.ring, number),
                              number(info.event), now, TIMEVAL_WAKE_TIMEOUT)
    {
      hide IsRing, SortedRing, IsTimed, IsInserted, RilEventLists.Model;
      info, p := null, 0;
      held := true;
      if version >= 13 {
        info, p := InternalRequestTimedCallback(true, Some(TIMEVAL_WAKE_TIMEOUT), allocOk, now, timers, id, number);
        if info == null {
          held := false;
        } else {
          CountGrab(info, now.Micros());
        }
      }
    }

    /** Below version 13 every release gives up the kernel lock. */
    method ReleaseWakeLock()
      requires Valid()
      modifies this`count, this`held, last
      ensures Valid()
      ensures Model() == if version >= 13 then AfterRelease(old(Model())) else old(Model()).(held := false)
      ensures version >= 13 ==> count == if old(count) > 1 then old(count) - 1 else 0
      ensures held <==> version >= 13 && old(count) > 1 && old(held)
      ensures last != null ==> last.userParam == (old(last.userParam) || (version >= 13 && old(count) <= 1))
    {
      if version >= 13 {
        if count > 1 {
          count := count - 1;
        } else {
          count := 0;
          held := false;
          if last != null {
            last.userParam := true;
          }
        }
      } else {
        held := false;
      }
    }

    method WakeTimeoutCallback(param: bool)
      requires Valid()
      modifies this`count, this`held, last
      ensures Valid()
      ensures Model() == if param then old(Model())
                         else if version >= 13 then old(Model()).(count := 0, held := false)
                         else old(Model()).(held := false)
    {
      if version >= 13 {
        if !param {
          count := 0;
          held := false;
        }
      } else {
        if !param {
          ReleaseWakeLock();
        }
      }
    }

    /** Fires any timer: a known wake timer, or another one. */
    method UserTimerCallback(info: UserCallbackInfo)
      requires Valid() && if info.isWake then Known(info) else info.id !in infos
      modifies this`count, this`held, this`last, last
      ensures Valid()
      ensures version >= 13 ==> Model() == AfterCallback(old(Model()), info.id)
      ensures version < 13 ==> Model() == AfterCallback(old(Model()), info.id).(count := old(count))
    {
      if info.isWake {
        WakeTimeoutCallback(info.userParam);
      }
      if last != null && last == info {
        last := null;
      }
    }
  }
}
