/**
 The partial wake lock of ril/libril/ril.cpp (library version 13 and later) on top of the event loop:
 a counter, the kernel lock, and release timers that are cancelled through their parameter.
 */
module RilWakeLock {
  import opened Sequences
  import opened RilLoop

  /** TIMEVAL_WAKE_TIMEOUT in microseconds. */
  const WAKE_TIMEOUT := 200_000

  /** `last` is s_last_wake_timeout_info, `cancelled` the wake timers whose userParam is set.
      `lastGrab` is history: when a grab last succeeded. */
  datatype Wake = Wake(
    count: nat,
    held: bool,
    last: Option<nat>,
    cancelled: set<nat>,
    wakeTimers: set<nat>,
    lastGrab: int)

  datatype Ril = Ril(loop: Loop, wake: Wake)

  /** A grab may come from the loop's thread or another, and its timer allocation may fail. */
  datatype RilStep =
    | LoopStep(step: Step)
    | Grab(byLoop: bool, allocOk: bool)
    | Release

  ghost predicate RilInit(s: Ril) {
    && Init(s.loop)
    && s.wake.count == 0 && !s.wake.held && s.wake.last == None
    && s.wake.cancelled == {} && s.wake.wakeTimers == {} && s.wake.lastGrab <= s.loop.now
  }

  predicate RilEnabled(s: Ril, step: RilStep) {
    match step
    case LoopStep(l) => Enabled(s.loop, l)
    case Grab(byLoop, _) => Enabled(s.loop, AddTimer(WAKE_TIMEOUT, byLoop))
    case Release => true
  }

  function CancelLast(w: Wake): Wake {
    if w.last.Some? then w.(cancelled := w.cancelled + {w.last.value}) else w
  }

  /** grabPartialWakeLock, given the id of the timer it schedules. */
  function AfterGrab(w: Wake, id: nat, now: int): Wake {
    var w := CancelLast(w);
    w.(count := w.count + 1, held := true, last := Some(id), wakeTimers := w.wakeTimers + {id}, lastGrab := now)
  }

  /** releaseWakeLock. */
  function AfterRelease(w: Wake): Wake {
    if w.count > 1 then w.(count := w.count - 1)
    else CancelLast(w.(count := 0, held := false))
  }

  /** userTimerCallback: wakeTimeoutCallback for wake timers, then forget the pointer. */
  function AfterCallback(w: Wake, id: nat): Wake {
    var w := if id in w.wakeTimers && id !in w.cancelled then w.(count := 0, held := false) else w;
    if w.last == Some(id) then w.(last := None) else w
  }

  function RilApply(s: Ril, step: RilStep): Ril
    requires RilEnabled(s, step)
  {
    match step
    case LoopStep(l) =>
      Ril(Apply(s.loop, l),
          if l.FireNext? && s.loop.pending[0].Expired? then AfterCallback(s.wake, s.loop.pending[0].timer.id) else s.wake)
    case Grab(byLoop, allocOk) =>
      if allocOk
      then Ril(Apply(s.loop, AddTimer(WAKE_TIMEOUT, byLoop)), AfterGrab(s.wake, |s.loop.added|, s.loop.now))
      else s.(wake := s.wake.(held := false))
    case Release => s.(wake := AfterRelease(s.wake))
  }

  ghost predicate RilRun(states: seq<Ril>, steps: seq<RilStep>) {
    && |states| == |steps| + 1
    && RilInit(states[0])
    && forall k :: 0 <= k < |steps| ==>
         RilEnabled(states[k], steps[k]) && states[k + 1] == RilApply(states[k], steps[k])
  }

  // ----- the invariant

  /** The timers that have not fired yet, in firing order. */
  ghost function Scheduled(s: Loop): seq<Timer> {
    ExpiredTimers(s.pending) + s.timers
  }

  ghost predicate Live(w: Wake, t: Timer) {
    t.id in w.wakeTimers && t.id !in w.cancelled
  }

  /** An unfired, uncancelled wake timer is `last` and is due one timeout after the last grab. */
  ghost predicate OnlyLastIsLive(scheduled: seq<Timer>, w: Wake) {
    forall i :: 0 <= i < |scheduled| && Live(w, scheduled[i]) ==>
      w.last == Some(scheduled[i].id) && scheduled[i].deadline == w.lastGrab + WAKE_TIMEOUT
  }

  ghost predicate LastIsScheduled(scheduled: seq<Timer>, w: Wake) {
    w.last.Some? ==>
      w.last.value in w.wakeTimers && exists i :: 0 <= i < |scheduled| && scheduled[i].id == w.last.value
  }

  /** The counter is positive exactly while `last` is uncancelled; the kernel lock needs the counter. */
  ghost predicate Counted(w: Wake) {
    && (w.count > 0 <==> w.last.Some? && w.last.value !in w.cancelled)
    && (w.held ==> w.count > 0)
  }

  ghost predicate WakeInv(scheduled: seq<Timer>, w: Wake) {
    OnlyLastIsLive(scheduled, w) && LastIsScheduled(scheduled, w) && Counted(w)
  }

  ghost predicate WakeOk(s: Ril) {
    && WakeInv(Scheduled(s.loop), s.wake)
    && (forall id :: id in s.wake.wakeTimers ==> id < |s.loop.added|)
    && s.wake.cancelled <= s.wake.wakeTimers
    && s.wake.lastGrab <= s.loop.now
  }

  ghost predicate RilInv(s: Ril) {
    Inv(s.loop) && Covered(s.loop) && WakeOk(s)
  }

  lemma ScheduledIds(s: Loop)
    requires Inv(s)
    ensures forall i :: 0 <= i < |Scheduled(s)| ==> Scheduled(s)[i].id < |s.added|
  {
    forall i | 0 <= i < |Scheduled(s)| ensures Scheduled(s)[i].id < |s.added| {
      assert LifeLine(s) == FiredTimers(s.fired) + Scheduled(s);
      assert LifeLine(s)[|s.fired| + i] == Scheduled(s)[i];
      assert Scheduled(s)[i] in multiset(s.added);
    }
  }

  lemma ScheduledAfterAdd(s: Loop, t: Timer) returns (p: nat)
    ensures p <= |Scheduled(s)|
    ensures ExpiredTimers(s.pending) + Insert(s.timers, t) == InsertAt(Scheduled(s), p, t)
  {
    var k := InsertSplits(s.timers, t);
    p := |ExpiredTimers(s.pending)| + k;
  }

  lemma InsertKeepsWakeInv(scheduled: seq<Timer>, p: nat, t: Timer, w: Wake)
    requires WakeInv(scheduled, w) && p <= |scheduled| && t.id !in w.wakeTimers
    ensures WakeInv(InsertAt(scheduled, p, t), w)
  {
    var longer := InsertAt(scheduled, p, t);
    forall i | 0 <= i < |longer| && Live(w, longer[i])
      ensures w.last == Some(longer[i].id) && longer[i].deadline == w.lastGrab + WAKE_TIMEOUT
    {
      InsertAtIndex(scheduled, p, t, i);
    }
    if w.last.Some? {
      var i :| 0 <= i < |scheduled| && scheduled[i].id == w.last.value;
      var j := if i < p then i else i + 1;
      InsertAtIndex(scheduled, p, t, j);
      assert longer[j].id == w.last.value;
    }
  }

  lemma GrabKeepsWakeInv(scheduled: seq<Timer>, p: nat, t: Timer, w: Wake, now: int)
    requires WakeInv(scheduled, w) && p <= |scheduled| && t.deadline == now + WAKE_TIMEOUT
    requires t.id !in w.cancelled && w.last != Some(t.id)
    requires forall i :: 0 <= i < |scheduled| ==> scheduled[i].id != t.id
    ensures WakeInv(InsertAt(scheduled, p, t), AfterGrab(w, t.id, now))
  {
    var longer := InsertAt(scheduled, p, t);
    var w' := AfterGrab(w, t.id, now);
    InsertAtIndex(scheduled, p, t, p);
    forall i | 0 <= i < |longer| && Live(w', longer[i])
      ensures w'.last == Some(longer[i].id) && longer[i].deadline == w'.lastGrab + WAKE_TIMEOUT
    {
      InsertAtIndex(scheduled, p, t, i);
      if i != p {
        var j := if i < p then i else i - 1;
        assert Live(w, scheduled[j]);
      }
    }
  }

  lemma ReleaseKeepsWakeInv(scheduled: seq<Timer>, w: Wake)
    requires WakeInv(scheduled, w)
    ensures WakeInv(scheduled, AfterRelease(w))
  {
    var w' := AfterRelease(w);
    assert forall i :: 0 <= i < |scheduled| && Live(w', scheduled[i]) ==> Live(w, scheduled[i]);
  }

  lemma CallbackKeepsWakeInv(scheduled: seq<Timer>, w: Wake)
    requires scheduled != [] && WakeInv(scheduled, w)
    requires forall i :: 0 < i < |scheduled| ==> scheduled[i].id != scheduled[0].id
    ensures WakeInv(scheduled[1..], AfterCallback(w, scheduled[0].id))
  {
    var (rest, id) := (scheduled[1..], scheduled[0].id);
    var w' := AfterCallback(w, id);
    assert Live(w, scheduled[0]) <==> id in w.wakeTimers && id !in w.cancelled;
    forall i | 0 <= i < |rest| && Live(w', rest[i])
      ensures w'.last == Some(rest[i].id) && rest[i].deadline == w'.lastGrab + WAKE_TIMEOUT
    {
      assert rest[i] == scheduled[i + 1] && Live(w, scheduled[i + 1]);
    }
    if w'.last.Some? {
      var i :| 0 <= i < |scheduled| && scheduled[i].id == w.last.value;
      assert rest[i - 1].id == w'.last.value;
    }
  }

  /** Loop steps other than adding a timer or firing one leave the schedule as it is. */
  lemma QuietSchedule(s: Loop, l: Step)
    requires Enabled(s, l) && !l.AddTimer? && !(l.FireNext? && s.pending[0].Expired?)
    ensures Scheduled(Apply(s, l)) == Scheduled(s)
  {
    match l
    case ProcessTimeouts =>
      ProcessTimeoutsKeepsLine(s);
      var k := ExpiredCount(s.timers, s.now);
      assert s.timers[..k] + s.timers[k..] == s.timers;
      assert ExpiredTimers(s.pending) + s.timers[..k] + s.timers[k..] == ExpiredTimers(s.pending) + (s.timers[..k] + s.timers[k..]);
    case ProcessReadReadies(ready) =>
      NoExpiredTimers(ready);
      ExpiredTimersAppend(s.pending, ready);
    case FireNext => FireKeepsLine(s);
    case _ =>
  }

  lemma FireSchedule(s: Loop)
    requires Enabled(s, FireNext) && s.pending[0].Expired?
    ensures Scheduled(s) == [s.pending[0].timer] + Scheduled(Apply(s, FireNext))
  {
    FireKeepsLine(s);
    var t := s.pending[0].timer;
    assert [t] + ExpiredTimers(s.pending[1..]) + s.timers == [t] + (ExpiredTimers(s.pending[1..]) + s.timers);
  }

  lemma ScheduledDistinct(s: Loop, i: nat, j: nat)
    requires Inv(s) && i < j < |Scheduled(s)|
    ensures Scheduled(s)[i].id != Scheduled(s)[j].id
  {
    assert LifeLine(s) == FiredTimers(s.fired) + Scheduled(s);
    LineDistinct(LifeLine(s), s.added, |s.fired| + i, |s.fired| + j);
  }

  lemma FireKeepsWakeOk(s: Ril)
    requires Inv(s.loop) && WakeOk(s) && Enabled(s.loop, FireNext) && s.loop.pending[0].Expired?
    ensures WakeOk(RilApply(s, LoopStep(FireNext)))
  {
    var line := Scheduled(s.loop);
    FireSchedule(s.loop);
    forall i | 0 < i < |line| ensures line[i].id != line[0].id {
      ScheduledDistinct(s.loop, 0, i);
    }
    CallbackKeepsWakeInv(line, s.wake);
    assert line[1..] == Scheduled(Apply(s.loop, FireNext));
  }

  lemma AddKeepsWakeOk(s: Ril, delay: nat, byLoop: bool)
    requires Inv(s.loop) && WakeOk(s) && Enabled(s.loop, AddTimer(delay, byLoop))
    ensures WakeOk(RilApply(s, LoopStep(AddTimer(delay, byLoop))))
  {
    var t := Timer(|s.loop.added|, s.loop.now + delay);
    var p := ScheduledAfterAdd(s.loop, t);
    InsertKeepsWakeInv(Scheduled(s.loop), p, t, s.wake);
  }

  lemma GrabKeepsWakeOk(s: Ril, byLoop: bool)
    requires Inv(s.loop) && WakeOk(s) && RilEnabled(s, Grab(byLoop, true))
    ensures WakeOk(RilApply(s, Grab(byLoop, true)))
  {
    var t := Timer(|s.loop.added|, s.loop.now + WAKE_TIMEOUT);
    var p := ScheduledAfterAdd(s.loop, t);
    ScheduledIds(s.loop);
    GrabKeepsWakeInv(Scheduled(s.loop), p, t, s.wake, s.loop.now);
  }

  lemma WakeOkStep(s: Ril, step: RilStep)
    requires Inv(s.loop) && WakeOk(s) && RilEnabled(s, step)
    ensures WakeOk(RilApply(s, step))
  {
    match step
    case LoopStep(l) =>
      if l.AddTimer? {
        AddKeepsWakeOk(s, l.delay, l.byLoop);
      } else if l.FireNext? && s.loop.pending[0].Expired? {
        FireKeepsWakeOk(s);
      } else {
        QuietSchedule(s.loop, l);
      }
    case Grab(byLoop, allocOk) =>
      if allocOk {
        GrabKeepsWakeOk(s, byLoop);
      }
    case Release => ReleaseKeepsWakeInv(Scheduled(s.loop), s.wake);
  }

  /** The event loop inside takes one of its own steps or none. */
  lemma LoopProjection(s: Ril, step: RilStep)
    requires Inv(s.loop) && Covered(s.loop) && RilEnabled(s, step)
    ensures Inv(RilApply(s, step).loop) && Covered(RilApply(s, step).loop)
    ensures s.loop.now <= RilApply(s, step).loop.now
  {
    match step
    case LoopStep(l) =>
      InvStep(s.loop, l);
      CoveredStep(s.loop, l);
    case Grab(byLoop, _) =>
      InvStep(s.loop, AddTimer(WAKE_TIMEOUT, byLoop));
      CoveredStep(s.loop, AddTimer(WAKE_TIMEOUT, byLoop));
    case Release =>
  }

  // ----- every run

  lemma {:induction false} RilRunKeepsInv(states: seq<Ril>, steps: seq<RilStep>, k: nat)
    requires RilRun(states, steps) && k < |states|
    ensures RilInv(states[k])
  {
    if k > 0 {
      RilRunKeepsInv(states, steps, k - 1);
      assert states[k - 1 + 1] == RilApply(states[k - 1], steps[k - 1]);
      LoopProjection(states[k - 1], steps[k - 1]);
      WakeOkStep(states[k - 1], steps[k - 1]);
    }
  }

  /** In every state of every run at most one unfired wake timer is uncancelled, and it is the one
      s_last_wake_timeout_info names; that pointer is null or names an unfired wake timer; and while
      the kernel lock is held the counter is positive and such a live timer is scheduled. */
  lemma RunKeepsOneLiveTimer(states: seq<Ril>, steps: seq<RilStep>, k: nat)
    requires RilRun(states, steps) && k < |states|
    ensures var (line, w) := (Scheduled(states[k].loop), states[k].wake);
            && (forall i, j :: 0 <= i < |line| && 0 <= j < |line| && Live(w, line[i]) && Live(w, line[j]) ==> i == j)
            && (forall i :: 0 <= i < |line| && Live(w, line[i]) ==> w.last == Some(line[i].id))
            && (w.last.Some? ==> exists i :: 0 <= i < |line| && line[i].id == w.last.value)
            && (w.held ==> w.count > 0 && exists i :: 0 <= i < |line| && Live(w, line[i]))
  {
    RilRunKeepsInv(states, steps, k);
    var s := states[k];
    var (line, w) := (Scheduled(s.loop), s.wake);
    forall i, j | 0 <= i < |line| && 0 <= j < |line| && Live(w, line[i]) && Live(w, line[j]) ensures i == j {
      if i < j {
        ScheduledDistinct(s.loop, i, j);
      } else if j < i {
        ScheduledDistinct(s.loop, j, i);
      }
    }
    if w.held {
      var i :| 0 <= i < |line| && line[i].id == w.last.value;
      assert Live(w, line[i]);
    }
  }

  lemma {:induction false} ClockIsMonotone(states: seq<Ril>, steps: seq<RilStep>, j: nat, k: nat)
    requires RilRun(states, steps) && j <= k < |states|
    ensures states[j].loop.now <= states[k].loop.now
  {
    if j < k {
      ClockIsMonotone(states, steps, j, k - 1);
      assert states[k - 1 + 1] == RilApply(states[k - 1], steps[k - 1]);
    }
  }

  lemma {:induction false} LastGrabIsLatest(states: seq<Ril>, steps: seq<RilStep>, j: nat, k: nat)
    requires RilRun(states, steps) && j < k < |states| && steps[j].Grab? && steps[j].allocOk
    ensures states[j].loop.now <= states[k].wake.lastGrab
  {
    assert states[k - 1 + 1] == RilApply(states[k - 1], steps[k - 1]);
    if j < k - 1 {
      LastGrabIsLatest(states, steps, j, k - 1);
      ClockIsMonotone(states, steps, j, k - 1);
    }
  }

  /** A timeout gives up the kernel lock only strictly more than 200 ms after every successful grab
      made so far in the run. */
  lemma RunTimeoutReleasesLate(states: seq<Ril>, steps: seq<RilStep>, j: nat, k: nat)
    requires RilRun(states, steps) && j < k < |steps|
    requires steps[j].Grab? && steps[j].allocOk
    requires steps[k].LoopStep? && states[k].wake.held && !states[k + 1].wake.held
    ensures states[k].loop.now > states[j].loop.now + WAKE_TIMEOUT
  {
    RilRunKeepsInv(states, steps, k);
    LastGrabIsLatest(states, steps, j, k);
    var s := states[k];
    assert states[k + 1] == RilApply(s, steps[k]);
    FireSchedule(s.loop);
    assert Live(s.wake, Scheduled(s.loop)[0]);
    assert ExpiredTimers(s.loop.pending)[0] == s.loop.pending[0].timer;
  }

  /** There was a grab before step k, and the latest one got its timer. */
  ghost predicate LastGrabOk(steps: seq<RilStep>, k: nat)
    requires k <= |steps|
  {
    k > 0 && if steps[k - 1].Grab? then steps[k - 1].allocOk else LastGrabOk(steps, k - 1)
  }

  /** Exactly when the kernel lock is held, and so exactly when it agrees with the counter: unless the
      counter is positive and the latest grab failed to allocate its timer. */
  lemma {:induction false} HeldIffCounted(states: seq<Ril>, steps: seq<RilStep>, k: nat)
    requires RilRun(states, steps) && k < |states|
    ensures states[k].wake.held <==> states[k].wake.count > 0 && LastGrabOk(steps, k)
    ensures (states[k].wake.held <==> states[k].wake.count > 0) <==> states[k].wake.count == 0 || LastGrabOk(steps, k)
  {
    hide Inv, Covered, OnlyLastIsLive, LastIsScheduled, Apply, Enabled;
    if k > 0 {
      HeldIffCounted(states, steps, k - 1);
      RilRunKeepsInv(states, steps, k - 1);
      assert states[k - 1 + 1] == RilApply(states[k - 1], steps[k - 1]);
    }
  }

  /** Such a run: the failing grab drops the lock that an earlier grab counts on. */
  lemma FailedGrabDropsLock() returns (states: seq<Ril>, steps: seq<RilStep>)
    ensures RilRun(states, steps) && |states| == 3
    ensures states[2].wake.count > 0 && !states[2].wake.held
  {
    var start := Ril(Loop(0, 0, [], [], Top, 0, 0, [], []), Wake(0, false, None, {}, {}, 0));
    steps := [Grab(false, true), Grab(false, false)];
    var one := RilApply(start, steps[0]);
    var two := RilApply(one, steps[1]);
    states := [start, one, two];
  }

  // ----- what the counter counts

  /** The timer scheduled by the latest successful grab before step k. */
  ghost function LatestTimer(states: seq<Ril>, steps: seq<RilStep>, k: nat): Option<nat>
    requires k <= |steps| < |states|
  {
    if k == 0 then None
    else if steps[k - 1].Grab? && steps[k - 1].allocOk then Some(|states[k - 1].loop.added|)
    else LatestTimer(states, steps, k - 1)
  }

  /** Step k fires the timer of the latest successful grab. */
  ghost predicate FiresLatest(states: seq<Ril>, steps: seq<RilStep>, k: nat)
    requires k < |steps| < |states|
  {
    && steps[k] == LoopStep(FireNext) && states[k].loop.pending != [] && states[k].loop.pending[0].Expired?
    && LatestTimer(states, steps, k) == Some(states[k].loop.pending[0].timer.id)
  }

  /** The grabs outstanding before step k: a successful grab adds one, a release takes one away if there
      is one, and the timer of the latest grab, firing, takes all away. */
  ghost function Outstanding(states: seq<Ril>, steps: seq<RilStep>, k: nat): nat
    requires k <= |steps| < |states|
  {
    if k == 0 then 0
    else
      var before := Outstanding(states, steps, k - 1);
      match steps[k - 1]
      case Grab(_, allocOk) => if allocOk then before + 1 else before
      case Release => if before > 0 then before - 1 else 0
      case LoopStep(_) => if FiresLatest(states, steps, k - 1) then 0 else before
  }

  /** In every state of every run the counter is the number of outstanding grabs, and a remembered timer is
      the latest one. */
  lemma {:induction false} CounterCountsGrabs(states: seq<Ril>, steps: seq<RilStep>, k: nat)
    requires RilRun(states, steps) && k < |states|
    ensures states[k].wake.count == Outstanding(states, steps, k)
    ensures states[k].wake.last.Some? ==> states[k].wake.last == LatestTimer(states, steps, k)
  {
    hide Inv, Covered;
    if k > 0 {
      CounterCountsGrabs(states, steps, k - 1);
      RilRunKeepsInv(states, steps, k - 1);
      var (s, step) := (states[k - 1], steps[k - 1]);
      assert states[k - 1 + 1] == RilApply(s, step);
      if step == LoopStep(FireNext) && s.loop.pending[0].Expired? {
        FireSchedule(s.loop);
        assert Scheduled(s.loop)[0] == s.loop.pending[0].timer;
        assert Live(s.wake, Scheduled(s.loop)[0]) <==> FiresLatest(states, steps, k - 1) && s.wake.count > 0;
      }
    }
  }

  /** A release gives up the kernel lock and cancels the live timer if and only if at most one grab is
      outstanding; otherwise it takes one away and leaves lock and timers alone. */
  lemma RunReleaseDropsIff(states: seq<Ril>, steps: seq<RilStep>, k: nat)
    requires RilRun(states, steps) && k < |steps| && steps[k] == Release
    ensures var (n, w, w', line) := (Outstanding(states, steps, k), states[k].wake, states[k + 1].wake, Scheduled(states[k].loop));
            && Scheduled(states[k + 1].loop) == line
            && (if n <= 1
                then && w'.count == 0 && !w'.held
                     && forall i :: 0 <= i < |line| ==> !Live(w', line[i])
                else && w'.count == n - 1 && w'.held == w.held && w'.last == w.last
                     && (forall i :: 0 <= i < |line| ==> (Live(w', line[i]) <==> Live(w, line[i])))
                     && exists i :: 0 <= i < |line| && Live(w', line[i]))
  {
    CounterCountsGrabs(states, steps, k);
    RilRunKeepsInv(states, steps, k);
    RilRunKeepsInv(states, steps, k + 1);
    var (w, line) := (states[k].wake, Scheduled(states[k].loop));
    assert states[k + 1] == RilApply(states[k], steps[k]);
    if w.count > 1 {
      var i :| 0 <= i < |line| && line[i].id == w.last.value;
      assert Live(states[k + 1].wake, line[i]);
    }
  }
}
