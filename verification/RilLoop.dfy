/**
 Whole runs of the RIL event loop (ril/libril/ril_event.cpp, and the wake pipe of ril/libril/ril.cpp):
 timers, the loop's phases, and other threads that add timers and then write the wake pipe.
 Times are in microseconds. Each critical section and each callback is one step.
 */
module RilLoop {
  import opened Sequences

  datatype Timer = Timer(id: nat, deadline: int)

  /** A member of the pending list: an expired timer, the wake pipe's reader, or another watched fd. */
  datatype Item = Expired(timer: Timer) | DrainPipe | Watched(fd: int)

  datatype Firing = Firing(timer: Timer, at: int)

  datatype Phase =
    | Top                                                        // about to copy readFds and pick a timeout
    | Chosen(calcTime: int, delay: Option<int>)                  // timeout picked, not yet in select
    | Blocked(calcTime: int, delay: Option<int>, enteredAt: int) // inside select
    | Returned(pipeReady: bool)                                  // about to run processTimeouts
    | Collecting(pipeReady: bool)                                // about to run processReadReadies
    | FiringPending                                              // inside firePending
    | Stopped                                                    // select failed for good

  /** `owed` counts threads that have added a timer and not yet written the wake byte. `fired` and
      `added` are history; `cutoff` is the time at which processTimeouts last looked. */
  datatype Loop = Loop(
    now: int,
    cutoff: int,
    timers: seq<Timer>,
    pending: seq<Item>,
    phase: Phase,
    pipe: nat,
    owed: nat,
    fired: seq<Firing>,
    added: seq<Timer>)

  datatype Step =
    | Tick(d: nat)
    | AddTimer(delay: nat, byLoop: bool)
    | WriteWakeByte
    | ChooseTimeout
    | EnterSelect
    | LeaveSelect
    | Interrupted
    | SelectFailed
    | ProcessTimeouts
    | ProcessReadReadies(ready: seq<Item>)
    | FireNext
    | EndFiring

  ghost predicate Init(s: Loop) {
    && s.cutoff <= s.now && s.timers == [] && s.pending == [] && s.phase == Top
    && s.pipe == 0 && s.owed == 0 && s.fired == [] && s.added == []
  }

  /** ril_timer_add: before the first timer that is not earlier. */
  function Insert(timers: seq<Timer>, t: Timer): seq<Timer> {
    if timers == [] || timers[0].deadline >= t.deadline then [t] + timers
    else [timers[0]] + Insert(timers[1..], t)
  }

  /** processTimeouts: how many timers at the head are strictly past their deadline. */
  function ExpiredCount(timers: seq<Timer>, now: int): nat
    ensures ExpiredCount(timers, now) <= |timers|
  {
    if timers == [] || !(now > timers[0].deadline) then 0 else 1 + ExpiredCount(timers[1..], now)
  }

  function AsItems(timers: seq<Timer>): seq<Item> {
    seq(|timers|, i requires 0 <= i < |timers| => Expired(timers[i]))
  }

  /** calcNextTimeout: none, or the time left until the first deadline, or zero. */
  function NextDelay(timers: seq<Timer>, now: int): Option<int> {
    if timers == [] then None
    else if timers[0].deadline > now then Some(timers[0].deadline - now)
    else Some(0)
  }

  /** A blocked select that cannot stay blocked: a wake byte is there or the timeout has passed. */
  predicate MustReturn(s: Loop) {
    && s.phase.Blocked?
    && (s.pipe > 0 || (s.phase.delay.Some? && s.now >= s.phase.enteredAt + s.phase.delay.value))
  }

  /** Only callbacks, which run in firePending, add timers from the loop's own thread. Select may
      return at any moment because of other descriptors; `ready` lists the watched events it found. */
  predicate Enabled(s: Loop, step: Step) {
    match step
    case Tick(_) => true
    case AddTimer(_, byLoop) => byLoop ==> s.phase.FiringPending?
    case WriteWakeByte => s.owed > 0
    case ChooseTimeout => s.phase.Top?
    case EnterSelect => s.phase.Chosen?
    case LeaveSelect => s.phase.Blocked?
    case Interrupted => s.phase.Blocked?
    case SelectFailed => s.phase.Blocked?
    case ProcessTimeouts => s.phase.Returned?
    case ProcessReadReadies(ready) =>
      && s.phase.Collecting?
      && (DrainPipe in ready <==> s.phase.pipeReady)
      && (forall x :: x in ready ==> !x.Expired?)
    case FireNext => s.phase.FiringPending? && s.pending != []
    case EndFiring => s.phase.FiringPending? && s.pending == []
  }

  function Apply(s: Loop, step: Step): Loop
    requires Enabled(s, step)
  {
    match step
    case Tick(d) => s.(now := s.now + d)
    case AddTimer(delay, byLoop) =>
      var t := Timer(|s.added|, s.now + delay);
      s.(timers := Insert(s.timers, t), added := s.added + [t], owed := if byLoop then s.owed else s.owed + 1)
    case WriteWakeByte => s.(owed := s.owed - 1, pipe := s.pipe + 1)
    case ChooseTimeout => s.(phase := Chosen(s.now, NextDelay(s.timers, s.now)))
    case EnterSelect => s.(phase := Blocked(s.phase.calcTime, s.phase.delay, s.now))
    case LeaveSelect => s.(phase := Returned(s.pipe > 0))
    case Interrupted => s.(phase := Top)
    case SelectFailed => s.(phase := Stopped)
    case ProcessTimeouts =>
      var k := ExpiredCount(s.timers, s.now);
      s.(timers := s.timers[k..], pending := s.pending + AsItems(s.timers[..k]),
         cutoff := s.now, phase := Collecting(s.phase.pipeReady))
    case ProcessReadReadies(ready) => s.(pending := s.pending + ready, phase := FiringPending)
    case FireNext =>
      var rest := s.(pending := s.pending[1..]);
      (match s.pending[0]
       case Expired(t) => rest.(fired := s.fired + [Firing(t, s.now)])
       case DrainPipe => rest.(pipe := 0)
       case Watched(_) => rest)
    case EndFiring => s.(phase := Top)
  }

  ghost predicate Run(states: seq<Loop>, steps: seq<Step>) {
    && |states| == |steps| + 1
    && Init(states[0])
    && forall k :: 0 <= k < |steps| ==>
         Enabled(states[k], steps[k]) && states[k + 1] == Apply(states[k], steps[k])
  }

  // ----- the life line of timers: fired, then pending, then waiting

  function FiredTimers(fired: seq<Firing>): seq<Timer> {
    seq(|fired|, i requires 0 <= i < |fired| => fired[i].timer)
  }

  function ExpiredTimers(items: seq<Item>): seq<Timer> {
    if items == [] then []
    else (if items[0].Expired? then [items[0].timer] else []) + ExpiredTimers(items[1..])
  }

  /** Every timer of the run in the order in which it has fired or will fire. */
  ghost function LifeLine(s: Loop): seq<Timer> {
    FiredTimers(s.fired) + (ExpiredTimers(s.pending) + s.timers)
  }

  /** The firing order: earlier deadlines first and, of equal ones, the timer added later first. */
  predicate Precedes(a: Timer, b: Timer) {
    a.deadline < b.deadline || (a.deadline == b.deadline && a.id > b.id)
  }

  ghost predicate Sorted(ts: seq<Timer>) {
    forall i, j :: 0 <= i < j < |ts| ==> Precedes(ts[i], ts[j])
  }

  ghost predicate DueBefore(ts: seq<Timer>, time: int) {
    forall i :: 0 <= i < |ts| ==> ts[i].deadline < time
  }

  ghost predicate DueFrom(ts: seq<Timer>, time: int) {
    forall i :: 0 <= i < |ts| ==> time <= ts[i].deadline
  }

  /** Fired and pending timers are due before the cutoff, waiting ones not; firings are strictly late. */
  ghost predicate OnTime(s: Loop) {
    && s.cutoff <= s.now
    && DueBefore(FiredTimers(s.fired), s.cutoff)
    && DueBefore(ExpiredTimers(s.pending), s.cutoff)
    && DueFrom(s.timers, s.cutoff)
    && forall i :: 0 <= i < |s.fired| ==> s.fired[i].timer.deadline < s.fired[i].at
  }

  /** The life line is in firing order and holds each added timer once, under its own number. */
  ghost predicate Ordered(line: seq<Timer>, added: seq<Timer>) {
    && Sorted(line)
    && multiset(line) == multiset(added)
    && forall k :: 0 <= k < |added| ==> added[k].id == k
  }

  ghost predicate Inv(s: Loop) {
    OnTime(s) && Ordered(LifeLine(s), s.added)
  }

  lemma {:induction false} InsertSplits(timers: seq<Timer>, t: Timer) returns (k: nat)
    ensures k <= |timers| && Insert(timers, t) == timers[..k] + [t] + timers[k..]
    ensures forall i :: 0 <= i < k ==> timers[i].deadline < t.deadline
    ensures k < |timers| ==> t.deadline <= timers[k].deadline
  {
    if timers == [] || timers[0].deadline >= t.deadline {
      k := 0;
    } else {
      var j := InsertSplits(timers[1..], t);
      k := j + 1;
      assert timers == [timers[0]] + timers[1..];
    }
  }

  lemma InsertInMiddle(line: seq<Timer>, p: nat, t: Timer)
    requires Sorted(line) && p <= |line| && NewerThan(t, line)
    requires forall i :: 0 <= i < p ==> line[i].deadline < t.deadline
    requires p < |line| ==> t.deadline <= line[p].deadline
    ensures Sorted(InsertAt(line, p, t))
  {
    var longer := InsertAt(line, p, t);
    hide InsertAt;
    forall i, j | 0 <= i < j <= |line| ensures Precedes(longer[i], longer[j]) {
      InsertAtIndex(line, p, t, i);
      InsertAtIndex(line, p, t, j);
    }
  }

  ghost predicate NewerThan(t: Timer, ts: seq<Timer>) {
    forall i :: 0 <= i < |ts| ==> ts[i].id < t.id
  }

  /** Inserting a new timer keeps a line in firing order when everything before it is due earlier. */
  lemma InsertKeepsSorted(done: seq<Timer>, timers: seq<Timer>, t: Timer)
    requires Sorted(done + timers) && DueBefore(done, t.deadline) && NewerThan(t, done + timers)
    ensures Sorted(done + Insert(timers, t))
    ensures multiset(done + Insert(timers, t)) == multiset(done + timers) + multiset{t}
  {
    var k := InsertSplits(timers, t);
    var (all, p) := (done + timers, |done| + k);
    assert forall i :: 0 <= i < p ==> all[i] == if i < |done| then done[i] else timers[i - |done|];
    InsertInMiddle(all, p, t);
    InsertAtMultiset(all, p, t);
    assert done + Insert(timers, t) == InsertAt(all, p, t);
  }

  lemma {:induction false} ExpiredTimersAppend(u: seq<Item>, v: seq<Item>)
    ensures ExpiredTimers(u + v) == ExpiredTimers(u) + ExpiredTimers(v)
  {
    if u == [] {
      assert u + v == v;
    } else {
      var (rest, head) := (u[1..], if u[0].Expired? then [u[0].timer] else []);
      ExpiredTimersAppend(rest, v);
      assert (u + v)[1..] == rest + v && (u + v)[0] == u[0];
      AppendAssoc(head, ExpiredTimers(rest), ExpiredTimers(v));
    }
  }

  lemma {:induction false} ExpiredTimersOfTimers(timers: seq<Timer>)
    ensures ExpiredTimers(AsItems(timers)) == timers
  {
    if timers != [] {
      assert AsItems(timers)[1..] == AsItems(timers[1..]);
      ExpiredTimersOfTimers(timers[1..]);
    }
  }

  lemma {:induction false} NoExpiredTimers(items: seq<Item>)
    requires forall x :: x in items ==> !x.Expired?
    ensures ExpiredTimers(items) == []
  {
    if items != [] {
      NoExpiredTimers(items[1..]);
    }
  }

  lemma {:induction false} ExpiredCountSplits(timers: seq<Timer>, now: int)
    requires Sorted(timers)
    ensures DueBefore(timers[..ExpiredCount(timers, now)], now)
    ensures DueFrom(timers[ExpiredCount(timers, now)..], now)
  {
    if timers != [] && now > timers[0].deadline {
      var k := ExpiredCount(timers[1..], now);
      ExpiredCountSplits(timers[1..], now);
      assert timers[..k + 1] == [timers[0]] + timers[1..][..k];
      assert timers[k + 1..] == timers[1..][k..];
    }
  }

  lemma InsertDueFrom(timers: seq<Timer>, t: Timer, time: int)
    requires DueFrom(timers, time) && time <= t.deadline
    ensures DueFrom(Insert(timers, t), time)
  {
    var k := InsertSplits(timers, t);
    forall i | 0 <= i <= |timers| ensures time <= Insert(timers, t)[i].deadline {
      InsertAtIndex(timers, k, t, i);
    }
  }

  lemma OrderedAfterAdd(done: seq<Timer>, timers: seq<Timer>, added: seq<Timer>, t: Timer)
    requires Ordered(done + timers, added) && DueBefore(done, t.deadline) && t.id == |added|
    ensures Ordered(done + Insert(timers, t), added + [t])
  {
    AddedIds(done + timers, added);
    InsertKeepsSorted(done, timers, t);
  }

  lemma AddedIds(line: seq<Timer>, added: seq<Timer>)
    requires multiset(line) == multiset(added) && forall k :: 0 <= k < |added| ==> added[k].id == k
    ensures forall i :: 0 <= i < |line| ==> line[i] in added && line[i].id < |added|
  {
    forall i | 0 <= i < |line| ensures line[i] in added {
      assert line[i] in multiset(line);
    }
  }

  lemma AddTimerKeepsInv(s: Loop, delay: nat, byLoop: bool)
    requires Inv(s) && Enabled(s, AddTimer(delay, byLoop))
    ensures Inv(Apply(s, AddTimer(delay, byLoop)))
  {
    var s' := Apply(s, AddTimer(delay, byLoop));
    var t := Timer(|s.added|, s.now + delay);
    var done := FiredTimers(s.fired) + ExpiredTimers(s.pending);
    LifeLineSplits(s);
    LifeLineSplits(s');
    InsertDueFrom(s.timers, t, s.cutoff);
    OrderedAfterAdd(done, s.timers, s.added, t);
  }

  lemma LifeLineSplits(s: Loop)
    ensures LifeLine(s) == FiredTimers(s.fired) + ExpiredTimers(s.pending) + s.timers
  {
    AppendAssoc(FiredTimers(s.fired), ExpiredTimers(s.pending), s.timers);
  }

  lemma ProcessTimeoutsKeepsLine(s: Loop)
    requires Enabled(s, ProcessTimeouts)
    ensures var (s', k) := (Apply(s, ProcessTimeouts), ExpiredCount(s.timers, s.now));
            && ExpiredTimers(s'.pending) == ExpiredTimers(s.pending) + s.timers[..k]
            && LifeLine(s') == LifeLine(s)
  {
    hide ExpiredCount, AsItems, ExpiredTimers, FiredTimers;
    var k := ExpiredCount(s.timers, s.now);
    ExpiredTimersAppend(s.pending, AsItems(s.timers[..k]));
    ExpiredTimersOfTimers(s.timers[..k]);
    AppendSplit(ExpiredTimers(s.pending), s.timers, k);
  }

  lemma DueBeforeAppend(u: seq<Timer>, v: seq<Timer>, time: int)
    requires DueBefore(u, time) && DueBefore(v, time)
    ensures DueBefore(u + v, time)
  {
  }

  lemma DueBeforeLater(ts: seq<Timer>, time: int, later: int)
    requires DueBefore(ts, time) && time <= later
    ensures DueBefore(ts, later)
  {
  }

  lemma ProcessTimeoutsOnTime(s: Loop)
    requires OnTime(s) && Sorted(s.timers) && Enabled(s, ProcessTimeouts)
    ensures OnTime(Apply(s, ProcessTimeouts))
  {
    ProcessTimeoutsKeepsLine(s);
    ExpiredCountSplits(s.timers, s.now);
    hide LifeLine, Sorted, ExpiredCount, ExpiredTimers, DueBefore;
    var k := ExpiredCount(s.timers, s.now);
    DueBeforeLater(FiredTimers(s.fired), s.cutoff, s.now);
    DueBeforeLater(ExpiredTimers(s.pending), s.cutoff, s.now);
    DueBeforeAppend(ExpiredTimers(s.pending), s.timers[..k], s.now);
  }

  /** Expiring moves the boundary between waiting and pending; the life line stays the same. */
  lemma ProcessTimeoutsKeepsInv(s: Loop)
    requires Inv(s) && Enabled(s, ProcessTimeouts)
    ensures Inv(Apply(s, ProcessTimeouts))
  {
    hide LifeLine, Sorted, OnTime, ExpiredTimers, FiredTimers, ExpiredCount, AsItems;
    LifeLineSplits(s);
    SortedSuffix(FiredTimers(s.fired) + ExpiredTimers(s.pending), s.timers);
    ProcessTimeoutsKeepsLine(s);
    ProcessTimeoutsOnTime(s);
  }

  lemma SortedSuffix(u: seq<Timer>, v: seq<Timer>)
    requires Sorted(u + v)
    ensures Sorted(v)
  {
    forall i, j | 0 <= i < j < |v| ensures Precedes(v[i], v[j]) {
      assert (u + v)[|u| + i] == v[i] && (u + v)[|u| + j] == v[j];
    }
  }

  /** Firing moves the boundary between pending and fired; the life line stays the same. */
  lemma FireKeepsLine(s: Loop)
    requires Enabled(s, FireNext)
    ensures var (s', x) := (Apply(s, FireNext), s.pending[0]);
            && LifeLine(s') == LifeLine(s)
            && ExpiredTimers(s.pending) == (if x.Expired? then [x.timer] else []) + ExpiredTimers(s'.pending)
            && FiredTimers(s'.fired) == FiredTimers(s.fired) + if x.Expired? then [x.timer] else []
  {
    var s' := Apply(s, FireNext);
    if s.pending[0].Expired? {
      var t := s.pending[0].timer;
      assert FiredTimers(s'.fired) == FiredTimers(s.fired) + [t];
      assert FiredTimers(s.fired) + [t] + (ExpiredTimers(s'.pending) + s.timers)
          == FiredTimers(s.fired) + ([t] + ExpiredTimers(s'.pending) + s.timers);
    } else {
      assert ExpiredTimers(s'.pending) == ExpiredTimers(s.pending);
    }
  }

  lemma DueBeforeHead(t: Timer, rest: seq<Timer>, time: int)
    requires DueBefore([t] + rest, time)
    ensures t.deadline < time && DueBefore(rest, time)
  {
    assert ([t] + rest)[0] == t;
    assert forall i :: 0 <= i < |rest| ==> rest[i] == ([t] + rest)[i + 1];
  }

  lemma FireExpiredKeepsInv(s: Loop)
    requires Inv(s) && Enabled(s, FireNext) && s.pending[0].Expired?
    ensures Inv(Apply(s, FireNext))
  {
    var (s', t) := (Apply(s, FireNext), s.pending[0].timer);
    FireKeepsLine(s);
    DueBeforeHead(t, ExpiredTimers(s'.pending), s.cutoff);
    assert DueBefore(FiredTimers(s.fired) + [t], s.cutoff);
  }

  lemma FireNextKeepsInv(s: Loop)
    requires Inv(s) && Enabled(s, FireNext)
    ensures Inv(Apply(s, FireNext))
  {
    if s.pending[0].Expired? {
      FireExpiredKeepsInv(s);
    } else {
      FireKeepsLine(s);
      QuietStepKeepsInv(s, Apply(s, FireNext));
    }
  }

  lemma QuietStepKeepsInv(s: Loop, s': Loop)
    requires Inv(s) && s.now <= s'.now && s'.cutoff == s.cutoff
    requires s'.timers == s.timers && s'.fired == s.fired && s'.added == s.added
    requires ExpiredTimers(s'.pending) == ExpiredTimers(s.pending)
    ensures Inv(s')
  {
    assert LifeLine(s') == LifeLine(s);
  }

  lemma ProcessReadReadiesKeepsInv(s: Loop, ready: seq<Item>)
    requires Inv(s) && Enabled(s, ProcessReadReadies(ready))
    ensures Inv(Apply(s, ProcessReadReadies(ready)))
  {
    NoExpiredTimers(ready);
    ExpiredTimersAppend(s.pending, ready);
    QuietStepKeepsInv(s, Apply(s, ProcessReadReadies(ready)));
  }

  lemma InvStep(s: Loop, step: Step)
    requires Inv(s) && Enabled(s, step)
    ensures Inv(Apply(s, step))
  {
    match step
    case AddTimer(delay, byLoop) => AddTimerKeepsInv(s, delay, byLoop);
    case ProcessTimeouts => ProcessTimeoutsKeepsInv(s);
    case ProcessReadReadies(ready) => ProcessReadReadiesKeepsInv(s, ready);
    case FireNext => FireNextKeepsInv(s);
    case _ => QuietStepKeepsInv(s, Apply(s, step));
  }

  // ----- no oversleeping

  /** From picking a timeout until select returns, a thread still owes its wake byte, or a byte is in
      the pipe, or the timeout reaches no further than the first deadline (or is zero). */
  ghost predicate Covered(s: Loop) {
    && (s.phase.Chosen? ==> s.phase.calcTime <= s.now)
    && (s.phase.Blocked? ==> s.phase.calcTime <= s.phase.enteredAt <= s.now)
    && ((s.phase.Chosen? || s.phase.Blocked?) ==>
          || s.owed > 0 || s.pipe > 0 || s.timers == []
          || (&& s.phase.delay.Some?
              && 0 <= s.phase.delay.value
              && (s.phase.delay.value == 0 || s.phase.calcTime + s.phase.delay.value <= s.timers[0].deadline)))
  }

  lemma CoveredStep(s: Loop, step: Step)
    requires Covered(s) && Enabled(s, step)
    ensures Covered(Apply(s, step))
  {
  }

  // ----- every run

  lemma {:induction false} RunKeepsInv(states: seq<Loop>, steps: seq<Step>, k: nat)
    requires Run(states, steps) && k < |states|
    ensures Inv(states[k]) && Covered(states[k])
  {
    if k > 0 {
      RunKeepsInv(states, steps, k - 1);
      assert states[k - 1 + 1] == Apply(states[k - 1], steps[k - 1]);
      InvStep(states[k - 1], steps[k - 1]);
      CoveredStep(states[k - 1], steps[k - 1]);
    }
  }

  /** The timers of a life line are distinct, because the ids of the added ones are. */
  lemma LineDistinct(line: seq<Timer>, added: seq<Timer>, i: nat, j: nat)
    requires multiset(line) == multiset(added) && forall k :: 0 <= k < |added| ==> added[k].id == k
    requires i < j < |line|
    ensures line[i].id != line[j].id
  {
    var (a, b) := (line[i], line[j]);
    assert a in multiset(line) && b in multiset(line);
    assert a in added && b in added;
    if a.id == b.id {
      assert a == b == added[a.id];
      assert line == line[..i] + [a] + line[i + 1..j] + [a] + line[j + 1..];
      assert multiset(line)[a] >= 2;
      OccursOnce(added, a.id);
    }
  }

  lemma OccursOnce(added: seq<Timer>, n: nat)
    requires n < |added| && forall k :: 0 <= k < |added| ==> added[k].id == k
    ensures multiset(added)[added[n]] == 1
  {
    var x := added[n];
    assert added == added[..n] + [x] + added[n + 1..];
    assert x !in added[..n] && x !in added[n + 1..];
  }

  /** In every run each timer fires at most once, strictly after its deadline, and callbacks fire in the
      firing order, across loop iterations and concurrent additions. */
  lemma RunFiresInOrder(states: seq<Loop>, steps: seq<Step>, k: nat)
    requires Run(states, steps) && k < |states|
    ensures forall i :: 0 <= i < |states[k].fired| ==> states[k].fired[i].timer.deadline < states[k].fired[i].at
    ensures forall i, j :: 0 <= i < j < |states[k].fired| ==>
              && states[k].fired[i].timer.id != states[k].fired[j].timer.id
              && Precedes(states[k].fired[i].timer, states[k].fired[j].timer)
    ensures forall i :: 0 <= i < |states[k].fired| ==> states[k].fired[i].timer in states[k].added
  {
    RunKeepsInv(states, steps, k);
    var s := states[k];
    var line := LifeLine(s);
    AddedIds(line, s.added);
    forall i | 0 <= i < |s.fired| ensures s.fired[i].timer in s.added {
      assert line[i] == s.fired[i].timer;
    }
    forall i, j | 0 <= i < j < |s.fired|
      ensures s.fired[i].timer.id != s.fired[j].timer.id && Precedes(s.fired[i].timer, s.fired[j].timer)
    {
      assert line[i] == s.fired[i].timer && line[j] == s.fired[j].timer;
      LineDistinct(line, s.added, i, j);
    }
  }

  /** A run goes on with any enabled step. */
  lemma Continue(states: seq<Loop>, steps: seq<Step>, step: Step) returns (states': seq<Loop>, steps': seq<Step>)
    requires Run(states, steps) && Enabled(states[|steps|], step)
    ensures Run(states', steps') && steps' == steps + [step]
    ensures states'[|steps'|] == Apply(states[|steps|], step)
  {
    states', steps' := states + [Apply(states[|steps|], step)], steps + [step];
  }

  lemma TwoAdded() returns (states: seq<Loop>, steps: seq<Step>)
    ensures Run(states, steps)
    ensures states[|steps|] == Loop(0, 0, [Timer(1, 5), Timer(0, 5)], [], Top, 0, 2, [], [Timer(0, 5), Timer(1, 5)])
  {
    states, steps := [Loop(0, 0, [], [], Top, 0, 0, [], [])], [];
    hide Run;
    states, steps := Continue(states, steps, AddTimer(5, false));
    states, steps := Continue(states, steps, AddTimer(5, false));
    assert Insert([Timer(0, 5)], Timer(1, 5)) == [Timer(1, 5), Timer(0, 5)];
  }

  lemma TwoOverslept() returns (states: seq<Loop>, steps: seq<Step>)
    ensures Run(states, steps)
    ensures states[|steps|] ==
            Loop(6, 0, [Timer(1, 5), Timer(0, 5)], [], Returned(false), 0, 2, [], [Timer(0, 5), Timer(1, 5)])
  {
    states, steps := TwoAdded();
    hide Run;
    states, steps := Continue(states, steps, ChooseTimeout);
    states, steps := Continue(states, steps, EnterSelect);
    states, steps := Continue(states, steps, Tick(6));
    states, steps := Continue(states, steps, LeaveSelect);
  }

  /** Two timers with the same deadline, both expired. */
  lemma TwoEqualDeadlines() returns (states: seq<Loop>, steps: seq<Step>)
    ensures Run(states, steps) && states[|steps|].phase.FiringPending?
    ensures var s := states[|steps|];
            && s.now == 6 && s.fired == [] && s.added == [Timer(0, 5), Timer(1, 5)]
            && s.pending == [Expired(Timer(1, 5)), Expired(Timer(0, 5))]
  {
    states, steps := TwoOverslept();
    hide Run;
    assert ExpiredCount([Timer(1, 5), Timer(0, 5)], 6) == 2;
    states, steps := Continue(states, steps, ProcessTimeouts);
    states, steps := Continue(states, steps, ProcessReadReadies([]));
  }

  /** A run in which two timers have the same deadline: the one added second fires first. */
  lemma EqualDeadlinesFireNewestFirst() returns (states: seq<Loop>, steps: seq<Step>)
    ensures Run(states, steps)
    ensures states[|steps|].added == [Timer(0, 5), Timer(1, 5)]
    ensures states[|steps|].fired == [Firing(Timer(1, 5), 6), Firing(Timer(0, 5), 6)]
  {
    states, steps := TwoEqualDeadlines();
    states, steps := Continue(states, steps, FireNext);
    states, steps := Continue(states, steps, FireNext);
  }

  /** Conservation: every timer ever added has fired, is pending or is waiting, exactly once. */
  lemma RunLosesNoTimer(states: seq<Loop>, steps: seq<Step>, k: nat)
    requires Run(states, steps) && k < |states|
    ensures multiset(states[k].added) ==
            multiset(FiredTimers(states[k].fired)) + multiset(ExpiredTimers(states[k].pending)) + multiset(states[k].timers)
  {
    RunKeepsInv(states, steps, k);
  }

  /** Inside select with no wake write outstanding, once the clock reaches the first deadline plus the
      time that passed between picking the timeout and entering select, select cannot stay blocked. */
  lemma RunNeverOversleeps(states: seq<Loop>, steps: seq<Step>, k: nat)
    requires Run(states, steps) && k < |states|
    ensures var s := states[k];
            s.phase.Blocked? && s.owed == 0 && s.timers != [] &&
            s.now >= s.timers[0].deadline + (s.phase.enteredAt - s.phase.calcTime)
            ==> MustReturn(s)
  {
    RunKeepsInv(states, steps, k);
  }

  /** The delay is right for these timers and this time: none without timers; else as long as to the
      earliest deadline; zero exactly when that is reached. */
  ghost predicate RightDelay(timers: seq<Timer>, now: int, delay: Option<int>) {
    match delay
    case None => timers == []
    case Some(d) =>
      && timers != [] && d >= 0
      && (d > 0 ==>
            && (forall i :: 0 <= i < |timers| ==> now + d <= timers[i].deadline)
            && (exists i :: 0 <= i < |timers| && timers[i].deadline == now + d))
      && (d == 0 <==> exists i :: 0 <= i < |timers| && timers[i].deadline <= now)
  }

  lemma NextDelayIsRight(timers: seq<Timer>, now: int)
    requires Sorted(timers)
    ensures RightDelay(timers, now, NextDelay(timers, now))
  {
    if timers != [] {
      forall i | 0 <= i < |timers| ensures timers[0].deadline <= timers[i].deadline {
        assert i > 0 ==> Precedes(timers[0], timers[i]);
      }
    }
  }

  /** On every run, from picking a delay until select returns: step j picked it, at that time, and it was
      right for the timers waiting then. */
  lemma {:induction false} RunPicksRightDelay(states: seq<Loop>, steps: seq<Step>, k: nat) returns (j: nat)
    requires Run(states, steps) && k < |states| && (states[k].phase.Chosen? || states[k].phase.Blocked?)
    ensures j < k && steps[j] == ChooseTimeout && forall m :: j < m < k ==> steps[m] != ChooseTimeout
    ensures states[j].now == states[k].phase.calcTime
    ensures RightDelay(states[j].timers, states[j].now, states[k].phase.delay)
  {
    hide RightDelay, Inv;
    var (s, step) := (states[k - 1], steps[k - 1]);
    assert states[k - 1 + 1] == Apply(s, step);
    if step == ChooseTimeout {
      j := k - 1;
      WaitingAreSorted(states, steps, j);
      NextDelayIsRight(s.timers, s.now);
    } else {
      j := RunPicksRightDelay(states, steps, k - 1);
    }
  }

  lemma WaitingAreSorted(states: seq<Loop>, steps: seq<Step>, k: nat)
    requires Run(states, steps) && k < |states|
    ensures Sorted(states[k].timers)
  {
    RunKeepsInv(states, steps, k);
    LifeLineSplits(states[k]);
    SortedSuffix(FiredTimers(states[k].fired) + ExpiredTimers(states[k].pending), states[k].timers);
  }

  /** A step of another thread or of the clock. */
  predicate IsOutside(step: Step) {
    step.Tick? || step.WriteWakeByte? || (step.AddTimer? && !step.byLoop)
  }

  /** The loop's own step before state k was step j. */
  ghost predicate LastOwnStep(steps: seq<Step>, k: nat, j: nat) {
    j < k <= |steps| && !IsOutside(steps[j]) && forall m :: j < m < k ==> IsOutside(steps[m])
  }

  /** On every run timers are looked at only after a select that returned, not after an interrupted one;
      and the loop is back at its top only at the start, after an interrupted select, or after firing. */
  lemma {:induction false} RunLooksAfterSelect(states: seq<Loop>, steps: seq<Step>, k: nat) returns (j: nat)
    requires Run(states, steps) && k < |states| && (states[k].phase.Returned? || states[k].phase.Top?)
    ensures states[k].phase.Returned? ==>
              && LastOwnStep(steps, k, j) && steps[j] == LeaveSelect
              && states[k].phase.pipeReady == (states[j].pipe > 0)
    ensures states[k].phase.Top? ==>
              || (LastOwnStep(steps, k, j) && steps[j] in {Interrupted, EndFiring})
              || forall m :: 0 <= m < k ==> IsOutside(steps[m])
  {
    j := 0;
    if k > 0 {
      assert states[k - 1 + 1] == Apply(states[k - 1], steps[k - 1]);
      if IsOutside(steps[k - 1]) {
        j := RunLooksAfterSelect(states, steps, k - 1);
      } else {
        j := k - 1;
      }
    }
  }

  /** Once select has failed for good nothing fires any more. */
  lemma {:induction false} RunStopsForGood(states: seq<Loop>, steps: seq<Step>, j: nat, k: nat)
    requires Run(states, steps) && j < k < |states| && steps[j] == SelectFailed
    ensures states[k].phase.Stopped? && states[k].fired == states[j].fired
  {
    assert states[k - 1 + 1] == Apply(states[k - 1], steps[k - 1]);
    if j < k - 1 {
      RunStopsForGood(states, steps, j, k - 1);
    }
  }

  // ----- one iteration of the loop

  ghost predicate CanRun(s: Loop, steps: seq<Step>)
    decreases |steps|
  {
    steps == [] || (Enabled(s, steps[0]) && CanRun(Apply(s, steps[0]), steps[1..]))
  }

  ghost function RunFrom(s: Loop, steps: seq<Step>): Loop
    requires CanRun(s, steps)
    decreases |steps|
  {
    if steps == [] then s else RunFrom(Apply(s, steps[0]), steps[1..])
  }

  function FireAll(n: nat): seq<Step> {
    if n == 0 then [EndFiring] else [FireNext] + FireAll(n - 1)
  }

  function FiringsAt(timers: seq<Timer>, at: int): seq<Firing> {
    seq(|timers|, i requires 0 <= i < |timers| => Firing(timers[i], at))
  }

  /** Firing everything pending, with nothing in between. */
  lemma {:induction false} FireAllMeans(s: Loop)
    requires s.phase.FiringPending?
    ensures CanRun(s, FireAll(|s.pending|))
    ensures RunFrom(s, FireAll(|s.pending|)) ==
            s.(pending := [], phase := Top, pipe := if DrainPipe in s.pending then 0 else s.pipe,
               fired := s.fired + FiringsAt(ExpiredTimers(s.pending), s.now))
    decreases |s.pending|
  {
    if s.pending == [] {
      assert s.fired + FiringsAt([], s.now) == s.fired;
      assert FireAll(0)[1..] == [];
    } else {
      var (s', head) := (Apply(s, FireNext), if s.pending[0].Expired? then [s.pending[0].timer] else []);
      FireAllMeans(s');
      assert FireAll(|s.pending|)[1..] == FireAll(|s'.pending|);
      assert s.pending == [s.pending[0]] + s'.pending;
      assert FiringsAt(ExpiredTimers(s.pending), s.now) ==
             FiringsAt(head, s.now) + FiringsAt(ExpiredTimers(s'.pending), s.now);
      AppendAssoc(s.fired, FiringsAt(head, s.now), FiringsAt(ExpiredTimers(s'.pending), s.now));
      assert s.fired + FiringsAt(head, s.now) == s'.fired;
    }
  }

  /** The steps from select's return to the top of the loop. */
  function IterationSteps(s: Loop, ready: seq<Item>): seq<Step> {
    [ProcessTimeouts, ProcessReadReadies(ready)] + FireAll(|s.pending| + ExpiredCount(s.timers, s.now) + |ready|)
  }

  ghost predicate CanIterate(s: Loop, ready: seq<Item>) {
    && s.phase.Returned? && s.pending == []
    && (DrainPipe in ready <==> s.phase.pipeReady) && forall x :: x in ready ==> !x.Expired?
  }

  /** One undisturbed iteration fires exactly the expired timers, in order, then what is ready, and
      empties the pipe when it was ready. */
  lemma IterationMeans(s: Loop, ready: seq<Item>)
    requires CanIterate(s, ready)
    ensures CanRun(s, IterationSteps(s, ready))
    ensures var k := ExpiredCount(s.timers, s.now);
            RunFrom(s, IterationSteps(s, ready)) ==
            s.(timers := s.timers[k..], cutoff := s.now, phase := Top,
               pipe := if s.phase.pipeReady then 0 else s.pipe,
               fired := s.fired + FiringsAt(s.timers[..k], s.now))
  {
    hide CanRun, RunFrom, FireAll, ExpiredCount, ExpiredTimers, AsItems, FiringsAt;
    var steps := IterationSteps(s, ready);
    var b := Apply(Apply(s, ProcessTimeouts), ProcessReadReadies(ready));
    CollectedPending(s, ready);
    FireAllMeans(b);
    RunTwo(s, steps);
  }

  lemma CollectedPending(s: Loop, ready: seq<Item>)
    requires CanIterate(s, ready)
    ensures var (k, b) := (ExpiredCount(s.timers, s.now), Apply(Apply(s, ProcessTimeouts), ProcessReadReadies(ready)));
            && b.pending == AsItems(s.timers[..k]) + ready && |b.pending| == k + |ready|
            && ExpiredTimers(b.pending) == s.timers[..k]
            && (DrainPipe in b.pending <==> s.phase.pipeReady)
  {
    hide ExpiredCount, ExpiredTimers;
    var k := ExpiredCount(s.timers, s.now);
    assert [] + AsItems(s.timers[..k]) == AsItems(s.timers[..k]);
    ExpiredTimersOfTimers(s.timers[..k]);
    NoExpiredTimers(ready);
    ExpiredTimersAppend(AsItems(s.timers[..k]), ready);
  }

  lemma RunTwo(s: Loop, steps: seq<Step>)
    requires |steps| >= 2 && Enabled(s, steps[0]) && Enabled(Apply(s, steps[0]), steps[1])
    requires CanRun(Apply(Apply(s, steps[0]), steps[1]), steps[2..])
    ensures CanRun(s, steps)
    ensures RunFrom(s, steps) == RunFrom(Apply(Apply(s, steps[0]), steps[1]), steps[2..])
  {
    hide Enabled, Apply;
    assert steps[1..][1..] == steps[2..] && steps[1..][0] == steps[1];
  }

  /** A blocked select that returns, and the iteration behind it, leave no wake byte in the pipe, however
      many there were. */
  lemma SelectThenIterationDrains(s: Loop, ready: seq<Item>)
    requires s.phase.Blocked? && s.pending == []
    requires (DrainPipe in ready <==> s.pipe > 0) && forall x :: x in ready ==> !x.Expired?
    ensures var r := Apply(s, LeaveSelect);
            && CanRun(r, IterationSteps(r, ready))
            && RunFrom(r, IterationSteps(r, ready)).pipe == 0
  {
    hide CanRun, RunFrom, IterationSteps;
    IterationMeans(Apply(s, LeaveSelect), ready);
  }
}
