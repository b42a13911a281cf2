/**
 Whole runs of the library (ril/libril/ril.cpp and ril/libril/ril_event.cpp): the event loop, the wake
 lock, and one request list per socket, together.
 */
module RilSystemRuns {
  import opened Sequences
  import opened RilRequests
  import opened RilWakeLock
  import opened RilSystem

  /** One request state per list, at least one. */
  datatype System = System(ril: Ril, requests: seq<State>)

  /** A step of the loop or the wake lock, a request issued or acknowledged on a socket, or a completion
      together with the grab that it may make. */
  datatype SystemStep =
    | Radio(rilStep: RilStep)
    | Ask(socket: int, request: Step)
    | Finish(socket: int, id: nat, byLoop: bool, allocOk: bool)

  /** Completing this request makes a response that asks for an acknowledgement. */
  predicate ExpectsAck(version: int, s: State, id: nat) {
    var rs := Apply(version, s, Complete(id)).responses;
    |rs| > |s.responses| && rs[|s.responses|].ackExpected
  }

  /** The list of a socket. */
  function ListOf(s: System, socket: int): State {
    if s.requests == [] then State([], 0, []) else s.requests[SlotOf(socket, |s.requests|)]
  }

  /** What a step does to the loop and the wake lock. */
  function RilPart(version: int, s: System, step: SystemStep): Option<RilStep> {
    match step
    case Radio(rilStep) => Some(rilStep)
    case Ask(_, _) => None
    case Finish(socket, id, byLoop, allocOk) =>
      if ExpectsAck(version, ListOf(s, socket), id) then Some(Grab(byLoop, allocOk)) else None
  }

  /** What a step does to list i of n. */
  function RequestPart(step: SystemStep, i: nat, n: nat): Option<Step> {
    match step
    case Radio(_) => None
    case Ask(socket, request) => if SlotOf(socket, n) == i then Some(request) else None
    case Finish(socket, id, _, _) => if SlotOf(socket, n) == i then Some(Complete(id)) else None
  }

  predicate SystemEnabled(version: int, s: System, step: SystemStep) {
    && (step.Ask? ==> !step.request.Complete?)
    && (RilPart(version, s, step).Some? ==> RilEnabled(s.ril, RilPart(version, s, step).value))
  }

  function After(version: int, s: State, part: Option<Step>): State {
    if part.None? then s else Apply(version, s, part.value)
  }

  function SystemApply(version: int, s: System, step: SystemStep): System
    requires SystemEnabled(version, s, step)
  {
    var n := |s.requests|;
    System(if RilPart(version, s, step).None? then s.ril else RilApply(s.ril, RilPart(version, s, step).value),
           seq(n, i requires 0 <= i < n => After(version, s.requests[i], RequestPart(step, i, n))))
  }

  ghost predicate SystemRun(version: int, states: seq<System>, steps: seq<SystemStep>) {
    && version >= 13
    && |states| == |steps| + 1
    && RilInit(states[0].ril) && states[0].requests != []
    && (forall i :: 0 <= i < |states[0].requests| ==> states[0].requests[i] == State([], 0, []))
    && forall k :: 0 <= k < |steps| ==>
         SystemEnabled(version, states[k], steps[k]) && states[k + 1] == SystemApply(version, states[k], steps[k])
  }

  /** The number of lists does not change. */
  lemma {:induction false} SameLists(version: int, states: seq<System>, steps: seq<SystemStep>, k: nat)
    requires SystemRun(version, states, steps) && k < |states|
    ensures |states[k].requests| == |states[0].requests|
  {
    if k > 0 {
      SameLists(version, states, steps, k - 1);
      assert states[k - 1 + 1] == SystemApply(version, states[k - 1], steps[k - 1]);
    }
  }

  /** `steps` are the steps among `parts`, and at[j] of them come from the first j. */
  ghost predicate Compacts<P>(parts: seq<Option<P>>, steps: seq<P>, at: seq<nat>) {
    && |at| == |parts| + 1
    && at[0] == 0 && at[|parts|] == |steps|
    && forall j :: 0 <= j < |parts| ==> Moves(parts[j], at[j], at[j + 1], steps)
  }

  ghost predicate Moves<P>(part: Option<P>, from: nat, to: nat, steps: seq<P>) {
    match part
    case None => to == from
    case Some(step) => to == from + 1 && from < |steps| && steps[from] == step
  }

  /** State j of the whole shows state at[j] of the part. */
  ghost predicate Follows<S>(whole: seq<S>, parts: seq<S>, at: seq<nat>) {
    |at| == |whole| && forall j :: 0 <= j < |at| ==> at[j] < |parts| && parts[at[j]] == whole[j]
  }

  lemma CompactsSnoc<P>(parts: seq<Option<P>>, steps: seq<P>, at: seq<nat>, part: Option<P>)
    requires Compacts(parts, steps, at)
    ensures var longer := steps + if part.Some? then [part.value] else [];
            Compacts(parts + [part], longer, at + [|longer|])
  {
    var longer := steps + if part.Some? then [part.value] else [];
    var at' := at + [|longer|];
    forall j | 0 <= j <= |parts| ensures Moves((parts + [part])[j], at'[j], at'[j + 1], longer) {
      if j < |parts| {
        assert Moves(parts[j], at[j], at[j + 1], steps);
      }
    }
  }

  function RilStates(states: seq<System>): (rils: seq<Ril>)
    ensures |rils| == |states|
  {
    seq(|states|, j requires 0 <= j < |states| => states[j].ril)
  }

  function RilParts(version: int, states: seq<System>, steps: seq<SystemStep>): (parts: seq<Option<RilStep>>)
    requires |steps| <= |states|
    ensures |parts| == |steps|
  {
    seq(|steps|, j requires 0 <= j < |steps| => RilPart(version, states[j], steps[j]))
  }

  /** List i through the run, and the steps about it. */
  function ListStates(states: seq<System>, i: nat): (requests: seq<State>)
    requires forall j :: 0 <= j < |states| ==> i < |states[j].requests|
    ensures |requests| == |states|
  {
    seq(|states|, j requires 0 <= j < |states| => states[j].requests[i])
  }

  function ListParts(steps: seq<SystemStep>, i: nat, n: nat): (parts: seq<Option<Step>>)
    ensures |parts| == |steps|
  {
    seq(|steps|, j requires 0 <= j < |steps| => RequestPart(steps[j], i, n))
  }

  /** The loop and the wake lock of a system run make a run of their own. */
  lemma {:induction false} RilProjection(version: int, states: seq<System>, steps: seq<SystemStep>)
    returns (rils: seq<Ril>, rilSteps: seq<RilStep>, at: seq<nat>)
    requires SystemRun(version, states, steps)
    ensures RilRun(rils, rilSteps) && Follows(RilStates(states), rils, at)
    ensures Compacts(RilParts(version, states, steps), rilSteps, at)
    decreases |steps|
  {
    hide RilInit, RilApply, RilEnabled, RilPart, Apply;
    if steps == [] {
      rils, rilSteps, at := [states[0].ril], [], [0];
    } else {
      var m := |steps| - 1;
      var part := RilPart(version, states[m], steps[m]);
      rils, rilSteps, at := RilProjection(version, states[..m + 1], steps[..m]);
      assert rils[at[m]] == RilStates(states[..m + 1])[m] == states[m].ril;
      assert states[m + 1] == SystemApply(version, states[m], steps[m]);
      CompactsSnoc(RilParts(version, states[..m + 1], steps[..m]), rilSteps, at, part);
      assert RilParts(version, states, steps) == RilParts(version, states[..m + 1], steps[..m]) + [part];
      if part.Some? {
        rils := rils + [states[m + 1].ril];
      }
      rilSteps := rilSteps + if part.Some? then [part.value] else [];
      at := at + [|rilSteps|];
    }
  }

  /** And so does each list of requests. */
  lemma {:induction false} RequestProjection(version: int, states: seq<System>, steps: seq<SystemStep>, i: nat)
    returns (requests: seq<State>, asks: seq<Step>, at: seq<nat>)
    requires SystemRun(version, states, steps) && i < |states[0].requests|
    ensures forall j :: 0 <= j < |states| ==> i < |states[j].requests|
    ensures Run(version, requests, asks) && Follows(ListStates(states, i), requests, at)
    ensures Compacts(ListParts(steps, i, |states[0].requests|), asks, at)
    decreases |steps|
  {
    hide RilInit, RilApply, RilEnabled, RilPart, Apply;
    var n := |states[0].requests|;
    forall j | 0 <= j < |states| ensures i < |states[j].requests| {
      SameLists(version, states, steps, j);
    }
    if steps == [] {
      requests, asks, at := [states[0].requests[i]], [], [0];
    } else {
      var m := |steps| - 1;
      var part := RequestPart(steps[m], i, n);
      requests, asks, at := RequestProjection(version, states[..m + 1], steps[..m], i);
      assert requests[at[m]] == ListStates(states[..m + 1], i)[m] == states[m].requests[i];
      SameLists(version, states, steps, m);
      assert states[m + 1] == SystemApply(version, states[m], steps[m]);
      assert states[m + 1].requests[i] == After(version, states[m].requests[i], part);
      CompactsSnoc(ListParts(steps[..m], i, n), asks, at, part);
      assert ListParts(steps, i, n) == ListParts(steps[..m], i, n) + [part];
      if part.Some? {
        requests := requests + [states[m + 1].requests[i]];
      }
      asks := asks + if part.Some? then [part.value] else [];
      at := at + [|asks|];
    }
  }

  /** An acknowledgement for this request reached its list before step k while it was pending. */
  ghost predicate AckedBefore(states: seq<System>, steps: seq<SystemStep>, k: nat, i: nat, id: nat)
    requires k <= |steps| < |states|
  {
    exists j :: 0 <= j < k && IsAck(states[j], steps[j], i, id)
  }

  ghost predicate IsAck(s: System, step: SystemStep, i: nat, id: nat) {
    && i < |s.requests| && step.Ask? && step.request == Ack(id) && SlotOf(step.socket, |s.requests|) == i
    && RilRequests.IsPending(s.requests[i], id)
  }

  lemma {:induction false} AtIsMonotone<P>(parts: seq<Option<P>>, steps: seq<P>, at: seq<nat>, j: nat, k: nat)
    requires Compacts(parts, steps, at) && j <= k <= |parts|
    ensures at[j] <= at[k]
  {
    if j < k {
      AtIsMonotone(parts, steps, at, j, k - 1);
      assert Moves(parts[k - 1], at[k - 1], at[k - 1 + 1], steps);
    }
  }

  /** The step of the whole run that made step i of the projected one. */
  lemma {:induction false} SourceOf<P>(parts: seq<Option<P>>, steps: seq<P>, at: seq<nat>, i: nat, k: nat)
    returns (j: nat)
    requires Compacts(parts, steps, at) && k <= |parts| && i < at[k]
    ensures j < k && at[j] == i && i < |steps| && parts[j] == Some(steps[i])
  {
    assert Moves(parts[k - 1], at[k - 1], at[k - 1 + 1], steps);
    if i < at[k - 1] {
      j := SourceOf(parts, steps, at, i, k - 1);
    } else {
      j := k - 1;
    }
  }

  /** A completion that makes a response on its list grabs the wake lock if and only if an acknowledgement
      for its request arrived on that list earlier in the run. */
  lemma RunGrabsIffAcked(version: int, states: seq<System>, steps: seq<SystemStep>, k: nat)
    requires SystemRun(version, states, steps) && k < |steps| && steps[k].Finish?
    requires ListOf(states[k + 1], steps[k].socket).responses != ListOf(states[k], steps[k].socket).responses
    ensures RilPart(version, states[k], steps[k]) == Some(Grab(steps[k].byLoop, steps[k].allocOk)) <==>
            AckedBefore(states, steps, k, SlotOf(steps[k].socket, |states[k].requests|), steps[k].id)
  {
    hide Apply, Run, RilApply, RilEnabled;
    var (id, n) := (steps[k].id, |states[0].requests|);
    var i := SlotOf(steps[k].socket, n);
    SameLists(version, states, steps, k);
    SameLists(version, states, steps, k + 1);
    var requests, asks, at := RequestProjection(version, states, steps, i);
    var (m, parts, shown) := (at[k], ListParts(steps, i, n), ListStates(states, i));
    assert Moves(parts[k], at[k], at[k + 1], asks);
    assert requests[m] == shown[k] && requests[m + 1] == shown[k + 1];
    RunAckExpectedIff(version, requests, asks, m);
    if AckArrived(requests, asks, m, id) {
      var a :| 0 <= a < m && asks[a] == Ack(id) && RilRequests.IsPending(requests[a], id);
      var j := SourceOf(parts, asks, at, a, k);
      SameLists(version, states, steps, j);
      assert requests[at[j]] == shown[j];
      assert IsAck(states[j], steps[j], i, id);
    }
    if AckedBefore(states, steps, k, i, id) {
      var j :| 0 <= j < k && IsAck(states[j], steps[j], i, id);
      SameLists(version, states, steps, j);
      AtIsMonotone(parts, asks, at, j + 1, k);
      assert Moves(parts[j], at[j], at[j + 1], asks) && requests[at[j]] == shown[j];
    }
    assert states[k + 1] == SystemApply(version, states[k], steps[k]);
  }

  /** After a response that asks for an acknowledgement, and got its timer, the kernel lock is held, the
      counter is positive and the live timer is due one timeout later. */
  lemma RunResponseHoldsLock(version: int, states: seq<System>, steps: seq<SystemStep>, k: nat)
    requires SystemRun(version, states, steps) && k < |steps| && steps[k].Finish? && steps[k].allocOk
    requires ExpectsAck(version, ListOf(states[k], steps[k].socket), steps[k].id)
    ensures var (line, w) := (Scheduled(states[k + 1].ril.loop), states[k + 1].ril.wake);
            && w.held && w.count > 0
            && exists i :: 0 <= i < |line| && Live(w, line[i])
                           && line[i].deadline == states[k].ril.loop.now + WAKE_TIMEOUT
  {
    var rils, rilSteps, at := RilProjection(version, states, steps);
    assert states[k + 1] == SystemApply(version, states[k], steps[k]);
    assert rils[at[k + 1]] == RilStates(states)[k + 1];
    RunKeepsOneLiveTimer(rils, rilSteps, at[k + 1]);
    RilRunKeepsInv(rils, rilSteps, at[k + 1]);
  }

  /** From such a response on, no timeout gives up the lock until strictly more than 200 ms later. */
  lemma RunResponseLockLasts(version: int, states: seq<System>, steps: seq<SystemStep>, j: nat, k: nat)
    requires SystemRun(version, states, steps) && j < k < |steps|
    requires steps[j].Finish? && steps[j].allocOk && ExpectsAck(version, ListOf(states[j], steps[j].socket), steps[j].id)
    requires steps[k].Radio? && steps[k].rilStep.LoopStep?
    requires states[k].ril.wake.held && !states[k + 1].ril.wake.held
    ensures states[k].ril.loop.now > states[j].ril.loop.now + WAKE_TIMEOUT
  {
    var rils, rilSteps, at := RilProjection(version, states, steps);
    var parts := RilParts(version, states, steps);
    AtIsMonotone(parts, rilSteps, at, j + 1, k);
    assert Moves(parts[j], at[j], at[j + 1], rilSteps) && Moves(parts[k], at[k], at[k + 1], rilSteps);
    assert rils[at[j]] == RilStates(states)[j] && rils[at[k]] == RilStates(states)[k];
    assert rils[at[k + 1]] == RilStates(states)[k + 1];
    RunTimeoutReleasesLate(rils, rilSteps, at[j], at[k]);
  }
}
