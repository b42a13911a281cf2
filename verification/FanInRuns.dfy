/**
 What every run of the fan-in keeps: no event lost, duplicated or reordered within a sub-HAL, no lost
 wakeup in either direction, and fair visits to the queues.
 */
module FanInRuns {
  import opened Arithmetic
  import opened Sequences
  import opened SensorEventQueues
  import opened MultiHalHandles
  import opened FanIn

  // ----- round robin

  /** The examinations go round n queues, starting at queue `start`. */
  ghost predicate RobinFrom(start: nat, visits: seq<Visit>, n: nat) {
    n > 0 && forall j :: 0 <= j < |visits| ==> visits[j].queue == Turn(start, j, n)
  }

  ghost predicate RoundRobin(s: State) {
    RobinFrom(0, s.visits, |s.queues|) && s.nextReadIndex == Turn(0, |s.visits|, |s.queues|)
  }

  lemma RoundRobinStep(t: Tables, s: State, step: Step)
    requires Shape(s) && Enabled(s, step) && RoundRobin(s)
    ensures RoundRobin(Apply(t, s, step))
  {
    hide Turn;
    TurnMoves(0, |s.visits|, |s.queues|);
  }

  /** How many of the given examinations looked at queue i. */
  ghost function VisitCount(visits: seq<Visit>, i: nat): nat {
    if visits == [] then 0
    else VisitCount(visits[..|visits| - 1], i) + if visits[|visits| - 1].queue == i then 1 else 0
  }

  /** Examinations of queue i among the first n*p + m: p full rounds and a part of one. */
  lemma {:induction false} PrefixVisitCount(visits: seq<Visit>, n: nat, i: nat, p: nat, m: nat)
    requires i < n && RobinFrom(0, visits, n)
    requires m < n && |visits| == n * p + m
    ensures VisitCount(visits, i) == if m <= i then p else p + 1
  {
    var k := |visits| - 1;
    if m > 0 {
      DivModUnique(k, n, p, m - 1);
      PrefixVisitCount(visits[..k], n, i, p, m - 1);
    } else if p > 0 {
      assert n * p == n * (p - 1) + n;
      DivModUnique(k, n, p - 1, n - 1);
      PrefixVisitCount(visits[..k], n, i, p - 1, n - 1);
    }
  }

  lemma {:induction false} VisitCountSplit(u: seq<Visit>, v: seq<Visit>, i: nat)
    ensures VisitCount(u + v, i) == VisitCount(u, i) + VisitCount(v, i)
  {
    if v == [] {
      assert u + v == u;
    } else {
      assert (u + v)[..|u + v| - 1] == u + v[..|v| - 1];
      VisitCountSplit(u, v[..|v| - 1], i);
    }
  }

  lemma SplitRounds(x: nat, n: nat) returns (p: nat, m: nat)
    requires n > 0
    ensures x == n * p + m && m < n
  {
    p, m := x / n, x % n;
  }

  lemma RoundsBetween(n: nat, k: nat, p: nat, m: nat, p': nat, m': nat)
    requires m < n && m' < n && n * p' + m' == n * p + m + k
    ensures k / n == p' - p - (if m' < m then 1 else 0)
    ensures k % n == m' - m + if m' < m then n else 0
  {
    assert n * (p' - p) == n * p' - n * p;
    assert n * (p - p') == n * p - n * p';
    assert n * (p' - p - 1) == n * p' - n * p - n;
    if p' < p {
      MultipleAtLeast(n, p - p');
    }
    if m' < m {
      DivModUnique(k, n, p' - p - 1, m' - m + n);
    } else {
      DivModUnique(k, n, p' - p, m' - m);
    }
  }

  /** Fairness: over any k consecutive examinations, across poll calls, each of the n queues is
      looked at k/n times, rounded down or up. */
  lemma FairVisits(s: State, from: nat, k: nat, i: nat)
    requires RoundRobin(s) && from + k <= |s.visits| && i < |s.queues|
    ensures var (n, count) := (|s.queues|, VisitCount(s.visits[from..from + k], i));
            k / n <= count <= k / n + if k % n == 0 then 0 else 1
  {
    var n := |s.queues|;
    assert s.visits[..from] + s.visits[from..from + k] == s.visits[..from + k];
    VisitCountSplit(s.visits[..from], s.visits[from..from + k], i);
    var p, m := SplitRounds(from, n);
    var p', m' := SplitRounds(from + k, n);
    PrefixVisitCount(s.visits[..from], n, i, p, m);
    PrefixVisitCount(s.visits[..from + k], n, i, p', m');
    RoundsBetween(n, k, p, m, p', m');
  }

  // ----- wakeups

  /** A parked, unsignalled writer's queue is full; a waiting, unsignalled reader has the flag up and
      every queue empty; while scanning, the last `empties` queues looked at are still empty. */
  ghost predicate Wakeups(s: State) {
    && |s.queues| == |s.writers|
    && (forall i :: 0 <= i < |s.queues| && s.writers[i] == Parked(false) ==> s.queues[i].size == |s.queues[i].data|)
    && (s.waitingForData <==> s.reader.Waiting?)
    && (s.reader.Waiting? ==> s.reader.maxReads > 0)
    && (s.reader.Waiting? && !s.reader.signalled ==> forall i :: 0 <= i < |s.queues| ==> s.queues[i].size == 0)
    && (s.reader.Scanning? ==>
          && |s.reader.buffer| <= s.reader.maxReads && s.reader.maxReads > 0
          && s.reader.empties <= |s.queues| && s.reader.empties <= |s.visits|
          && LastAreEmpty(s.visits, Sizes(s), s.reader.empties))
  }

  /** How many events each queue holds. */
  ghost function Sizes(s: State): (sizes: seq<nat>)
    ensures |sizes| == |s.queues|
  {
    seq(|s.queues|, i requires 0 <= i < |s.queues| => s.queues[i].size)
  }

  /** The queues looked at in the last `count` examinations are empty. */
  ghost predicate LastAreEmpty(visits: seq<Visit>, sizes: seq<nat>, count: nat) {
    forall j :: 0 <= j < |visits| && |visits| - count <= j && visits[j].queue < |sizes| ==> sizes[visits[j].queue] == 0
  }

  /** Any n consecutive numbers contain one that is i modulo n. */
  lemma WindowHits(from: nat, n: nat, i: nat) returns (j: nat)
    requires i < n
    ensures from <= j < from + n && j % n == i
  {
    var (q, r) := (from / n, from % n);
    assert n * (q + 1) == n * q + n;
    if r <= i {
      j := n * q + i;
      DivModUnique(j, n, q, i);
    } else {
      j := n * (q + 1) + i;
      DivModUnique(j, n, q + 1, i);
    }
  }

  /** After a full round of empty looks every queue is empty. */
  lemma AllEmpty(start: nat, visits: seq<Visit>, sizes: seq<nat>)
    requires |sizes| <= |visits| && RobinFrom(start, visits, |sizes|) && LastAreEmpty(visits, sizes, |sizes|)
    ensures forall i :: 0 <= i < |sizes| ==> sizes[i] == 0
  {
    forall i | 0 <= i < |sizes| ensures sizes[i] == 0 {
      var j := WindowHits(start + |visits| - |sizes|, |sizes|, i);
      assert visits[j - start].queue == Turn(start, j - start, |sizes|) == i;
    }
  }

  lemma AllEmptyWhenScanEnds(s: State)
    requires RoundRobin(s) && |s.queues| <= |s.visits| && LastAreEmpty(s.visits, Sizes(s), |s.queues|)
    ensures forall i :: 0 <= i < |s.queues| ==> s.queues[i].size == 0
  {
    AllEmpty(0, s.visits, Sizes(s));
    assert forall i :: 0 <= i < |s.queues| ==> s.queues[i].size == Sizes(s)[i];
  }

  /** One more look: at an empty queue, or at one that loses its head. */
  lemma LastAreEmptyNext(visits: seq<Visit>, sizes: seq<nat>, count: nat, visit: Visit, sizes': seq<nat>)
    requires LastAreEmpty(visits, sizes, count) && visit.queue < |sizes|
    requires sizes[visit.queue] == 0 ==> sizes' == sizes
    ensures LastAreEmpty(visits + [visit], sizes', if sizes[visit.queue] == 0 then count + 1 else 0)
  {
  }

  lemma ExamineKeepsWakeups(t: Tables, s: State)
    requires Shape(s) && Enabled(s, Examine) && RoundRobin(s) && Wakeups(s)
    ensures Wakeups(Apply(t, s, Examine))
  {
    var (s', i) := (Apply(t, s, Examine), s.nextReadIndex);
    var visit := Visit(i, if s.queues[i].size == 0 then None else Some(s.queues[i].data[s.queues[i].start]));
    LastAreEmptyNext(s.visits, Sizes(s), s.reader.empties, visit, Sizes(s'));
  }

  lemma QuietStepKeepsWakeups(t: Tables, s: State, step: Step)
    requires Shape(s) && Enabled(s, step) && Wakeups(s) && !step.Examine? && !step.WaitForData?
    ensures Wakeups(Apply(t, s, step))
  {
    var s' := Apply(t, s, step);
    if s'.reader.Scanning? && s.reader.Scanning? {
      assert Sizes(s') == Sizes(s);
    }
  }

  lemma WakeupsStep(t: Tables, s: State, step: Step)
    requires Shape(s) && Enabled(s, step) && RoundRobin(s) && Wakeups(s)
    ensures Wakeups(Apply(t, s, step))
  {
    match step
    case Examine => ExamineKeepsWakeups(t, s);
    case WaitForData => AllEmptyWhenScanEnds(s);
    case _ => QuietStepKeepsWakeups(t, s, step);
  }

  // ----- the ledger of events

  /** The events taken from queue i, in the order they were taken. */
  ghost function Taken(visits: seq<Visit>, i: nat): seq<Event> {
    if visits == [] then []
    else
      var last := visits[|visits| - 1];
      Taken(visits[..|visits| - 1], i) + if last.queue == i && last.took.Some? then [last.took.value] else []
  }

  /** The events passed upstream: everything taken, remapped, except what remaps to sensor -1. */
  ghost function Passed(t: Tables, visits: seq<Visit>): seq<Event> {
    if visits == [] then []
    else
      var last := visits[|visits| - 1];
      Passed(t, visits[..|visits| - 1]) +
      if last.took.Some? && t.Remap(last.queue, last.took.value).sensor != -1
      then [t.Remap(last.queue, last.took.value)] else []
  }

  /** What an examination takes from queue i. */
  ghost function TakenFrom(i: nat): Visit -> Option<Event> {
    (v: Visit) => if v.queue == i then v.took else None
  }

  ghost function Passes(t: Tables): Visit -> Option<Event> {
    (v: Visit) => PassedBy(t, v)
  }

  /** Which visits gave the events taken from queue i: exactly those of the queue that found one, in order. */
  lemma {:induction false} TakenAre(visits: seq<Visit>, i: nat) returns (at: seq<nat>)
    ensures Selects(visits, TakenFrom(i), Taken(visits, i), at)
  {
    hide Selects;
    at := [];
    if visits == [] {
      SelectsNothing(visits, TakenFrom(i));
    } else {
      var m := |visits| - 1;
      at := TakenAre(visits[..m], i);
      SelectsNext(visits, TakenFrom(i), Taken(visits[..m], i), at);
      if visits[m].queue == i && visits[m].took.Some? {
        at := at + [m];
      } else {
        assert Taken(visits, i) == Taken(visits[..m], i);
      }
    }
  }

  lemma SelectsNothing<T>(s: seq<T>, f: T -> Option<Event>)
    requires s == []
    ensures Selects(s, f, [], [])
  {
  }

  /** What an examination passes upstream: the event it took, remapped, unless its sensor is then -1. */
  ghost function PassedBy(t: Tables, v: Visit): Option<Event> {
    if v.took.Some? && t.Remap(v.queue, v.took.value).sensor != -1 then Some(t.Remap(v.queue, v.took.value)) else None
  }

  /** Which visits gave the events passed upstream: exactly those that pass one, in order. */
  lemma {:induction false} PassedAre(t: Tables, visits: seq<Visit>) returns (at: seq<nat>)
    ensures Selects(visits, Passes(t), Passed(t, visits), at)
  {
    hide Selects;
    at := [];
    if visits == [] {
      SelectsNothing(visits, Passes(t));
    } else {
      var m := |visits| - 1;
      at := PassedAre(t, visits[..m]);
      SelectsNext(visits, Passes(t), Passed(t, visits[..m]), at);
      if PassedBy(t, visits[m]).Some? {
        at := at + [m];
      } else {
        assert Passed(t, visits) == Passed(t, visits[..m]);
      }
    }
  }

  /** An examination passes its event upstream exactly when the event is a reading of a registered sensor,
      or a meta-data event whose own sensor field is not -1. */
  lemma PassedByIff(t: Tables, origins: seq<FullHandle>, v: Visit)
    requires t.Describes(origins)
    ensures v.took.None? ==> PassedBy(t, v).None?
    ensures v.took.Some? ==>
              var e := v.took.value;
              && (PassedBy(t, v).Some? <==> if e.Reading? then FullHandle(v.queue, e.sensor) in origins else e.sensor != -1)
              && (PassedBy(t, v).Some? ==> PassedBy(t, v).value == t.Remap(v.queue, e))
  {
    if v.took.Some? {
      DroppedIff(t, origins, v.queue, v.took.value);
    }
  }

  /** The ledger line of one sub-HAL, over its outside view. */
  ghost predicate Balanced(committed: seq<Event>, taken: seq<Event>, hal: Hal) {
    committed == taken + hal.fifo
  }

  /** Per sub-HAL, what was taken followed by what is still queued is what was committed; and what
      callers have got or are about to get is exactly what was passed. */
  ghost predicate Ledger(t: Tables, s: State)
    requires Shape(s)
  {
    && (forall i :: 0 <= i < |s.queues| ==> Balanced(s.committed[i], Taken(s.visits, i), View(s, i)))
    && Passed(t, s.visits) == s.returned + if s.reader.Scanning? then s.reader.buffer else []
  }

  lemma TakenSnoc(visits: seq<Visit>, v: Visit, i: nat)
    ensures Taken(visits + [v], i) ==
            if v.queue == i && v.took.Some? then Taken(visits, i) + [v.took.value] else Taken(visits, i)
  {
    assert (visits + [v])[..|visits|] == visits;
  }

  lemma PassedSnoc(t: Tables, visits: seq<Visit>, v: Visit)
    ensures Passed(t, visits + [v]) == Passed(t, visits) +
            if v.took.Some? && t.Remap(v.queue, v.took.value).sensor != -1 then [t.Remap(v.queue, v.took.value)] else []
  {
    assert (visits + [v])[..|visits|] == visits;
  }

  lemma LineWhenUntouched(t: Tables, s: State, k: nat)
    requires Shape(s) && Enabled(s, Examine) && k < |s.queues| && k != s.nextReadIndex
    ensures var s' := Apply(t, s, Examine);
            && Shape(s') && s'.committed[k] == s.committed[k]
            && Taken(s'.visits, k) == Taken(s.visits, k) && View(s', k) == View(s, k)
  {
    UntouchedView(t, s, Examine, k);
    var q := s.queues[s.nextReadIndex];
    TakenSnoc(s.visits, Visit(s.nextReadIndex, if q.size == 0 then None else Some(q.data[q.start])), k);
  }

  lemma LineWhenExamined(t: Tables, s: State)
    requires Shape(s) && Enabled(s, Examine)
    ensures var (k, s') := (s.nextReadIndex, Apply(t, s, Examine));
            && Shape(s') && s'.committed[k] == s.committed[k]
            && Taken(s'.visits, k) + View(s', k).fifo == Taken(s.visits, k) + View(s, k).fifo
  {
    ExamineRefines(t, s);
    var (k, q) := (s.nextReadIndex, s.queues[s.nextReadIndex]);
    TakenSnoc(s.visits, Visit(k, if q.size == 0 then None else Some(q.data[q.start])), k);
    if q.size > 0 {
      ContentsAt(q, 0);
      TakeOne(Taken(s.visits, k), View(s, k).fifo);
    }
  }

  lemma TakeOne(u: seq<Event>, v: seq<Event>)
    requires v != []
    ensures u + v == u + [v[0]] + v[1..]
  {
  }

  lemma ExamineKeepsLedger(t: Tables, s: State)
    requires Shape(s) && Enabled(s, Examine) && Ledger(t, s)
    ensures Shape(Apply(t, s, Examine)) && Ledger(t, Apply(t, s, Examine))
  {
    ShapeStep(t, s, Examine);
    var s' := Apply(t, s, Examine);
    var (i, q) := (s.nextReadIndex, s.queues[s.nextReadIndex]);
    PassedSnoc(t, s.visits, Visit(i, if q.size == 0 then None else Some(q.data[q.start])));
    forall k | 0 <= k < |s'.queues|
      ensures Balanced(s'.committed[k], Taken(s'.visits, k), View(s', k))
    {
      assert Balanced(s.committed[k], Taken(s.visits, k), View(s, k));
      if k == i {
        LineWhenExamined(t, s);
      } else {
        LineWhenUntouched(t, s, k);
      }
    }
  }

  lemma CommitKeepsLedger(t: Tables, s: State, i: nat, n: int)
    requires Shape(s) && Enabled(s, Commit(i, n)) && Ledger(t, s)
    ensures Shape(Apply(t, s, Commit(i, n))) && Ledger(t, Apply(t, s, Commit(i, n)))
  {
    ShapeStep(t, s, Commit(i, n));
    var s' := Apply(t, s, Commit(i, n));
    forall k | 0 <= k < |s'.queues|
      ensures Balanced(s'.committed[k], Taken(s'.visits, k), View(s', k))
    {
      assert Balanced(s.committed[k], Taken(s.visits, k), View(s, k));
      if k == i {
        LineWhenCommitted(t, s, i, n);
      } else {
        UntouchedView(t, s, Commit(i, n), k);
      }
    }
  }

  lemma LineWhenCommitted(t: Tables, s: State, i: nat, n: int)
    requires Shape(s) && Enabled(s, Commit(i, n))
    requires Balanced(s.committed[i], Taken(s.visits, i), View(s, i))
    ensures var s' := Apply(t, s, Commit(i, n));
            && Shape(s') && s'.visits == s.visits
            && Balanced(s'.committed[i], Taken(s'.visits, i), View(s', i))
  {
    CommitRefines(t, s, i, n);
    AppendAssoc(Taken(s.visits, i), View(s, i).fifo, Published(s, i, n));
  }

  /** The other steps change neither history nor any FIFO. */
  lemma QuietStepKeepsLedger(t: Tables, s: State, step: Step)
    requires Shape(s) && Enabled(s, step) && Ledger(t, s) && !step.Examine? && !step.Commit?
    ensures Shape(Apply(t, s, step)) && Ledger(t, Apply(t, s, step))
  {
    ShapeStep(t, s, step);
    var s' := Apply(t, s, step);
    assert s'.visits == s.visits && s'.committed == s.committed;
    forall k | 0 <= k < |s'.queues|
      ensures Balanced(s'.committed[k], Taken(s'.visits, k), View(s', k))
    {
      assert Balanced(s.committed[k], Taken(s.visits, k), View(s, k));
      StepRefinesFifo(t, s, step, k);
    }
  }

  lemma LedgerStep(t: Tables, s: State, step: Step)
    requires Shape(s) && Enabled(s, step) && Ledger(t, s)
    ensures Shape(Apply(t, s, step)) && Ledger(t, Apply(t, s, step))
  {
    match step
    case Examine => ExamineKeepsLedger(t, s);
    case Commit(i, n) => CommitKeepsLedger(t, s, i, n);
    case _ => QuietStepKeepsLedger(t, s, step);
  }

  // ----- every run

  ghost predicate Inv(t: Tables, s: State) {
    Shape(s) && RoundRobin(s) && Wakeups(s) && Ledger(t, s)
  }

  /** Every state of every run satisfies the whole invariant. */
  lemma {:induction false} RunKeepsInv(t: Tables, states: seq<State>, steps: seq<Step>, k: nat)
    requires Run(t, states, steps) && k < |states|
    ensures Inv(t, states[k])
  {
    if k > 0 {
      RunKeepsInv(t, states, steps, k - 1);
      var (s, step) := (states[k - 1], steps[k - 1]);
      assert states[k - 1 + 1] == Apply(t, s, step);
      ShapeStep(t, s, step);
      RoundRobinStep(t, s, step);
      WakeupsStep(t, s, step);
      LedgerStep(t, s, step);
    }
  }

  /** Nothing is lost, duplicated or reordered: at any point of any run the events taken from a
      sub-HAL are a prefix of those it committed, and the rest are still in its queue. */
  lemma RunDeliversPrefix(t: Tables, states: seq<State>, steps: seq<Step>, k: nat, i: nat)
    requires Run(t, states, steps) && k < |states| && i < |states[k].queues|
    ensures Inv(t, states[k])
    ensures Taken(states[k].visits, i) <= states[k].committed[i]
    ensures states[k].committed[i][|Taken(states[k].visits, i)|..] == states[k].queues[i].Contents()
    ensures states[k].returned <= Passed(t, states[k].visits)
    ensures !states[k].reader.Scanning? ==> states[k].returned == Passed(t, states[k].visits)
  {
    RunKeepsInv(t, states, steps, k);
  }

  /** No lost wakeup, and so no mutual stall: the reader and a writer are never both asleep without a
      signal. */
  lemma RunNoLostWakeup(t: Tables, states: seq<State>, steps: seq<Step>, k: nat)
    requires Run(t, states, steps) && k < |states|
    ensures var s := states[k];
            && |s.queues| == |s.writers|
            && (forall i :: 0 <= i < |s.queues| && s.writers[i] == Parked(false) ==>
                  s.queues[i].size == |s.queues[i].data|)
            && (s.reader.Waiting? && !s.reader.signalled ==>
                  s.waitingForData && forall i :: 0 <= i < |s.queues| ==> s.queues[i].size == 0)
            && !(s.reader.Waiting? && !s.reader.signalled && Parked(false) in s.writers)
  {
    RunKeepsInv(t, states, steps, k);
  }

  /** A returning poll hands over between 1 and maxReads events; one that waits has seen every queue empty. */
  lemma RunPollBounds(t: Tables, states: seq<State>, steps: seq<Step>, k: nat)
    requires Run(t, states, steps) && k < |steps|
    ensures steps[k].ReturnFromPoll? ==>
              && states[k].reader.Scanning?
              && 1 <= |states[k + 1].returned| - |states[k].returned| <= states[k].reader.maxReads
    ensures steps[k].WaitForData? ==>
              forall i :: 0 <= i < |states[k].queues| ==> states[k].queues[i].size == 0
  {
    RunKeepsInv(t, states, steps, k);
    if steps[k].WaitForData? {
      AllEmptyWhenScanEnds(states[k]);
    }
  }

  /** Fairness in every state of every run. */
  lemma RunVisitsFairly(t: Tables, states: seq<State>, steps: seq<Step>, j: nat, from: nat, k: nat, i: nat)
    requires Run(t, states, steps) && j < |states| && from + k <= |states[j].visits| && i < |states[j].queues|
    ensures var (n, count) := (|states[j].queues|, VisitCount(states[j].visits[from..from + k], i));
            k / n <= count <= k / n + if k % n == 0 then 0 else 1
  {
    RunKeepsInv(t, states, steps, j);
    FairVisits(states[j], from, k, i);
  }

  /** The scan terminates: each examination lowers (events queued, queues not yet seen empty). */
  lemma ExamineLowersMeasure(t: Tables, s: State)
    requires Shape(s) && Enabled(s, Examine)
    ensures var s' := Apply(t, s, Examine);
            || Sum(Sizes(s')) < Sum(Sizes(s))
            || (Sizes(s') == Sizes(s) && |s'.queues| - s'.reader.empties < |s.queues| - s.reader.empties)
  {
    var (s', i) := (Apply(t, s, Examine), s.nextReadIndex);
    if s.queues[i].size > 0 {
      SumUpdate(Sizes(s), i, s.queues[i].size - 1);
      assert Sizes(s') == Sizes(s)[i := s.queues[i].size - 1];
    } else {
      assert Sizes(s') == Sizes(s);
    }
  }
}
