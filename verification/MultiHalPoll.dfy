/**
 The scan inside `sensors_poll_context_t::poll` (sensors/multihal.cpp), on the mutable queue objects:
 one stretch of poll between taking the mutex (or waking up) and returning or waiting.
 */
module MultiHalPoll {
  import opened Arithmetic
  import opened Sequences
  import opened SensorEventQueues
  import opened MultiHalHandles
  import opened FanIn
  import opened FanInRuns

  ghost function Lengths(fifos: seq<seq<Event>>): (lengths: seq<nat>)
    ensures |lengths| == |fifos|
  {
    seq(|fifos|, i requires 0 <= i < |fifos| => |fifos[i]|)
  }

  /** The examination that looks at queue i, and the queues after it. */
  ghost function NextVisit(fifos: seq<seq<Event>>, i: nat): Visit
    requires i < |fifos|
  {
    Visit(i, if fifos[i] == [] then None else Some(fifos[i][0]))
  }

  ghost function NextFifos(fifos: seq<seq<Event>>, i: nat): seq<seq<Event>>
    requires i < |fifos|
  {
    if fifos[i] == [] then fifos else fifos[i := fifos[i][1..]]
  }

  /** What was queued is what was taken, in order, followed by what is left. */
  ghost predicate Conserves(before: seq<seq<Event>>, visits: seq<Visit>, after: seq<seq<Event>>) {
    && |before| == |after|
    && forall i :: 0 <= i < |before| ==> before[i] == Taken(visits, i) + after[i]
  }

  lemma ConservesNext(before: seq<seq<Event>>, visits: seq<Visit>, after: seq<seq<Event>>, i: nat)
    requires Conserves(before, visits, after) && i < |after|
    ensures Conserves(before, visits + [NextVisit(after, i)], NextFifos(after, i))
  {
    var visit := NextVisit(after, i);
    hide Taken;
    forall k | 0 <= k < |before|
      ensures before[k] == Taken(visits + [visit], k) + NextFifos(after, i)[k]
    {
      TakenSnoc(visits, visit, k);
      assert before[k] == Taken(visits, k) + after[k];
      if k == i && after[i] != [] {
        TakeOne(Taken(visits, k), after[k]);
        assert NextFifos(after, i)[k] == after[k][1..];
      } else {
        assert NextFifos(after, i)[k] == after[k];
      }
    }
  }

  lemma {:induction false} PassedAppend(t: Tables, u: seq<Visit>, v: seq<Visit>)
    ensures Passed(t, u + v) == Passed(t, u) + Passed(t, v)
  {
    if v == [] {
      assert u + v == u;
    } else {
      assert (u + v)[..|u + v| - 1] == u + v[..|v| - 1];
      PassedAppend(t, u, v[..|v| - 1]);
    }
  }

  /** An examination takes one event, or looks at an empty queue. */
  lemma LengthsNext(fifos: seq<seq<Event>>, i: nat)
    requires i < |fifos|
    ensures var (now, next) := (Lengths(fifos), Lengths(NextFifos(fifos, i)));
            if now[i] == 0 then next == now else next == now[i := now[i] - 1] && Sum(next) < Sum(now)
  {
    var (now, next) := (Lengths(fifos), Lengths(NextFifos(fifos, i)));
    if now[i] == 0 {
      assert next == now;
    } else {
      assert next == now[i := now[i] - 1];
      SumUpdate(now, i, now[i] - 1);
    }
  }

  /** What the scan has done so far, from the queues `before` and the index `start`. */
  ghost predicate Progress(start: nat, before: seq<seq<Event>>, visits: seq<Visit>, after: seq<seq<Event>>, empties: nat) {
    && Conserves(before, visits, after)
    && RobinFrom(start, visits, |before|)
    && LastAreEmpty(visits, Lengths(after), empties)
  }

  lemma ProgressNext(start: nat, before: seq<seq<Event>>, visits: seq<Visit>, after: seq<seq<Event>>, empties: nat, i: nat)
    requires Progress(start, before, visits, after, empties)
    requires |before| > 0 && i == Turn(start, |visits|, |before|)
    ensures i < |after| && (i + 1) % |before| == Turn(start, |visits| + 1, |before|)
    ensures Progress(start, before, visits + [NextVisit(after, i)], NextFifos(after, i), if after[i] == [] then empties + 1 else 0)
  {
    TurnMoves(start, |visits|, |before|);
    ConservesNext(before, visits, after, i);
    LengthsNext(after, i);
    LastAreEmptyNext(visits, Lengths(after), empties, NextVisit(after, i), Lengths(NextFifos(after, i)));
  }

  class PollContext {
    const queues: seq<SensorEventQueue<Event>>
    const tables: Tables
    var nextReadIndex: nat

    ghost predicate Valid()
      reads this, queues
    {
      && nextReadIndex < |queues|
      && (forall i :: 0 <= i < |queues| ==> queues[i].Valid())
      && (forall i, j :: 0 <= i < j < |queues| ==> queues[i] != queues[j])
    }

    /** The queued events of every sub-HAL. */
    ghost function Fifos(): (fifos: seq<seq<Event>>)
      requires Valid()
      reads this, queues, set q | q in queues :: q.data
      ensures |fifos| == |queues|
    {
      seq(|queues|, i requires 0 <= i < |queues| && Valid()
                      reads this, queues, set q | q in queues :: q.data
                    => queues[i].Model().Contents())
    }

    /** Puts the head of queue i, remapped, into `data`, where it stays unless it remaps to sensor -1. */
    method CopyHead(i: nat, slot: nat, data: array<Event>, eventsRead: nat) returns (read: nat)
      requires Valid() && i < |queues| && eventsRead < data.Length
      requires forall q :: q in queues ==> q.data != data
      requires Fifos()[i] != [] && slot < queues[i].data.Length && queues[i].data[slot] == Fifos()[i][0]
      modifies data
      ensures Valid() && Fifos() == old(Fifos()) && eventsRead <= read <= eventsRead + 1
      ensures data[..read] == old(data[..])[..eventsRead] + Passed(tables, [NextVisit(Fifos(), i)])
    {
      read := eventsRead;
      PassedSnoc(tables, [], NextVisit(Fifos(), i));
      assert [] + [NextVisit(Fifos(), i)] == [NextVisit(Fifos(), i)];
      data[read] := tables.Remap(i, queues[i].data[slot]);
      if data[read].sensor != -1 {
        read := read + 1;
      }
    }

    /** Drops the head of queue i; the other queues keep theirs. */
    method DropHead(i: nat)
      requires Valid() && i < |queues|
      modifies queues[i]
      ensures Valid() && Fifos() == NextFifos(old(Fifos()), i)
    {
      assert |Fifos()[i]| == queues[i].size;
      hide Ring.Contents, Ring.Dequeue;
      var _ := queues[i].Dequeue();
    }

    /** Moves the head of queue i, remapped, to `data`, unless it remaps to sensor -1. */
    method TakeHead(i: nat, slot: nat, data: array<Event>, eventsRead: nat) returns (read: nat)
      requires Valid() && i < |queues| && eventsRead < data.Length
      requires forall q :: q in queues ==> q.data != data
      requires Fifos()[i] != [] && slot < queues[i].data.Length && queues[i].data[slot] == Fifos()[i][0]
      modifies queues[i], data
      ensures Valid() && Fifos() == NextFifos(old(Fifos()), i) && eventsRead <= read <= eventsRead + 1
      ensures data[..read] == old(data[..])[..eventsRead] + Passed(tables, [NextVisit(old(Fifos()), i)])
    {
      hide Passed, NextVisit, NextFifos;
      read := CopyHead(i, slot, data, eventsRead);
      DropHead(i);
    }

    /** Looks at queue i: its head, if any, is moved to `data`. */
    method Look(i: nat, data: array<Event>, eventsRead: nat) returns (read: nat, found: bool)
      requires Valid() && i < |queues| && eventsRead < data.Length
      requires forall q :: q in queues ==> q.data != data
      modifies queues[i], data
      ensures Valid() && (found <==> old(Fifos())[i] != []) && Fifos() == NextFifos(old(Fifos()), i)
      ensures eventsRead <= read <= eventsRead + 1
      ensures data[..read] == old(data[..])[..eventsRead] + Passed(tables, [NextVisit(old(Fifos()), i)])
    {
      var slot;
      read := eventsRead;
      found, slot := queues[i].Peek();
      if found {
        read := TakeHead(i, slot, data, eventsRead);
      } else {
        PassedSnoc(tables, [], NextVisit(Fifos(), i));
        assert [] + [NextVisit(Fifos(), i)] == [NextVisit(Fifos(), i)];
      }
    }

    /** One pass through the loop body: the next queue is looked at and the index moves on. */
    method ExamineNext(data: array<Event>, eventsRead: nat) returns (read: nat, found: bool)
      requires Valid() && eventsRead < data.Length
      requires forall q :: q in queues ==> q.data != data
      modifies this`nextReadIndex, queues, data
      ensures Valid() && nextReadIndex == (old(nextReadIndex) + 1) % |queues|
      ensures found <==> old(Fifos())[old(nextReadIndex)] != []
      ensures Fifos() == NextFifos(old(Fifos()), old(nextReadIndex))
      ensures eventsRead <= read <= eventsRead + 1
      ensures data[..read] ==
              old(data[..])[..eventsRead] + Passed(tables, [NextVisit(old(Fifos()), old(nextReadIndex))])
    {
      hide Passed, NextVisit, NextFifos;
      read, found := Look(nextReadIndex, data, eventsRead);
      nextReadIndex := (nextReadIndex + 1) % |queues|;
    }

    /** The scan so far, which began at index `start` with the queues `before`. */
    ghost predicate Scanned(start: nat, before: seq<seq<Event>>, visits: seq<Visit>, empties: nat)
      requires Valid()
      reads this, queues, set q | q in queues :: q.data
    {
      && |before| == |queues| && empties <= |visits|
      && Progress(start, before, visits, Fifos(), empties)
      && nextReadIndex == Turn(start, |visits|, |queues|)
    }

    /** One pass brings the scan on by one visit and lowers (events queued, queues not yet seen empty). */
    method ScanOne(data: array<Event>, eventsRead: nat, empties: nat,
                   ghost start: nat, ghost before: seq<seq<Event>>, ghost visits: seq<Visit>)
      returns (read: nat, emptiesNow: nat, ghost visitsNow: seq<Visit>)
      requires Valid() && eventsRead < data.Length && Scanned(start, before, visits, empties)
      requires forall q :: q in queues ==> q.data != data
      requires data[..eventsRead] == Passed(tables, visits)
      modifies this`nextReadIndex, queues, data
      ensures Valid() && Scanned(start, before, visitsNow, emptiesNow)
      ensures eventsRead <= read <= eventsRead + 1 && data[..read] == Passed(tables, visitsNow)
      ensures if emptiesNow == 0 then Sum(Lengths(Fifos())) < old(Sum(Lengths(Fifos())))
              else Fifos() == old(Fifos()) && emptiesNow == empties + 1
    {
      hide Passed, Progress, Turn, Sum;
      ghost var (fifos, visit) := (Fifos(), NextVisit(Fifos(), nextReadIndex));
      var found;
      ProgressNext(start, before, visits, fifos, empties, nextReadIndex);
      LengthsNext(fifos, nextReadIndex);
      PassedAppend(tables, visits, [visit]);
      read, found := ExamineNext(data, eventsRead);
      emptiesNow := if found then 0 else empties + 1;
      visitsNow := visits + [visit];
    }

    /** Fills `data` with up to `maxReads` remapped events. The visits made are round robin from where
        the previous scan stopped; what was taken and what is left make up what was queued; the
        buffer holds exactly the events that pass; and a scan that leaves room has emptied every queue. */
    method Scan(data: array<Event>, maxReads: nat) returns (eventsRead: nat, ghost visits: seq<Visit>)
      requires Valid() && 0 < maxReads <= data.Length
      requires forall q :: q in queues ==> q.data != data
      modifies this`nextReadIndex, queues, data
      ensures Valid() && eventsRead <= maxReads
      ensures Conserves(old(Fifos()), visits, Fifos())
      ensures data[..eventsRead] == Passed(tables, visits)
      ensures RobinFrom(old(nextReadIndex), visits, |queues|)
      ensures nextReadIndex == Turn(old(nextReadIndex), |visits|, |queues|)
      ensures eventsRead < maxReads ==> forall i :: 0 <= i < |queues| ==> Fifos()[i] == []
    {
      hide Passed, Progress, Turn, Sum, Lengths;
      var empties: nat := 0;
      eventsRead, visits := 0, [];
      ScanBegins(nextReadIndex, Fifos(), tables);
      while empties < |queues| && eventsRead < maxReads
        invariant Valid() && eventsRead <= maxReads && empties <= |queues|
        invariant Scanned(old(nextReadIndex), old(Fifos()), visits, empties)
        invariant data[..eventsRead] == Passed(tables, visits)
        decreases Sum(Lengths(Fifos())), |queues| - empties
      {
        eventsRead, empties, visits := ScanOne(data, eventsRead, empties, old(nextReadIndex), old(Fifos()), visits);
      }
      ScanEnds(old(nextReadIndex), old(Fifos()), visits, Fifos(), empties);
    }
  }

  lemma ScanEnds(start: nat, before: seq<seq<Event>>, visits: seq<Visit>, after: seq<seq<Event>>, empties: nat)
    requires Progress(start, before, visits, after, empties) && empties <= |visits|
    ensures Conserves(before, visits, after) && RobinFrom(start, visits, |before|)
    ensures empties == |before| ==> forall i :: 0 <= i < |after| ==> after[i] == []
  {
    if empties == |before| {
      AllEmpty(start, visits, Lengths(after));
      assert forall i :: 0 <= i < |after| ==> |after[i]| == Lengths(after)[i];
    }
  }

  lemma ScanBegins(start: nat, fifos: seq<seq<Event>>, tables: Tables)
    requires start < |fifos|
    ensures Progress(start, fifos, [], fifos, 0) && Passed(tables, []) == [] && start == Turn(start, 0, |fifos|)
  {
    TurnBegins(start, |fifos|);
    forall i | 0 <= i < |fifos| ensures fifos[i] == Taken([], i) + fifos[i] {
      assert Taken([], i) == [];
    }
  }
}
