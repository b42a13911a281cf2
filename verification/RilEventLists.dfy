/**
 The event structures of ril/libril/ril_event.cpp at the level of their pointers: circular doubly
 linked lists with a sentinel, the timer list kept sorted by deadline, and the move of expired timers
 to the pending list.
 */
module RilEventLists {
  import opened Sequences
  import opened Timevals
  import RilLoop

  class RilEvent {
    var next: RilEvent?
    var prev: RilEvent?
    var fd: int
    var index: int
    var persist: bool
    var timeout: Timeval

    /** ril_event_set. */
    constructor (fd: int, persist: bool)
      ensures next == null && prev == null && index == -1
      ensures this.fd == fd && this.persist == persist && timeout == Timeval(0, 0)
    {
      next, prev, index := null, null, -1;
      this.fd, this.persist, this.timeout := fd, persist, Timeval(0, 0);
    }
  }

  // ----- rings

  /** a and b are neighbours: the forward and the backward pointer agree. */
  ghost predicate Adjacent(a: RilEvent, b: RilEvent)
    reads a`next, b`prev
  {
    a.next == b && b.prev == a
  }

  /** The walk once around a ring, back to its first node. */
  ghost function Around(ring: seq<RilEvent>): seq<RilEvent>
    requires |ring| > 0
  {
    ring + [ring[0]]
  }

  /** The nodes are distinct and, in order, form a circle in both directions. */
  ghost predicate IsRing(ring: seq<RilEvent>)
    reads ring`next, ring`prev
  {
    && |ring| > 0
    && Distinct(ring)
    && forall i :: 0 <= i < |ring| ==> Adjacent(ring[i], Around(ring)[i + 1])
  }

  /** Neighbours in the longer ring: around the new node, and elsewhere as before. */
  lemma NeighboursAfterInsert(ring: seq<RilEvent>, p: nat, ev: RilEvent, i: nat)
    requires 0 < p <= |ring| && i <= |ring|
    ensures var longer := InsertAt(ring, p, ev);
            && longer[i] == (if i < p then ring[i] else if i == p then ev else ring[i - 1])
            && Around(longer)[i + 1] ==
                 (if i + 1 < p then Around(ring)[i + 1] else if i + 1 == p then ev else Around(ring)[i])
  {
    InsertAtIndex(ring, p, ev, i);
    InsertAtIndex(Around(ring), p, ev, i + 1);
    assert Around(InsertAt(ring, p, ev)) == InsertAt(Around(ring), p, ev);
  }

  lemma NeighboursAfterDrop(ring: seq<RilEvent>, k: nat, i: nat)
    requires 0 < k < |ring| && i < |ring| - 1
    ensures var shorter := DropAt(ring, k);
            && shorter[i] == ring[if i < k then i else i + 1]
            && Around(shorter)[i + 1] == Around(ring)[if i + 1 < k then i + 1 else i + 2]
  {
    DropAtIndex(ring, k, i);
    DropAtIndex(Around(ring), k, i + 1);
    assert Around(DropAt(ring, k)) == DropAt(Around(ring), k);
  }

  /** addToList: links `ev` in before `list`, which is node p on the walk around the ring. */
  method AddToList(ev: RilEvent, list: RilEvent, ghost ring: seq<RilEvent>, ghost p: nat)
    requires IsRing(ring) && 0 < p <= |ring| && Around(ring)[p] == list && ev !in ring
    modifies ev`next, ev`prev, ring`next, ring`prev
    ensures IsRing(InsertAt(ring, p, ev))
  {
    assert Adjacent(ring[p - 1], Around(ring)[p - 1 + 1]);
    ev.next := list;
    ev.prev := list.prev;
    ev.prev.next := ev;
    list.prev := ev;
    InsertKeepsDistinct(ring, p, ev);
    ghost var longer := InsertAt(ring, p, ev);
    forall i | 0 <= i < |longer| ensures Adjacent(longer[i], Around(longer)[i + 1]) {
      NeighboursAfterInsert(ring, p, ev, i);
      if i != p && i + 1 != p {
        var m := if i < p then i else i - 1;
        assert old(Adjacent(ring[m], Around(ring)[m + 1])) && m != p - 1;
      }
    }
  }

  /** removeFromList: links node k, which is not the sentinel, out. */
  method RemoveFromList(ev: RilEvent, ghost ring: seq<RilEvent>, ghost k: nat)
    requires IsRing(ring) && 0 < k < |ring| && ring[k] == ev
    modifies ring`next, ring`prev
    ensures IsRing(DropAt(ring, k)) && ev.next == null && ev.prev == null
  {
    assert Adjacent(ring[k], Around(ring)[k + 1]);
    assert Adjacent(ring[k - 1], Around(ring)[k - 1 + 1]);
    ev.next.prev := ev.prev;
    ev.prev.next := ev.next;
    ev.next := null;
    ev.prev := null;
    DropKeepsDistinct(ring, k);
    hide DropAt, Around;
    ghost var shorter := DropAt(ring, k);
    forall i | 0 <= i < |shorter| ensures Adjacent(shorter[i], Around(shorter)[i + 1]) {
      NeighboursAfterDrop(ring, k, i);
      if i != k - 1 {
        var m := if i < k then i else i + 1;
        assert old(Adjacent(ring[m], Around(ring)[m + 1]));
      }
    }
  }

  // ----- the timer list and the pending list

  /** The two lists share no node. */
  ghost predicate Apart(a: seq<RilEvent>, b: seq<RilEvent>) {
    forall i, j :: 0 <= i < |a| && 0 <= j < |b| ==> a[i] != b[j]
  }

  /** Node 0 is the sentinel; the others have normalised deadlines in non-decreasing order. */
  ghost predicate SortedRing(ring: seq<RilEvent>)
    reads ring`timeout
  {
    && (forall i :: 1 <= i < |ring| ==> ring[i].timeout.Normalised())
    && (forall i, j :: 1 <= i < j < |ring| ==> !TimerLess(ring[j].timeout, ring[i].timeout))
  }

  /** `deadline` is later than every timer before node p and not later than node p. */
  ghost predicate FitsAt(ring: seq<RilEvent>, p: nat, deadline: Timeval)
    reads ring`timeout
  {
    && 1 <= p <= |ring|
    && (forall i :: 1 <= i < p ==> TimerLess(ring[i].timeout, deadline))
    && (p < |ring| ==> !TimerLess(ring[p].timeout, deadline))
  }

  lemma DropKeepsApart(a: seq<RilEvent>, b: seq<RilEvent>, k: nat)
    requires Apart(a, b) && k < |a|
    ensures Apart(DropAt(a, k), b)
  {
    forall i, j | 0 <= i < |a| - 1 && 0 <= j < |b| ensures DropAt(a, k)[i] != b[j] {
      DropAtIndex(a, k, i);
    }
  }

  lemma InsertKeepsSortedRing(ring: seq<RilEvent>, p: nat, ev: RilEvent)
    requires SortedRing(ring) && ev.timeout.Normalised() && FitsAt(ring, p, ev.timeout)
    ensures SortedRing(InsertAt(ring, p, ev))
  {
    var longer := InsertAt(ring, p, ev);
    forall i | 1 <= i < |longer| ensures longer[i].timeout.Normalised() {
      InsertAtIndex(ring, p, ev, i);
    }
    forall i, j | 1 <= i < j < |longer| ensures !TimerLess(longer[j].timeout, longer[i].timeout) {
      InsertAtIndex(ring, p, ev, i);
      InsertAtIndex(ring, p, ev, j);
    }
  }

  /** The timers of a ring as the event-loop protocol sees them, under some naming of the events. */
  ghost function Model(ring: seq<RilEvent>, name: RilEvent -> nat): (ts: seq<RilLoop.Timer>)
    requires |ring| > 0
    reads ring`timeout
    ensures |ts| == |ring| - 1
    ensures forall i :: 0 <= i < |ts| ==> ts[i] == RilLoop.Timer(name(ring[i + 1]), ring[i + 1].timeout.Micros())
  {
    var m := |ring| - 1;
    if m == 0 then []
    else Model(ring[..m], name) + [RilLoop.Timer(name(ring[m]), ring[m].timeout.Micros())]
  }

  /** Linking a timer in where it fits is the insertion of the protocol. */
  lemma InsertMatchesProtocol(ring: seq<RilEvent>, p: nat, ev: RilEvent, name: RilEvent -> nat)
    requires SortedRing(ring) && ev.timeout.Normalised() && FitsAt(ring, p, ev.timeout)
    ensures Model(InsertAt(ring, p, ev), name) ==
            RilLoop.Insert(Model(ring, name), RilLoop.Timer(name(ev), ev.timeout.Micros()))
  {
    var (ts, t) := (Model(ring, name), RilLoop.Timer(name(ev), ev.timeout.Micros()));
    var k := RilLoop.InsertSplits(ts, t);
    forall i | 1 <= i < |ring| ensures TimerLess(ring[i].timeout, ev.timeout) <==> ts[i - 1].deadline < t.deadline {
      TimevalArithmetic(ring[i].timeout, ev.timeout);
    }
    assert k == p - 1;
    forall i | 0 <= i < |ring| ensures Model(InsertAt(ring, p, ev), name)[i] == InsertAt(ts, k, t)[i] {
      InsertAtIndex(ring, p, ev, i + 1);
      InsertAtIndex(ts, k, t, i);
    }
  }

  /** The first `count` timers are before `now` and the next one, if any, is not. */
  ghost predicate ExpiredPrefix(ring: seq<RilEvent>, count: nat, now: Timeval)
    reads ring`timeout
  {
    && count < |ring|
    && (forall i :: 1 <= i <= count ==> TimerLess(ring[i].timeout, now))
    && (count + 1 < |ring| ==> !TimerLess(ring[count + 1].timeout, now))
  }

  /** The timers moved by the walk are those that the protocol expires. */
  lemma ExpiredMatchesProtocol(ring: seq<RilEvent>, count: nat, now: Timeval, name: RilEvent -> nat)
    requires SortedRing(ring) && now.Normalised() && ExpiredPrefix(ring, count, now)
    ensures RilLoop.ExpiredCount(Model(ring, name), now.Micros()) == count
  {
    forall i | 1 <= i < |ring|
      ensures TimerLess(ring[i].timeout, now) <==> Model(ring, name)[i - 1].deadline < now.Micros()
    {
      TimevalArithmetic(ring[i].timeout, now);
    }
    ExpiredCountUnique(Model(ring, name), count, now.Micros());
  }

  lemma {:induction false} ExpiredCountUnique(ts: seq<RilLoop.Timer>, count: nat, now: int)
    requires count <= |ts| && forall i :: 0 <= i < count ==> ts[i].deadline < now
    requires count < |ts| ==> ts[count].deadline >= now
    ensures RilLoop.ExpiredCount(ts, now) == count
  {
    if count > 0 {
      ExpiredCountUnique(ts[1..], count - 1, now);
    }
  }

  /** One list: a sentinel and the events linked behind it. */
  class EventList {
    const head: RilEvent
    ghost var ring: seq<RilEvent>   // the sentinel, then the events in list order

    ghost predicate Valid()
      reads this, ring`next, ring`prev
    {
      IsRing(ring) && ring[0] == head
    }

    /** init_list. */
    constructor ()
      ensures Valid() && ring == [head] && fresh(head)
    {
      head := new RilEvent(-1, false);
      ring := [head];
      new;
      head.next, head.prev := head, head;
    }

    method InsertBefore(ev: RilEvent, list: RilEvent, ghost p: nat)
      requires Valid() && 0 < p <= |ring| && list == Around(ring)[p] && ev !in ring
      modifies this`ring, ev`next, ev`prev, ring`next, ring`prev
      ensures Valid() && ring == InsertAt(old(ring), p, ev)
    {
      AddToList(ev, list, ring, p);
      ring := InsertAt(ring, p, ev);
    }

    method Append(ev: RilEvent)
      requires Valid() && ev !in ring
      modifies this`ring, ev`next, ev`prev, ring`next, ring`prev
      ensures Valid() && ring == old(ring) + [ev]
    {
      assert InsertAt(ring, |ring|, ev) == ring + [ev];
      InsertBefore(ev, head, |ring|);
    }

    method TakeFirst(ev: RilEvent)
      requires Valid() && |ring| > 1 && ev == ring[1]
      modifies this`ring, ring`next, ring`prev
      ensures Valid() && ring == DropAt(old(ring), 1) && ev !in ring && ev.next == null && ev.prev == null
    {
      DropKeepsDistinct(ring, 1);
      RemoveFromList(ev, ring, 1);
      ring := DropAt(ring, 1);
    }

    /** The first timer whose deadline is not before `deadline`, or the sentinel. */
    method FindSpot(deadline: Timeval) returns (list: RilEvent, ghost p: nat)
      requires Valid()
      ensures FitsAt(ring, p, deadline) && list == Around(ring)[p]
    {
      FirstAround(ring);
      list, p := head.next, 1;
      while TimerLess(list.timeout, deadline) && list != head
        invariant 1 <= p <= |ring| && list == Around(ring)[p]
        invariant forall i :: 1 <= i < p ==> TimerLess(ring[i].timeout, deadline)
        decreases |ring| - p
      {
        assert Adjacent(ring[p], Around(ring)[p + 1]);
        list, p := list.next, p + 1;
      }
    }
  }

  /** Links an event whose deadline is set in where it fits. */
  method Schedule(timers: EventList, ev: RilEvent, ghost name: RilEvent -> nat) returns (ghost p: nat)
    requires timers.Valid() && SortedRing(timers.ring) && ev !in timers.ring && ev.timeout.Normalised()
    modifies timers`ring, ev`next, ev`prev, timers.ring`next, timers.ring`prev
    ensures timers.Valid() && SortedRing(timers.ring)
    ensures FitsAt(old(timers.ring), p, ev.timeout) && timers.ring == InsertAt(old(timers.ring), p, ev)
    ensures Model(timers.ring, name) ==
            RilLoop.Insert(old(Model(timers.ring, name)), RilLoop.Timer(name(ev), ev.timeout.Micros()))
  {
    hide IsRing, RilLoop.Insert, Model, SortedRing, FitsAt;
    var list;
    list, p := timers.FindSpot(ev.timeout);
    ghost var ring := timers.ring;
    InsertMatchesProtocol(ring, p, ev, name);
    timers.InsertBefore(ev, list, p);
    InsertKeepsSortedRing(ring, p, ev);
  }

  /** Sets the fields of an event that is on no timer list. */
  method SetDeadline(ev: RilEvent, deadline: Timeval, ghost ring: seq<RilEvent>, ghost name: RilEvent -> nat)
    requires IsRing(ring) && SortedRing(ring) && ev !in ring
    modifies ev`fd, ev`timeout
    ensures ev.fd == -1 && ev.timeout == deadline
    ensures IsRing(ring) && SortedRing(ring) && Model(ring, name) == old(Model(ring, name))
  {
    ev.fd := -1;
    ev.timeout := deadline;
  }

  /** ril_timer_add: schedules `ev` at now + tv, keeping the list sorted; without a time it does nothing. */
  method AddTimer(timers: EventList, ev: RilEvent, tv: Option<Timeval>, now: Timeval, ghost name: RilEvent -> nat)
    returns (ghost p: nat)
    requires timers.Valid() && SortedRing(timers.ring) && ev !in timers.ring
    requires now.Normalised() && (tv.Some? ==> tv.value.Normalised())
    modifies timers`ring, ev, timers.ring`next, timers.ring`prev
    ensures timers.Valid() && SortedRing(timers.ring)
    ensures tv.None? ==> timers.ring == old(timers.ring) && ev.timeout == old(ev.timeout) && ev.fd == old(ev.fd)
    ensures tv.Some? ==>
              && ev.fd == -1 && ev.timeout == TimerAdd(now, tv.value)
              && FitsAt(old(timers.ring), p, ev.timeout) && timers.ring == InsertAt(old(timers.ring), p, ev)
    ensures tv.Some? ==>
              Model(timers.ring, name) ==
              RilLoop.Insert(old(Model(timers.ring, name)), RilLoop.Timer(name(ev), now.Micros() + tv.value.Micros()))
  {
    hide IsRing, SortedRing, FitsAt, Model, RilLoop.Insert, TimerAdd, InsertAt, Around;
    if tv.None? {
      return 0;
    }
    TimevalArithmetic(now, tv.value);
    SetDeadline(ev, TimerAdd(now, tv.value), timers.ring, name);
    p := Schedule(timers, ev, name);
  }

  /** calcNextTimeout: no delay when there are no timers, else the time left to the first deadline. */
  method CalcNextTimeout(timers: EventList, now: Timeval, ghost name: RilEvent -> nat)
    returns (tv: Option<Timeval>)
    requires timers.Valid() && SortedRing(timers.ring) && now.Normalised()
    ensures tv.Some? ==> tv.value.Normalised()
    ensures RilLoop.NextDelay(Model(timers.ring, name), now.Micros()) ==
            if tv.Some? then Some(tv.value.Micros()) else None
    ensures tv.None? <==> |timers.ring| == 1
    ensures tv.Some? ==>
              var left := timers.ring[1].timeout.Micros() - now.Micros();
              tv.value.Micros() == if left > 0 then left else 0
  {
    FirstAround(timers.ring);
    var tev := timers.head.next;
    if tev == timers.head {
      return None;
    }
    assert tev == timers.ring[1] && tev.timeout.Normalised();
    TimevalArithmetic(now, tev.timeout);
    TimevalArithmetic(tev.timeout, now);
    if TimerLess(now, tev.timeout) {
      return Some(TimerSub(tev.timeout, now));
    }
    return Some(Timeval(0, 0));
  }

  ghost predicate AllIn(ring: seq<RilEvent>, nodes: set<RilEvent>) {
    forall i :: 0 <= i < |ring| ==> ring[i] in nodes
  }

  lemma DropKeepsIn(ring: seq<RilEvent>, k: nat, nodes: set<RilEvent>)
    requires AllIn(ring, nodes) && k < |ring|
    ensures AllIn(DropAt(ring, k), nodes)
  {
  }

  /** The two lists share no node and all their nodes are among `nodes`. */
  ghost predicate Separate(timers: EventList, pending: EventList, nodes: set<RilEvent>)
    reads timers, pending
  {
    && timers != pending
    && Apart(timers.ring, pending.ring)
    && AllIn(timers.ring, nodes)
    && AllIn(pending.ring, nodes)
  }

  /** One turn of processTimeouts: the first timer becomes the last pending event. */
  method MoveFirst(timers: EventList, pending: EventList, tev: RilEvent, ghost nodes: set<RilEvent>)
    requires timers.Valid() && pending.Valid() && Separate(timers, pending, nodes)
    requires |timers.ring| > 1 && tev == timers.ring[1]
    modifies timers`ring, pending`ring, nodes`next, nodes`prev
    ensures timers.Valid() && pending.Valid() && Separate(timers, pending, nodes)
    ensures timers.ring == DropAt(old(timers.ring), 1) && pending.ring == old(pending.ring) + [tev]
  {
    DropKeepsApart(timers.ring, pending.ring, 1);
    timers.TakeFirst(tev);
    assert pending.Valid();
    pending.Append(tev);
  }

  /** The loop of processTimeouts. */
  method MoveExpired(timers: EventList, pending: EventList, now: Timeval, ghost nodes: set<RilEvent>)
    returns (ghost count: nat)
    requires timers.Valid() && pending.Valid() && Separate(timers, pending, nodes)
    modifies timers`ring, pending`ring, nodes`next, nodes`prev
    ensures timers.Valid() && pending.Valid() && Separate(timers, pending, nodes)
    ensures ExpiredPrefix(old(timers.ring), count, now)
    ensures timers.ring == Rest(old(timers.ring), count)
    ensures pending.ring == old(pending.ring) + old(timers.ring)[1..count + 1]
  {
    var tev := timers.head.next;
    count := 0;
    FirstAround(timers.ring);
    ghost var all := timers.ring;
    while tev != timers.head && TimerLess(tev.timeout, now)
      invariant timers.Valid() && pending.Valid() && Separate(timers, pending, nodes)
      invariant count < |all| && timers.ring == Rest(all, count) && tev == Around(timers.ring)[1]
      invariant pending.ring == old(pending.ring) + all[1..count + 1]
      invariant forall i :: 1 <= i <= count ==> TimerLess(all[i].timeout, now)
      decreases |timers.ring|
    {
      var next := tev.next;
      RestStep(all, count);
      MoveFirst(timers, pending, tev, nodes);
      tev, count := next, count + 1;
    }
  }

  /** processTimeouts: moves the timers that are strictly past their deadline, in order. */
  method ProcessTimeouts(timers: EventList, pending: EventList, now: Timeval, ghost nodes: set<RilEvent>,
                         ghost name: RilEvent -> nat)
    returns (ghost count: nat)
    requires now.Normalised()
    requires timers.Valid() && SortedRing(timers.ring) && pending.Valid() && Separate(timers, pending, nodes)
    modifies timers`ring, pending`ring, nodes`next, nodes`prev
    ensures timers.Valid() && SortedRing(timers.ring) && pending.Valid() && Separate(timers, pending, nodes)
    ensures ExpiredPrefix(old(timers.ring), count, now)
    ensures timers.ring == Rest(old(timers.ring), count)
    ensures pending.ring == old(pending.ring) + old(timers.ring)[1..count + 1]
    ensures count == RilLoop.ExpiredCount(old(Model(timers.ring, name)), now.Micros())
    ensures Model(timers.ring, name) == old(Model(timers.ring, name))[count..]
  {
    hide IsRing, Model, RilLoop.ExpiredCount, ExpiredPrefix, SortedRing;
    ghost var all := timers.ring;
    count := MoveExpired(timers, pending, now, nodes);
    RestMatchesProtocol(all, count, now, name);
  }

  /** The timers that stay are those that the protocol leaves waiting. */
  lemma RestMatchesProtocol(ring: seq<RilEvent>, count: nat, now: Timeval, name: RilEvent -> nat)
    requires SortedRing(ring) && now.Normalised() && ExpiredPrefix(ring, count, now)
    ensures RilLoop.ExpiredCount(Model(ring, name), now.Micros()) == count
    ensures SortedRing(Rest(ring, count)) && Model(Rest(ring, count), name) == Model(ring, name)[count..]
  {
    ExpiredMatchesProtocol(ring, count, now, name);
    RestKeepsSortedRing(ring, count);
  }

  /** firePending: every pending event once, oldest first; callbacks leave the pending list alone. */
  method FirePending(pending: EventList, ghost nodes: set<RilEvent>) returns (fired: seq<RilEvent>)
    requires pending.Valid() && AllIn(pending.ring, nodes)
    modifies pending`ring, nodes`next, nodes`prev
    ensures pending.Valid() && fired == old(pending.ring)[1..] && pending.ring == [pending.head]
  {
    fired := [];
    var ev := pending.head.next;
    FirstAround(pending.ring);
    ghost var all := pending.ring;
    while ev != pending.head
      invariant pending.Valid() && AllIn(pending.ring, nodes) && |fired| < |all|
      invariant pending.ring == Rest(all, |fired|) && ev == Around(pending.ring)[1]
      invariant fired == all[1..|fired| + 1]
      decreases |pending.ring|
    {
      var next := ev.next;
      RestStep(all, |fired|);
      DropKeepsIn(pending.ring, 1, nodes);
      pending.TakeFirst(ev);
      fired, ev := fired + [ev], next;
    }
  }

  /** A ring after its first `count` nodes behind the sentinel are gone. */
  ghost function Rest(ring: seq<RilEvent>, count: nat): seq<RilEvent>
    requires count < |ring|
  {
    [ring[0]] + ring[count + 1..]
  }

  lemma FirstAround(ring: seq<RilEvent>)
    requires IsRing(ring)
    ensures ring[0].next == Around(ring)[1] && Rest(ring, 0) == ring
  {
    assert Adjacent(ring[0], Around(ring)[0 + 1]);
  }

  lemma RestKeepsSortedRing(ring: seq<RilEvent>, count: nat)
    requires SortedRing(ring) && count < |ring|
    ensures SortedRing(Rest(ring, count))
  {
    var rest := Rest(ring, count);
    assert forall i :: 1 <= i < |rest| ==> rest[i] == ring[i + count];
  }

  lemma RingOfOne(ring: seq<RilEvent>)
    requires |ring| > 0
    ensures |ring| == 1 <==> |Around(ring)| == 2
    ensures |ring| == 1 ==> Around(ring)[1] == ring[0]
  {
  }

  lemma RestStep(all: seq<RilEvent>, count: nat)
    requires count < |all| && IsRing(Rest(all, count)) && Around(Rest(all, count))[1] != all[0]
    ensures var ring := Rest(all, count);
            && count + 1 < |all| && |ring| > 1 && ring[1] == all[count + 1]
            && DropAt(ring, 1) == Rest(all, count + 1)
            && ring[1].next == Around(Rest(all, count + 1))[1]
            && all[1..count + 2] == all[1..count + 1] + [all[count + 1]]
  {
    var ring := Rest(all, count);
    RingOfOne(ring);
    assert Adjacent(ring[1], Around(ring)[1 + 1]);
    assert DropAt(ring, 1) == Rest(all, count + 1);
    assert Around(Rest(all, count + 1))[1] == Around(ring)[2];
  }
}
