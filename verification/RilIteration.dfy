/**
 One iteration of ril_event_loop (ril/libril/ril_event.cpp) on the pointer-level lists and the watch
 table, from select's return to the top of the loop, tied to the steps of module `RilLoop`.
 */
module RilIteration {
  import opened Sequences
  import opened Timevals
  import opened RilEventLists
  import opened RilWatchTable
  import RilLoop

  /** Ready events as the protocol sees them; `wake` is the event of the wake pipe. */
  ghost function ReadyItems(events: seq<RilEvent>, wake: RilEvent): (items: seq<RilLoop.Item>)
    reads events`fd
    ensures |items| == |events|
    ensures RilLoop.DrainPipe in items <==> wake in events
    ensures forall x :: x in items ==> !x.Expired?
  {
    if events == [] then []
    else
      var m := |events| - 1;
      ReadyItems(events[..m], wake) + [if events[m] == wake then RilLoop.DrainPipe else RilLoop.Watched(events[m].fd)]
  }

  /** The protocol state agrees with the lists and with what select reported. */
  ghost predicate Agrees(s: RilLoop.Loop, timers: seq<RilLoop.Timer>, now: Timeval, wakeReady: bool) {
    && s.phase.Returned? && s.pending == [] && s.timers == timers && s.now == now.Micros()
    && s.phase.pipeReady == wakeReady
  }

  /** Appending timers to the pending list keeps the watched events off it. */
  lemma OffListAppend(entries: seq<RilEvent?>, pending: seq<RilEvent>, timers: seq<RilEvent>, count: nat, nodes: set<RilEvent>)
    requires OffList(entries, 0, pending, nodes) && OffList(entries, 0, timers, nodes) && count < |timers|
    ensures OffList(entries, 0, pending + timers[1..count + 1], nodes)
  {
  }

  /** Nodes that are not on the timer list. */
  ghost function Without(nodes: set<RilEvent>, ring: seq<RilEvent>): set<RilEvent> {
    set x | x in nodes && x !in ring
  }

  lemma RestIsSubset(ring: seq<RilEvent>, count: nat)
    requires count < |ring|
    ensures forall x :: x in Rest(ring, count) ==> x in ring
  {
  }

  lemma NarrowNodes(entries: seq<RilEvent?>, pending: seq<RilEvent>, timers: seq<RilEvent>, nodes: set<RilEvent>)
    requires Apart(timers, pending) && AllIn(pending, nodes)
    requires OffList(entries, 0, pending, nodes) && OffList(entries, 0, timers, nodes)
    ensures AllIn(pending, Without(nodes, timers)) && OffList(entries, 0, pending, Without(nodes, timers))
  {
  }

  lemma HeadIsApart(timers: seq<RilEvent>, pending: seq<RilEvent>, nodes: set<RilEvent>)
    requires Apart(timers, pending) && AllIn(pending, nodes) && IsRing(pending)
    ensures |pending| > 0 && Apart(timers, [pending[0]]) && AllIn([pending[0]], nodes)
  {
  }

  /** processReadReadies and firePending leave the timer list alone. */
  method FireReady(timers: EventList, pending: EventList, watch: WatchTable, rfds: set<int>, ghost nodes: set<RilEvent>)
    returns (fired: seq<RilEvent>)
    requires timers.Valid() && SortedRing(timers.ring) && pending.Valid() && Separate(timers, pending, nodes)
    requires watch.Valid() && OffList(watch.table, 0, pending.ring, nodes) && OffList(watch.table, 0, timers.ring, nodes)
    modifies pending`ring, watch`table, watch`readFds, watch`nfds, nodes`index, nodes`next, nodes`prev
    ensures timers.Valid() && SortedRing(timers.ring) && pending.Valid() && watch.Valid()
    ensures pending.ring == [pending.head] && Separate(timers, pending, nodes)
    ensures fired == old(pending.ring)[1..] + ReadyIn(old(watch.table), rfds)
    ensures Settled(old(watch.table), watch.table, rfds, |watch.table|) && Unwatched(old(watch.table), watch.table)
  {
    hide IsRing, SortedRing, ReadyIn, Settled, Unwatched, Fds, IsLimit, Indexed, DistinctFds, OffList, Apart, AllIn;
    ghost var (free, ring) := (Without(nodes, timers.ring), pending.ring);
    NarrowNodes(watch.table, ring, timers.ring, nodes);
    HeadIsApart(timers.ring, ring, nodes);
    TailOfAppend(ring, ReadyIn(watch.table, rfds));
    watch.ProcessReadReadies(rfds, pending, free);
    fired := FirePending(pending, free);
  }

  lemma TailOfAppend(ring: seq<RilEvent>, more: seq<RilEvent>)
    requires IsRing(ring)
    ensures |ring| > 0 && (ring + more)[1..] == ring[1..] + more && (ring + more)[0] == ring[0]
  {
  }

  /** One iteration: the expired timers fire, in order, then the ready events, in table order. Lists and
      table stay in order, and the timer list is what the protocol's iteration leaves. */
  method RunIteration(timers: EventList, pending: EventList, watch: WatchTable, now: Timeval, rfds: set<int>,
                      ghost wake: RilEvent, ghost nodes: set<RilEvent>, ghost name: RilEvent -> nat, ghost s: RilLoop.Loop)
    returns (fired: seq<RilEvent>, ghost count: nat, ghost ready: seq<RilLoop.Item>)
    requires timers.Valid() && SortedRing(timers.ring) && pending.Valid() && Separate(timers, pending, nodes)
    requires watch.Valid() && OffList(watch.table, 0, pending.ring, nodes) && OffList(watch.table, 0, timers.ring, nodes)
    requires now.Normalised() && pending.ring == [pending.head]
    requires Agrees(s, Model(timers.ring, name), now, wake in ReadyIn(watch.table, rfds))
    modifies timers`ring, pending`ring, watch`table, watch`readFds, watch`nfds, nodes`index, nodes`next, nodes`prev
    ensures timers.Valid() && SortedRing(timers.ring) && pending.Valid() && watch.Valid()
    ensures pending.ring == [pending.head] && Separate(timers, pending, nodes)
    ensures Settled(old(watch.table), watch.table, rfds, |watch.table|) && Unwatched(old(watch.table), watch.table)
    ensures count < |old(timers.ring)|
    ensures fired == old(timers.ring)[1..count + 1] + ReadyIn(old(watch.table), rfds)
    ensures ready == old(ReadyItems(ReadyIn(watch.table, rfds), wake)) && RilLoop.CanRun(s, RilLoop.IterationSteps(s, ready))
    ensures var after := RilLoop.RunFrom(s, RilLoop.IterationSteps(s, ready));
            && after.timers == Model(timers.ring, name) && after.pending == [] && after.phase == RilLoop.Top
            && after.fired == s.fired + RilLoop.FiringsAt(old(Model(timers.ring, name))[..count], now.Micros())
  {
    hide IsRing, SortedRing, ReadyIn, ReadyItems, Settled, Unwatched, Fds, IsLimit, Indexed, DistinctFds, OffList;
    hide RilLoop.CanRun, RilLoop.RunFrom, RilLoop.IterationSteps, RilLoop.FiringsAt, RilLoop.ExpiredCount, Model, Apart, AllIn;
    ready := ReadyItems(ReadyIn(watch.table, rfds), wake);
    RilLoop.IterationMeans(s, ready);
    ghost var ring := timers.ring;
    count := Expire(timers, pending, watch, now, nodes, name);
    fired := FireReady(timers, pending, watch, rfds, nodes);
  }

  /** processTimeouts with an empty pending list; the watched events stay off both lists. */
  method Expire(timers: EventList, pending: EventList, ghost watch: WatchTable, now: Timeval,
                ghost nodes: set<RilEvent>, ghost name: RilEvent -> nat)
    returns (ghost count: nat)
    requires timers.Valid() && SortedRing(timers.ring) && pending.Valid() && Separate(timers, pending, nodes)
    requires watch.Valid() && OffList(watch.table, 0, pending.ring, nodes) && OffList(watch.table, 0, timers.ring, nodes)
    requires now.Normalised()
    modifies timers`ring, pending`ring, nodes`next, nodes`prev
    ensures timers.Valid() && SortedRing(timers.ring) && pending.Valid() && Separate(timers, pending, nodes)
    ensures watch.Valid() && OffList(watch.table, 0, pending.ring, nodes) && OffList(watch.table, 0, timers.ring, nodes)
    ensures count < |old(timers.ring)| && pending.ring == old(pending.ring) + old(timers.ring)[1..count + 1]
    ensures count == RilLoop.ExpiredCount(old(Model(timers.ring, name)), now.Micros())
    ensures Model(timers.ring, name) == old(Model(timers.ring, name))[count..]
  {
    hide IsRing, SortedRing, Model, RilLoop.ExpiredCount, Fds, IsLimit, Indexed, DistinctFds;
    ghost var (ring, waiting) := (timers.ring, pending.ring);
    count := ProcessTimeouts(timers, pending, now, nodes, name);
    OffListAppend(watch.table, waiting, ring, count, nodes);
    RestIsSubset(ring, count);
  }
}
