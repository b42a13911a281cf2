/**
 The library as a whole (ril/libril/ril.cpp): one pending list per socket, the wake lock and the timer
 list, and what answering a request means for all of them.
 */
module RilSystem {
  import opened Sequences
  import opened Timevals
  import opened RilEventLists
  import opened RilCallbacks
  import opened RilRequests
  import opened RilWakeLock

  /** Which of n lists is a socket's; sockets without a SIM of their own use the first list. */
  function SlotOf(socketId: int, n: nat): (i: nat)
    ensures n > 0 ==> i < n
    ensures 0 <= socketId < n ==> i == socketId
    ensures !(0 <= socketId < n) ==> i == 0
  {
    if 1 <= socketId < n then socketId else 0
  }

  /** The requests, wake lock and timers of the library. A request is on the list of its socket, and the
      lists share nothing, so that a call about one request leaves the other sockets' lists alone. */
  class Library {
    const lists: seq<PendingRequests>            // one per SIM, at least one
    const lock: PartialWakeLock
    const timers: EventList
    ghost var links: set<Link<RequestInfo>>      // those of all lists, and perhaps former ones

    /** The number of a socket's list. */
    function Slot(socketId: int): (i: nat)
      ensures |lists| > 0 ==> i < |lists|
    {
      SlotOf(socketId, |lists|)
    }

    /** The list that holds a request if it is pending; a null token is on none. */
    function Home(r: RequestInfo?): (i: nat)
      ensures |lists| > 0 ==> i < |lists|
    {
      if r == null then 0 else Slot(r.socketId)
    }

    ghost predicate ListOk(i: nat)
      requires i < |lists|
      reads this, lists[i].list, links
    {
      var list := lists[i].list;
      && (forall x :: x in list.links ==> x in links)
      && lists[i].Valid() && lists[i].version == lock.version
      && (forall r :: r in list.Items() ==> Slot(r.socketId) == i)
    }

    ghost predicate Apart(i: nat, j: nat)
      requires i < |lists| && j < |lists|
      reads lists[i].list, lists[j].list
    {
      lists[i].list != lists[j].list && forall x :: x in lists[i].list.links ==> x !in lists[j].list.links
    }

    ghost predicate ListsOk()
      reads this, links, set i | 0 <= i < |lists| :: lists[i].list
    {
      && |lists| > 0
      && (forall i :: 0 <= i < |lists| ==> ListOk(i))
      && (forall i, j :: 0 <= i < |lists| && 0 <= j < |lists| && i != j ==> Apart(i, j))
    }

    constructor (simCount: nat, version: int, ghost now: int)
      requires simCount > 0
      ensures ListsOk() && |lists| == simCount && fresh(links)
      ensures forall i :: 0 <= i < simCount ==>
                fresh(lists[i].list) && lists[i].list.Items() == [] && lists[i].list.links == []
      ensures lock.Valid() && lock.version == version && lock.Model() == Wake(0, false, None, {}, {}, now)
      ensures timers.Valid() && SortedRing(timers.ring) && |timers.ring| == 1
      ensures fresh(lock) && lock.last == null && fresh(timers) && fresh(timers.ring)
    {
      var all: seq<PendingRequests> := [];
      while |all| < simCount
        invariant |all| <= simCount
        invariant forall i :: 0 <= i < |all| ==>
                    && fresh(all[i].list) && all[i].Valid() && all[i].version == version
                    && all[i].list.Items() == [] && all[i].list.links == []
        invariant forall i, j :: 0 <= i < j < |all| ==> all[i].list != all[j].list
      {
        var pending := new PendingRequests(version);
        all := all + [pending];
      }
      lists, links := all, {};
      lock := new PartialWakeLock(version, now);
      timers := new EventList();
    }

    /** List i, its links and the marks of its requests are as they were. */
    twostate predicate Kept(i: nat)
      requires i < |lists|
      reads lists[i].list, lists[i].list.links, lists[i].list.Items()
    {
      var list := lists[i].list;
      && list.front == old(list.front) && list.links == old(list.links)
      && (forall n :: 0 <= n < |list.links| ==> list.links[n].next == old(list.links[n].next))
      && (forall n :: 0 <= n < |list.links| ==> list.Items()[n].wasAckSent == old(list.Items()[n].wasAckSent))
    }

    /** A call about list k keeps all lists in order and what the others hold. */
    twostate lemma ListsStayOk(k: nat, new name: RequestInfo -> nat)
      requires old(ListsOk()) && k < |lists| && ListOk(k) && old(links) <= links
      requires forall i :: 0 <= i < |lists| && i != k ==> Kept(i)
      requires forall x :: x in lists[k].list.links ==> x in old(lists[k].list.links) || fresh(x)
      ensures ListsOk()
      ensures forall i :: 0 <= i < |lists| && i != k ==> lists[i].list.Items() == old(lists[i].list.Items())
      ensures forall i :: 0 <= i < |lists| && i != k ==> lists[i].list.links == old(lists[i].list.links)
      ensures forall i :: 0 <= i < |lists| && i != k ==> lists[i].Pending(name) == old(lists[i].Pending(name))
    {
      forall i | 0 <= i < |lists| && i != k
        ensures ListOk(i) && Apart(i, k) && Apart(k, i) && lists[i].list.Items() == old(lists[i].list.Items())
        ensures lists[i].Pending(name) == old(lists[i].Pending(name)) && lists[i].list.links == old(lists[i].list.links)
      {
        assert old(ListOk(i)) && old(Apart(i, k)) && old(Apart(k, i)) && Kept(i);
        assert lists[i].list.Items() == old(lists[i].list.Items());
      }
      forall i, j | 0 <= i < |lists| && 0 <= j < |lists| && i != j ensures Apart(i, j) {
        if i != k && j != k {
          assert old(Apart(i, j)) && Kept(i) && Kept(j);
        }
      }
    }

    /** A new request goes to the head of its socket's list, and no other list is touched. */
    method AddRequestToList(serial: int, slotId: int, allocOk: bool, ghost name: RequestInfo -> nat)
      returns (r: RequestInfo?)
      requires ListsOk()
      modifies this`links, lists[Slot(slotId)].list
      ensures ListsOk() && old(links) <= links && fresh(links - old(links)) && (r != null <==> allocOk)
      ensures forall i :: 0 <= i < |lists| && i != Slot(slotId) ==> lists[i].list.Items() == old(lists[i].list.Items())
      ensures forall i :: 0 <= i < |lists| && i != Slot(slotId) ==> lists[i].list.links == old(lists[i].list.links)
      ensures forall x :: x in lists[Slot(slotId)].list.links ==> x in old(lists[Slot(slotId)].list.links) || fresh(x)
      ensures r != null ==> Home(r) == Slot(slotId)
      ensures r != null ==> r in lists[if 0 <= slotId < |lists| then slotId else 0].list.Items()
      ensures forall i :: 0 <= i < |lists| && i != Slot(slotId) ==> lists[i].Pending(name) == old(lists[i].Pending(name))
      ensures var pending := lists[Slot(slotId)];
              && Added(r, serial, slotId, old(pending.list.Items()), pending.list.Items())
              && (r != null ==>
                    && fresh(r)
                    && pending.Pending(name) == [Request(name(r), false, false, false)] + old(pending.Pending(name)))
    {
      var k := Slot(slotId);
      r := AddAt(k, serial, slotId, allocOk, name);
      ListsStayOk(k, name);
    }

    method AddAt(k: nat, serial: int, slotId: int, allocOk: bool, ghost name: RequestInfo -> nat)
      returns (r: RequestInfo?)
      requires ListsOk() && k < |lists| && k == Slot(slotId)
      modifies this`links, lists[k].list
      ensures ListOk(k) && old(links) <= links && fresh(links - old(links)) && (r != null <==> allocOk)
      ensures forall i :: 0 <= i < |lists| && i != k ==> Kept(i)
      ensures forall x :: x in lists[k].list.links ==> x in old(lists[k].list.links) || fresh(x)
      ensures Added(r, serial, slotId, old(lists[k].list.Items()), lists[k].list.Items())
      ensures r != null ==> fresh(r) && lists[k].Pending(name) == [Request(name(r), false, false, false)] + old(lists[k].Pending(name))
    {
      hide Distinct, View, Slot, LinkedRequests.Valid;
      assert ListOk(k);
      ghost var chain := lists[k].list.links;
      r := lists[k].AddRequestToList(serial, slotId, allocOk, name);
      links := links + if r == null then {} else {lists[k].list.links[0]};
      assert r != null ==> lists[k].list.links == [lists[k].list.links[0]] + chain;
      forall i | 0 <= i < |lists| && i != k ensures Kept(i) {
        assert old(Apart(i, k));
      }
    }

    /** Returns whether the framework is told of the acknowledgement; no other list is touched. */
    method OnRequestAck(r: RequestInfo?, ghost name: RequestInfo -> nat) returns (acknowledged: bool)
      requires ListsOk() && (r != null ==> Names(name, r, lists[Home(r)].list.Items()))
      modifies lists[Home(r)].list, links, r
      ensures ListsOk() && links == old(links)
      ensures forall i :: 0 <= i < |lists| ==> lists[i].list.Items() == old(lists[i].list.Items())
      ensures forall i :: 0 <= i < |lists| ==> lists[i].list.links == old(lists[i].list.links)
      ensures forall i :: 0 <= i < |lists| && i != Home(r) ==> lists[i].Pending(name) == old(lists[i].Pending(name))
      ensures var pending := lists[Home(r)];
              && (acknowledged <==> r in pending.list.Items() && r != null && !r.cancelled)
              && pending.Pending(name) ==
                 if r == null then old(pending.Pending(name)) else Marked(old(pending.Pending(name)), name(r))
    {
      var k := Home(r);
      assert ListOk(k);
      acknowledged := AckOn(k, r, name);
      ListsStayOk(k, name);
    }

    method AckOn(k: nat, r: RequestInfo?, ghost name: RequestInfo -> nat) returns (acknowledged: bool)
      requires ListsOk() && k == Home(r) && (r != null ==> Names(name, r, lists[k].list.Items()))
      modifies lists[k].list, lists[k].list.links, r
      ensures ListOk(k) && lists[k].list.links == old(lists[k].list.links)
      ensures forall i :: 0 <= i < |lists| && i != k ==> Kept(i)
      ensures var pending := lists[k];
              && pending.list.Items() == old(pending.list.Items())
              && (acknowledged <==> r in pending.list.Items() && r != null && !r.cancelled)
              && pending.Pending(name) ==
                 if r == null then old(pending.Pending(name)) else Marked(old(pending.Pending(name)), name(r))
    {
      hide Distinct, Marked, LinkedRequests.Valid;
      assert ListOk(k);
      ghost var chain := lists[k].list.links;
      acknowledged := lists[k].OnRequestAck(r, name);
      forall i | 0 <= i < |lists| && i != k ensures Kept(i) {
        assert old(Apart(i, k)) && old(ListOk(i));
        var list := lists[i].list;
        assert list.links == old(list.links) && list.Items() == old(list.Items());
        forall j | 0 <= j < |list.links| ensures list.links[j].next == old(list.links[j].next) {
          assert list.links[j] !in chain;
        }
        forall j | 0 <= j < |list.links| ensures list.Items()[j].wasAckSent == old(list.Items()[j].wasAckSent) {
          assert list.Items()[j] in old(list.Items());
        }
      }
    }

    /** Answers a pending request, at most once, touching no other list; exactly when the response asks for
        an acknowledgement, and there is memory, the wake lock is grabbed and its callback is on the timer
        list 200 ms ahead. */
    method OnRequestComplete(r: RequestInfo?, allocOk: bool, now: Timeval, ghost id: nat,
                             ghost name: RequestInfo -> nat, ghost number: RilEvent -> nat, ghost s: State)
      returns (response: Option<ResponseType>, info: UserCallbackInfo?)
      requires ListsOk() && s.pending == lists[Home(r)].Pending(name)
      requires r != null ==> Names(name, r, lists[Home(r)].list.Items())
      requires lock.Valid() && id !in lock.infos
      requires timers.Valid() && SortedRing(timers.ring) && now.Normalised()
      modifies lists[Home(r)].list, links, r
      modifies lock, lock.last, timers`ring, timers.ring`next, timers.ring`prev
      ensures ListsOk() && links == old(links)
      ensures forall i :: 0 <= i < |lists| && i != Home(r) ==> lists[i].list.Items() == old(lists[i].list.Items())
      ensures forall i :: 0 <= i < |lists| && i != Home(r) ==> lists[i].list.links == old(lists[i].list.links)
      ensures forall x :: x in lists[Home(r)].list.links ==> x in old(lists[Home(r)].list.links)
      ensures forall i :: 0 <= i < |lists| && i != Home(r) ==> lists[i].Pending(name) == old(lists[i].Pending(name))
      ensures var pending := lists[Home(r)];
              && r !in pending.list.Items()
              && (response.Some? <==> r in old(pending.list.Items()) && r != null && !r.isLocal && !r.cancelled)
              && Completed(lock.version, s, r, name, pending.Pending(name), response)
      ensures lock.Valid() && timers.Valid() && SortedRing(timers.ring)
      ensures lock.Model() == AfterResponse(old(lock.Model()), response, allocOk, id, now.Micros())
      ensures info != null <==> response == Some(SolicitedAckExpected) && allocOk
      ensures response == Some(SolicitedAckExpected) ==> lock.held == allocOk
      ensures info == null ==> timers.ring == old(timers.ring) && lock.last == old(lock.last)
      ensures forall x :: x in timers.ring ==> x in old(timers.ring) || (info != null && x == info.event)
      ensures info != null ==> fresh(info) && fresh(info.event) && lock.last == info
      ensures info != null ==>
                IsInserted(old(Model(timers.ring, number)), Model(timers.ring, number), number(info.event), now, TIMEVAL_WAKE_TIMEOUT)
    {
      hide Completed, Distinct, ListOk, Apart, IsRing, SortedRing, Names, AfterResponse, IsInserted, Model;
      response := AnswerRequest(r, name, s);
      info := GrabFor(response, allocOk, now, id, number, name);
    }

    /** The answer in RIL_onRequestComplete, which leaves the wake lock and the timers alone. */
    method AnswerRequest(r: RequestInfo?, ghost name: RequestInfo -> nat, ghost s: State)
      returns (response: Option<ResponseType>)
      requires ListsOk() && s.pending == lists[Home(r)].Pending(name)
      requires r != null ==> Names(name, r, lists[Home(r)].list.Items())
      modifies lists[Home(r)].list, links, r
      ensures ListsOk()
      ensures forall i :: 0 <= i < |lists| && i != Home(r) ==> lists[i].list.Items() == old(lists[i].list.Items())
      ensures forall i :: 0 <= i < |lists| && i != Home(r) ==> lists[i].list.links == old(lists[i].list.links)
      ensures forall i :: 0 <= i < |lists| && i != Home(r) ==> lists[i].Pending(name) == old(lists[i].Pending(name))
      ensures forall x :: x in lists[Home(r)].list.links ==> x in old(lists[Home(r)].list.links)
      ensures var pending := lists[Home(r)];
              && r !in pending.list.Items()
              && (response.Some? <==> r in old(pending.list.Items()) && r != null && !r.isLocal && !r.cancelled)
              && Completed(lock.version, s, r, name, pending.Pending(name), response)
      ensures response == Some(SolicitedAckExpected) ==> lock.version >= 13
    {
      hide Completed, Distinct, LinkedRequests.Valid;
      var k := Home(r);
      assert ListOk(k);
      response := AnswerOn(k, r, name, s);
      ListsStayOk(k, name);
    }

    method AnswerOn(k: nat, r: RequestInfo?, ghost name: RequestInfo -> nat, ghost s: State)
      returns (response: Option<ResponseType>)
      requires ListsOk() && k == Home(r) && s.pending == lists[k].Pending(name)
      requires r != null ==> Names(name, r, lists[k].list.Items())
      modifies lists[k].list, lists[k].list.links, r
      ensures ListOk(k) && forall x :: x in lists[k].list.links ==> x in old(lists[k].list.links)
      ensures forall i :: 0 <= i < |lists| && i != k ==> Kept(i)
      ensures var pending := lists[k];
              && r !in pending.list.Items()
              && (response.Some? <==> r in old(pending.list.Items()) && r != null && !r.isLocal && !r.cancelled)
              && Completed(lock.version, s, r, name, pending.Pending(name), response)
      ensures response == Some(SolicitedAckExpected) ==> lock.version >= 13
    {
      hide Distinct, Apply, Answering, DropAt, LinkedRequests.Valid;
      assert ListOk(k);
      ghost var n;
      ghost var (items, chain) := (lists[k].list.Items(), lists[k].list.links);
      response, n := lists[k].Answer(r, name, s);
      if r in items {
        DropIsSubset(items, n);
        DropIsSubset(chain, n);
      }
      forall i | 0 <= i < |lists| && i != k ensures Kept(i) {
        assert old(Apart(i, k)) && old(ListOk(i));
        var list := lists[i].list;
        assert list.links == old(list.links) && list.Items() == old(list.Items());
        forall j | 0 <= j < |list.links| ensures list.links[j].next == old(list.links[j].next) {
          assert list.links[j] !in chain;
        }
        forall j | 0 <= j < |list.links| ensures list.Items()[j].wasAckSent == old(list.Items()[j].wasAckSent) {
          assert list.Items()[j] in old(list.Items());
        }
      }
    }

    /** The grab in RIL_onRequestComplete, which leaves the pending lists alone. */
    method GrabFor(response: Option<ResponseType>, allocOk: bool, now: Timeval, ghost id: nat,
                   ghost number: RilEvent -> nat, ghost name: RequestInfo -> nat)
      returns (info: UserCallbackInfo?)
      requires ListsOk()
      requires lock.Valid() && id !in lock.infos && (response == Some(SolicitedAckExpected) ==> lock.version >= 13)
      requires timers.Valid() && SortedRing(timers.ring) && now.Normalised()
      modifies lock, lock.last, timers`ring, timers.ring`next, timers.ring`prev
      ensures lock.Valid() && timers.Valid() && SortedRing(timers.ring)
      ensures lock.Model() == AfterResponse(old(lock.Model()), response, allocOk, id, now.Micros())
      ensures info != null <==> response == Some(SolicitedAckExpected) && allocOk
      ensures response == Some(SolicitedAckExpected) ==> lock.held == allocOk
      ensures info == null ==> timers.ring == old(timers.ring) && lock.last == old(lock.last)
      ensures forall x :: x in timers.ring ==> x in old(timers.ring) || (info != null && x == info.event)
      ensures info != null ==> fresh(info) && fresh(info.event) && lock.last == info
      ensures info != null ==>
                IsInserted(old(Model(timers.ring, number)), Model(timers.ring, number), number(info.event), now, TIMEVAL_WAKE_TIMEOUT)
      ensures ListsOk()
      ensures forall i :: 0 <= i < |lists| ==> lists[i].list.Items() == old(lists[i].list.Items())
      ensures forall i :: 0 <= i < |lists| ==> lists[i].list.links == old(lists[i].list.links)
      ensures forall i :: 0 <= i < |lists| ==> lists[i].Pending(name) == old(lists[i].Pending(name))
    {
      hide IsRing, SortedRing, Distinct, IsInserted, Model;
      info := null;
      if response == Some(SolicitedAckExpected) {
        ghost var p;
        info, p := lock.GrabPartialWakeLock(allocOk, now, timers, id, number);
      }
    }
  }

  /** A new request is at the head of what was pending, or nothing changed. */
  ghost predicate Added(r: RequestInfo?, serial: int, slotId: int, before: seq<RequestInfo>, after: seq<RequestInfo>)
    reads r
  {
    if r == null then after == before
    else
      && after == [r] + before && r.token == serial && r.socketId == slotId
      && !r.wasAckSent && !r.cancelled && !r.isLocal
  }

  /** A completion step of the request protocol left `after` pending; a null token changes nothing. */
  ghost predicate Completed(version: int, s: State, r: RequestInfo?, name: RequestInfo -> nat,
                            after: seq<Request>, response: Option<ResponseType>)
  {
    if r == null then after == s.pending && response.None?
    else Apply(version, s, Complete(name(r))) == Answering(s, after, name(r), response)
  }

  /** The wake lock after a response of the given type. */
  ghost function AfterResponse(w: Wake, response: Option<ResponseType>, allocOk: bool, id: nat, now: int): Wake {
    if response != Some(SolicitedAckExpected) then w
    else if allocOk then AfterGrab(w, id, now)
    else w.(held := false)
  }
}
