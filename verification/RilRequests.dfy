/**
 Outstanding requests of the RIL library.

 `LinkedRequests` is the singly linked list of ril/libril/rilSocketQueue.h and of the pending list in
 ril/libril/ril.cpp; `PendingRequests` answers and acknowledges the requests on such a list; the step
 machine at the end gives what holds over whole runs.
 */
module RilRequests {
  import opened Sequences

  // ----- the linked list

  class Link<T> {
    const item: T
    var next: Link?<T>

    constructor (item: T, next: Link?<T>)
      ensures this.item == item && this.next == next
    {
      this.item, this.next := item, next;
    }
  }

  /** All items but the first one that matches. */
  function RemoveFirst<T>(items: seq<T>, matches: T -> bool): seq<T> {
    if items == [] then []
    else if matches(items[0]) then items[1..]
    else [items[0]] + RemoveFirst(items[1..], matches)
  }

  ghost predicate HasMatch<T>(items: seq<T>, matches: T -> bool) {
    exists i :: 0 <= i < |items| && matches(items[i])
  }

  /** Exactly one item, the first match, goes; the rest keep their order. */
  lemma {:induction false} RemoveFirstUnlinksOne<T>(items: seq<T>, matches: T -> bool) returns (k: nat)
    requires HasMatch(items, matches)
    ensures k < |items| && matches(items[k]) && RemoveFirst(items, matches) == DropAt(items, k)
    ensures forall i :: 0 <= i < k ==> !matches(items[i])
  {
    if matches(items[0]) {
      k := 0;
    } else {
      var i :| 0 <= i < |items| && matches(items[i]);
      assert items[1..][i - 1] == items[i];
      var j := RemoveFirstUnlinksOne(items[1..], matches);
      k := j + 1;
      assert DropAt(items, k) == [items[0]] + DropAt(items[1..], j);
    }
  }

  lemma {:induction false} RemoveFirstNoMatch<T>(items: seq<T>, matches: T -> bool)
    requires !HasMatch(items, matches)
    ensures RemoveFirst(items, matches) == items
  {
    if items != [] {
      assert !matches(items[0]);
      assert forall i :: 0 <= i < |items[1..]| ==> items[1..][i] == items[i + 1];
      RemoveFirstNoMatch(items[1..], matches);
    }
  }

  ghost function ItemsOf<T>(links: seq<Link<T>>): (items: seq<T>)
    ensures |items| == |links|
  {
    seq(|links|, i requires 0 <= i < |links| => links[i].item)
  }

  lemma ItemsWithout<T>(links: seq<Link<T>>, k: nat)
    requires k < |links|
    ensures ItemsOf(DropAt(links, k)) == DropAt(ItemsOf(links), k)
  {
  }

  lemma ItemsCons<T>(link: Link<T>, links: seq<Link<T>>)
    ensures ItemsOf([link] + links) == [link.item] + ItemsOf(links)
  {
  }

  class LinkedRequests<T> {
    var front: Link?<T>
    ghost var links: seq<Link<T>>

    ghost predicate Valid()
      reads this, links
    {
      && front == LinkAt(0)
      && (forall i :: 0 <= i < |links| ==> links[i].next == LinkAt(i + 1))
      && (forall i, j :: 0 <= i < j < |links| ==> links[i] != links[j])
    }

    ghost function LinkAt(i: nat): Link?<T>
      reads this
    {
      if i < |links| then links[i] else null
    }

    ghost function Items(): (items: seq<T>)
      reads this
      ensures |items| == |links|
    {
      ItemsOf(links)
    }

    constructor ()
      ensures Valid() && Items() == [] && links == []
    {
      front, links := null, [];
    }

    method Empty() returns (empty: bool)
      requires Valid()
      ensures empty <==> Items() == []
    {
      empty := front == null;
    }

    /** New requests go to the front. */
    method Enqueue(item: T)
      requires Valid()
      modifies this
      ensures Valid() && Items() == [item] + old(Items()) && fresh(links[0]) && links[1..] == old(links)
    {
      var link := new Link(item, front);
      ItemsCons(link, links);
      front, links := link, [link] + links;
    }

    /** Callers wait until the list is not empty; the front is the newest request. */
    method Dequeue() returns (item: T)
      requires Valid() && Items() != []
      modifies this
      ensures Valid() && old(Items()) == [item] + Items() && links == old(links)[1..]
    {
      item := front.item;
      ItemsCons(links[0], links[1..]);
      assert links == [links[0]] + links[1..];
      front, links := front.next, links[1..];
    }

    /** Walks to the first match; `prev` is the link whose pointer leads to it, if not `front`. */
    method Find(matches: T -> bool) returns (prev: Link?<T>, cur: Link?<T>, ghost k: nat)
      requires Valid()
      ensures k <= |links| && cur == LinkAt(k) && (if k == 0 then prev == null else prev == links[k - 1])
      ensures forall i :: 0 <= i < k ==> !matches(Items()[i])
      ensures k < |links| ==> matches(Items()[k])
    {
      prev, cur, k := null, front, 0;
      while cur != null && !matches(cur.item)
        invariant k <= |links| && cur == LinkAt(k) && (if k == 0 then prev == null else prev == links[k - 1])
        invariant forall i :: 0 <= i < k ==> !matches(Items()[i])
        decreases |links| - k
      {
        prev, cur, k := cur, cur.next, k + 1;
      }
    }

    /** Redirects the pointer that leads to link k past it. */
    method UnlinkAt(prev: Link?<T>, cur: Link<T>, ghost k: nat)
      requires Valid() && k < |links| && cur == links[k]
      requires if k == 0 then prev == null else prev == links[k - 1]
      modifies this, links
      ensures Valid() && links == DropAt(old(links), k)
    {
      if prev == null {
        front := cur.next;
      } else {
        prev.next := cur.next;
      }
      links := DropAt(links, k);
    }

    /** Unlinks the first match, if there is one. */
    method CheckAndDequeue(matches: T -> bool) returns (found: bool, ghost k: nat)
      requires Valid()
      modifies this, links
      ensures Valid() && found == HasMatch(old(Items()), matches)
      ensures Items() == RemoveFirst(old(Items()), matches)
      ensures found ==>
                && k < |old(Items())| && matches(old(Items())[k])
                && Items() == DropAt(old(Items()), k) && links == DropAt(old(links), k)
      ensures !found ==> Items() == old(Items()) && links == old(links)
    {
      var prev, cur;
      prev, cur, k := Find(matches);
      if cur == null {
        RemoveFirstNoMatch(Items(), matches);
        return false, k;
      }
      FirstMatchAt(Items(), matches, k);
      ItemsWithout(links, k);
      assert matches(Items()[k]);
      UnlinkAt(prev, cur, k);
      return true, k;
    }
  }

  lemma {:induction false} FirstMatchAt<T>(items: seq<T>, matches: T -> bool, k: nat)
    requires k < |items| && matches(items[k]) && forall i :: 0 <= i < k ==> !matches(items[i])
    ensures RemoveFirst(items, matches) == DropAt(items, k)
  {
    if k > 0 {
      assert items[1..][k - 1] == items[k];
      assert forall i :: 0 <= i < k - 1 ==> items[1..][i] == items[i + 1];
      FirstMatchAt(items[1..], matches, k - 1);
      assert DropAt(items, k) == [items[0]] + DropAt(items[1..], k - 1);
    }
  }

  // ----- answering and acknowledging

  class RequestInfo {
    const token: int
    const socketId: int
    const cancelled: bool
    const isLocal: bool
    var wasAckSent: bool

    constructor (token: int, socketId: int)
      ensures this.token == token && this.socketId == socketId && !cancelled && !isLocal && !wasAckSent
    {
      this.token, this.socketId := token, socketId;
      this.cancelled, this.isLocal, this.wasAckSent := false, false, false;
    }
  }

  datatype ResponseType = Solicited | SolicitedAckExpected

  class PendingRequests {
    const version: int
    const list: LinkedRequests<RequestInfo>

    ghost predicate Valid()
      reads list, list.links
    {
      list.Valid() && Distinct(list.Items())
    }

    constructor (version: int)
      ensures Valid() && this.version == version && list.Items() == [] && list.links == [] && fresh(list)
    {
      this.version := version;
      this.list := new LinkedRequests();
    }

    /** The list as the protocol below sees it, under some numbering of the requests. */
    ghost function Pending(name: RequestInfo -> nat): (p: seq<Request>)
      reads list, list.Items()
      ensures |p| == |list.Items()|
    {
      View(list.Items(), name)
    }

    /** `allocOk` says whether the allocation succeeds; without it there is no request and no change. */
    method AddRequestToList(serial: int, socketId: int, allocOk: bool, ghost name: RequestInfo -> nat) returns (r: RequestInfo?)
      requires Valid()
      modifies list
      ensures Valid() && (r != null <==> allocOk)
      ensures r == null ==> list.Items() == old(list.Items()) && list.links == old(list.links)
      ensures r != null ==> |list.links| > 0 && fresh(list.links[0]) && list.links[1..] == old(list.links)
      ensures r != null ==>
                && fresh(r) && list.Items() == [r] + old(list.Items())
                && r.token == serial && r.socketId == socketId && !r.wasAckSent && !r.cancelled && !r.isLocal
                && Pending(name) == [Request(name(r), false, false, false)] + old(Pending(name))
      ensures r != null ==> forall s: State :: s.pending == old(Pending(name)) && s.issued == name(r) ==>
                Apply(version, s, Issue(false, false)) == s.(pending := Pending(name), issued := s.issued + 1)
    {
      if !allocOk {
        return null;
      }
      var it := new RequestInfo(serial, socketId);
      list.Enqueue(it);
      return it;
    }

    /** An acknowledgement only marks a pending request; a completion takes it, and nothing else, off
        the list. */
    method CheckAndDequeueIfAck(r: RequestInfo?, isAck: bool) returns (found: bool, ghost k: nat)
      requires Valid()
      modifies list, list.links, r
      ensures Valid() && (found <==> r in old(list.Items()))
      ensures isAck || !found ==> list.Items() == old(list.Items()) && list.links == old(list.links)
      ensures !isAck && found ==>
                && k < |old(list.Items())| && old(list.Items())[k] == r
                && list.Items() == DropAt(old(list.Items()), k) && list.links == DropAt(old(list.links), k)
      ensures r != null ==> r.wasAckSent == (old(r.wasAckSent) || (isAck && found))
    {
      if r == null {
        return false, 0;
      }
      var it: RequestInfo := r;
      ghost var items := list.Items();
      if isAck {
        var _, cur, n := list.Find(x => x == it);
        found, k := cur != null, n;
        if found {
          it.wasAckSent := true;
        }
      } else {
        found, k := list.CheckAndDequeue(x => x == it);
        if found {
          DropKeepsDistinct(items, k);
        }
      }
      assert found ==> items[k] == r;
    }

    /** Returns whether the framework is told of the acknowledgement. */
    method OnRequestAck(r: RequestInfo?, ghost name: RequestInfo -> nat) returns (acknowledged: bool)
      requires Valid() && (r != null ==> Names(name, r, list.Items()))
      modifies list, list.links, r
      ensures Valid() && list.Items() == old(list.Items()) && list.links == old(list.links)
      ensures acknowledged <==> r in list.Items() && r != null && !r.cancelled
      ensures r != null ==> r.wasAckSent == (old(r.wasAckSent) || r in list.Items())
      ensures Pending(name) == if r == null then old(Pending(name)) else Marked(old(Pending(name)), name(r))
    {
      var found, _ := CheckAndDequeueIfAck(r, true);
      acknowledged := found && !r.cancelled;
    }

    /** Takes a completed request off the list. */
    method TakeOff(r: RequestInfo?, ghost name: RequestInfo -> nat) returns (found: bool, ghost k: nat)
      requires Valid()
      modifies list, list.links, r
      ensures Valid() && (found <==> r in old(list.Items())) && r !in list.Items()
      ensures r != null ==> r.wasAckSent == old(r.wasAckSent)
      ensures !found ==> list.Items() == old(list.Items()) && list.links == old(list.links) && Pending(name) == old(Pending(name))
      ensures found ==>
                && k < |old(list.Items())| && old(list.Items())[k] == r
                && (forall i :: 0 <= i < k ==> old(list.Items())[i] != r)
                && list.Items() == DropAt(old(list.Items()), k) && list.links == DropAt(old(list.links), k)
                && Pending(name) == DropAt(old(Pending(name)), k)
    {
      ghost var items := list.Items();
      found, k := CheckAndDequeueIfAck(r, false);
      if found {
        DropKeepsDistinct(items, k);
        ViewWithout(items, k, name);
      }
    }

    /** The part of RIL_onRequestComplete that takes the request off the list and picks its response:
        a completion step of the protocol, whatever the rest of its state `s` is. */
    method Answer(r: RequestInfo?, ghost name: RequestInfo -> nat, ghost s: State)
      returns (response: Option<ResponseType>, ghost k: nat)
      requires Valid() && s.pending == Pending(name) && (r != null ==> Names(name, r, list.Items()))
      modifies list, list.links, r
      ensures Valid() && r !in list.Items()
      ensures r in old(list.Items()) ==>
                && k < |old(list.Items())| && old(list.Items())[k] == r
                && list.Items() == DropAt(old(list.Items()), k) && list.links == DropAt(old(list.links), k)
      ensures r !in old(list.Items()) ==> list.Items() == old(list.Items()) && list.links == old(list.links)
      ensures response.Some? <==> r in old(list.Items()) && r != null && !r.isLocal && !r.cancelled
      ensures response.Some? && r != null ==>
                (response.value == SolicitedAckExpected <==> version >= 13 && old(r.wasAckSent))
      ensures r != null ==> Apply(version, s, Complete(name(r))) == Answering(s, Pending(name), name(r), response)
    {
      hide Apply, RemoveFirst, Lookup, DropAt, Distinct;
      var found;
      assert forall i :: 0 <= i < |s.pending| ==> s.pending[i].id == name(list.Items()[i]);
      found, k := TakeOff(r, name);
      if !found {
        if r != null {
          CompleteUnknown(version, s, name(r));
        }
        return None, k;
      }
      CompleteKnown(version, s, name(r), k);
      if r.isLocal || r.cancelled {
        return None, k;
      }
      return Some(if version >= 13 && r.wasAckSent then SolicitedAckExpected else Solicited), k;
    }
  }

  /** No listed request other than r has r's number. */
  ghost predicate Names(name: RequestInfo -> nat, r: RequestInfo, items: seq<RequestInfo>) {
    forall i :: 0 <= i < |items| && name(items[i]) == name(r) ==> items[i] == r
  }

  ghost function View(items: seq<RequestInfo>, name: RequestInfo -> nat): seq<Request>
    reads items
  {
    seq(|items|, i requires 0 <= i < |items| reads items =>
      Request(name(items[i]), items[i].wasAckSent, items[i].cancelled, items[i].isLocal))
  }

  lemma ViewWithout(items: seq<RequestInfo>, k: nat, name: RequestInfo -> nat)
    requires k < |items|
    ensures View(DropAt(items, k), name) == DropAt(View(items, name), k)
  {
  }

  /** The protocol state after a completion left `pending` and made this response, if any. */
  ghost function Answering(s: State, pending: seq<Request>, id: nat, response: Option<ResponseType>): State {
    s.(pending := pending,
       responses := s.responses + if response.Some? then [Response(id, response.value.SolicitedAckExpected?)] else [])
  }

  lemma {:induction false} LookupNothing(pending: seq<Request>, id: nat)
    requires forall i :: 0 <= i < |pending| ==> pending[i].id != id
    ensures Lookup(pending, id).None?
  {
    if pending != [] {
      LookupNothing(pending[1..], id);
    }
  }

  lemma {:induction false} LookupAt(pending: seq<Request>, id: nat, k: nat)
    requires k < |pending| && pending[k].id == id && forall i :: 0 <= i < k ==> pending[i].id != id
    ensures Lookup(pending, id) == Some(pending[k])
    ensures RemoveFirst(pending, (x: Request) => x.id == id) == DropAt(pending, k)
  {
    FirstMatchAt(pending, (x: Request) => x.id == id, k);
    if k > 0 {
      LookupAt(pending[1..], id, k - 1);
    }
  }

  lemma CompleteUnknown(version: int, s: State, id: nat)
    requires forall i :: 0 <= i < |s.pending| ==> s.pending[i].id != id
    ensures Apply(version, s, Complete(id)) == s
  {
    LookupNothing(s.pending, id);
  }

  lemma CompleteKnown(version: int, s: State, id: nat, k: nat)
    requires k < |s.pending| && s.pending[k].id == id && forall i :: 0 <= i < k ==> s.pending[i].id != id
    ensures var r := s.pending[k];
            Apply(version, s, Complete(id)) ==
            s.(pending := DropAt(s.pending, k),
               responses := s.responses + if r.isLocal || r.cancelled then [] else [Response(id, version >= 13 && r.acked)])
  {
    LookupAt(s.pending, id, k);
  }

  // ----- whole runs

  datatype Request = Request(id: nat, acked: bool, cancelled: bool, isLocal: bool)

  datatype Response = Response(id: nat, ackExpected: bool)

  /** Ids stand for request pointers and are never reused. */
  datatype State = State(pending: seq<Request>, issued: nat, responses: seq<Response>)

  datatype Step = Issue(cancelled: bool, isLocal: bool) | Ack(id: nat) | Complete(id: nat)

  function Marked(pending: seq<Request>, id: nat): seq<Request> {
    seq(|pending|, i requires 0 <= i < |pending| =>
      if pending[i].id == id then pending[i].(acked := true) else pending[i])
  }

  function Lookup(pending: seq<Request>, id: nat): Option<Request> {
    if pending == [] then None
    else if pending[0].id == id then Some(pending[0])
    else Lookup(pending[1..], id)
  }

  function Apply(version: int, s: State, step: Step): State {
    match step
    case Issue(cancelled, isLocal) =>
      s.(pending := [Request(s.issued, false, cancelled, isLocal)] + s.pending, issued := s.issued + 1)
    case Ack(id) => s.(pending := Marked(s.pending, id))
    case Complete(id) =>
      (match Lookup(s.pending, id)
       case None => s
       case Some(r) =>
         var rest := s.(pending := RemoveFirst(s.pending, (x: Request) => x.id == id));
         if r.isLocal || r.cancelled then rest
         else rest.(responses := s.responses + [Response(id, version >= 13 && r.acked)]))
  }

  ghost predicate Run(version: int, states: seq<State>, steps: seq<Step>) {
    && |states| == |steps| + 1
    && states[0] == State([], 0, [])
    && forall k :: 0 <= k < |steps| ==> states[k + 1] == Apply(version, states[k], steps[k])
  }

  ghost predicate IsPending(s: State, id: nat) {
    exists i :: 0 <= i < |s.pending| && s.pending[i].id == id
  }

  ghost predicate Inv(s: State) {
    && (forall i :: 0 <= i < |s.pending| ==> s.pending[i].id < s.issued)
    && (forall i, j :: 0 <= i < j < |s.pending| ==> s.pending[i].id != s.pending[j].id)
    && (forall i :: 0 <= i < |s.responses| ==> s.responses[i].id < s.issued && !IsPending(s, s.responses[i].id))
    && (forall i, j :: 0 <= i < j < |s.responses| ==> s.responses[i].id != s.responses[j].id)
  }

  lemma {:induction false} LookupFinds(pending: seq<Request>, id: nat)
    ensures Lookup(pending, id).Some? <==> exists i :: 0 <= i < |pending| && pending[i].id == id
    ensures Lookup(pending, id).Some? ==> Lookup(pending, id).value in pending && Lookup(pending, id).value.id == id
  {
    if pending != [] && pending[0].id != id {
      LookupFinds(pending[1..], id);
      if i :| 0 <= i < |pending| && pending[i].id == id {
        assert pending[1..][i - 1].id == id;
      }
    }
  }

  lemma CompleteKeepsInv(version: int, s: State, id: nat)
    requires Inv(s)
    ensures Inv(Apply(version, s, Complete(id)))
    ensures !IsPending(Apply(version, s, Complete(id)), id)
  {
    hide RemoveFirst, Lookup;
    LookupFinds(s.pending, id);
    var byId := (x: Request) => x.id == id;
    if Lookup(s.pending, id).Some? {
      assert HasMatch(s.pending, byId);
      var k := RemoveFirstUnlinksOne(s.pending, byId);
      var s' := Apply(version, s, Complete(id));
      assert s'.pending == DropAt(s.pending, k);
      forall i | 0 <= i < |s'.pending| ensures s'.pending[i] == s.pending[if i < k then i else i + 1] {
        DropAtIndex(s.pending, k, i);
      }
      assert !IsPending(s', id);
      forall i | 0 <= i < |s.responses| ensures !IsPending(s', s.responses[i].id) {
        assert !IsPending(s, s.responses[i].id);
      }
    }
  }

  lemma InvStep(version: int, s: State, step: Step)
    requires Inv(s)
    ensures Inv(Apply(version, s, step))
  {
    var s' := Apply(version, s, step);
    match step
    case Complete(id) => CompleteKeepsInv(version, s, id);
    case _ =>
      forall i | 0 <= i < |s.responses| ensures !IsPending(s', s.responses[i].id) {
        assert !IsPending(s, s.responses[i].id);
      }
  }

  lemma {:induction false} RunKeepsInv(version: int, states: seq<State>, steps: seq<Step>, k: nat)
    requires Run(version, states, steps) && k < |states|
    ensures Inv(states[k])
  {
    if k > 0 {
      RunKeepsInv(version, states, steps, k - 1);
      assert states[k - 1 + 1] == Apply(version, states[k - 1], steps[k - 1]);
      InvStep(version, states[k - 1], steps[k - 1]);
    }
  }

  /** Over every run a request gets at most one response, only by a completion that finds it pending,
      and it is not pending any more afterwards. */
  lemma RunAnswersOnce(version: int, states: seq<State>, steps: seq<Step>, k: nat)
    requires Run(version, states, steps) && k < |steps|
    ensures var rs := states[k + 1].responses; forall i, j :: 0 <= i < j < |rs| ==> rs[i].id != rs[j].id
    ensures states[k].responses <= states[k + 1].responses
    ensures |states[k + 1].responses| <= |states[k].responses| + 1
    ensures states[k + 1].responses != states[k].responses ==>
              && steps[k].Complete?
              && IsPending(states[k], steps[k].id) && !IsPending(states[k + 1], steps[k].id)
              && states[k + 1].responses[|states[k].responses|].id == steps[k].id
  {
    RunKeepsInv(version, states, steps, k + 1);
    RunKeepsInv(version, states, steps, k);
    assert states[k + 1] == Apply(version, states[k], steps[k]);
    if steps[k].Complete? {
      LookupFinds(states[k].pending, steps[k].id);
      CompleteKeepsInv(version, states[k], steps[k].id);
    }
  }

  /** A completion makes a response if and only if it finds its request pending, and the request is neither
      local nor cancelled. */
  lemma RunAnswersIff(version: int, states: seq<State>, steps: seq<Step>, k: nat)
    requires Run(version, states, steps) && k < |steps| && steps[k].Complete?
    ensures |states[k + 1].responses| == |states[k].responses| + 1 <==>
            exists i :: 0 <= i < |states[k].pending| && Answers(states[k].pending[i], steps[k].id)
    ensures forall r :: r in states[k + 1].pending ==> r in states[k].pending
    ensures forall r :: r in states[k].pending && r.id != steps[k].id ==> r in states[k + 1].pending
  {
    var (s, id) := (states[k], steps[k].id);
    RunKeepsInv(version, states, steps, k);
    LookupFinds(s.pending, id);
    assert states[k + 1] == Apply(version, s, steps[k]);
    if Lookup(s.pending, id).Some? {
      var byId := (x: Request) => x.id == id;
      assert HasMatch(s.pending, byId);
      var n := RemoveFirstUnlinksOne(s.pending, byId);
      assert Lookup(s.pending, id).value == s.pending[n];
      forall r | r in s.pending && r.id != id ensures r in states[k + 1].pending {
        var i :| 0 <= i < |s.pending| && s.pending[i] == r;
        DropAtIndex(s.pending, n, if i < n then i else i - 1);
      }
      DropIsSubset(s.pending, n);
    }
  }

  ghost predicate Answers(r: Request, id: nat) {
    r.id == id && !r.isLocal && !r.cancelled
  }

  /** An acknowledgement for this id reached the list while the request was pending. */
  ghost predicate AckArrived(states: seq<State>, steps: seq<Step>, k: nat, id: nat)
    requires k <= |steps| < |states|
  {
    exists j :: 0 <= j < k && steps[j] == Ack(id) && IsPending(states[j], id)
  }

  /** A pending request is marked acknowledged exactly when an acknowledgement arrived earlier. */
  lemma {:induction false} AckedIffArrived(version: int, states: seq<State>, steps: seq<Step>, k: nat, i: nat)
    requires Run(version, states, steps) && k < |states| && i < |states[k].pending|
    ensures states[k].pending[i].acked <==> AckArrived(states, steps, k, states[k].pending[i].id)
  {
    var (s', step) := (states[k - 1 + 1], steps[k - 1]);
    var s := states[k - 1];
    assert s' == Apply(version, s, step);
    RunKeepsInv(version, states, steps, k - 1);
    var id := s'.pending[i].id;
    if step.Issue? && i == 0 {
      NoEarlyAck(version, states, steps, k);
    } else {
      var n := Predecessor(version, s, step, i);
      AckedIffArrived(version, states, steps, k - 1, n);
      if step == Ack(id) {
        assert IsPending(s, id);
      }
      assert AckArrived(states, steps, k, id) <==>
             AckArrived(states, steps, k - 1, id) || (step == Ack(id) && IsPending(s, id));
    }
  }

  /** A request pending after a step, unless just issued, was pending before it. */
  lemma Predecessor(version: int, s: State, step: Step, i: nat) returns (n: nat)
    requires Inv(s) && i < |Apply(version, s, step).pending| && !(step.Issue? && i == 0)
    ensures n < |s.pending|
    ensures var r := Apply(version, s, step).pending[i];
            r == s.pending[n].(acked := s.pending[n].acked || step == Ack(r.id))
  {
    match step
    case Issue(_, _) => n := i - 1;
    case Ack(_) => n := i;
    case Complete(id) =>
      n := i;
      LookupFinds(s.pending, id);
      var byId := (x: Request) => x.id == id;
      if Lookup(s.pending, id).Some? {
        assert HasMatch(s.pending, byId);
        var k := RemoveFirstUnlinksOne(s.pending, byId);
        n := if i < k then i else i + 1;
      }
  }

  lemma NoEarlyAck(version: int, states: seq<State>, steps: seq<Step>, k: nat)
    requires Run(version, states, steps) && 0 < k < |states|
    ensures !AckArrived(states, steps, k - 1, states[k - 1].issued)
  {
    forall j | 0 <= j < k - 1 && steps[j] == Ack(states[k - 1].issued)
      ensures !IsPending(states[j], states[k - 1].issued)
    {
      RunKeepsInv(version, states, steps, j);
      IssuedGrows(version, states, steps, j, k - 1);
    }
  }

  lemma {:induction false} IssuedGrows(version: int, states: seq<State>, steps: seq<Step>, j: nat, k: nat)
    requires Run(version, states, steps) && j <= k < |states|
    ensures states[j].issued <= states[k].issued
  {
    if j < k {
      IssuedGrows(version, states, steps, j, k - 1);
      assert states[k - 1 + 1] == Apply(version, states[k - 1], steps[k - 1]);
    }
  }

  /** The response made at step k asks for an acknowledgement if and only if the library version is at
      least 13 and an acknowledgement for the request arrived earlier in the run. */
  lemma RunAckExpectedIff(version: int, states: seq<State>, steps: seq<Step>, k: nat)
    requires Run(version, states, steps) && k < |steps|
    requires states[k + 1].responses != states[k].responses
    ensures |states[k + 1].responses| == |states[k].responses| + 1 && steps[k].Complete?
    ensures states[k + 1].responses[|states[k].responses|].ackExpected <==>
            version >= 13 && AckArrived(states, steps, k, steps[k].id)
  {
    RunAnswersOnce(version, states, steps, k);
    var s := states[k];
    assert states[k + 1] == Apply(version, s, steps[k]);
    LookupFinds(s.pending, steps[k].id);
    var r := Lookup(s.pending, steps[k].id).value;
    var i :| 0 <= i < |s.pending| && s.pending[i] == r;
    AckedIffArrived(version, states, steps, k, i);
  }
}
