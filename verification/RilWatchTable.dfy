/**
 The watch table of ril/libril/ril_event.cpp: which descriptors select listens on, and how the events
 of ready descriptors are queued.
 */
module RilWatchTable {
  import opened Sequences
  import opened Timevals
  import opened RilEventLists

  const MAX_FD_EVENTS := 8

  /** The descriptors of the watched events. */
  ghost function Fds(entries: seq<RilEvent?>): set<int>
    reads entries`fd
  {
    set i | 0 <= i < |entries| && entries[i] != null :: entries[i].fd
  }

  /** Only known events are watched, and a known event is entry i exactly when its index is i. */
  ghost predicate Indexed(entries: seq<RilEvent?>, known: set<RilEvent>)
    reads known`index
  {
    && (forall i :: 0 <= i < |entries| && entries[i] != null ==> entries[i] in known)
    && (forall ev, i :: ev in known && 0 <= i < |entries| ==> (entries[i] == ev <==> ev.index == i))
  }

  /** No descriptor is watched twice, and none is negative. */
  ghost predicate DistinctFds(entries: seq<RilEvent?>)
    reads entries`fd
  {
    && (forall i :: 0 <= i < |entries| && entries[i] != null ==> entries[i].fd >= 0)
    && (forall i, j :: 0 <= i < j < |entries| && entries[i] != null && entries[j] != null ==>
          entries[i].fd != entries[j].fd)
  }

  lemma FdsWithout(entries: seq<RilEvent?>, k: nat)
    requires DistinctFds(entries) && k < |entries| && entries[k] != null
    ensures DistinctFds(entries[k := null]) && Fds(entries[k := null]) == Fds(entries) - {entries[k].fd}
  {
    var fewer := entries[k := null];
    forall f | f in Fds(entries) - {entries[k].fd} ensures f in Fds(fewer) {
      var i :| 0 <= i < |entries| && entries[i] != null && entries[i].fd == f;
      assert fewer[i] == entries[i];
    }
    forall f | f in Fds(fewer) ensures f in Fds(entries) && f != entries[k].fd {
      var i :| 0 <= i < |fewer| && fewer[i] != null && fewer[i].fd == f;
      assert fewer[i] == entries[i];
    }
  }

  lemma FdsWith(entries: seq<RilEvent?>, k: nat, ev: RilEvent)
    requires DistinctFds(entries) && k < |entries| && entries[k] == null && ev.fd >= 0 && ev.fd !in Fds(entries)
    ensures DistinctFds(entries[k := ev]) && Fds(entries[k := ev]) == Fds(entries) + {ev.fd}
  {
    var more := entries[k := ev];
    assert forall i :: 0 <= i < |entries| && entries[i] != null ==> entries[i].fd in Fds(entries);
    forall f | f in Fds(entries) ensures f in Fds(more) {
      var i :| 0 <= i < |entries| && entries[i] != null && entries[i].fd == f;
      assert more[i] == entries[i];
    }
    assert more[k] == ev;
    forall f | f in Fds(more) ensures f in Fds(entries) || f == ev.fd {
      var i :| 0 <= i < |more| && more[i] != null && more[i].fd == f;
      assert i != k ==> more[i] == entries[i];
    }
  }

  /** n is the largest member plus one, or at most 1 when there is none. */
  ghost predicate IsLimit(fds: set<int>, n: int) {
    && (forall f :: f in fds ==> f < n)
    && (0 <= n <= 1 || n - 1 in fds)
  }

  /** The watched events whose descriptor is ready, in table order. */
  ghost function ReadyIn(entries: seq<RilEvent?>, rfds: set<int>): seq<RilEvent>
    reads entries`fd
  {
    if entries == [] then []
    else
      var last := entries[|entries| - 1];
      ReadyIn(entries[..|entries| - 1], rfds) + if last != null && last.fd in rfds then [last] else []
  }

  /** Which entries are ready: exactly those whose descriptor is, in table order. */
  lemma {:induction false} ReadyAre(entries: seq<RilEvent?>, rfds: set<int>) returns (at: seq<nat>)
    ensures |at| == |ReadyIn(entries, rfds)|
    ensures forall a :: 0 <= a < |at| ==> at[a] < |entries| && entries[at[a]] == ReadyIn(entries, rfds)[a]
    ensures forall a, b :: 0 <= a < b < |at| ==> at[a] < at[b]
    ensures forall j :: 0 <= j < |entries| ==> (j in at <==> entries[j] != null && entries[j].fd in rfds)
  {
    at := [];
    if entries != [] {
      var m := |entries| - 1;
      at := ReadyAre(entries[..m], rfds);
      if entries[m] != null && entries[m].fd in rfds {
        at := at + [m];
      }
      assert forall j :: 0 <= j < m ==> entries[..m][j] == entries[j];
    }
  }

  /** `after` is the table once the ready events among the first i entries are queued: of those only
      the persistent ones are still watched. */
  ghost predicate Settled(before: seq<RilEvent?>, after: seq<RilEvent?>, rfds: set<int>, i: nat)
    reads before`fd, before`persist
  {
    && |after| == |before|
    && (forall j :: i <= j < |before| ==> after[j] == before[j])
    && forall j :: 0 <= j < |before| && j < i ==>
         after[j] == if before[j] != null && before[j].fd in rfds && !before[j].persist then null else before[j]
  }

  /** The events that are no longer watched have no index. */
  ghost predicate Unwatched(before: seq<RilEvent?>, after: seq<RilEvent?>)
    reads before`index
  {
    |after| == |before| && forall j :: 0 <= j < |before| && before[j] != null && after[j] == null ==> before[j].index == -1
  }

  lemma FdsSnoc(entries: seq<RilEvent?>)
    requires entries != [] && DistinctFds(entries)
    ensures var (m, last) := (|entries| - 1, entries[|entries| - 1]);
            && DistinctFds(entries[..m])
            && Fds(entries) == Fds(entries[..m]) + (if last != null then {last.fd} else {})
            && (last != null ==> last.fd !in Fds(entries[..m]))
  {
    var m := |entries| - 1;
    forall f | f in Fds(entries) ensures f in Fds(entries[..m]) || (entries[m] != null && f == entries[m].fd) {
      var i :| 0 <= i < |entries| && entries[i] != null && entries[i].fd == f;
      assert i < m ==> entries[..m][i] == entries[i];
    }
    forall f | f in Fds(entries[..m]) ensures f in Fds(entries) && (entries[m] != null ==> f != entries[m].fd) {
      var i :| 0 <= i < m && entries[..m][i] != null && entries[..m][i].fd == f;
      assert entries[i] == entries[..m][i];
    }
    assert forall i :: 0 <= i < m ==> entries[..m][i] == entries[i];
  }

  lemma CountWith(a: set<int>, x: int, rfds: set<int>)
    requires x !in a
    ensures |(a + {x}) * rfds| == |a * rfds| + if x in rfds then 1 else 0
  {
    if x in rfds {
      assert (a + {x}) * rfds == a * rfds + {x};
    } else {
      assert (a + {x}) * rfds == a * rfds;
    }
  }

  /** Since descriptors are distinct, counting ready events counts ready watched descriptors. */
  lemma {:induction false} ReadyCount(entries: seq<RilEvent?>, rfds: set<int>)
    requires DistinctFds(entries)
    ensures |ReadyIn(entries, rfds)| == |Fds(entries) * rfds|
  {
    if entries != [] {
      var (m, last) := (|entries| - 1, entries[|entries| - 1]);
      FdsSnoc(entries);
      ReadyCount(entries[..m], rfds);
      if last != null {
        CountWith(Fds(entries[..m]), last.fd, rfds);
      } else {
        assert Fds(entries) == Fds(entries[..m]);
      }
    }
  }

  lemma SameSize(a: set<int>, b: set<int>)
    requires a <= b && |a| == |b|
    ensures a == b
  {
    assert |b - a| == |b| - |a|;
  }

  /** No entry from i on is ready. */
  ghost predicate NoneReady(entries: seq<RilEvent?>, rfds: set<int>, i: nat)
    reads entries`fd
  {
    forall j :: i <= j < |entries| && entries[j] != null ==> entries[j].fd !in rfds
  }

  /** Once as many ready events are found as there are ready descriptors, no later entry is ready. */
  lemma CountMeansNoneLeft(entries: seq<RilEvent?>, rfds: set<int>, i: nat)
    requires DistinctFds(entries) && i <= |entries| && |ReadyIn(entries[..i], rfds)| == |rfds|
    ensures NoneReady(entries, rfds, i)
  {
    assert forall j :: 0 <= j < i ==> entries[..i][j] == entries[j];
    ReadyCount(entries[..i], rfds);
    SameSize(Fds(entries[..i]) * rfds, rfds);
    assert rfds <= Fds(entries[..i]);
  }

  lemma {:induction false} ReadyInPrefix(entries: seq<RilEvent?>, rfds: set<int>, i: nat)
    requires i <= |entries| && NoneReady(entries, rfds, i)
    ensures ReadyIn(entries, rfds) == ReadyIn(entries[..i], rfds)
  {
    if i < |entries| {
      var m := |entries| - 1;
      assert entries[..m][..i] == entries[..i];
      ReadyInPrefix(entries[..m], rfds, i);
    } else {
      assert entries[..i] == entries;
    }
  }

  /** The bounded scan stops early only when nothing ready is left. */
  lemma ScanIsComplete(entries: seq<RilEvent?>, after: seq<RilEvent?>, rfds: set<int>, i: nat)
    requires DistinctFds(entries) && i <= |entries| && Settled(entries, after, rfds, i)
    requires i == |entries| || |ReadyIn(entries[..i], rfds)| == |rfds|
    ensures ReadyIn(entries, rfds) == ReadyIn(entries[..i], rfds)
    ensures Settled(entries, after, rfds, |entries|)
  {
    if i < |entries| {
      CountMeansNoneLeft(entries, rfds, i);
    }
    ReadyInPrefix(entries, rfds, i);
  }

  /** One more entry scanned. */
  lemma ScanNext(entries: seq<RilEvent?>, after: seq<RilEvent?>, rfds: set<int>, i: nat)
    requires Settled(entries, after, rfds, i) && i < |entries|
    ensures var e := entries[i];
            if e != null && e.fd in rfds
            then && ReadyIn(entries[..i + 1], rfds) == ReadyIn(entries[..i], rfds) + [e]
                 && Settled(entries, after[i := if e.persist then e else null], rfds, i + 1)
            else && ReadyIn(entries[..i + 1], rfds) == ReadyIn(entries[..i], rfds)
                 && Settled(entries, after, rfds, i + 1)
  {
    assert entries[..i + 1][..i] == entries[..i];
  }

  lemma LimitWith(fds: set<int>, n: int, f: int)
    requires IsLimit(fds, n) && f >= 0
    ensures IsLimit(fds + {f}, if f >= n then f + 1 else n)
  {
  }

  lemma LimitWithout(fds: set<int>, n: int, f: int)
    requires IsLimit(fds, n) && f + 1 != n
    ensures IsLimit(fds - {f}, n)
  {
  }

  class WatchTable {
    var table: seq<RilEvent?>   // MAX_FD_EVENTS entries
    var readFds: set<int>
    var nfds: int
    ghost var known: set<RilEvent>   // the events set up with ril_event_set

    ghost predicate Valid()
      reads this, table`fd, known`index
    {
      && |table| == MAX_FD_EVENTS
      && Indexed(table, known) && DistinctFds(table)
      && readFds == Fds(table)
      && IsLimit(readFds, nfds)
    }

    constructor ()
      ensures Valid() && readFds == {} && nfds == 0 && known == {}
      ensures forall i :: 0 <= i < |table| ==> table[i] == null
    {
      table := seq(MAX_FD_EVENTS, _ => null);
      readFds, nfds, known := {}, 0, {};
    }

    /** ril_event_set, on an event that is not watched. */
    method EventSet(ev: RilEvent, fd: int, persist: bool)
      requires Valid() && ev !in table
      modifies this`known, ev
      ensures Valid() && known == old(known) + {ev}
      ensures ev.index == -1 && ev.fd == fd && ev.persist == persist && ev.next == null && ev.prev == null
    {
      hide Fds, IsLimit, DistinctFds;
      ev.next, ev.prev, ev.timeout := null, null, Timeval(0, 0);
      ev.fd, ev.index, ev.persist := fd, -1, persist;
      known := known + {ev};
    }

    /** The rescan of removeWatch: the largest watched descriptor, or 0. */
    method LargestFd() returns (n: int)
      ensures n >= 0 && IsLimit(Fds(table), n + 1)
    {
      n := 0;
      for i := 0 to |table|
        invariant n >= 0 && (n == 0 || n in Fds(table))
        invariant forall j :: 0 <= j < i && table[j] != null ==> table[j].fd <= n
      {
        var rev := table[i];
        if rev != null && rev.fd > n {
          n := rev.fd;
        }
      }
    }

    /** Clears entry `index`; the descriptor limit is not adjusted yet. */
    method Clear(ev: RilEvent, index: nat)
      requires Valid() && index < |table| && table[index] == ev
      modifies this`table, this`readFds, ev`index
      ensures table == old(table)[index := null] && Indexed(table, known) && DistinctFds(table)
      ensures readFds == old(readFds) - {ev.fd} && readFds == Fds(table) && ev.index == -1
    {
      ghost var entries := table;
      table, readFds, ev.index := table[index := null], readFds - {ev.fd}, -1;
      FdsWithout(entries, index);
    }

    /** removeWatch. */
    method RemoveWatch(ev: RilEvent, index: nat)
      requires Valid() && index < |table| && table[index] == ev
      modifies this`table, this`readFds, this`nfds, ev`index
      ensures Valid() && table == old(table)[index := null]
      ensures ev.index == -1 && readFds == old(readFds) - {ev.fd}
      ensures readFds == {} ==> nfds == 1
    {
      assert ev.fd >= 0 && ev.fd in Fds(table);
      hide Indexed, DistinctFds;
      if ev.fd + 1 != nfds {
        LimitWithout(readFds, nfds, ev.fd);
        Clear(ev, index);
      } else {
        Clear(ev, index);
        var n := LargestFd();
        assert IsLimit(readFds, n + 1);
        nfds := n + 1;
      }
    }

    /** An event that is set up and not watched, for a descriptor that is not watched either. */
    ghost predicate CanWatch(ev: RilEvent)
      reads this, ev`fd
    {
      ev in known && ev !in table && ev.fd >= 0 && ev.fd !in readFds
    }

    /** Fills the free entry i; the descriptor limit is not adjusted yet. */
    method Fill(ev: RilEvent, i: nat)
      requires Valid() && i < |table| && table[i] == null && CanWatch(ev)
      modifies this`table, this`readFds, ev`index
      ensures table == old(table)[i := ev] && Indexed(table, known) && DistinctFds(table)
      ensures readFds == old(readFds) + {ev.fd} && readFds == Fds(table) && ev.index == i
    {
      ghost var entries := table;
      table, readFds, ev.index := table[i := ev], readFds + {ev.fd}, i;
      FdsWith(entries, i, ev);
    }

    /** Watches `ev` in the free entry i. */
    method Watch(ev: RilEvent, i: nat)
      requires Valid() && i < |table| && table[i] == null && CanWatch(ev)
      modifies this`table, this`readFds, this`nfds, ev`index
      ensures Valid() && table == old(table)[i := ev] && ev.index == i && readFds == old(readFds) + {ev.fd}
    {
      LimitWith(readFds, nfds, ev.fd);
      Fill(ev, i);
      if ev.fd >= nfds {
        nfds := ev.fd + 1;
      }
    }

    /** ril_event_add: the first free entry, if there is one. */
    method EventAdd(ev: RilEvent) returns (added: bool, ghost at: nat)
      requires Valid() && CanWatch(ev)
      modifies this`table, this`readFds, this`nfds, ev`index
      ensures Valid() && (added <==> null in old(table))
      ensures added ==>
                && at < |table| && old(table)[at] == null && ev.index == at
                && (forall i :: 0 <= i < at ==> old(table)[i] != null)
                && table == old(table)[at := ev] && readFds == old(readFds) + {ev.fd}
      ensures !added ==> table == old(table) && readFds == old(readFds) && ev.index == old(ev.index)
    {
      for i := 0 to |table|
        invariant table == old(table) && readFds == old(readFds) && ev.index == old(ev.index) && Valid()
        invariant forall j :: 0 <= j < i ==> table[j] != null
      {
        if table[i] == null {
          Watch(ev, i);
          return true, i;
        }
      }
      return false, 0;
    }

    /** ril_event_del: an event that is not watched is left alone. */
    method EventDel(ev: RilEvent)
      requires Valid() && ev in known
      modifies this`table, this`readFds, this`nfds, ev`index
      ensures Valid() && ev !in table
      ensures ev !in old(table) ==> table == old(table)
      ensures if 0 <= old(ev.index) < MAX_FD_EVENTS
              then ev.index == -1 && table == old(table)[old(ev.index) := null]
              else ev.index == old(ev.index) && table == old(table)
    {
      if ev.index < 0 || ev.index >= MAX_FD_EVENTS {
        return;
      }
      RemoveWatch(ev, ev.index);
    }

    /** Queues the event of entry i, and stops watching it unless it persists. */
    method QueueReady(i: nat, rev: RilEvent, pending: EventList)
      requires Valid() && i < |table| && table[i] == rev && pending.Valid() && rev !in pending.ring
      modifies this`table, this`readFds, this`nfds, rev`index, rev`next, rev`prev, pending`ring, pending.ring`next, pending.ring`prev
      ensures Valid() && pending.Valid() && pending.ring == old(pending.ring) + [rev]
      ensures table == old(table)[i := if rev.persist then rev else null]
      ensures rev.index == if rev.persist then i else -1
    {
      assert rev.index == i;
      hide IsRing, Fds, IsLimit, Indexed, DistinctFds;
      pending.Append(rev);
      if !rev.persist {
        RemoveWatch(rev, i);
      }
    }

    /** One turn of the scan; returns whether it was a hit. */
    method ScanEntry(i: nat, rfds: set<int>, pending: EventList, ghost entries: seq<RilEvent?>, ghost nodes: set<RilEvent>)
      returns (hit: bool, ghost found: seq<RilEvent>)
      requires Valid() && pending.Valid() && AllIn(pending.ring, nodes) && i < |table| && DistinctFds(entries)
      requires Settled(entries, table, rfds, i) && OffList(entries, i, pending.ring, nodes) && Unwatched(entries, table)
      modifies this`table, this`readFds, this`nfds, pending`ring, nodes`index, nodes`next, nodes`prev
      ensures Valid() && pending.Valid() && AllIn(pending.ring, nodes)
      ensures Settled(entries, table, rfds, i + 1) && OffList(entries, i + 1, pending.ring, nodes)
      ensures Unwatched(entries, table)
      ensures ReadyIn(entries[..i + 1], rfds) == ReadyIn(entries[..i], rfds) + found
      ensures pending.ring == old(pending.ring) + found && |found| == if hit then 1 else 0
    {
      hide IsRing, Fds, IsLimit, Indexed;
      var rev := table[i];
      ScanNext(entries, table, rfds, i);
      hit, found := rev != null && rev.fd in rfds, [];
      if hit {
        found := [rev];
        OffListNext(entries, i, pending.ring, nodes);
        QueueReady(i, rev, pending);
      }
    }

    /** processReadReadies: although the scan stops after `n` hits, every ready watched event is queued
        exactly once, in table order. */
    method ProcessReadReadies(rfds: set<int>, pending: EventList, ghost nodes: set<RilEvent>)
      requires Valid() && pending.Valid() && AllIn(pending.ring, nodes) && OffList(table, 0, pending.ring, nodes)
      modifies this`table, this`readFds, this`nfds, pending`ring, nodes`index, nodes`next, nodes`prev
      ensures Valid() && pending.Valid() && AllIn(pending.ring, nodes)
      ensures pending.ring == old(pending.ring) + ReadyIn(old(table), rfds)
      ensures Settled(old(table), table, rfds, |table|)
      ensures Unwatched(old(table), table)
    {
      hide Fds, IsLimit, Indexed, IsRing;
      var n := |rfds|;
      ghost var entries := table;
      var i := 0;
      while i < |table| && n > 0
        invariant Valid() && pending.Valid() && AllIn(pending.ring, nodes) && i <= |table| && n >= 0
        invariant Settled(entries, table, rfds, i) && OffList(entries, i, pending.ring, nodes)
        invariant Unwatched(entries, table)
        invariant pending.ring == old(pending.ring) + ReadyIn(entries[..i], rfds)
        invariant n == |rfds| - |ReadyIn(entries[..i], rfds)|
      {
        ghost var before := ReadyIn(entries[..i], rfds);
        var hit, found := ScanEntry(i, rfds, pending, entries, nodes);
        AppendAssoc(old(pending.ring), before, found);
        if hit {
          n := n - 1;
        }
        i := i + 1;
      }
      ScanIsComplete(entries, table, rfds, i);
    }
  }

  /** The events from entry i on are nodes that are not on the pending list. */
  ghost predicate OffList(entries: seq<RilEvent?>, i: nat, ring: seq<RilEvent>, nodes: set<RilEvent>) {
    forall j :: i <= j < |entries| && entries[j] != null ==> entries[j] in nodes && entries[j] !in ring
  }

  lemma OffListNext(entries: seq<RilEvent?>, i: nat, ring: seq<RilEvent>, nodes: set<RilEvent>)
    requires OffList(entries, i, ring, nodes) && DistinctFds(entries) && i < |entries| && entries[i] != null
    ensures OffList(entries, i + 1, ring + [entries[i]], nodes)
  {
  }
}
