/**
 The fixed-size circular queue of sensors/SensorEventQueue.cpp.

 `Ring` is the queue as a value: the functions on it are the specification that both the
 mutable class below and the step machine of module `FanIn` are tied to.
 `SensorEventQueue` is the mutable object itself, whose slots are written in place.
 */
module SensorEventQueues {
  import opened Arithmetic

  datatype Ring<T> = Ring(start: nat, size: nat, data: seq<T>)
  {
    ghost predicate Valid() {
      start < |data| && size <= |data|
    }

    /** The array index of the k-th readable record, counting from the oldest. */
    ghost function Slot(k: nat): nat {
      if start + k < |data| then start + k else start + k - |data|
    }

    /** The readable records, oldest first. */
    ghost function Contents(): seq<T>
      requires Valid()
    {
      seq(size, k requires 0 <= k < size => data[Slot(k)])
    }

    /** The index just after the newest readable record. */
    function FirstWritable(): nat
      requires Valid()
    {
      (start + size) % |data|
    }

    /** The contiguous region (first index, length) that a writer may fill. */
    function WritableRegion(requested: int): (region: (nat, nat))
      requires Valid()
    {
      if size == |data| || requested <= 0 then (0, 0)
      else
        var first := FirstWritable();
        var last := first + requested - 1;
        var last := if last > |data| - 1 then |data| - 1 else last;
        WrapLemma(start + size, |data|);
        var last := if first < start && last >= start then start - 1 else last;
        (first, last - first + 1)
    }

    function MarkAsWritten(count: nat): Ring<T> {
      this.(size := size + count)
    }

    function Dequeue(): Ring<T>
      requires Valid()
    {
      if size == 0 then this
      else this.(size := size - 1, start := (start + 1) % |data|)
    }

    /** A write to one slot through the pointer handed out by `WritableRegion`. */
    function Write(i: nat, x: T): Ring<T>
      requires i < |data|
    {
      this.(data := data[i := x])
    }

    /** The reserved region starts at the first writable slot and holds no readable slot. */
    ghost predicate Reserved(first: nat, length: nat)
      requires Valid()
    {
      && first == FirstWritable()
      && first + length <= |data|
      && size + length <= |data|
      && forall k :: 0 <= k < size ==> !(first <= Slot(k) < first + length)
    }
  }

  lemma WrapLemma(x: nat, n: nat)
    requires 0 < n && x < 2 * n
    ensures x % n == if x < n then x else x - n
  {
    if x < n {
      DivModUnique(x, n, 0, x);
    } else {
      DivModUnique(x, n, 1, x - n);
    }
  }

  /** Element k of the contents is the record in slot k. */
  lemma ContentsAt<T>(r: Ring<T>, k: nat)
    requires r.Valid() && k < r.size
    ensures |r.Contents()| == r.size
    ensures r.Slot(k) < |r.data| && r.Contents()[k] == r.data[r.Slot(k)]
  {
  }

  /** What the header promises of getWritableRegion: between zero and the smaller of the capacity
      and the requested length, empty only when there is no space or nothing is asked for, never
      inside the readable region, and as long as contiguity allows. */
  lemma WritableRegionCorrect<T>(r: Ring<T>, requested: int)
    requires r.Valid()
    ensures var (first, length) := r.WritableRegion(requested);
            && (length == 0 <==> r.size == |r.data| || requested <= 0)
            && (length > 0 ==>
                  && length <= requested
                  && r.Reserved(first, length)
                  && (length == requested || first + length == |r.data| || first + length == r.start))
  {
    WrapLemma(r.start + r.size, |r.data|);
  }

  /** Dequeuing does not disturb a reservation: the reserved start stays the first writable slot. */
  lemma DequeueKeepsReservation<T>(r: Ring<T>, first: nat, length: nat)
    requires r.Valid() && r.Reserved(first, length)
    ensures r.Dequeue().Valid() && r.Dequeue().Reserved(first, length)
  {
    if r.size > 0 {
      WrapLemma(r.start + r.size, |r.data|);
      WrapLemma(r.start + 1, |r.data|);
      var d := r.Dequeue();
      WrapLemma(d.start + d.size, |d.data|);
      forall k | 0 <= k < d.size ensures !(first <= d.Slot(k) < first + length) {
        assert d.Slot(k) == r.Slot(k + 1);
      }
    }
  }

  lemma DequeueContents<T>(r: Ring<T>)
    requires r.Valid()
    ensures r.Dequeue().Valid()
    ensures r.size == 0 ==> r.Dequeue() == r && r.Contents() == []
    ensures r.size > 0 ==> r.Contents() == [r.data[r.start]] + r.Dequeue().Contents()
  {
    if r.size > 0 {
      WrapLemma(r.start + 1, |r.data|);
      var d := r.Dequeue();
      ContentsAt(r, 0);
      forall k | 0 <= k < d.size ensures d.Contents()[k] == r.Contents()[k + 1] {
        ContentsAt(d, k);
        ContentsAt(r, k + 1);
        assert d.Slot(k) == r.Slot(k + 1);
      }
      assert |d.Contents()| == d.size;
    }
  }

  /** A slot write inside the reservation is invisible to the reader. */
  lemma WriteKeepsContents<T>(r: Ring<T>, first: nat, length: nat, i: nat, x: T)
    requires r.Valid() && r.Reserved(first, length) && first <= i < first + length
    ensures r.Write(i, x).Valid() && r.Write(i, x).Reserved(first, length)
    ensures r.Write(i, x).Contents() == r.Contents()
  {
    var w := r.Write(i, x);
    forall k | 0 <= k < r.size ensures w.Contents()[k] == r.Contents()[k] {
      ContentsAt(r, k);
      ContentsAt(w, k);
      assert w.Slot(k) == r.Slot(k);
    }
    forall k | 0 <= k < w.size ensures !(first <= w.Slot(k) < first + length) {
      assert w.Slot(k) == r.Slot(k);
    }
    assert |w.Contents()| == |r.Contents()| == r.size;
  }

  /** Committing appends the first `count` reserved slots, in order. */
  lemma CommitContents<T>(r: Ring<T>, first: nat, length: nat, count: nat)
    requires r.Valid() && r.Reserved(first, length) && count <= length
    ensures r.MarkAsWritten(count).Valid()
    ensures r.MarkAsWritten(count).Contents() == r.Contents() + r.data[first..first + count]
  {
    WrapLemma(r.start + r.size, |r.data|);
    var w := r.MarkAsWritten(count);
    if count > 0 {
      forall k | 0 <= k < w.size
        ensures w.Contents()[k] == (r.Contents() + r.data[first..first + count])[k]
      {
        ContentsAt(w, k);
        if k < r.size {
          ContentsAt(r, k);
        } else if r.size > 0 {
          ReservedAfterLast(r, first, length);
        }
      }
      assert |w.Contents()| == w.size;
      assert |r.Contents()| == r.size;
    }
  }

  /** The reserved region directly follows the newest record, wrapping at most at its start. */
  lemma ReservedAfterLast<T>(r: Ring<T>, first: nat, length: nat)
    requires r.Valid() && r.Reserved(first, length) && r.size > 0
    ensures forall k :: r.size <= k < r.size + length ==> r.Slot(k) == first + (k - r.size)
  {
    WrapLemma(r.start + r.size, |r.data|);
  }

  /** The queue object: `start` and `size` are updated under the lock, `data` slots by the writer. */
  class SensorEventQueue<T(0)> {
    const data: array<T>
    var start: nat
    var size: nat

    ghost predicate Valid()
      reads this
    {
      start < data.Length && size <= data.Length
    }

    ghost function Model(): (r: Ring<T>)
      requires Valid()
      reads this, data
      ensures r.Valid()
    {
      Ring(start, size, data[..])
    }

    constructor (capacity: nat)
      requires capacity > 0
      ensures Valid() && Model().Contents() == []
      ensures data.Length == capacity && fresh(data)
    {
      data := new T[capacity];
      start, size := 0, 0;
    }

    method GetWritableRegion(requestedLength: int) returns (first: nat, length: nat)
      requires Valid()
      ensures (first, length) == Model().WritableRegion(requestedLength)
      ensures length == 0 <==> size == data.Length || requestedLength <= 0
      ensures length > 0 ==> length <= requestedLength && Model().Reserved(first, length)
    {
      WritableRegionCorrect(Model(), requestedLength);
      if size == data.Length || requestedLength <= 0 {
        return 0, 0;
      }
      var firstWritable := (start + size) % data.Length;
      WrapLemma(start + size, data.Length);
      var lastWritable := firstWritable + requestedLength - 1;
      if lastWritable > data.Length - 1 {
        lastWritable := data.Length - 1;
      }
      if firstWritable < start && lastWritable >= start {
        lastWritable := start - 1;
      }
      return firstWritable, lastWritable - firstWritable + 1;
    }

    method MarkAsWritten(count: nat, ghost first: nat, ghost length: nat)
      requires Valid() && Model().Reserved(first, length) && count <= length
      modifies this`size
      ensures Valid() && Model() == old(Model()).MarkAsWritten(count)
      ensures Model().Contents() == old(Model().Contents()) + data[first..first + count]
    {
      CommitContents(Model(), first, length, count);
      size := size + count;
      assert data[first..first + count] == data[..][first..first + count];
    }

    /** The oldest record's index, or nothing when the queue is empty. */
    method Peek() returns (found: bool, slot: nat)
      requires Valid()
      ensures found <==> Model().Contents() != []
      ensures found ==> slot < data.Length && data[slot] == Model().Contents()[0]
    {
      found, slot := size != 0, start;
    }

    /** Returns whether parked writers are woken: exactly when the queue was full. */
    method Dequeue() returns (broadcast: bool)
      requires Valid()
      modifies this`start, this`size
      ensures Valid() && Model() == old(Model()).Dequeue()
      ensures old(size) > 0 ==> Model().Contents() == old(Model().Contents())[1..]
      ensures old(size) == 0 ==> Model() == old(Model())
      ensures broadcast <==> old(size) == data.Length
    {
      DequeueContents(Model());
      if size == 0 {
        return false;
      }
      broadcast := size == data.Length;
      size := size - 1;
      start := (start + 1) % data.Length;
    }
  }
}
