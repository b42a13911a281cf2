/**
 The sensor fan-in of sensors/multihal.cpp as a step machine.

 One writer thread per sub-HAL reserves a region of its ring under the queue mutex, lets the device
 fill it without the mutex, and commits under the mutex. One reader (`poll`) examines the rings round
 robin while holding the mutex, which it gives up only by returning or by waiting for data.
 A step is one critical section of a writer, one unlocked slot write, or one examination by the reader.
 */
module FanIn {
  import opened Sequences
  import opened SensorEventQueues
  import opened MultiHalHandles

  /** SENSOR_EVENT_QUEUE_CAPACITY: the length every writer asks for. */
  const REQUESTED_LENGTH := 36

  datatype Writer =
    | Ready                                   // before taking the mutex
    | Parked(signalled: bool)                 // in waitForSpace
    | Filling(first: nat, length: nat)        // in the device's poll, without the mutex

  datatype Reader =
    | Outside
    | Scanning(maxReads: nat, empties: nat, buffer: seq<Event>)   // holds the mutex
    | Waiting(maxReads: nat, signalled: bool)                     // in pthread_cond_wait

  /** One look at a queue: what was taken from it, as the sub-HAL wrote it. */
  datatype Visit = Visit(queue: nat, took: Option<Event>)

  /** The last three fields are history: what each sub-HAL committed, every examination made, and
      every event handed to callers of poll. */
  datatype State = State(
    queues: seq<Ring<Event>>,
    writers: seq<Writer>,
    reader: Reader,
    nextReadIndex: nat,
    waitingForData: bool,
    committed: seq<seq<Event>>,
    visits: seq<Visit>,
    returned: seq<Event>)

  datatype Step =
    | Reserve(i: nat)
    | DeviceWrite(i: nat, offset: nat, event: Event)
    | Commit(i: nat, eventsPolled: int)
    | EnterPoll(maxReads: nat)
    | Examine
    | WaitForData
    | WakeReader
    | ReturnFromPoll

  ghost predicate Init(s: State) {
    && 0 < |s.queues| == |s.writers| == |s.committed|
    && (forall i :: 0 <= i < |s.queues| ==> 0 < |s.queues[i].data| && s.queues[i].start == s.queues[i].size == 0)
    && (forall i :: 0 <= i < |s.queues| ==> s.writers[i] == Ready && s.committed[i] == [])
    && s.reader == Outside && s.nextReadIndex == 0 && !s.waitingForData
    && s.visits == [] && s.returned == []
  }

  predicate MutexFree(s: State) {
    !s.reader.Scanning?
  }

  /** The condition of poll's inner loop. */
  predicate KeepsScanning(s: State) {
    && s.reader.Scanning?
    && s.reader.empties < |s.queues|
    && |s.reader.buffer| < s.reader.maxReads
  }

  /** A device is assumed to report at most as many events as the region it was given holds.
      Condition waits may end without a signal. */
  predicate Enabled(s: State, step: Step) {
    match step
    case Reserve(i) => MutexFree(s) && i < |s.writers| && (s.writers[i].Ready? || s.writers[i].Parked?)
    case DeviceWrite(i, offset, _) =>
      i < |s.writers| && s.writers[i].Filling? && offset < s.writers[i].length
    case Commit(i, n) =>
      && i < |s.writers| && s.writers[i].Filling? && n <= s.writers[i].length
      && (n > 0 ==> MutexFree(s))
    case EnterPoll(maxReads) => s.reader.Outside? && maxReads > 0
    case Examine => KeepsScanning(s)
    case WaitForData => s.reader.Scanning? && !KeepsScanning(s) && s.reader.buffer == []
    case WakeReader => s.reader.Waiting?
    case ReturnFromPoll => s.reader.Scanning? && !KeepsScanning(s) && s.reader.buffer != []
  }

  /** A ring and its writer agree: what the writer holds is a reservation. */
  ghost predicate Paired(q: Ring<Event>, w: Writer) {
    && q.Valid()
    && (w.Filling? ==> w.length > 0 && q.Reserved(w.first, w.length))
  }

  ghost predicate Shape(s: State) {
    && 0 < |s.queues| == |s.writers| == |s.committed|
    && s.nextReadIndex < |s.queues|
    && forall i :: 0 <= i < |s.queues| ==> Paired(s.queues[i], s.writers[i])
  }

  function AfterReserve(s: State, i: nat): State
    requires i < |s.queues| == |s.writers| && s.queues[i].Valid()
  {
    var q := s.queues[i];
    if q.size == |q.data| then s.(writers := s.writers[i := Parked(false)])
    else
      var (first, length) := q.WritableRegion(REQUESTED_LENGTH);
      s.(writers := s.writers[i := Filling(first, length)])
  }

  function AfterCommit(s: State, i: nat, count: int): State
    requires i < |s.queues| == |s.writers| == |s.committed|
    requires s.writers[i].Filling? && count <= s.writers[i].length
    requires s.writers[i].first + s.writers[i].length <= |s.queues[i].data|
  {
    var back := s.(writers := s.writers[i := Ready]);
    if count <= 0 then back
    else
      var first := s.writers[i].first;
      back.(queues := s.queues[i := s.queues[i].MarkAsWritten(count)],
            committed := s.committed[i := s.committed[i] + s.queues[i].data[first..first + count]],
            reader := if s.waitingForData && s.reader.Waiting? then s.reader.(signalled := true) else s.reader)
  }

  function AfterExamine(t: Tables, s: State): State
    requires s.reader.Scanning? && s.nextReadIndex < |s.queues| == |s.writers|
    requires s.queues[s.nextReadIndex].Valid()
  {
    var i := s.nextReadIndex;
    var q := s.queues[i];
    var moved := s.(nextReadIndex := (i + 1) % |s.queues|);
    if q.size == 0 then
      moved.(reader := s.reader.(empties := s.reader.empties + 1),
             visits := s.visits + [Visit(i, None)])
    else
      var e := q.data[q.start];
      var g := t.Remap(i, e);
      var wakes := q.size == |q.data| && s.writers[i].Parked?;
      moved.(queues := s.queues[i := q.Dequeue()],
             writers := if wakes then s.writers[i := Parked(true)] else s.writers,
             reader := s.reader.(empties := 0,
                                 buffer := if g.sensor == -1 then s.reader.buffer else s.reader.buffer + [g]),
             visits := s.visits + [Visit(i, Some(e))])
  }

  ghost function Apply(t: Tables, s: State, step: Step): State
    requires Shape(s) && Enabled(s, step)
  {
    match step
    case Reserve(i) => AfterReserve(s, i)
    case DeviceWrite(i, offset, e) =>
      s.(queues := s.queues[i := s.queues[i].Write(s.writers[i].first + offset, e)])
    case Commit(i, n) => AfterCommit(s, i, n)
    case EnterPoll(maxReads) => s.(reader := Scanning(maxReads, 0, []))
    case Examine => AfterExamine(t, s)
    case WaitForData => s.(waitingForData := true, reader := Waiting(s.reader.maxReads, false))
    case WakeReader => s.(waitingForData := false, reader := Scanning(s.reader.maxReads, 0, []))
    case ReturnFromPoll => s.(reader := Outside, returned := s.returned + s.reader.buffer)
  }

  /** A run: states[k+1] follows from states[k] by steps[k], starting from an initial state. */
  ghost predicate Run(t: Tables, states: seq<State>, steps: seq<Step>) {
    && |states| == |steps| + 1
    && Init(states[0])
    && forall k :: 0 <= k < |steps| ==>
         Shape(states[k]) && Enabled(states[k], steps[k]) && states[k + 1] == Apply(t, states[k], steps[k])
  }

  // ----- the reservation protocol, refined to one FIFO per sub-HAL

  lemma PairedAfterReserve(t: Tables, s: State, i: nat)
    requires Shape(s) && Enabled(s, Reserve(i))
    ensures var s' := Apply(t, s, Reserve(i)); Paired(s'.queues[i], s'.writers[i])
  {
    WritableRegionCorrect(s.queues[i], REQUESTED_LENGTH);
  }

  lemma PairedAfterCommit(t: Tables, s: State, i: nat, n: int)
    requires Shape(s) && Enabled(s, Commit(i, n))
    ensures var s' := Apply(t, s, Commit(i, n)); Paired(s'.queues[i], s'.writers[i])
  {
    if n > 0 {
      CommitContents(s.queues[i], s.writers[i].first, s.writers[i].length, n);
    }
  }

  lemma PairedAfterExamine(t: Tables, s: State)
    requires Shape(s) && Enabled(s, Examine)
    ensures var (i, s') := (s.nextReadIndex, Apply(t, s, Examine)); Paired(s'.queues[i], s'.writers[i])
  {
    var (q, w) := (s.queues[s.nextReadIndex], s.writers[s.nextReadIndex]);
    DequeueContents(q);
    if w.Filling? {
      DequeueKeepsReservation(q, w.first, w.length);
    }
  }

  lemma PairedAfterDeviceWrite(t: Tables, s: State, i: nat, offset: nat, e: Event)
    requires Shape(s) && Enabled(s, DeviceWrite(i, offset, e))
    ensures var s' := Apply(t, s, DeviceWrite(i, offset, e)); Paired(s'.queues[i], s'.writers[i])
  {
    var (q, w) := (s.queues[i], s.writers[i]);
    WriteKeepsContents(q, w.first, w.length, w.first + offset, e);
  }

  lemma ShapeStep(t: Tables, s: State, step: Step)
    requires Shape(s) && Enabled(s, step)
    ensures Shape(Apply(t, s, step))
  {
    match step
    case Reserve(i) => PairedAfterReserve(t, s, i);
    case DeviceWrite(i, offset, e) => PairedAfterDeviceWrite(t, s, i, offset, e);
    case Commit(i, n) => PairedAfterCommit(t, s, i, n);
    case Examine => PairedAfterExamine(t, s);
    case _ =>
  }

  /** What a sub-HAL looks like from outside: a bounded FIFO, and the batch its device is filling. */
  datatype Hal = Hal(capacity: nat, fifo: seq<Event>, batch: Option<seq<Event>>)

  ghost function View(s: State, i: nat): Hal
    requires Shape(s) && i < |s.queues|
  {
    Hal(|s.queues[i].data|,
        s.queues[i].Contents(),
        if s.writers[i].Filling?
        then Some(s.queues[i].data[s.writers[i].first..s.writers[i].first + s.writers[i].length])
        else None)
  }

  /** After a reservation: no batch exactly when the FIFO is full, else one that fits and is no longer
      than what is asked for. */
  ghost predicate Granted(h: Hal) {
    match h.batch
    case None => |h.fifo| == h.capacity
    case Some(batch) => 0 < |batch| <= REQUESTED_LENGTH && |h.fifo| + |batch| <= h.capacity
  }

  /** The steps of the simple form. Slot writes touch only the batch, commits append a prefix of it. */
  ghost predicate HalStep(step: Step, i: nat, nextRead: nat, a: Hal, b: Hal) {
    match step
    case Reserve(j) =>
      if i != j then a == b
      else a.batch == None && b == Hal(a.capacity, a.fifo, b.batch) && Granted(b)
    case DeviceWrite(j, offset, e) =>
      if i != j then a == b
      else
        && a.batch.Some? && offset < |a.batch.value|
        && b == Hal(a.capacity, a.fifo, Some(a.batch.value[offset := e]))
    case Commit(j, n) =>
      if i != j then a == b
      else
        && a.batch.Some? && n <= |a.batch.value|
        && b == Hal(a.capacity, if n <= 0 then a.fifo else a.fifo + a.batch.value[..n], None)
    case Examine =>
      if i != nextRead || a.fifo == [] then a == b
      else b == Hal(a.capacity, a.fifo[1..], a.batch)
    case _ => a == b
  }

  lemma ReserveRefines(t: Tables, s: State, j: nat)
    requires Shape(s) && Enabled(s, Reserve(j))
    ensures var s' := Apply(t, s, Reserve(j));
            && Shape(s') && View(s, j).batch == None && Granted(View(s', j))
            && View(s', j) == Hal(View(s, j).capacity, View(s, j).fifo, View(s', j).batch)
            && (s'.writers[j].Filling? ==>
                  var (q, end) := (s.queues[j], s'.writers[j].first + s'.writers[j].length);
                  s'.writers[j].length == REQUESTED_LENGTH || end == |q.data| || end == q.start)
  {
    ShapeStep(t, s, Reserve(j));
    WritableRegionCorrect(s.queues[j], REQUESTED_LENGTH);
  }

  lemma DeviceWriteRefines(t: Tables, s: State, j: nat, offset: nat, e: Event)
    requires Shape(s) && Enabled(s, DeviceWrite(j, offset, e))
    ensures var s' := Apply(t, s, DeviceWrite(j, offset, e));
            && Shape(s')
            && View(s, j).batch.Some? && offset < |View(s, j).batch.value|
            && View(s', j) == Hal(View(s, j).capacity, View(s, j).fifo, Some(View(s, j).batch.value[offset := e]))
  {
    var (q, first, length) := (s.queues[j], s.writers[j].first, s.writers[j].length);
    ShapeStep(t, s, DeviceWrite(j, offset, e));
    WriteKeepsContents(q, first, length, first + offset, e);
    assert q.data[first + offset := e][first..first + length] == q.data[first..first + length][offset := e];
  }

  /** The batch positions that a commit of n events publishes. */
  ghost function Published(s: State, j: nat, n: int): seq<Event>
    requires Shape(s) && j < |s.queues| && s.writers[j].Filling? && n <= s.writers[j].length
  {
    if n <= 0 then [] else View(s, j).batch.value[..n]
  }

  lemma CommitRefines(t: Tables, s: State, j: nat, n: int)
    requires Shape(s) && Enabled(s, Commit(j, n))
    ensures var s' := Apply(t, s, Commit(j, n));
            && Shape(s')
            && View(s', j) == Hal(View(s, j).capacity, View(s, j).fifo + Published(s, j, n), None)
            && s'.committed[j] == s.committed[j] + Published(s, j, n)
            && s'.visits == s.visits
  {
    var (q, first, length) := (s.queues[j], s.writers[j].first, s.writers[j].length);
    ShapeStep(t, s, Commit(j, n));
    if n > 0 {
      CommitContents(q, first, length, n);
      assert q.data[first..first + length][..n] == q.data[first..first + n];
    }
  }

  lemma ExamineRefines(t: Tables, s: State)
    requires Shape(s) && Enabled(s, Examine)
    ensures var (i, s') := (s.nextReadIndex, Apply(t, s, Examine));
            && Shape(s')
            && View(s', i) == if View(s, i).fifo == [] then View(s, i) else Hal(View(s, i).capacity, View(s, i).fifo[1..], View(s, i).batch)
  {
    ShapeStep(t, s, Examine);
    DequeueContents(s.queues[s.nextReadIndex]);
  }

  /** The sub-HAL whose ring and writer a step may change. */
  function Touched(s: State, step: Step): Option<nat> {
    match step
    case Reserve(i) => Some(i)
    case DeviceWrite(i, _, _) => Some(i)
    case Commit(i, _) => Some(i)
    case Examine => Some(s.nextReadIndex)
    case _ => None
  }

  lemma UntouchedView(t: Tables, s: State, step: Step, i: nat)
    requires Shape(s) && Enabled(s, step) && i < |s.queues| && Touched(s, step) != Some(i)
    ensures Shape(Apply(t, s, step)) && |Apply(t, s, step).queues| == |s.queues|
    ensures View(Apply(t, s, step), i) == View(s, i)
  {
    ShapeStep(t, s, step);
    var s' := Apply(t, s, step);
    assert s'.queues[i] == s.queues[i] && s'.writers[i] == s.writers[i];
  }

  /** Every step of the ring, including unlocked writes that race with the reader, is a step of the
      FIFO form for every sub-HAL. */
  lemma StepRefinesFifo(t: Tables, s: State, step: Step, i: nat)
    requires Shape(s) && Enabled(s, step) && i < |s.queues|
    ensures Shape(Apply(t, s, step)) && |Apply(t, s, step).queues| == |s.queues|
    ensures HalStep(step, i, s.nextReadIndex, View(s, i), View(Apply(t, s, step), i))
  {
    if Touched(s, step) != Some(i) {
      UntouchedView(t, s, step, i);
    } else {
      match step
      case Reserve(j) => ReserveRefines(t, s, j);
      case DeviceWrite(j, offset, e) => DeviceWriteRefines(t, s, j, offset, e);
      case Commit(j, n) => CommitRefines(t, s, j, n);
      case Examine => ExamineRefines(t, s);
    }
  }
}
