# Verified models of the device's algorithmic core

This project models, in Dafny 4.11, the parts of a phone's device tree that are algorithms rather than
tables or forwarding, and proves what they promise over all inputs and all runs.

| component | source | modules |
|---|---|---|
| Sensor multi-HAL fan-in | `sensors/SensorEventQueue.cpp`, `sensors/multihal.cpp` | `SensorEventQueues`, `MultiHalHandles`, `FanIn`, `FanInRuns`, `MultiHalPoll` |
| RIL event loop, wake lock, pending requests | `ril/libril/ril_event.cpp`, `ril/libril/ril.cpp`, `ril/libril/rilSocketQueue.h` | `Timevals`, `RilLoop`, `RilWakeLock`, `RilEventLists`, `RilWatchTable`, `RilIteration`, `RilCallbacks`, `RilRequests`, `RilSystem`, `RilSystemRuns` |
| Incremental SHA-1 | `fingerprint/hash.c`, `fingerprint/hash.h` | `Sha1Spec`, `Sha1`, `Sha1Stream`, `Sha1Object`, `Sha1Example` |
| Camera parameter text and fixups | `camera/CameraParameters.cpp`, `camera/CameraWrapper.cpp` | `CameraParameters`, `CameraSizes`, `CameraFixups` |
| Venus buffer arithmetic | `include/media/msm_media_info.h` | `VenusBuffers` |

`Sequences` and `Arithmetic` hold shared lemmas. `dafny verify dfyconfig.toml` checks everything.

## Main results

- **Fan-in.** Under every interleaving of reservations, unlocked slot writes, commits and examinations,
  each ring is a FIFO (`FanIn.StepRefinesFifo`). On every run, what is taken from a sub-HAL is a prefix of
  what it committed, the rest is still queued, and callers get exactly the taken events that do not remap
  to sensor -1 (`FanInRuns.RunDeliversPrefix`). No wakeup is lost in either direction
  (`RunNoLostWakeup`), poll's scan terminates and visits queues fairly (`ExamineLowersMeasure`,
  `RunVisitsFairly`), and the imperative scan meets the same account (`MultiHalPoll.PollContext.Scan`).
- **Event loop.** On every run each timer fires at most once, strictly late, and in one total order (by
  deadline, and newest first among equal deadlines) across iterations and concurrent additions
  (`RilLoop.RunFiresInOrder`); none is lost
  (`RunLosesNoTimer`); the delay for select is exactly the time to the earliest deadline
  (`RunPicksRightDelay`) and select is never left asleep past it (`RunNeverOversleeps`). The
  pointer-level timer list refines the protocol (`RilEventLists.AddTimer`, `ProcessTimeouts`), and the
  bounded scan of the watch table queues every ready event exactly once
  (`RilWatchTable.WatchTable.ProcessReadReadies`). A whole iteration on the pointer-level lists and the
  table is an iteration of the protocol (`RilIteration.RunIteration`).
- **Wake lock and requests.** At most one live wake timer, and it is the remembered one
  (`RilWakeLock.RunKeepsOneLiveTimer`); the counter is the number of outstanding grabs
  (`CounterCountsGrabs`) and a release gives up the lock exactly when at most one is left
  (`RunReleaseDropsIff`); a timeout does so only more than 200 ms after every successful grab
  (`RunTimeoutReleasesLate`). A request is answered at most once, only while pending, and
  the answer asks for an acknowledgement exactly when one arrived before
  (`RilRequests.RunAnswersOnce`, `RunAckExpectedIff`). On runs of all of it together, with one
  request list per socket, a completion grabs the wake lock exactly when its request was acknowledged
  earlier, and no timeout gives that lock up within 200 ms (`RilSystemRuns.RunGrabsIffAcked`,
  `RunResponseLockLasts`).
- **SHA-1.** For every message shorter than 2^61 bytes, in every chunking, the context ends uncorrupted
  with the digest of FIPS 180-4; for every longer one it ends corrupted
  (`Sha1Stream.StreamComputesSha1`, `Sha1Object.HashBytes`). The definition itself gives the published
  digest of "abc" (`Sha1Example.AbcDigest`).
- **Camera.** On every text unflatten holds exactly the last pair of each key
  (`CameraParameters.UnflattenHoldsLastPairs`), and every map an object can hold survives a round trip
  through its text form (`HistoryRoundTrips`); sizes and numbers survive printing and parsing
  (`CameraSizes.SizeRoundTrip`, `ParsePrintedSizes`); the read fixup is idempotent on every string
  (`CameraFixups.GetFixupIsIdempotent`) and the torch rule holds on every history of calls
  (`CameraFixups.SetCallZslRule`).
- **Venus.** The mask form of the alignment macro is the least multiple that is not smaller
  (`VenusBuffers.MediaAlignRoundsUp`), and the views end inside the buffer if and only if the aligned total
  fits in 32 bits (`ViewsFit`), which it does up to 16384 by 16384 (`DimensionsFit`).

## Assumptions

- A sub-HAL's device reports at most as many events as the region it was given holds; `maxReads` is
  positive; there is at least one queue; only one thread calls poll (`sensors/Sensors.cpp:177`).
- Each critical section, each callback and each timer firing is one atomic step; the drain of the wake
  pipe is one step. The clock is monotonic; timevals are normalised and not negative. Condition waits may
  end without a signal.
- Watched descriptors are distinct and not negative; an event is on at most one list; callbacks do not
  touch the pending list; select's return value is the number of descriptors in its result set.
- Request pointers and timers are numbered, and numbers are never reused.
- `QCOM_HARDWARE` is not defined. Strings hold no NUL. LONG_MAX is at least 2^31 - 1. A camera id indexes
  an existing camera.
- Memory allocation succeeds, except where the code handles its failure on the modelled paths: a grab of
  the wake lock and a new request may fail.

## Findings

Where code and comments disagree, the model follows the code.

- A skipped open shifts the devices of all later sub-HALs against the module numbers. The exact condition
  is proved for commands (`MultiHalHandles.CommandReachesModuleIff`) and for events, which are then dropped
  or attributed to another module (`EventNamesModuleIff`); `SkippedOpenShifts` is an input. Remapping inverts routing exactly when no two
  sensors share module and local handle (`RemapInvertsRoutingIffDistinct`); otherwise the later one wins.
- A meta-data event whose nested handle is unknown is passed on with -1 inside, not dropped: only the outer
  field is tested (`MultiHalHandles.DroppedIff`).
- Of timers with equal deadlines the one added last fires first: a run that shows it is
  `RilLoop.EqualDeadlinesFireNewestFirst`, and for all runs it is the order of `RunFiresInOrder`.
- `Ril_queue` is last in, first out: both its operations work on the front
  (`RilRequests.LinkedRequests.Enqueue`, `Dequeue`).
- A grab whose timer allocation fails releases the kernel lock although earlier grabs still count on it
  (`RilWakeLock.FailedGrabDropsLock`). In every state of every run lock and counter agree if and only if
  the counter is zero or the latest grab got its timer (`HeldIffCounted`).
- After the last watched descriptor is removed `nfds` is 1, not 0 (`RilWatchTable.WatchTable.RemoveWatch`).
- The wrapper looks for the flash mode "mode-torch", while the value that `CameraParameters` names for
  torch is "torch". A call with "torch" has its ZSL key forced unless the previous call said "mode-torch"
  (`CameraFixups.PublicTorchForcesZsl`, with an input in `PublicTorchTurnsZslOn`).
- `unflatten` accepts keys that contain ';' and values that contain '=', which `set` refuses
  (`CameraParameters.UnflattenKeepsReserved`); it finds only pairs that `set` would accept if and only if
  the separators of the text alternate (`PairsArePlainIff`). The round trip holds for all those maps.
- A sizes list that turns out malformed has already pushed the sizes before the bad one
  (`CameraSizes.MalformedKeepsEarlier`).
- `sha1_hash` never reports failure: its length is a 32-bit number (`Sha1Object.HashMessage`).
- VENUS_BUFFER_SIZE is larger than the total in the comment above the format: by exactly 8 KiB for NV12
  and NV21, and by exactly 12 KiB for NV12_MVTB (`VenusBuffers.BufferExceedsDocumented`).

## Model

| member | source | states |
|---|---|---|
| SensorEventQueues.WritableRegionCorrect | sensors/SensorEventQueue.cpp:39-59 | the region is empty exactly when the ring is full or nothing is asked for, never longer than asked, free of readable slots, and as long as contiguity allows |
| SensorEventQueues.DequeueKeepsReservation | sensors/SensorEventQueue.cpp:74-81 | the reserved start stays the first writable slot and the region stays free while the reader dequeues |
| SensorEventQueues.DequeueContents | sensors/SensorEventQueue.cpp:74-81 | dequeuing removes exactly the oldest record, or nothing from an empty ring |
| SensorEventQueues.WriteKeepsContents | sensors/multihal.cpp:148-154 | a slot write inside the reservation does not change what the reader sees, nor the reservation |
| SensorEventQueues.CommitContents | sensors/SensorEventQueue.cpp:61-63 | a commit appends exactly the first `count` reserved slots, in order, across a wrap |
| SensorEventQueues.ReservedAfterLast | sensors/SensorEventQueue.cpp:44-58 | the reserved slots are the ones that follow the newest record |
| SensorEventQueues.SensorEventQueue.constructor | sensors/SensorEventQueue.cpp:24-31 | a new queue is empty |
| SensorEventQueues.SensorEventQueue.GetWritableRegion | sensors/SensorEventQueue.cpp:39-59 | the mutable queue returns the specified region, a valid reservation |
| SensorEventQueues.SensorEventQueue.MarkAsWritten | sensors/SensorEventQueue.cpp:61-63 | the contents grow by the committed slots |
| SensorEventQueues.SensorEventQueue.Peek | sensors/SensorEventQueue.cpp:69-72 | finds a record exactly when there is one, and it is the oldest |
| SensorEventQueues.SensorEventQueue.Dequeue | sensors/SensorEventQueue.cpp:74-81 | drops the oldest record; signals exactly when the ring was full |
| MultiHalHandles.AssignExtends | sensors/multihal.cpp:85-93 | one more numbered sensor keeps the tables a description of the numbered sequence |
| MultiHalHandles.SensorRegistry.AssignGlobalHandle | sensors/multihal.cpp:85-93 | the next number is given and both tables record it |
| MultiHalHandles.FixFieldsMeans | sensors/multihal.cpp:541-564 | the fixup keeps handle, type and other fields, leaves no event buffer, sets the flags of tilt and proximity sensors and the range of proximity sensors alone, and is idempotent |
| MultiHalHandles.SensorRegistry.AddSensor | sensors/multihal.cpp:611-627 | one sensor is copied, fixed up, under the next handle |
| MultiHalHandles.SensorRegistry.AddModule | sensors/multihal.cpp:611-627 | a module's sensors are appended in order, fixed up, under consecutive handles |
| MultiHalHandles.SensorRegistry.LazyInitSensorsList | sensors/multihal.cpp:569-635 | sensor i of module m is listed, fixed up, under the number of sensors before it plus one, and that handle routes to m and to its own handle; a second call changes nothing |
| MultiHalHandles.ListingAt | sensors/multihal.cpp:600-629 | the position of sensor i of module m is the number of sensors of earlier modules plus i |
| MultiHalHandles.ListingIsSomeSensor | sensors/multihal.cpp:600-629 | every position is some module's sensor |
| MultiHalHandles.RemapInvertsRoutingIffDistinct | sensors/multihal.cpp:81-127 | remapping is the inverse of routing if and only if (module, local handle) pairs are distinct |
| MultiHalHandles.RemapNamesSource | sensors/multihal.cpp:295-315 | remapping changes only the subject handle, to the global handle that routes back, or -1 when unregistered |
| MultiHalHandles.DroppedIff | sensors/multihal.cpp:295-338 | exactly which events are dropped after remapping |
| MultiHalHandles.CommandReachesModuleIff | sensors/multihal.cpp:230-237 | with skipped opens a command for a listed global handle reaches its sensor's module if and only if all modules up to it were opened; an unlisted handle reaches none |
| MultiHalHandles.EventNamesModuleIff | sensors/multihal.cpp:295-342 | with skipped opens a reading is attributed to the module it came from if and only if all modules up to that one were opened; else it is dropped or attributed to another |
| MultiHalHandles.SkippedOpenShifts | sensors/multihal.cpp:694-703 | with the first of two modules unopened, commands and readings go to the wrong module or nowhere |
| MultiHalHandles.DeviceUnshiftedIff | sensors/multihal.cpp:694-703 | device m belongs to module m if and only if all modules up to m were opened |
| MultiHalHandles.DevicesAreOpened | sensors/multihal.cpp:694-703 | the devices are exactly the opened modules, in ascending order |
| MultiHalHandles.DevicesOfOpenPrefix | sensors/multihal.cpp:694-703 | an unbroken run of opened modules keeps its indices |
| MultiHalHandles.UnshiftedDeviceWasOpened | sensors/multihal.cpp:694-703 | an index that did not shift has only opened modules up to it |
| FanIn.ShapeStep | sensors/multihal.cpp:143-170 | every step keeps every writer's region a reservation of its ring |
| FanIn.ReserveRefines | sensors/multihal.cpp:144-150 | a reservation grants no batch exactly when the FIFO is full, else one of 1 to 36 slots that fits and is as long as contiguity allows |
| FanIn.DeviceWriteRefines | sensors/multihal.cpp:152-154 | an unlocked slot write changes one position of the batch and not the FIFO |
| FanIn.CommitRefines | sensors/multihal.cpp:162-169 | a commit appends the first n of the batch to the FIFO and to the committed history |
| FanIn.ExamineRefines | sensors/multihal.cpp:326-343 | an examination takes the FIFO's head, or nothing |
| FanIn.UntouchedView | sensors/multihal.cpp:136-173 | a step about one sub-HAL leaves all others as they are |
| FanIn.StepRefinesFifo | sensors/multihal.cpp:136-173 | every step of the machine is a step of one FIFO with a batch per sub-HAL |
| FanInRuns.PrefixVisitCount | sensors/multihal.cpp:342-342 | exact number of visits of each queue after p rounds and m more examinations |
| FanInRuns.FairVisits | sensors/multihal.cpp:317-357 | any k consecutive examinations visit each of n queues k/n times, rounded down or up |
| FanInRuns.RunVisitsFairly | sensors/multihal.cpp:317-357 | the same in every state of every run, across poll calls |
| FanInRuns.AllEmptyWhenScanEnds | sensors/multihal.cpp:326-345 | when as many empty looks in a row were made as there are queues, every queue is empty |
| FanInRuns.WakeupsStep | sensors/multihal.cpp:162-169 | every step keeps the wakeup invariant of writers and reader |
| FanInRuns.LedgerStep | sensors/multihal.cpp:317-357 | every step keeps committed = taken + queued per sub-HAL and passed = returned + buffered |
| FanInRuns.RunKeepsInv | sensors/multihal.cpp:136-173 | the whole invariant in every state of every run |
| FanInRuns.RunDeliversPrefix | sensors/multihal.cpp:295-357 | no event lost, duplicated or reordered within a sub-HAL; callers get exactly the taken events that are not dropped |
| FanInRuns.TakenAre | sensors/multihal.cpp:327-341 | the events taken from a queue are those of exactly the visits that found one there, in order |
| FanInRuns.PassedAre | sensors/multihal.cpp:333-339 | the events passed upstream are those of exactly the visits that pass one, in order |
| FanInRuns.PassedByIff | sensors/multihal.cpp:333-339 | a visit passes its event, remapped, exactly when it is a reading of a registered sensor or a meta-data event whose own field is not -1 |
| FanInRuns.RunNoLostWakeup | sensors/SensorEventQueue.cpp:74-91 | an unsignalled parked writer's queue is full; an unsignalled waiting poll has its flag set and all queues empty; never both |
| FanInRuns.RunPollBounds | sensors/multihal.cpp:325-356 | poll returns 1 to maxReads events and waits only when every queue is empty |
| FanInRuns.ExamineLowersMeasure | sensors/multihal.cpp:326-343 | each examination lowers (queued events, queues not yet seen empty) lexicographically |
| MultiHalPoll.ConservesNext | sensors/multihal.cpp:327-342 | an examination moves a head from what is left to what was taken |
| MultiHalPoll.PassedAppend | sensors/multihal.cpp:333-339 | the events passed by two stretches of visits are those of the first followed by those of the second |
| FanInRuns.AllEmpty | sensors/multihal.cpp:326-345 | a full round of empty looks, from any start, means that all queues are empty |
| MultiHalPoll.ProgressNext | sensors/multihal.cpp:326-343 | an examination keeps order, conservation and the count of empty looks |
| MultiHalPoll.PollContext.CopyHead | sensors/multihal.cpp:333-339 | the remapped head is in the buffer, and counted unless dropped |
| MultiHalPoll.PollContext.TakeHead | sensors/multihal.cpp:332-340 | the head leaves its queue and its remapped copy is in the buffer unless dropped |
| MultiHalPoll.PollContext.ExamineNext | sensors/multihal.cpp:327-342 | one pass of the loop: queue, buffer and index after it |
| MultiHalPoll.PollContext.ScanOne | sensors/multihal.cpp:326-343 | one pass brings the scan on and lowers its measure |
| MultiHalPoll.PollContext.Scan | sensors/multihal.cpp:317-345 | the scan terminates, visits round robin from where it stopped, fills the buffer with exactly the events that pass, loses none, and leaves room only with all queues empty |
| Timevals.TimevalArithmetic | ril/libril/ril_event.cpp:37-66 | on normalised values the macros are addition, subtraction and order of microseconds |
| RilLoop.InsertSplits | ril/libril/ril_event.cpp:301-307 | a timer goes behind all earlier ones and before the first that is not earlier |
| RilLoop.InsertKeepsSorted | ril/libril/ril_event.cpp:286-312 | insertion keeps the firing order, with the new timer before all of the same deadline, and adds exactly one timer |
| RilLoop.ExpiredCountSplits | ril/libril/ril_event.cpp:170-177 | the timers moved are exactly those strictly past their deadline |
| RilLoop.ProcessTimeoutsKeepsInv | ril/libril/ril_event.cpp:158-180 | expiring keeps the ordered line of fired, pending and waiting timers |
| RilLoop.InvStep | ril/libril/ril_event.cpp:345-384 | every step of loop and adders keeps that line in firing order, complete and on time |
| RilLoop.CoveredStep | ril/libril/ril_event.cpp:353-383 | every step keeps: the chosen delay reaches no further than the first deadline, or a wake byte is in the pipe or owed |
| RilLoop.RunKeepsInv | ril/libril/ril_event.cpp:345-384 | both invariants in every state of every run |
| RilLoop.RunFiresInOrder | ril/libril/ril_event.cpp:158-213 | each timer fires at most once, strictly after its deadline, and in a total order: by deadline, and newest first among equal deadlines |
| RilLoop.EqualDeadlinesFireNewestFirst | ril/libril/ril_event.cpp:301-307 | a run in which the second of two timers with the same deadline fires first |
| RilLoop.RunLosesNoTimer | ril/libril/ril_event.cpp:158-180 | every added timer has fired, is pending or is waiting, exactly once |
| RilLoop.RunNeverOversleeps | ril/libril/ril.cpp:260-291 | with no wake write outstanding, select cannot stay blocked once the first deadline is reached, up to the time between picking the delay and entering select |
| RilLoop.NextDelayIsRight | ril/libril/ril_event.cpp:215-238 | the delay is none exactly without timers, zero exactly when the earliest deadline is reached, else exactly the time to it |
| RilLoop.RunPicksRightDelay | ril/libril/ril_event.cpp:353-366 | on every run the delay in force was picked by the latest choice, at that time, and right for the timers waiting then |
| RilLoop.RunLooksAfterSelect | ril/libril/ril_event.cpp:366-383 | timers are looked at only after a select that returned; the top is reached only at the start, after an interrupted select or after firing |
| RilLoop.RunStopsForGood | ril/libril/ril_event.cpp:369-375 | after a failed select nothing fires any more |
| RilLoop.SelectThenIterationDrains | ril/libril/ril.cpp:281-291 | a returning select and its iteration leave no wake byte, however many there were |
| RilLoop.FireAllMeans | ril/libril/ril_event.cpp:202-213 | firing everything pending fires each expired timer once, in order, and drains the pipe if it was pending |
| RilLoop.IterationMeans | ril/libril/ril_event.cpp:377-382 | an undisturbed iteration is enabled step by step and fires exactly the expired timers, in order, then what is ready |
| RilWakeLock.GrabKeepsWakeInv | ril/libril/ril.cpp:659-683 | a grab cancels the previous wake timer, so that only the new one is live |
| RilWakeLock.ReleaseKeepsWakeInv | ril/libril/ril.cpp:685-708 | a release keeps the wake-lock invariant |
| RilWakeLock.CallbackKeepsWakeInv | ril/libril/ril.cpp:347-361 | a firing forgets the pointer exactly when it names the fired timer |
| RilWakeLock.WakeOkStep | ril/libril/ril.cpp:659-730 | every step of loop, grabs and releases keeps the wake-lock invariant |
| RilWakeLock.RilRunKeepsInv | ril/libril/ril.cpp:659-730 | loop and wake-lock invariants in every state of every run |
| RilWakeLock.RunKeepsOneLiveTimer | ril/libril/ril.cpp:659-730 | at most one uncancelled scheduled wake timer, it is the remembered one, the pointer is null or unfired, and a held lock has a positive count and a live timer |
| RilWakeLock.LastGrabIsLatest | ril/libril/ril.cpp:666-677 | the recorded last grab is not before any successful grab of the run |
| RilWakeLock.RunTimeoutReleasesLate | ril/libril/ril.cpp:659-730 | a timeout gives up the lock only strictly more than 200 ms after every successful grab so far |
| RilWakeLock.HeldIffCounted | ril/libril/ril.cpp:659-730 | in every state of every run the lock is held exactly when the counter is positive and the latest grab got its timer; so it agrees with the counter if and only if the counter is zero or that grab succeeded |
| RilWakeLock.CounterCountsGrabs | ril/libril/ril.cpp:659-730 | on every run the counter is the successful grabs less the releases, floored at zero, since the latest grab's timer last fired |
| RilWakeLock.RunReleaseDropsIff | ril/libril/ril.cpp:692-700 | a release gives up the lock and cancels the live timer exactly when at most one grab is outstanding, else it takes one away and leaves lock and timers alone |
| RilWakeLock.FailedGrabDropsLock | ril/libril/ril.cpp:666-670 | a run in which a failing grab drops a lock that is still counted |
| RilCallbacks.InternalRequestTimedCallback | ril/libril/ril.cpp:870-901 | a new uncancelled callback whose new event is on the sorted timer list at now + time, which is the protocol's insertion; or nothing without memory |
| RilCallbacks.PartialWakeLock.CountGrab | ril/libril/ril.cpp:671-677 | the grab is counted, its timer remembered, the previous one cancelled: the protocol's grab |
| RilCallbacks.PartialWakeLock.GrabPartialWakeLock | ril/libril/ril.cpp:659-683 | the protocol's grab, with a new callback, which is remembered, on the timer list 200 ms ahead; without memory the lock is given up; below version 13 only the lock is taken |
| RilCallbacks.PartialWakeLock.ReleaseWakeLock | ril/libril/ril.cpp:685-708 | with more than one grab counted only the count falls by one; else lock and count are cleared and the remembered timer cancelled; below version 13 the lock is given up |
| RilCallbacks.PartialWakeLock.WakeTimeoutCallback | ril/libril/ril.cpp:713-730 | only an uncancelled timeout gives up the lock, and from version 13 on clears the counter |
| RilCallbacks.PartialWakeLock.UserTimerCallback | ril/libril/ril.cpp:347-361 | firing any timer is the callback step of the protocol |
| RilRequests.RemoveFirstUnlinksOne | ril/libril/rilSocketQueue.h:143-151 | removal takes exactly one item, the first match, and keeps the order of the rest |
| RilRequests.LinkedRequests.Empty | ril/libril/rilSocketQueue.h:159-167 | the front pointer is null exactly when the list is empty |
| RilRequests.LinkedRequests.Enqueue | ril/libril/rilSocketQueue.h:120-134 | the request becomes the front, the rest is unchanged |
| RilRequests.LinkedRequests.Dequeue | ril/libril/rilSocketQueue.h:101-118 | the front, the newest request, is removed and returned |
| RilRequests.LinkedRequests.Find | ril/libril/ril.cpp:543-560 | walks to the first match and the link that leads to it |
| RilRequests.LinkedRequests.UnlinkAt | ril/libril/rilSocketQueue.h:146-147 | redirecting one pointer removes exactly that link |
| RilRequests.LinkedRequests.CheckAndDequeue | ril/libril/rilSocketQueue.h:136-156 | found exactly when there is a match; then exactly the first match is unlinked |
| RilRequests.PendingRequests.AddRequestToList | ril/libril/ril.cpp:238-257 | a new unacknowledged request on a new link before the old ones, which is the issue step of the protocol, or no change when allocation fails |
| RilRequests.PendingRequests.CheckAndDequeueIfAck | ril/libril/ril.cpp:541-565 | on this list an acknowledgement only marks a pending request and keeps all links, a completion removes it and its link and nothing else, an unknown token changes nothing |
| RilRequests.PendingRequests.OnRequestAck | ril/libril/ril.cpp:567-599 | an acknowledgement step of the protocol that keeps the links; the framework is told exactly for pending, uncancelled requests |
| RilRequests.PendingRequests.Answer | ril/libril/ril.cpp:608-640 | a completion step of the protocol: one response exactly for a pending, non-local, uncancelled request, of the type the version and the earlier acknowledgement call for |
| RilRequests.InvStep | ril/libril/ril.cpp:208-258 | every step keeps: pending and answered requests are disjoint and each distinct |
| RilRequests.RunKeepsInv | ril/libril/ril.cpp:510-657 | the invariant in every state of every run |
| RilRequests.RunAnswersOnce | ril/libril/ril.cpp:600-657 | at most one response per request, only by a completion while it is pending, and it is not pending afterwards |
| RilRequests.RunAnswersIff | ril/libril/ril.cpp:608-640 | a completion makes a response if and only if it finds its request pending, not local and not cancelled; the other pending requests stay |
| RilRequests.AckedIffArrived | ril/libril/ril.cpp:549-554 | a pending request is marked exactly when an acknowledgement arrived while it was pending |
| RilRequests.RunAckExpectedIff | ril/libril/ril.cpp:630-640 | a response expects an acknowledgement if and only if version >= 13 and an acknowledgement arrived earlier in the run |
| RilSystem.Library.constructor | ril/libril/ril.cpp:132-155 | empty lists, one per socket, that share nothing, a free lock and no timers |
| RilSystem.Library.AddRequestToList | ril/libril/ril.cpp:208-258 | the request goes to the head of its socket's list; items, links and marks of every other list stay |
| RilSystem.Library.OnRequestAck | ril/libril/ril.cpp:567-599 | an acknowledgement step on the list of the request's socket; every other list stays |
| RilSystem.Library.OnRequestComplete | ril/libril/ril.cpp:600-657 | a completion step on the list of the request's socket, every other list stays; exactly when the response asks for an acknowledgement the lock is grabbed and, with memory, a new callback is on the timer list 200 ms ahead |
| RilSystemRuns.RilProjection | ril/libril/ril.cpp:600-730 | loop and wake lock of a run of the whole library make a run of their own |
| RilSystemRuns.RequestProjection | ril/libril/ril.cpp:510-657 | each socket's requests in a run of the whole library make a run of their own |
| RilSystemRuns.RunGrabsIffAcked | ril/libril/ril.cpp:630-640 | a completion that makes a response grabs the wake lock if and only if an acknowledgement for its request arrived on its socket's list earlier in the run |
| RilSystemRuns.RunResponseHoldsLock | ril/libril/ril.cpp:632-640 | after such a response, if its timer was allocated, the lock is held, counted and covered by a live timer due 200 ms later |
| RilSystemRuns.RunResponseLockLasts | ril/libril/ril.cpp:632-730 | no timeout gives that lock up until strictly more than 200 ms later |
| RilEventLists.AddToList | ril/libril/ril_event.cpp:112-119 | the four pointer writes make a circular doubly linked list with the event before the given node |
| RilEventLists.RemoveFromList | ril/libril/ril_event.cpp:121-131 | the pointer writes close the circle without the event, whose own pointers become null |
| RilEventLists.EventList.constructor | ril/libril/ril_event.cpp:104-110 | a list of the sentinel alone |
| RilEventLists.EventList.FindSpot | ril/libril/ril_event.cpp:301-306 | the walk stops at the first timer that is not earlier, or at the sentinel |
| RilEventLists.InsertMatchesProtocol | ril/libril/ril_event.cpp:286-312 | linking a timer in where it fits is the insertion of the loop protocol |
| RilEventLists.Schedule | ril/libril/ril_event.cpp:301-307 | the list stays circular and sorted and holds one more timer where it fits |
| RilEventLists.AddTimer | ril/libril/ril_event.cpp:286-312 | schedules at now + tv as the protocol's insertion does, or does nothing without a time |
| RilEventLists.CalcNextTimeout | ril/libril/ril_event.cpp:215-238 | none exactly when the list is empty, else the microseconds left to the first event's deadline, or zero; as in the protocol |
| RilEventLists.ExpiredMatchesProtocol | ril/libril/ril_event.cpp:170-177 | the walk stops after exactly the timers the protocol expires |
| RilEventLists.RestMatchesProtocol | ril/libril/ril_event.cpp:170-177 | the timers left are those that the protocol leaves waiting |
| RilEventLists.MoveFirst | ril/libril/ril_event.cpp:173-176 | one timer moves from one circular list to the end of the other |
| RilEventLists.MoveExpired | ril/libril/ril_event.cpp:170-177 | the loop moves the expired prefix, in order |
| RilEventLists.ProcessTimeouts | ril/libril/ril_event.cpp:158-180 | both lists stay valid, the timer list sorted, and exactly the protocol's expired timers are appended to pending |
| RilEventLists.FirePending | ril/libril/ril_event.cpp:202-213 | every pending event fires once, oldest first, and the list is empty after |
| RilWatchTable.ReadyCount | ril/libril/ril_event.cpp:187-196 | ready events are as many as ready watched descriptors |
| RilWatchTable.ReadyAre | ril/libril/ril_event.cpp:187-196 | the ready events are those of exactly the entries whose descriptor is ready, in table order |
| RilWatchTable.CountMeansNoneLeft | ril/libril/ril_event.cpp:187-196 | after as many hits as select reported, no later entry is ready |
| RilWatchTable.ScanIsComplete | ril/libril/ril_event.cpp:187-196 | stopping early misses nothing |
| RilWatchTable.WatchTable.constructor | ril/libril/ril_event.cpp:241-249 | an empty table satisfies the invariant |
| RilWatchTable.WatchTable.EventSet | ril/libril/ril_event.cpp:252-262 | an event that is set up is known, unwatched and without an index |
| RilWatchTable.WatchTable.LargestFd | ril/libril/ril_event.cpp:143-152 | the rescan finds the largest watched descriptor, or 0 |
| RilWatchTable.WatchTable.RemoveWatch | ril/libril/ril_event.cpp:134-156 | exactly this entry and its descriptor go; the table invariant holds, the limit included, which is 1 once nothing is watched |
| RilWatchTable.WatchTable.Watch | ril/libril/ril_event.cpp:271-276 | the entry, its index, the descriptor set and the limit agree: a known event is entry i exactly when its index is i |
| RilWatchTable.WatchTable.EventAdd | ril/libril/ril_event.cpp:265-283 | the first free entry is used; a full table is left alone |
| RilWatchTable.WatchTable.EventDel | ril/libril/ril_event.cpp:315-329 | any event that was set up is unwatched afterwards; one that was not watched leaves the table alone |
| RilWatchTable.WatchTable.QueueReady | ril/libril/ril_event.cpp:189-195 | the event is queued, and stays watched exactly when persistent |
| RilWatchTable.WatchTable.ScanEntry | ril/libril/ril_event.cpp:187-196 | one turn of the scan queues the entry exactly when it is ready |
| RilWatchTable.WatchTable.ProcessReadReadies | ril/libril/ril_event.cpp:182-200 | every ready watched event is queued exactly once, in table order; only non-persistent ones are unwatched, and lose their index |
| RilIteration.Expire | ril/libril/ril_event.cpp:158-180 | timers expire as in the protocol and the watched events stay off both lists |
| RilIteration.FireReady | ril/libril/ril_event.cpp:379-382 | collecting and firing takes what was pending, then the ready events, and leaves the timer list alone |
| RilIteration.RunIteration | ril/libril/ril_event.cpp:377-382 | one iteration on lists and table fires the expired timers, then the ready events, and leaves exactly what the protocol's iteration leaves |
| Sha1Spec.ZeroCountIsLeast | fingerprint/hash.c:175-184 | the padding is the least that section 5.1.1 of FIPS 180-4 allows |
| Sha1Spec.PadLength | fingerprint/hash.c:175-195 | a padded message is a whole number of blocks |
| Sha1Example.AbcDigest | fingerprint/hash.c:54-205 | the definition gives the published digest of "abc" |
| Sha1.PackBytesIsPositional | fingerprint/hash.c:116-121 | shifting and or-ing bytes is the big-endian word |
| Sha1.OrFormsMatch | fingerprint/hash.c:131-157 | the code's or-forms are the Ch and Maj functions of section 4.1.1 |
| Sha1.TempSumIsTemporary | fingerprint/hash.c:132-133 | the sum, in the code's order and with its shift form, is T of section 6.1.2 |
| Sha1.FillSchedule | fingerprint/hash.c:116-123 | W is the message schedule of section 6.1.2 |
| Sha1.RunRounds | fingerprint/hash.c:125-166 | the four loops of twenty rounds are the eighty rounds of section 6.1.2 |
| Sha1.CompressBlock | fingerprint/hash.c:109-173 | one block updates the hash value as section 6.1.2 says |
| Sha1Stream.CountByteAdds8 | fingerprint/hash.c:93-100 | the two length words count 8 bits per byte; the flag goes up exactly at 2^64 bits |
| Sha1Stream.FeedByteHolds | fingerprint/hash.c:90-106 | a byte extends what the context holds: hash of whole blocks, the rest, index and length |
| Sha1Stream.FeedHolds | fingerprint/hash.c:82-107 | a message extends it, or corrupts the context exactly when 2^61 bytes are reached |
| Sha1Stream.ChunksDoNotMatter | fingerprint/hash.c:82-107 | feeding in any chunks gives the same context as feeding at once, from every context |
| Sha1Stream.LengthBytesAreBigEndian | fingerprint/hash.c:185-192 | the eight stored bytes are the 64-bit length, most significant byte first |
| Sha1Stream.PadMessageGivesSha1 | fingerprint/hash.c:175-195 | padding the held message leaves its SHA-1 in the digest |
| Sha1Stream.StreamComputesSha1 | fingerprint/hash.c:54-205 | reset, any chunks, result: the SHA-1 of FIPS 180-4 below 2^61 bytes, corrupted from there on |
| Sha1Stream.ResultIsFinal | fingerprint/hash.c:70-89 | asking again changes nothing; feeding after the result corrupts |
| Sha1Object.Sha1Context.Reset | fingerprint/hash.c:54-67 | the fields after a reset |
| Sha1Object.Sha1Context.ProcessMessageBlock | fingerprint/hash.c:109-173 | the digest is the compression of old digest and block; the index restarts |
| Sha1Object.Sha1Context.InputByte | fingerprint/hash.c:91-105 | one turn of the loop on the mutable context is the specified byte step |
| Sha1Object.Sha1Context.Input | fingerprint/hash.c:82-107 | the loop on the mutable context is the specified feeding |
| Sha1Object.Sha1Context.ZeroFill | fingerprint/hash.c:178-183 | exactly the positions up to the limit become zero |
| Sha1Object.Sha1Context.StoreLength | fingerprint/hash.c:185-192 | the last eight bytes are the length words, the others stay |
| Sha1Object.Sha1Context.PadMessage | fingerprint/hash.c:175-195 | both padding paths on the mutable context are the specified ones |
| Sha1Object.Sha1Context.Result | fingerprint/hash.c:70-79 | finishes once, and reports failure exactly when corrupted |
| Sha1Object.HashBytes | fingerprint/hash.c:197-205 | reset, input, result: 0 with the SHA-1 exactly below 2^61 bytes, else -1, whatever the shared context held before |
| Sha1Object.HashMessage | fingerprint/hash.c:197-205 | with the length converted to unsigned it never fails and leaves the SHA-1 of that many bytes |
| Sha1Object.HashNumberKeepsWords | fingerprint/hash.c:30-34 | both digest words can be read back from the number |
| CameraParameters.ValueForAfterPut | camera/CameraParameters.cpp:382-382 | a set key reads as its value, every other key as before |
| CameraParameters.ValueForAfterDelete | camera/CameraParameters.cpp:422-425 | a removed key reads as absent, every other key as before |
| CameraParameters.PutKeepsSorted | camera/CameraParameters.cpp:382-382 | entries stay sorted by key without repeats |
| CameraParameters.LessIffFirstDifference | camera/CameraParameters.cpp:310-313 | the key order: a proper prefix, or the smaller character at the first difference |
| CameraParameters.UnflattenIsWellFormed | camera/CameraParameters.cpp:325-355 | from any text: sorted, keys without '=', values without ';' |
| CameraParameters.PairsAreTheText | camera/CameraParameters.cpp:332-354 | every text is its pairs printed, and perhaps a ';' and a rest without '=' |
| CameraParameters.UnflattenHoldsLastPairs | camera/CameraParameters.cpp:325-355 | from any text, in any order and with repeats, exactly the last pair of each key is held |
| CameraParameters.UnflattenReads | camera/CameraParameters.cpp:325-355 | a key is held exactly when some pair has it, and reads as the value of the last such pair, or as absent |
| CameraParameters.PairsOfFlatten | camera/CameraParameters.cpp:305-355 | scanning printed entries finds exactly those entries, in order |
| CameraParameters.UnflattenFlatten | camera/CameraParameters.cpp:305-355 | unflatten inverts flatten on every map an object can hold |
| CameraParameters.NormalFormIsStable | camera/CameraParameters.cpp:305-355 | flatten after unflatten is idempotent on every string |
| CameraParameters.HistoryRoundTrips | camera/CameraParameters.cpp:305-425 | after any mix of unflatten, set and remove the map is well formed and survives the round trip |
| CameraParameters.Parameters.FlattenText | camera/CameraParameters.cpp:305-323 | the string-building loop prints the specified text |
| CameraParameters.Parameters.UnflattenText | camera/CameraParameters.cpp:325-355 | the cursor loop parses the specified map, which holds the last pair of each key and is well formed |
| CameraParameters.Parameters.Set | camera/CameraParameters.cpp:358-383 | a null argument, or '=' or ';' in one, changes nothing; otherwise the key reads as the value and every other key as before; well-formedness is kept |
| CameraParameters.ValueForFinds | camera/CameraParameters.cpp:399-405 | a non-empty value is found exactly when the sorted map holds that entry |
| CameraParameters.Parameters.Get | camera/CameraParameters.cpp:399-405 | returns a value exactly when the map holds it for the key and it is not empty |
| CameraParameters.PairsArePlainIff | camera/CameraParameters.cpp:325-371 | every pair found in a text is one that set would accept if and only if '=' and ';' alternate up to the last '=' |
| CameraParameters.UnflattenKeepsReserved | camera/CameraParameters.cpp:332-354 | a text that leaves ';' in a key and '=' in a value |
| CameraParameters.FlattenNext | camera/CameraParameters.cpp:310-320 | one turn of the printing loop, separator included |
| CameraParameters.Parameters.Remove | camera/CameraParameters.cpp:422-425 | exactly the entries of other keys stay; well-formedness is kept |
| CameraSizes.StrToLPrinted | camera/CameraParameters.cpp:407-441 | strtol reads back what "%d" printed and stops behind it |
| CameraSizes.StrToLReads | camera/CameraParameters.cpp:407-441 | on any text strtol skips white space, takes sign, base-0 prefix and digits, yields the saturated value and stops behind them |
| CameraSizes.StrToLReadsNothing | camera/CameraParameters.cpp:428-441 | without digits it yields 0 and moves nowhere |
| CameraSizes.SaturateMeans | camera/CameraParameters.cpp:412-433 | values out of range become the nearest bound |
| CameraSizes.ToIntMeans | camera/CameraParameters.cpp:433-441 | the cast to int keeps the low 32 bits |
| CameraSizes.ParsePairPrinted | camera/CameraParameters.cpp:427-451 | a printed pair parses to itself for every delimiter that is no digit, with the end right behind it |
| CameraSizes.ParsePrintedSizes | camera/CameraParameters.cpp:453-476 | a comma-joined list of sizes parses to exactly that list |
| CameraSizes.ParseSizesContinues | camera/CameraParameters.cpp:461-475 | behind a printed list and a comma the rest is parsed on its own |
| CameraSizes.MalformedKeepsEarlier | camera/CameraParameters.cpp:461-475 | a list with a bad later item gives exactly the sizes before it; nothing is given exactly when the first item is bad |
| CameraSizes.ParseSizesList | camera/CameraParameters.cpp:453-476 | the loop appends the specified sizes to the given list; a missing string adds none |
| CameraSizes.SizeRoundTrip | camera/CameraParameters.cpp:478-571 | setting then getting a size is the identity for all 32-bit numbers; other keys keep their values |
| CameraSizes.IntRoundTrip | camera/CameraParameters.cpp:385-413 | setting then getting a number is the identity for all 32-bit numbers |
| CameraSizes.MissingGivesMinusOne | camera/CameraParameters.cpp:407-492 | on every map: -1 by -1 without a non-empty text for the key or without 'x' right behind the first number, else the two numbers; and -1 from getInt without such a text |
| CameraFixups.ContainsIff | camera/CameraWrapper.cpp:123-123 | the substring test holds exactly when the part occurs somewhere |
| CameraFixups.FixGetValues | camera/CameraWrapper.cpp:102-146 | exactly four keys are rewritten, each as a function of the vendor's parameters alone |
| CameraFixups.GetFixupRules | camera/CameraWrapper.cpp:102-146 | for every settings string, what the framework reads for each key: format hidden, "off" offered when it occurs nowhere, snapshot and HDR modes advertised, all else as given |
| CameraFixups.GetFixupIsIdempotent | camera/CameraWrapper.cpp:102-146 | the read fixup is idempotent on every settings string |
| CameraFixups.FixSetValues | camera/CameraWrapper.cpp:148-206 | exactly six keys are rewritten, each as a function of parameters, camera and previous torch |
| CameraFixups.FixSetKeepsTorch | camera/CameraWrapper.cpp:148-206 | the fixup does not change whether torch is asked for |
| CameraFixups.MemoryIsPreviousTorch | camera/CameraWrapper.cpp:156-166 | the stored text says torch exactly when the previous set call since open asked for it |
| CameraFixups.PreviousSettingsIs | camera/CameraWrapper.cpp:199-206 | the previous settings are those of the camera's latest call if it is a set call, and none after a close |
| CameraFixups.SetCallZslRule | camera/CameraWrapper.cpp:148-206 | on every history ZSL is left alone exactly when this or the previous call asks for torch, and otherwise set by mode; stabilisation is disabled exactly in video mode without torch |
| CameraFixups.SetCallRules | camera/CameraWrapper.cpp:182-194 | on every history, what a set call makes of the other keys for the back camera, the front camera and video mode; all else is kept |
| CameraFixups.ModesAre | camera/CameraWrapper.cpp:168-171 | the flash and recording modes that the rules speak of |
| CameraFixups.PublicTorchForcesZsl | camera/CameraWrapper.cpp:156-180 | on every history a call with flash mode "torch" has ZSL forced by mode unless the previous call said "mode-torch" |
| CameraFixups.PublicTorchTurnsZslOn | camera/CameraWrapper.cpp:173-180 | a first call with "torch" and ZSL off that comes out with ZSL on |
| CameraFixups.Wrapper.FixupGetparams | camera/CameraWrapper.cpp:102-146 | the step-by-step rewriting gives the specified text |
| CameraFixups.Wrapper.FixupForSet | camera/CameraWrapper.cpp:168-194 | the step-by-step rewriting of the map is the specified one |
| CameraFixups.Wrapper.FixupSetparams | camera/CameraWrapper.cpp:148-206 | the fixed text is returned and remembered for this camera only |
| CameraFixups.Wrapper.Close | camera/CameraWrapper.cpp:613-616 | closing forgets this camera's text only |
| VenusBuffers.MediaAlignRoundsUp | include/media/msm_media_info.h:5 | for every power of two and every 32-bit size, the mask form is a multiple, not below and less than one step above; or 0 exactly when the addition in it overflows |
| VenusBuffers.RoundUpIsLeast | include/media/msm_media_info.h:5 | such a round-up is the least multiple that is not below |
| VenusBuffers.StridesRoundUp | include/media/msm_media_info.h:140-178 | for every width, taken as unsigned, both strides are the width aligned to 128 |
| VenusBuffers.ScanlinesRoundUp | include/media/msm_media_info.h:180-218 | for every height, taken as unsigned, the scanlines are the height aligned to 32, and half of it, rounded up, to 16 |
| VenusBuffers.ScanlinesRatio | include/media/msm_media_info.h:180-218 | luma has exactly twice the scanlines of chroma for every positive height |
| VenusBuffers.InvalidGivesZero | include/media/msm_media_info.h:140-282 | a zero dimension or an unknown format gives zero, and only the two-view format has a second view |
| VenusBuffers.BufferSizeAlignsTotal | include/media/msm_media_info.h:220-256 | however often its parts wrap, the buffer size is the aligned form of the unreduced total |
| VenusBuffers.BufferSizeIsExact | include/media/msm_media_info.h:220-256 | the size is the exact total rounded up to a page if and only if that fits in 32 bits |
| VenusBuffers.BufferExceedsDocumented | include/media/msm_media_info.h:134-256 | where it fits, the size is the documented aligned total plus exactly 8 KiB, or 12 KiB for two views |
| VenusBuffers.ViewsFit | include/media/msm_media_info.h:220-282 | the views end inside the buffer if and only if the aligned total fits in 32 bits; the second then starts where the first ends |
| VenusBuffers.DimensionsFit | include/media/msm_media_info.h:220-256 | up to 16384 by 16384 it fits, and the luma plane holds the picture |

## Left out

- VenusBuffers.ScanlinesRatio: at the height 2^31 - 1 `height + 1` overflows a signed int; the model takes it without overflow.
- RilIteration.RunIteration: callbacks do nothing to the lists here; in the protocol other threads and callbacks add timers between the steps.
- RilWatchTable.WatchTable.Watch: the eight-entry table is a sequence field that is reassigned, not an array written in place.
- RilLoop.RunNeverOversleeps: the slack between picking the delay and entering select is part of the statement, because select starts counting only when it is entered.
- RilWakeLock.WakeOkStep: whole runs are for library version 13 and later; below that only the single operations are modelled, and not the timer that RIL_onUnsolicitedResponse schedules.
- Fine-grained races: the unlocked read of the timer head in calcNextTimeout and the unsynchronised end of userTimerCallback are single steps here.
- Watch-set changes while select is blocked: the loop protocol lets select report any watched events.
- Freeing of memory (`free` of events, requests and stored strings) is not modelled.
- lazy_init_modules, dlopen and the configuration file of multihal.cpp: input and foreign calls.
- batch, flush and inject_sensor_data of multihal.cpp: forwarding by the same routing as activate.
- sensors/Sensors.cpp: conversions between two event formats; only its single poll caller is used.
- hash_file and hash_string of fingerprint/hash.c: file input around the modelled hash.
- Float setters and the remaining key helpers of CameraParameters.cpp: floating-point text and thin forwarding.
- The vendor forwarding functions of CameraWrapper.cpp.
- gnss: null checks and forwarding to a HAL that is not visible.
- fingerprint_tz.c, fingerprint.c, QSEEComAPI.c: secure-world commands whose behaviour is not visible.
- sap_service.cpp and RilSapSocket.cpp dispatch, the command tables and to-string functions of the RIL: encoding over libraries that are not visible, and tables.
- libsecnativefeature, init, power, recovery, makefiles and configuration: no algorithm in them.
