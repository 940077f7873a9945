# Verified model of the CPU monitor's sequential core

The program is a multithreaded CPU monitor. A reader thread takes snapshots of
the kernel's per-CPU time counters. An analyzer thread turns two consecutive
snapshots into per-core usage. A printer thread shows the result. The threads
are connected by bounded queues. A watchdog thread stops every stage when one
of them stops reporting.

This project models the three sequential components under the threads:

- `queue.dfy` (module `Queue`): the bounded ring-buffer queue. `RingQueue` is
  the C struct over an `array`, with a ghost `Contents` sequence (oldest item
  first). Its methods are proved to keep the occupancy and index invariant and
  to append on insert and take the first item on extract. The functions `Next`
  and `Run` give the same behaviour on plain sequences. The lemmas on them
  prove FIFO order for any run of operations.
- `watchdog.dfy` (module `Watchdog`): the liveness watchdog. `Dog` is its state
  as a value, with one function per operation (`Register`, `Heartbeat`,
  `Poll`, ...). `Monitor` is the C struct over an `array` of watches. Each of
  its methods is proved to do what the matching function does. Stop actions
  and their context objects are opaque type parameters. A poll returns the
  calls it would make as a list of `Invocation(index, action, object)` records
  instead of calling foreign code.
- `analyzer.dfy` (module `Analyzer`): the analyzer's arithmetic and its
  per-snapshot step. Counters are unsigned 64-bit values (`U64`). Every
  addition and subtraction wraps modulo 2^64, as `unsigned long long` does in
  C. The step is a method over the loop's state (latched core count and
  baseline). It returns what would be pushed to the printer queue: one
  `Usage(busy, total)` per core, where the percentage is `busy / total`.
- `wrappers.dfy` (module `Wrappers`): `Option`, standing for a C pointer that
  may be NULL.

Two source files are earlier revisions of the same components: `Queue.c` of
`src/Queue.c`, and `Watchdog.c` of `src/Watchdog.c`. Their logic is the same
line for line. The differences are `perror` instead of the logger, no NULL
checks in the wait and notify functions, and `watchdog_stop_watching` as the
name of `watchdog_pause_watching`. One model covers both revisions. The table
"Earlier revision" below maps each member to its lines there.

Where the code and the design description disagree, the model follows the code:

- Registering a watch has no capacity check in the code (`src/Watchdog.c:108-109`).
  `Monitor.RegisterWatch` therefore requires a free slot. A failure path would
  be invented.
- The poll scans and stops all `watches` slots, not just the registered ones
  (`src/Watchdog.c:192`, `:204`). A fault with an unregistered slot would call
  an uninitialised function pointer. `Monitor.PollOnce` requires every slot to
  be registered whenever watching is enabled. The program does this: it
  registers all three stages (`src/main.c:48-51`) before it enables watching
  (`src/main.c:67`).
- Insert on a full queue and extract on an empty queue do not block or fail
  loudly. They log, and return without changing anything (or return NULL).
- The per-core differences are wrapped modulo 2^64, and so is the busy part
  `total_diff - idle_diff`.

## Model

| member | source | states |
|---|---|---|
| `Queue.RingQueue.Init` | src/Queue.c:32-40 | a new queue has the given capacity, size = head = tail = 0, empty contents, and satisfies the ring invariant |
| `Queue.RingQueue.Create` | src/Queue.c:19-43 | no queue (NULL) exactly when the capacity is 0; otherwise a fresh empty queue with head = tail = 0 |
| `Queue.RingQueue.IsEmpty` | src/Queue.c:58-66 | true iff the queue holds no items |
| `Queue.RingQueue.IsFull` | src/Queue.c:68-76 | true iff the number of items equals the capacity |
| `Queue.RingQueue.Insert` | src/Queue.c:78-94 | on a full queue nothing changes; otherwise the item is written at the old head, head advances modulo capacity, size grows by one, tail and every other slot are unchanged, and the contents gain the item at the end |
| `Queue.RingQueue.Extract` | src/Queue.c:96-114 | on an empty queue the result is None (NULL) and nothing changes; otherwise it is the item at the old tail, which is the oldest item, tail advances modulo capacity, size drops by one, and the contents lose their first item |
| `Queue.RingQueue.HeadFollowsTail` | src/Queue.c:91-93 | in every valid state head == (tail + size) mod capacity |
| `Queue.Next` | src/Queue.c:85-113 | one insert returns nothing and appends the item exactly when the queue is not full; one extract returns a value exactly when the queue is non-empty, and that value followed by the new contents is the old contents; a full insert or an empty extract leaves the contents unchanged, and no step takes the queue past its capacity |
| `Queue.RunIsFifo` | src/Queue.c:85-113 | over any run of inserts and extracts, the items extracted followed by those still queued equal the initial items followed by every accepted item: nothing lost, duplicated or reordered |
| `Queue.NeverOverfilledAcceptsAll` | src/Queue.c:85-89 | an insert is dropped only when the queue is full: a run that never inserts into a full queue accepts every offered item |
| `Queue.RunBounded` | src/Queue.c:85-93 | starting within capacity, no run of operations makes the queue hold more than its capacity |
| `Queue.CapacityFiveScenario` | test/QueueTest.c:5-50 | a new capacity-5 queue is empty and not full and extracts NULL; after each of the first four inserts it is neither empty nor full, after the fifth it is full; a sixth insert is dropped; it returns the five items in insertion order, then NULL, and ends empty and not full |
| `Watchdog.Created` | src/Watchdog.c:31-52 | no watchdog exactly for 0 watches; otherwise the given slots, nothing registered, and watching and should_stop false |
| `Watchdog.Register` | src/Watchdog.c:106-113 | returns the old registered count, increments it, stores the watch with status true at that index, keeps the slot count, and leaves every other slot and both flags unchanged |
| `Watchdog.Heartbeat` | src/Watchdog.c:127-135 | afterwards each slot's status is its old status or whether it is the named index, so an index beyond the capacity changes nothing; actions, objects, the count and both flags are unchanged |
| `Watchdog.Poll` | src/Watchdog.c:190-207 | keeps the slot count, the registered count and the watching flag; should_stop becomes its old value or whether a fault was found; invocations happen only on a fault, and then one per slot |
| `Watchdog.Cleared` | src/Watchdog.c:192-197 | the scan keeps every watch's action and object and sets its status to false |
| `Watchdog.StopCalls` | src/Watchdog.c:204-206 | the stop calls are one per slot from the given index on, in index order, each with that slot's action and object |
| `Watchdog.Monitor.Init` | src/Watchdog.c:46-52 | a new watchdog has the given capacity, no registrations, and watching and should_stop false |
| `Watchdog.Monitor.Create` | src/Watchdog.c:31-63 | no watchdog (NULL) exactly when the capacity is 0; otherwise a fresh one in the initial state |
| `Watchdog.Monitor.RegisterWatch` | src/Watchdog.c:97-118 | returns the old registered count, increments it, stores the watch with status true and the given action and object, and leaves other slots and both flags unchanged |
| `Watchdog.Monitor.Update` | src/Watchdog.c:120-136 | an index at or beyond the capacity changes nothing; otherwise only that slot's status becomes true |
| `Watchdog.Monitor.StartWatching` | src/Watchdog.c:138-152 | watching becomes true and nothing else changes |
| `Watchdog.Monitor.PauseWatching` | src/Watchdog.c:154-168 | watching becomes false and nothing else changes |
| `Watchdog.Monitor.RequestStop` | src/Watchdog.c:81-95 | should_stop becomes true and nothing else changes |
| `Watchdog.Monitor.PollOnce` | src/Watchdog.c:188-211 | one monitor iteration: every status is cleared, should_stop becomes true iff it was set or a fault was found, the stop actions are called for all slots in index order exactly on a fault, and the count and watching flag are unchanged |
| `Watchdog.PollClearsAndDetects` | src/Watchdog.c:190-198 | after a poll every status is false, and stop actions are invoked iff watching is on and some status was false |
| `Watchdog.FaultStopsEveryWatch` | src/Watchdog.c:200-207 | on a fault should_stop becomes true and each slot's stop action is invoked exactly once, in index order, with its registered object |
| `Watchdog.QuietPollStopsNothing` | src/Watchdog.c:208-210 | without a fault no stop action is invoked and should_stop and watching keep their values |
| `Watchdog.StopIsSticky` | src/Watchdog.c:200-203 | should_stop is only ever set: once true, it stays true through any run of heartbeats, start, pause, stop requests and polls |
| `Watchdog.RunKeepsShape` | src/Watchdog.c:120-168 | no run of operations after registration changes the capacity, the registered count, or any slot's action and object |
| `Watchdog.BeatsMark` | src/Watchdog.c:127-135 | a burst of heartbeats invokes nothing, leaves both flags alone, leaves every named slot and every already-live slot with status true, and leaves every slot it does not name exactly as it was |
| `Watchdog.StoppedCallsNothing` | src/Watchdog.c:188 | once should_stop is set the monitor loop has ended: no run of operations invokes any stop action |
| `Watchdog.StopsAtMostOnce` | src/Watchdog.c:188-211 | every stop action is called at most once over the watchdog's life: any run calls nothing, or starts with should_stop false, calls each slot's stop action exactly once in index order, and ends with should_stop set |
| `Watchdog.MissedBeatStopsAll` | src/Watchdog.c:190-207 | after a poll with watching on that found no fault and left should_stop false, a cycle of heartbeats that misses some watch followed by the next poll calls every stop action once, in index order, with its registered object, and sets should_stop |
| `Watchdog.HeartbeatsPreventStops` | test/WatchdogTest.c:34-59 | if every watch heartbeats in every poll cycle, no stop action ever fires and should_stop keeps its value, whatever the watching flag |
| `Watchdog.RegisterConsecutive` | src/Watchdog.c:106-113 | successive registrations return consecutive indices from the current count, each slot holding its own action and object with status true, others untouched |
| `Watchdog.TwoWatchScenario` | test/WatchdogTest.c:30-77 | two registered watches that heartbeat every cycle pass every poll; once both stop, the next poll calls both stop actions, in order, with their own objects, and sets should_stop |
| `Analyzer.AnalyzeLine` | Analyzer.c:162-188 | a NULL line gives zero times; otherwise total = user + nice + system + irq + softirq + idle + iowait + steal mod 2^64 and idle = idle + iowait mod 2^64 |
| `Analyzer.GuestTimeCancels` | Analyzer.c:181-186 | subtracting the guest times from user and nice and adding them back in the wrapped sum leaves the sum of the other eight counters mod 2^64, whatever wraps on the way |
| `Analyzer.AnalyzeCpuCount` | Analyzer.c:141-160 | NULL gives 0; otherwise the result is the number of positions i, 2 <= i < length, where "cpu" ends, so 0 for strings shorter than 3 |
| `Analyzer.CpuMatchesArePositions` | Analyzer.c:151-156 | the running count of the scan equals the size of the set of positions where "cpu" ends |
| `Analyzer.UsageOf` | Analyzer.c:241-248 | the total difference is the exact difference mod 2^64, the busy part is the exact total-minus-idle difference mod 2^64 despite the two wraps, and the total difference is 0 iff the total time did not change |
| `Analyzer.Interval` | Analyzer.c:238-252 | a result exists iff every core's total time changed, and then it has one usage per core, in core order |
| `Analyzer.StepSpec` | Analyzer.c:216-271 | a result is forwarded only after a baseline with one entry per latched core, and it is the interval between the new samples and that baseline, one usage per core |
| `Analyzer.Step` | Analyzer.c:212-271 | one iteration of the analyzer loop computes exactly `StepSpec`: the latched count, the new baseline and the forwarded result |
| `Analyzer.StepLatchesCount` | Analyzer.c:216-218 | the core count is recounted from the snapshot only while it is 0 and is kept once nonzero |
| `Analyzer.FirstSnapshotIsBaseline` | Analyzer.c:233-236 | without a baseline nothing is forwarded and the snapshot's samples become the baseline |
| `Analyzer.AllOrNothing` | Analyzer.c:238-252 | after a baseline, a result is forwarded iff no core's wrapped total-time difference is 0, and then it has one usage per core in core order |
| `Analyzer.BaselineAlwaysReplaced` | Analyzer.c:270-271 | after every snapshot, forwarded or not, the baseline is the snapshot's samples, one per core |
| `Analyzer.MismatchedBaselineRebased` | Analyzer.c:216-236 | a baseline whose length is not the latched core count forwards nothing and is replaced by the new samples |
| `Analyzer.StepKeepsConsistent` | Analyzer.c:220-230 | the baseline always has one entry per core, and a forwarded result has exactly cpu_count entries |
| `Analyzer.UsageWithoutWrap` | Analyzer.c:241-248 | when neither counter wrapped and idle advanced no more than total, busy is the plain difference and never exceeds total, so the ratio lies in [0, 1] |
| `Analyzer.HalfBusyExample` | Analyzer.c:241-249 | total 1000 to 1100 with idle 900 to 950 gives 50 busy out of 100 |
| `Analyzer.RunKeepsCount` | Analyzer.c:194-272 | over any run of snapshots a nonzero core count never changes, and every forwarded result has that many entries |
| `Analyzer.RunLength` | Analyzer.c:252-268 | a run forwards at most one result per snapshot |
| `Analyzer.FirstSnapshotForwardsNothing` | Analyzer.c:233-236 | from the initial state a run of k snapshots forwards at most k - 1 results |
| `Analyzer.EmptyBaselineOverrun` | Analyzer.c:216-242 | a first snapshot with no "cpu" leaves an empty baseline; a second with one complete cpu line latches cpu_count 1, so the delta loop would read past the baseline |

## Earlier revision

The same members model the earlier copies; their lines there:

| member | earlier revision |
|---|---|
| `Queue.RingQueue.Create`, `Queue.RingQueue.Init` | Queue.c:22-45 |
| `Queue.RingQueue.IsEmpty`, `Queue.RingQueue.IsFull` | Queue.c:59-75 |
| `Queue.RingQueue.Insert`, `Queue.NeverOverfilledAcceptsAll` | Queue.c:77-91 |
| `Queue.RingQueue.Extract` | Queue.c:93-109 |
| `Queue.RingQueue.HeadFollowsTail`, `Queue.Next`, `Queue.RunIsFifo`, `Queue.RunBounded` | Queue.c:88-106 |
| `Watchdog.Monitor.RequestStop` | Watchdog.c:31-40 |
| `Watchdog.Monitor.PollOnce`, `Watchdog.Poll`, `Watchdog.StoppedCallsNothing`, `Watchdog.StopsAtMostOnce`, `Watchdog.MissedBeatStopsAll`, `Watchdog.PollClearsAndDetects`, `Watchdog.FaultStopsEveryWatch`, `Watchdog.QuietPollStopsNothing` | Watchdog.c:55-81 |
| `Watchdog.Monitor.Create`, `Watchdog.Monitor.Init`, `Watchdog.Created` | Watchdog.c:83-111 |
| `Watchdog.Monitor.RegisterWatch`, `Watchdog.Register`, `Watchdog.RegisterConsecutive` | Watchdog.c:113-129 |
| `Watchdog.Monitor.Update`, `Watchdog.Heartbeat`, `Watchdog.BeatsMark` | Watchdog.c:131-145 |
| `Watchdog.Monitor.StartWatching` | Watchdog.c:147-156 |
| `Watchdog.Monitor.PauseWatching` (`watchdog_stop_watching`) | Watchdog.c:158-167 |

## Left out

- Mutexes, condition variables, `queue_lock`/`queue_unlock`, the wait, timed-wait and notify functions of both queue revisions: they only coordinate threads, and each operation is modelled as running under the lock.
- The thread loops (`watchdog_thread`'s `while (!should_stop)` with its 2-second `nanosleep`, `analyzer_thread`'s outer loop and its queue waits), `pthread_create`/`pthread_join` and the stages' stop flags: concurrency. One iteration of each loop is modelled (`Monitor.PollOnce`, `Analyzer.Step`), and sequences of iterations are modelled on values (`RunEvents`, `RunSnapshots`). In `RunEvents` a `Tick` is one turn of the monitor loop and does nothing once should_stop is set, as the loop condition at `src/Watchdog.c:188` ends the loop.
- The race in `watchdog_thread` between its should_stop check (`src/Watchdog.c:188`) and taking the lock (`:191`): a stop request that lands in between still lets that one iteration poll, and possibly call the stop actions, after should_stop was set. The model's `Tick` reads should_stop and polls atomically, so it does not capture that interleaving.
- `queue_destroy` and `watchdog_await_and_destroy`: they only release memory and join a thread.
- The NULL-receiver checks at the top of every queue and watchdog function: a Dafny receiver is never null.
- A failing `malloc` or `pthread_create` in the constructors and in `analyzer_thread`: allocation is modelled as always succeeding, including `malloc(0)` for a core count of 0, as glibc does.
- Logging (the logger and `perror`) never affects control flow and is left out.
- `Queue.RingQueue.Extract`: returns `Option`, so an item that is itself NULL stays distinguishable from the empty-queue result, which the C interface cannot do.
- Line splitting with `strtok` and the `sscanf` that reads the ten counters: library calls. The step takes the parsed counters of the snapshot's lines. A core beyond the last line gets a NULL token, as with `strtok`.
- `analyze_cpu_count`'s `strlen`: the input string is the characters before the terminating NUL.
- The `long double` percentage `(total_diff - idle_diff) / total_diff`: floating point. The model forwards the wrapped numerator and the denominator.
- `size_t` counts and indices are unbounded naturals: the program's counts are tiny and never wrap.
- The stop actions themselves (`*_request_stop_synchronized_void`): foreign code to the watchdog. The model returns the calls instead of making them.
- Reader, Printer, Logger, LongDoubleArray and main are not part of this model, apart from the startup ordering cited above.

## Findings

| source | as written | input that shows it | evidently intended | confidence | as-written member | corrected member |
|---|---|---|---|---|---|---|
| Analyzer.c:216-241 | The core count is latched only once it is nonzero, but a baseline is stored even when it is 0. A first snapshot with no "cpu" stores a 0-entry baseline. The next snapshot with cpu lines latches a positive count, and the delta loop reads `previous_cpu_data[i]` past that empty allocation. | first snapshot "intr 0", second snapshot "cpu0 1 2 3 4 5 6 7 8 9 10" (one line with all ten counters) | a baseline with a different core count is not compared against; the snapshot replaces it and nothing is forwarded for that interval | not executed; medium (the kernel's counter file always has cpu lines) | `Analyzer.EmptyBaselineOverrun` (on `Analyzer.Interval`, the delta loop needing a baseline as long as the core count) | `Analyzer.StepSpec` and `Analyzer.Step` (which skip the delta loop for such a baseline; `Analyzer.MismatchedBaselineRebased` and `Analyzer.StepKeepsConsistent` prove it) |
