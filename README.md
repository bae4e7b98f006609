# APool core in Dafny

A model of the in-memory bookkeeping of APool, an asynchronous object pool
for Java. The model covers six parts:

- **`AsyncPoolImpl`** (`async_pool.dfy`, module `AsyncPools`) is the pool's
  state machine. It holds the lifecycle state, `poolSize`, `checkedOut`, the
  idle store, the waiter queue and the statistics counters. Its operations
  are start, get (with its Cancellable), put, dispose, shutdown, the creation
  and destruction callbacks, and the idle-timeout reaper.
- **`SimpleCreateLatch`** (`create_latch.dfy`, module `CreateLatches`) is the
  creation limiter. It caps the number of running creation tasks and spaces
  queued ones by a period.
- **`NoopCreateLatch`** (`noop_create_latch.dfy`, module `NoopCreateLatches`)
  is the limiter without a limit.
- **`LinkedDeque`** (`linked_deque.dfy`, module `LinkedDeques`) is the waiter
  queue. It hands out a node handle for every element, so that an element can
  later be removed from any position.
- **`MultiCallback`, `Callbacks.countDown`, `Callbacks.empty` and
  `NullCallback`** (`callbacks.dfy`, module `Callbacks`) form an N-of-N
  completion counter that reports one outcome downstream.
- **`FutureCallback`** (`future_callback.dfy`, module `Futures`) is a
  single-assignment result cell that is also a Future.

`errors.dfy` (module `Errors`) holds the shared `Option`, `Result`, pool
`State` and exception tags.

How the Java program is represented:

- Every region the Java code runs under the pool's lock, or under the
  latch's monitor, is one step of a method. A Java method that takes the lock
  several times is one Dafny method whose steps run back to back.
- Calls the pool makes outside its lock are returned, in order, as a list of
  `Effect`s. These are LifeCycle `destroy`, create-latch `submit`,
  `setPeriod(0)` and `incrementPeriod`, the creation task's done report to
  the latch (`TaskDone`), waiter and shutdown callbacks, and cancelling the
  reaper.
- What outside code answers comes back as parameters:
  - `validateGet`, the LifeCycle's answer to get-time validation;
  - `valid`, its answer to `validatePut`;
  - `now`, the value of `System.currentTimeMillis`;
  - `cancelled` and `remaining`, the scheduled future's answers to
    `task.cancel(false)` and `task.getDelay`.
- A LifeCycle create or destroy answer is delivered by calling
  `CreateSucceeded`, `CreateFailed` or `DestroyCompleted`.
- A callback is identified by a number.
- A `LinkedDeque` node is identified by a handle the deque never reuses.

- The pool's accounting is tracked by ghost counters: objects a thread holds
  between two locked regions (`inHand`), creations in flight (`creating`),
  destroys in flight (`destroying`) and slots lost to failed creations
  (`lostSlots`). The pool invariant states that the idle objects, the
  checked-out ones and these counters add up to `poolSize`.

Where the code does something other than its own documentation says, the
model follows the code:

- `AsyncPool.get` promises that object creation is initiated "if the pool is
  not yet at max capacity" (src/main/java/com/xqbase/apool/AsyncPool.java:34-35).
  `shouldCreate()` refuses only when `poolSize > maxSize`, so the pool can
  reach `maxSize + 1` objects. (`ShouldCreate`, `Ceiling`)
- `CreateLatch.incrementPeriod` is documented as "Increment the period"
  (src/main/java/com/xqbase/apool/CreateLatch.java:31).
  `SimpleCreateLatch.incrementPeriod()` has an empty body, so bad destroys do
  not back the latch off. (`CreateLatches.SimpleCreateLatch.IncrementPeriod`)
- `AsyncPool.get` promises that an available object "will be passed to the
  callback" (src/main/java/com/xqbase/apool/AsyncPool.java:29-30).
  `TimeTrackingCallback`, the wrapper get() puts around the caller's
  callback, has empty `onSuccess` and `onError`, so the objects and errors
  handed to a waiter never reach the caller. The model records the calls
  made on the wrapper (`WaiterSuccess`, `WaiterError`).
- Shutdown completion is checked only inside `shutdown()`. A pool that becomes
  quiescent later stays `ShuttingDown`. (`CheckShutdownComplete` is called
  only from `Shutdown`.)
- A failed creation is never reconciled; see "## Findings".

## Model

| member | source | states |
|---|---|---|
| AsyncPools.AsyncPoolImpl.constructor | src/main/java/com/xqbase/apool/impl/AsyncPoolImpl.java:45-60 | a new pool is NotYetStarted, empty, with every counter at zero and nothing in flight, and satisfies the pool invariant, including the accounting identity idle + checked out + held + creating + destroying + lost == poolSize |
| AsyncPools.AsyncPoolImpl.ShouldCreate | src/main/java/com/xqbase/apool/impl/AsyncPoolImpl.java:268-282 | a slot is claimed (poolSize + 1, one more creation in flight) exactly when the pool runs, is not above maxSize and has a waiter or is below minSize; poolSize never passes maxSize + 1 |
| AsyncPools.StartCreations | src/main/java/com/xqbase/apool/impl/AsyncPoolImpl.java:104-108 | the number of creations start() requests is min(minSize, maxSize + 1), clipped at zero |
| AsyncPools.AsyncPoolImpl.Start | src/main/java/com/xqbase/apool/impl/AsyncPoolImpl.java:86-109 | outside NotYetStarted: IllegalStateException naming the state, nothing changes; otherwise Running, the reaper scheduled iff idleTimeout > 0, and StartCreations creations submitted, poolSize and the creations in flight both equal to their number |
| AsyncPools.BadRun | src/main/java/com/xqbase/apool/impl/AsyncPoolImpl.java:117-156 | the number of idle objects get() rejects before the first valid one: every object it counts is invalid |
| AsyncPools.BadRunStopsAtValid | src/main/java/com/xqbase/apool/impl/AsyncPoolImpl.java:146-156 | get() stops at a valid object whenever the idle store is not used up |
| AsyncPools.RemainingAt | src/main/java/com/xqbase/apool/impl/AsyncPoolImpl.java:123-127 | polling what earlier polls left continues the same LRU (head) or MRU (tail) order |
| AsyncPools.BadDestroysStep | src/main/java/com/xqbase/apool/impl/AsyncPoolImpl.java:317-323 | each rejected object adds exactly incrementPeriod and destroy(obj, true), in poll order |
| AsyncPools.PollValid | src/main/java/com/xqbase/apool/impl/AsyncPoolImpl.java:117-156 | the polling loop rejects exactly BadRun objects, destroying each as bad, and returns the next object in poll order, or none when the idle store runs out |
| AsyncPools.AsyncPoolImpl.PollIdle | src/main/java/com/xqbase/apool/impl/AsyncPoolImpl.java:120-156 | polled objects leave the idle store from the head (LRU) or tail (MRU); rejected ones are counted in totalBadDestroyed and are being destroyed; the valid one is held for the caller; the invariant holds |
| AsyncPools.AsyncPoolImpl.TakeFromIdle | src/main/java/com/xqbase/apool/impl/AsyncPoolImpl.java:120-127 | the locked polling region leaves the rest in the idle store and keeps the accounting identity: rejected objects are being destroyed, the valid one is held |
| AsyncPools.AsyncPoolImpl.CheckOut | src/main/java/com/xqbase/apool/impl/AsyncPoolImpl.java:147-150 | the held valid object becomes checked out |
| AsyncPools.AsyncPoolImpl.WaitOrReject | src/main/java/com/xqbase/apool/impl/AsyncPoolImpl.java:129-137 | with no idle object, the waiter is queued at the tail under a fresh handle and a creation is in flight exactly when poolSize was not above maxSize; with maxWaiters waiting it is rejected with SizeLimitExceeded and nothing changes |
| AsyncPools.AsyncPoolImpl.Get | src/main/java/com/xqbase/apool/impl/AsyncPoolImpl.java:112-171 | not running: the waiter gets IllegalStateException and nothing changes; otherwise the first valid idle object is checked out, or the waiter is queued at the tail under a fresh handle (with a creation when shouldCreate agrees), or, with maxWaiters waiting, rejected with SizeLimitExceeded; every rejected idle object is being destroyed and none is left held |
| AsyncPools.AsyncPoolImpl.Cancel | src/main/java/com/xqbase/apool/impl/AsyncPoolImpl.java:165-170 | cancel is true exactly when the waiter's node is still queued, and then removes only that node; a rejected get's Cancellable cancels nothing |
| AsyncPools.AsyncPoolImpl.Put | src/main/java/com/xqbase/apool/impl/AsyncPoolImpl.java:174-184 | for a checked-out object: checkedOut drops by one; a rejected object is destroyed as bad; an accepted one resets the latch period and goes to the oldest waiter or the idle tail; none is left held |
| AsyncPools.AsyncPoolImpl.Dispose | src/main/java/com/xqbase/apool/impl/AsyncPoolImpl.java:187-192 | for a checked-out object: checkedOut drops by one and the object is destroyed as bad |
| AsyncPools.AsyncPoolImpl.Add | src/main/java/com/xqbase/apool/impl/AsyncPoolImpl.java:381-397 | the held object goes to the oldest waiter and counts as checked out; with no waiter it is parked at the idle tail with its time; the waiter queue is empty whenever the idle store is not |
| AsyncPools.AsyncPoolImpl.CreateSucceeded | src/main/java/com/xqbase/apool/impl/AsyncPoolImpl.java:299-305 | a creation in flight ends: totalCreated grows by one, the object is placed as add() places it, and the latch task reports done |
| AsyncPools.AsyncPoolImpl.CreateFailed | src/main/java/com/xqbase/apool/impl/AsyncPoolImpl.java:294-296 | as written: a creation in flight ends, nothing is counted or called, poolSize keeps the claimed slot, which becomes a lost slot |
| AsyncPools.AsyncPoolImpl.LostSlotBlocksShutdown | src/main/java/com/xqbase/apool/impl/AsyncPoolImpl.java:240 | once a slot is lost, the idle objects are always fewer than poolSize, so the shutdown guard never holds again |
| AsyncPools.FailedCreationStallsShutdown | src/main/java/com/xqbase/apool/impl/AsyncPoolImpl.java:294-296 | a pool with minSize 1 whose one creation fails is left ShuttingDown by shutdown() with a lost slot |
| AsyncPools.AsyncPoolImpl.CreateFailedReconciled | src/main/java/com/xqbase/apool/impl/AsyncPoolImpl.java:294-296 | corrected: a creation in flight ends, totalCreateErrors grows by one, the slot is given back (poolSize - 1, with a replacement when shouldCreate agrees), no slot is lost, and the latch task reports done |
| AsyncPools.ReconciledFailureLetsShutdownFinish | src/main/java/com/xqbase/apool/impl/AsyncPoolImpl.java:195-248 | corrected: a pool whose only creation fails before shutdown, with no waiter left, gives the slot back, and shutdown() stops it with the error counted and no slot lost |
| AsyncPools.AsyncPoolImpl.DestroyBegin | src/main/java/com/xqbase/apool/impl/AsyncPoolImpl.java:317-325 | a bad destroy backs the latch off and is counted before the LifeCycle is asked to destroy; the held object is then being destroyed |
| AsyncPools.AsyncPoolImpl.DestroyCompleted | src/main/java/com/xqbase/apool/impl/AsyncPoolImpl.java:325-348 | a destroy in flight ends: its success or error is counted, the pool shrinks by one and a replacement is submitted exactly when shouldCreate agrees |
| AsyncPools.AsyncPoolImpl.ObjectDestroyed | src/main/java/com/xqbase/apool/impl/AsyncPoolImpl.java:361-373 | poolSize drops by num, never below zero, and the floor is never reached when num destroys were in flight; then shouldCreate decides on a replacement |
| AsyncPools.AsyncPoolImpl.Shutdown | src/main/java/com/xqbase/apool/impl/AsyncPoolImpl.java:195-220 | only a running pool starts shutting down; a quiescent one stops at once, with nothing checked out, held, being created or destroyed, and completes the callback; another stores it, and always does after a lost creation; any other state fails the callback with IllegalStateException |
| AsyncPools.AsyncPoolImpl.CheckShutdownComplete | src/main/java/com/xqbase/apool/impl/AsyncPoolImpl.java:227-248 | a shutting-down pool with no waiters and every object idle stops and hands out its stored callback once, and at that moment nothing is checked out, held, being created or destroyed, or lost; otherwise nothing changes, and nothing ever changes once a creation slot is lost |
| AsyncPools.AsyncPoolImpl.FinishShutdown | src/main/java/com/xqbase/apool/impl/AsyncPoolImpl.java:250-256 | the reaper is cancelled if scheduled and the callback succeeds |
| AsyncPools.ReapCount | src/main/java/com/xqbase/apool/impl/AsyncPoolImpl.java:421-427 | reap() takes at most poolSize - minSize head entries, all idle since before now - idleTimeout |
| AsyncPools.ReapStopsForAReason | src/main/java/com/xqbase/apool/impl/AsyncPoolImpl.java:423 | reap() stops only when the store is used up, the surplus over minSize is used up, or the head is not old enough |
| AsyncPools.TakeExpired | src/main/java/com/xqbase/apool/impl/AsyncPoolImpl.java:422-426 | the loop takes exactly ReapCount entries from the head and collects their objects in order |
| AsyncPools.Objects | src/main/java/com/xqbase/apool/impl/AsyncPoolImpl.java:424 | the reaped objects are those of the reaped entries, in order |
| AsyncPools.AsyncPoolImpl.Reap | src/main/java/com/xqbase/apool/impl/AsyncPoolImpl.java:416-430 | the reaped prefix leaves the idle store and is held for destruction, and each reaped entry counts as a timeout |
| AsyncPools.AsyncPoolImpl.TimeoutObjects | src/main/java/com/xqbase/apool/impl/AsyncPoolImpl.java:399-407 | while the reaper is scheduled, every reaped object is destroyed as not bad, in reap order, none is counted as bad and none is left held |
| CreateLatches.ClampPeriod | src/main/java/com/xqbase/apool/impl/SimpleCreateLatch.java:94 | a requested period is clamped into [minPeriod, maxPeriod] and kept when already inside |
| CreateLatches.AdjustedDelay | src/main/java/com/xqbase/apool/impl/SimpleCreateLatch.java:100-104 | a rescheduled dispatch waits what is left of the new period after the time already waited, never less than zero and never more than the new period |
| CreateLatches.SimpleCreateLatch.constructor | src/main/java/com/xqbase/apool/impl/SimpleCreateLatch.java:66-71 | a new latch has period 0, nothing running, nothing queued and no dispatch outstanding |
| CreateLatches.SimpleCreateLatch.Schedule | src/main/java/com/xqbase/apool/impl/SimpleCreateLatch.java:140-145 | a dispatch is scheduled only when none is outstanding, capacity remains and a task is queued |
| CreateLatches.SimpleCreateLatch.Submit | src/main/java/com/xqbase/apool/impl/SimpleCreateLatch.java:74-89 | a task runs at once exactly when the period is 0, nothing is queued and capacity remains; otherwise it is queued at the tail, and when no dispatch was outstanding one is scheduled after the period if capacity remains, and none otherwise |
| CreateLatches.SimpleCreateLatch.Dispatch | src/main/java/com/xqbase/apool/impl/SimpleCreateLatch.java:44-64 | an outstanding dispatch, when it fires, starts the oldest queued task when capacity remains and schedules the next dispatch; the running count never passes maxRunningTasks |
| CreateLatches.SimpleCreateLatch.OnDone | src/main/java/com/xqbase/apool/impl/SimpleCreateLatch.java:34-42 | one task fewer runs and a dispatch is scheduled if a queued task can now proceed |
| CreateLatches.SimpleCreateLatch.SetPeriod | src/main/java/com/xqbase/apool/impl/SimpleCreateLatch.java:92-110 | the clamped period is stored; when it changed and tasks are queued, a cancelled dispatch is rescheduled with the adjusted delay, or a new dispatch is scheduled when none was outstanding |
| CreateLatches.SimpleCreateLatch.IncrementPeriod | src/main/java/com/xqbase/apool/impl/SimpleCreateLatch.java:113-115 | nothing changes |
| CreateLatches.SimpleCreateLatch.CancelPendingTasks | src/main/java/com/xqbase/apool/impl/SimpleCreateLatch.java:118-126 | every queued task is returned in submission order and the queue is left empty |
| NoopCreateLatches.OnDone | src/main/java/com/xqbase/apool/impl/NoopCreateLatch.java:16-21 | the done-callback handed to tasks releases nothing |
| NoopCreateLatches.Step | src/main/java/com/xqbase/apool/impl/NoopCreateLatch.java:23-41 | submit runs the task at once, exactly once, with the null done-callback; setPeriod and incrementPeriod do nothing; cancelPendingTasks returns nothing |
| NoopCreateLatches.ReplayRunsEverySubmit | src/main/java/com/xqbase/apool/impl/NoopCreateLatch.java:23-41 | over any sequence of calls the latch runs exactly the submitted tasks, in order, and never holds one back |
| LinkedDeques.IndexOf | src/main/java/com/xqbase/apool/util/LinkedDeque.java:7-10 | the position of a handle is found exactly when it is linked, at its first occurrence |
| LinkedDeques.RemoveAtKeepsOrder | src/main/java/com/xqbase/apool/util/LinkedDeque.java:7-10 | removing an interior element keeps every other element in order |
| LinkedDeques.RemoveUnlinksExactly | src/main/java/com/xqbase/apool/util/LinkedDeque.java:7-10 | removing a node unlinks its handle and no other |
| LinkedDeques.PolledHandleIsGone | src/main/java/com/xqbase/apool/util/LinkedDeque.java:109-117 | a polled head or tail handle is no longer linked, so a later removal of it finds nothing |
| LinkedDeques.LinkedDeque.constructor | src/main/java/com/xqbase/apool/util/LinkedDeque.java:36-41 | a new deque is empty |
| LinkedDeques.LinkedDeque.AddFirstNode | src/main/java/com/xqbase/apool/util/LinkedDeque.java:53-61 | the item is linked at the head under a handle not already linked |
| LinkedDeques.LinkedDeque.AddLastNode | src/main/java/com/xqbase/apool/util/LinkedDeque.java:63-71 | the item is linked at the tail under a handle not already linked |
| LinkedDeques.LinkedDeque.AddBeforeNode | src/main/java/com/xqbase/apool/util/LinkedDeque.java:73-82 | the item is linked immediately before the given node under a fresh handle; a node not in the deque is refused and nothing changes |
| LinkedDeques.LinkedDeque.RemoveNode | src/main/java/com/xqbase/apool/util/LinkedDeque.java:7-10 | removing by handle returns the value and unlinks that node only, or returns nothing and changes nothing when it is no longer linked |
| LinkedDeques.LinkedDeque.PollFirst | src/main/java/com/xqbase/apool/util/LinkedDeque.java:109-112 | the head is removed and returned, or nothing when empty |
| LinkedDeques.LinkedDeque.PollLast | src/main/java/com/xqbase/apool/util/LinkedDeque.java:114-117 | the tail is removed and returned, or nothing when empty |
| LinkedDeques.LinkedDeque.Size | src/main/java/com/xqbase/apool/util/LinkedDeque.java:124-127 | the number of linked elements, zero exactly when no handle is linked |
| Callbacks.ErrorsOf | src/main/java/com/xqbase/apool/callback/MultiCallback.java:31-34 | the recorded errors are empty exactly when every completion was a success |
| Callbacks.ErrorsOfAppend | src/main/java/com/xqbase/apool/callback/MultiCallback.java:32 | each onError call appends its error to the collection |
| Callbacks.Downstream | src/main/java/com/xqbase/apool/callback/MultiCallback.java:43-47 | the outcome reported is success exactly when no completion was an error, and otherwise an error with a fresh Throwable |
| Callbacks.FiredAt | src/main/java/com/xqbase/apool/callback/MultiCallback.java:41-49 | a completion reports downstream exactly when it takes the count to zero |
| Callbacks.FiresExactlyOnce | src/main/java/com/xqbase/apool/callback/MultiCallback.java:41-49 | the original callback is called once when count completions have arrived, never before or again, with an outcome fixed by the first count completions |
| Callbacks.MultiCallback.constructor | src/main/java/com/xqbase/apool/callback/MultiCallback.java:21-28 | a new aggregator has its full count and no recorded error |
| Callbacks.NewMultiCallback | src/main/java/com/xqbase/apool/callback/MultiCallback.java:21-28 | a count below one is refused with IllegalArgumentException |
| Callbacks.MultiCallback.CheckDone | src/main/java/com/xqbase/apool/callback/MultiCallback.java:41-49 | the count drops by exactly one, and reaching zero reports success when no error was recorded, an error otherwise |
| Callbacks.MultiCallback.OnError | src/main/java/com/xqbase/apool/callback/MultiCallback.java:31-34 | the error is retained and the count drops by one; a null error is refused with NullPointerException before anything changes |
| Callbacks.MultiCallback.OnSuccess | src/main/java/com/xqbase/apool/callback/MultiCallback.java:37-39 | the count drops by one and no error is added |
| Callbacks.Deliveries | src/main/java/com/xqbase/apool/callback/Callbacks.java:14-36 | the do-nothing callback that empty() and countDown(_, 0) return ignores every completion and delivers nothing |
| Callbacks.CountDown | src/main/java/com/xqbase/apool/callback/Callbacks.java:18-25 | size 0 succeeds at once and returns the do-nothing callback; a positive size returns an aggregator for that many completions without calling yet; a negative size is refused with IllegalArgumentException |
| Callbacks.CountDownDeliversOnce | src/main/java/com/xqbase/apool/callback/Callbacks.java:18-25 | whatever the size, after size completions the callback has been called exactly once, with success exactly when none of them was an error |
| Callbacks.CountDownWaits | src/main/java/com/xqbase/apool/callback/Callbacks.java:24 | for a positive size the callback is not called before size completions arrive |
| Futures.UnwrapResultRaw | src/main/java/com/xqbase/apool/callback/FutureCallback.java:75-83 | a recorded success yields its value and a recorded error is thrown as it is |
| Futures.UnwrapResult | src/main/java/com/xqbase/apool/callback/FutureCallback.java:67-73 | a recorded error comes back wrapped in an ExecutionException |
| Futures.FutureCallback.constructor | src/main/java/com/xqbase/apool/callback/FutureCallback.java:13-14 | a new future holds no result and its latch is closed |
| Futures.FutureCallback.IsDone | src/main/java/com/xqbase/apool/callback/FutureCallback.java:37-39 | done exactly when a result has been recorded |
| Futures.FutureCallback.Get | src/main/java/com/xqbase/apool/callback/FutureCallback.java:42-45 | before completion get() waits; after it, get() returns the recorded value or throws the wrapped recorded error |
| Futures.FutureCallback.GetTimed | src/main/java/com/xqbase/apool/callback/FutureCallback.java:48-53 | a still-closed latch gives TimeoutException; otherwise as get() |
| Futures.FutureCallback.Cancel | src/main/java/com/xqbase/apool/callback/FutureCallback.java:27-29 | cancel always answers false and changes nothing |
| Futures.FutureCallback.IsCancelled | src/main/java/com/xqbase/apool/callback/FutureCallback.java:32-34 | never cancelled |
| Futures.FutureCallback.SafeSetValue | src/main/java/com/xqbase/apool/callback/FutureCallback.java:61-65 | the first value is recorded; a later one is refused with IllegalStateException and the first one stays |
| Futures.FutureCallback.CountDown | src/main/java/com/xqbase/apool/callback/FutureCallback.java:23 | the done latch drops by one, and an open latch stays open |
| Futures.FutureCallback.OnError | src/main/java/com/xqbase/apool/callback/FutureCallback.java:17-24 | a null error is refused with NullPointerException and nothing is recorded; the first error is recorded, after which get() throws it wrapped; a later one is refused and changes nothing |
| Futures.FutureCallback.OnSuccess | src/main/java/com/xqbase/apool/callback/FutureCallback.java:56-59 | the first value is recorded and get() then returns it; a later completion is refused and changes nothing |

## Left out

- Concurrency is not modelled. Each locked region is one atomic step, and
  interleavings of the threads that call the pool are not explored.
- Nothing blocks. `FutureCallback.get()` on an unfinished future is reported
  as "would wait" (`None`). A timed `get` on an unfinished future is a
  TimeoutException, because no other thread can complete it during the call.
  `InterruptedException` is not modelled.
- Time, the executor and scheduling are not modelled.
  - `System.currentTimeMillis` is the parameter `now`.
  - The reaper's fixed-rate schedule and its frequency `min(idleTimeout, 1000)`
    are reduced to the flag `reaperScheduled`.
  - The latch's scheduled dispatch is its delay (`scheduled`), and it fires
    when `Dispatch` is called.
- Statistics and logging are left out:
  - `getStats()` returns null in the code;
  - the `PoolStats` and `AsyncPoolStats` classes are not part of this model;
  - `getName()` and the SLF4J logging do nothing the model can observe;
  - `TimeTrackingCallback.startTime` is recorded but never read.
- Java `int` and `long` overflow of the counters and of `poolSize` is not
  modelled. Integers are unbounded.
- Some `LinkedDeque` methods are not modelled:
  - the `Deque` methods with stub bodies (`offerFirst`, `offerLast`,
    `peekFirst`, `peekLast`, `iterator`, `descendingIterator`);
  - the collection constructor;
  - `AbstractDeque`, which is not part of this model.
- The bodies of `addFirstNode`, `addLastNode`, `addBeforeNode`, `pollFirst`,
  `pollLast` and `size` are stubs. The model follows their documentation and
  the class's own description.
- `removeNode`, which the pool's Cancellable calls, is not declared in the
  file. It is modelled from the class description as removal by handle. The
  deque's `poll()`, used by add(), is modelled as `pollFirst`.
- LinkedDeques.LinkedDeque.AddBeforeNode: every deque numbers its handles
  from 0, so handles of different deques can coincide. The check that a node
  belongs to this deque is not modelled: a node of another deque whose handle
  is linked here is taken for this deque's node. `RemoveNode` is the same.
- The Cancellable of a rejected get() removes a null node. It is modelled as
  cancelling nothing and answering false.
- The LifeCycle, executor and user callbacks are outside code. Their calls are
  `Effect`s and their answers are parameters. The interfaces `AsyncPool`,
  `CreateLatch`, `Callback`, `SimpleCallback`, `SuccessCallback` and
  `Cancellable` only declare operations.
- Exception messages are not modelled. Only the exception kind (and the pool
  state for IllegalStateException) is kept.
- Task bodies are not modelled, so neither is a task that throws. The code
  treats one in two ways. The delayed dispatch logs and drops the exception
  (src/main/java/com/xqbase/apool/impl/SimpleCreateLatch.java:57-61). The
  direct run in `SimpleCreateLatch.submit`
  (src/main/java/com/xqbase/apool/impl/SimpleCreateLatch.java:86-88) and
  `NoopCreateLatch.submit`
  (src/main/java/com/xqbase/apool/impl/NoopCreateLatch.java:25) let it reach
  the caller of `create()`. In `SimpleCreateLatch`, `runningTasks` stays
  incremented either way, since the task never reports done.
- Re-entrant answers are not modelled. A LifeCycle may answer `create` or
  `destroy` inside the call, and a latch may run a task inside `submit`
  (src/main/java/com/xqbase/apool/impl/SimpleCreateLatch.java:86-88,
  src/main/java/com/xqbase/apool/impl/NoopCreateLatch.java:25). The model
  always takes the answer as a later, separate step (`CreateSucceeded`,
  `CreateFailed`, `DestroyCompleted`). So, for example, an object created
  and added during get()'s polling loop, which under MRU the loop would
  poll next, is not seen by that get().
- AsyncPools.AsyncPoolImpl.ShouldCreate: every caller in the pool follows a
  yes with `create()`, so the claimed slot is counted as a creation in flight
  at once. A call of the public `shouldCreate()` from outside the pool, which
  would claim a slot without a creation, is not modelled.
- AsyncPools.AsyncPoolImpl.CheckOut: requires a running pool. In the code the
  second locked region of get() can follow a shutdown by another thread; that
  interleaving is outside the model, like all concurrency.
- `Put`, `Dispose`, `CreateSucceeded`, `CreateFailed` and `DestroyCompleted`
  require that the object is checked out, or that the creation or destroy is
  in flight. `AsyncPool.put` and `dispose` make anything else the caller's
  error (src/main/java/com/xqbase/apool/AsyncPool.java:50-51, 58-59). A
  LifeCycle answers only what it was asked.

## Findings

| source | as written | input that shows it | evidently intended | confidence | as-written member | corrected member |
|---|---|---|---|---|---|---|
| src/main/java/com/xqbase/apool/impl/AsyncPoolImpl.java:294-296 | the `onError` handler of a creation is empty: the slot `shouldCreate()` claimed stays in `poolSize`, `totalCreateErrors` is never counted and the latch task never reports done | a pool with minSize 1 and maxSize 1 is started, its one creation fails, then `shutdown()` is called: the idle store (0) never again equals `poolSize` (1), so the shutdown callback is never completed | count the error, give the slot back as `objectDestroyed()` does (requesting a replacement if needed), and report the task done; a replacement still in flight when `shutdown()` is called still leaves the pool `ShuttingDown`, because completion is checked only inside `shutdown()` | high, not executed | AsyncPools.AsyncPoolImpl.CreateFailed | AsyncPools.AsyncPoolImpl.CreateFailedReconciled |
