/** AsyncPoolImpl: the pool's state machine.  Every region the Java code runs
    under the pool's lock is one step of a method here.  The calls the pool
    makes outside the lock (to its LifeCycle, its create latch, its
    callbacks) are returned, in order, as a list of `Effect`s; their answers
    come back as parameters (`validateGet`, `valid`, `now`) or as the
    completion methods `CreateSucceeded`, `CreateFailed` and
    `DestroyCompleted`. */
module AsyncPools {
  import opened Errors
  import opened LinkedDeques

  datatype Strategy = LRU | MRU

  /** An idle object and the time at which it became idle. */
  datatype TimedObject<T> = TimedObject(obj: T, time: int)

  /** The wrapper get() puts around the user's callback, with the time of the
      get.  Both of its completion methods have empty bodies, so what is
      handed to it never reaches the user's callback. */
  datatype Waiter = TimeTrackingCallback(callback: nat, startTime: int)

  /** A call the pool makes outside its lock. */
  datatype Effect<T> =
    | SubmitCreate                                 // create(): a creation task is submitted to the create latch
    | IncrementPeriod                              // createLatch.incrementPeriod()
    | ResetPeriod                                  // createLatch.setPeriod(0)
    | Destroy(obj: T, bad: bool)                   // lifeCycle.destroy(obj, bad, ...)
    | WaiterSuccess(waiter: Waiter, obj: T)        // waiter.onSuccess(obj)
    | WaiterError(waiter: Waiter, error: Throwable) // waiter.onError(error)
    | TaskDone                                     // the create latch's done-callback
    | CancelReaper                                 // the reaper's scheduled future is cancelled
    | ShutdownSuccess(callback: nat)               // the shutdown callback's onSuccess
    | ShutdownError(callback: nat, error: Throwable)

  /** How a get() ended.  `Queued` and `Rejected` return a Cancellable, over
      the waiter's handle and over no node respectively. */
  datatype GetOutcome<T> = NotRunning | Delivered(obj: T) | Queued(handle: nat) | Rejected

  /** The i-th object get() polls from `idle`: head first under LRU, tail
      first under MRU. */
  function PollOrder<T>(idle: seq<TimedObject<T>>, strategy: Strategy, i: nat): TimedObject<T>
    requires i < |idle|
  {
    if strategy == LRU then idle[i] else idle[|idle| - 1 - i]
  }

  /** What is left of `idle` after `n` polls under `strategy`. */
  function Remaining<T>(idle: seq<TimedObject<T>>, strategy: Strategy, n: nat): (r: seq<TimedObject<T>>)
    requires n <= |idle|
    ensures |r| == |idle| - n
  {
    if strategy == LRU then idle[n..] else idle[..|idle| - n]
  }

  /** Polling from what `n` polls left continues the same poll order. */
  lemma RemainingAt<T>(idle: seq<TimedObject<T>>, strategy: Strategy, n: nat, i: nat)
    requires n <= |idle| && i < |idle| - n
    ensures PollOrder(Remaining(idle, strategy, n), strategy, i) == PollOrder(idle, strategy, i + n)
  {
  }

  /** The objects of the first `n` polls, in poll order. */
  function Polled<T>(idle: seq<TimedObject<T>>, strategy: Strategy, n: nat): (r: seq<T>)
    requires n <= |idle|
    ensures |r| == n
  {
    seq(n, i requires 0 <= i < n => PollOrder(idle, strategy, i).obj)
  }

  /** The number of idle objects get() polls and finds invalid before it
      polls a valid one or runs out of idle objects. */
  function BadRun<T>(idle: seq<TimedObject<T>>, strategy: Strategy, valid: T -> bool): (k: nat)
    ensures k <= |idle|
    ensures forall i :: 0 <= i < k ==> !valid(PollOrder(idle, strategy, i).obj)
    decreases |idle|
  {
    if idle == [] then 0
    else if valid(PollOrder(idle, strategy, 0).obj) then 0
    else
      var rest := Remaining(idle, strategy, 1);
      var k := BadRun(rest, strategy, valid);
      forall i | 1 <= i < k + 1 ensures !valid(PollOrder(idle, strategy, i).obj) {
        RemainingAt(idle, strategy, 1, i - 1);
      }
      1 + k
  }

  /** get() stops polling at the first valid object, if there is one. */
  lemma {:induction false} BadRunStopsAtValid<T>(idle: seq<TimedObject<T>>, strategy: Strategy, valid: T -> bool)
    ensures var k := BadRun(idle, strategy, valid);
      k < |idle| ==> valid(PollOrder(idle, strategy, k).obj)
    decreases |idle|
  {
    if idle != [] && !valid(PollOrder(idle, strategy, 0).obj) {
      var rest := Remaining(idle, strategy, 1);
      BadRunStopsAtValid(rest, strategy, valid);
      var k := BadRun(rest, strategy, valid);
      if k < |rest| { RemainingAt(idle, strategy, 1, k); }
    }
  }

  /** The calls destroy(obj, true) makes for each object, in order. */
  function BadDestroys<T>(objs: seq<T>): (r: seq<Effect<T>>)
    ensures |r| == 2 * |objs|
  {
    if objs == [] then [] else BadDestroys(objs[..|objs| - 1]) + [IncrementPeriod, Destroy(objs[|objs| - 1], true)]
  }

  /** One more poll that finds an invalid object adds its two calls. */
  lemma BadDestroysStep<T>(idle: seq<TimedObject<T>>, strategy: Strategy, n: nat)
    requires n < |idle|
    ensures BadDestroys(Polled(idle, strategy, n + 1))
         == BadDestroys(Polled(idle, strategy, n)) + [IncrementPeriod, Destroy(PollOrder(idle, strategy, n).obj, true)]
  {
    var before := Polled(idle, strategy, n);
    var after := Polled(idle, strategy, n + 1);
    assert after[..|after| - 1] == before;
  }

  /** The polling loop of get(): polls `xs` under the strategy, adding the
      calls of destroy(obj, true) for each object `validateGet` rejects, and
      stops at the first valid one, which it returns, or when none is left;
      `n` is how many it rejected and `rest` what is left unpolled. */
  method PollValid<T>(xs: seq<TimedObject<T>>, strategy: Strategy, validateGet: T -> bool)
    returns (found: Option<T>, n: nat, effects: seq<Effect<T>>, rest: seq<TimedObject<T>>)
    ensures n == BadRun(xs, strategy, validateGet)
    ensures effects == BadDestroys(Polled(xs, strategy, n))
    ensures n < |xs| ==> found == Some(PollOrder(xs, strategy, n).obj) && rest == Remaining(xs, strategy, n + 1)
    ensures n == |xs| ==> found == None && rest == []
    ensures |rest| + n + (if found.Some? then 1 else 0) == |xs|
  {
    ghost var k := BadRun(xs, strategy, validateGet);
    BadRunStopsAtValid(xs, strategy, validateGet);
    n := 0;
    effects := [];
    found := None;
    while n < |xs|
      invariant n <= k && n <= |xs|
      invariant effects == BadDestroys(Polled(xs, strategy, n))
    {
      var o := PollOrder(xs, strategy, n);
      if validateGet(o.obj) {
        found := Some(o.obj);
        break;
      }
      // destroy(obj, true): the latch backs off and the object is counted as bad
      BadDestroysStep(xs, strategy, n);
      effects := effects + [IncrementPeriod, Destroy(o.obj, true)];
      n := n + 1;
    }
    rest := if n < |xs| then Remaining(xs, strategy, n + 1) else [];
  }

  /** The number of idle objects reap() takes: head entries idle since
      before `target`, while the surplus `exceed` over minSize lasts. */
  function ReapCount<T>(idle: seq<TimedObject<T>>, target: int, exceed: int): (k: nat)
    ensures k <= |idle|
    ensures k <= (if exceed > 0 then exceed else 0)
    ensures forall i :: 0 <= i < k ==> idle[i].time < target
  {
    if idle == [] || idle[0].time >= target || exceed <= 0 then 0
    else 1 + ReapCount(idle[1..], target, exceed - 1)
  }

  /** reap() stops only for a reason: the idle list is used up, the surplus
      over minSize is used up, or the next head entry is not old enough. */
  lemma {:induction false} ReapStopsForAReason<T>(idle: seq<TimedObject<T>>, target: int, exceed: int)
    ensures var k := ReapCount(idle, target, exceed);
      k == |idle| || k >= exceed || idle[k].time >= target
  {
    if idle != [] && idle[0].time < target && exceed > 0 {
      var k' := ReapCount(idle[1..], target, exceed - 1);
      ReapStopsForAReason(idle[1..], target, exceed - 1);
      if k' < |idle| - 1 { assert idle[1..][k'] == idle[k' + 1]; }
    }
  }

  /** The objects held by timed entries, in order. */
  function Objects<T>(entries: seq<TimedObject<T>>): (r: seq<T>)
    ensures |r| == |entries|
    ensures forall i :: 0 <= i < |entries| ==> r[i] == entries[i].obj
  {
    seq(|entries|, i requires 0 <= i < |entries| => entries[i].obj)
  }

  /** The loop of reap(): polls head entries older than `target` while the
      surplus `exceed` lasts, collecting their objects; `n` is how many. */
  method TakeExpired<T>(xs: seq<TimedObject<T>>, target: int, exceed: int) returns (reaped: seq<T>, n: nat)
    ensures n == ReapCount(xs, target, exceed)
    ensures reaped == Objects(xs[..n])
  {
    ghost var k := ReapCount(xs, target, exceed);
    ReapStopsForAReason(xs, target, exceed);
    n := 0;
    reaped := [];
    while n < |xs| && xs[n].time < target && n < exceed
      invariant n <= k && |reaped| == n
      invariant forall j :: 0 <= j < n ==> reaped[j] == xs[j].obj
    {
      reaped := reaped + [xs[n].obj];
      n := n + 1;
    }
    assert reaped == Objects(xs[..n]);
  }

  /** The number of creations start() requests: one per round of its loop
      while the pool is below both minSize and maxSize + 1. */
  function StartCreations(minSize: int, maxSize: int): (n: nat)
    ensures n <= (if minSize > 0 then minSize else 0)
    ensures n <= (if maxSize + 1 > 0 then maxSize + 1 else 0)
    ensures n == (if minSize > 0 then minSize else 0) || n == (if maxSize + 1 > 0 then maxSize + 1 else 0)
  {
    var rounds := if minSize > 0 then minSize else 0;
    var ceiling := if maxSize + 1 > 0 then maxSize + 1 else 0;
    if rounds < ceiling then rounds else ceiling
  }

  class AsyncPoolImpl<T> {
    const maxSize: int
    const minSize: int
    const maxWaiters: int
    const idleTimeout: int
    const strategy: Strategy
    /** The pending get() callbacks, oldest first. */
    const waiters: LinkedDeque<Waiter>

    var state: PoolState
    var poolSize: int
    var checkedOut: int
    /** The idle objects, least recently returned first. */
    var idle: seq<TimedObject<T>>
    var shutdownCallback: Option<nat>
    /** Whether the reaper's periodic task is scheduled. */
    var reaperScheduled: bool

    /** Objects a thread has taken out of `idle` or got back from a user or
        from a creation, and holds between two locked regions before it
        places them or hands them to the LifeCycle's destroy. */
    ghost var inHand: nat
    /** Creation tasks submitted whose LifeCycle answer has not arrived. */
    ghost var creating: nat
    /** Destroy calls whose LifeCycle answer has not arrived. */
    ghost var destroying: nat
    /** Slots claimed for creations that failed: the error handler keeps
        them. */
    ghost var lostSlots: nat

    var totalCreated: int
    var totalDestroyed: int
    var totalCreateErrors: int
    var totalDestroyErrors: int
    var totalBadDestroyed: int
    var totalTimeout: int

    /** The largest pool size shouldCreate() lets the pool reach. */
    function Ceiling(): int
    {
      if maxSize + 1 > 0 then maxSize + 1 else 0
    }

    /** The pool's accounting invariant. */
    ghost predicate Valid()
      reads this, waiters
    {
      && waiters.Valid()
      && 0 <= poolSize <= Ceiling()
      && checkedOut >= 0
      // every slot poolSize counts is idle, checked out, held by a thread,
      // being created or destroyed, or lost to a failed creation
      && |idle| + checkedOut + inHand + creating + destroying + lostSlots == poolSize
      // a waiting consumer is always served before an object is parked idle
      && (idle != [] ==> waiters.nodes == [])
      && waiters.Size() <= (if maxWaiters < 0 then 0 else maxWaiters)
      && (state == NotYetStarted ==> poolSize == 0 && waiters.nodes == [])
      && (shutdownCallback.Some? <==> state == ShuttingDown)
      && (reaperScheduled ==> idleTimeout > 0 && state != NotYetStarted)
      // a stopped pool has no waiter, lends nothing out and expects no creation
      && (state == Stopped ==> waiters.nodes == [] && checkedOut == 0 && creating == 0 && lostSlots == 0)
      && totalCreated >= 0 && totalDestroyed >= 0 && totalCreateErrors >= 0
      && totalDestroyErrors >= 0 && totalBadDestroyed >= 0 && totalTimeout >= 0
    }

    constructor (maxSize: int, minSize: int, maxWaiters: int, idleTimeout: int, strategy: Strategy)
      ensures Valid() && fresh(waiters)
      ensures this.maxSize == maxSize && this.minSize == minSize && this.maxWaiters == maxWaiters
      ensures this.idleTimeout == idleTimeout && this.strategy == strategy
      ensures state == NotYetStarted && poolSize == 0 && checkedOut == 0
      ensures idle == [] && waiters.nodes == [] && shutdownCallback == None && !reaperScheduled
      ensures totalCreated == 0 && totalDestroyed == 0 && totalDestroyErrors == 0
      ensures totalBadDestroyed == 0 && totalTimeout == 0 && totalCreateErrors == 0
      ensures inHand == 0 && creating == 0 && destroying == 0 && lostSlots == 0
    {
      this.maxSize := maxSize;
      this.minSize := minSize;
      this.maxWaiters := maxWaiters;
      this.idleTimeout := idleTimeout;
      this.strategy := strategy;
      waiters := new LinkedDeque();
      state := NotYetStarted;
      poolSize := 0;
      checkedOut := 0;
      idle := [];
      shutdownCallback := None;
      reaperScheduled := false;
      totalCreated := 0;
      totalDestroyed := 0;
      totalCreateErrors := 0;
      totalDestroyErrors := 0;
      totalBadDestroyed := 0;
      totalTimeout := 0;
      inHand, creating, destroying, lostSlots := 0, 0, 0, 0;
    }

    /** shouldCreate(): claims a slot for one more object, and says so,
        exactly when the pool runs, is not above maxSize, and has a waiter
        or is below minSize.  Every caller follows a yes with create(), so
        the claimed slot is a creation in flight. */
    method ShouldCreate() returns (create: bool)
      requires Valid()
      modifies this`poolSize, this`creating
      ensures Valid()
      ensures creating == old(creating) + (if create then 1 else 0)
      ensures create <==> state == Running && old(poolSize) <= maxSize
                          && (waiters.Size() > 0 || old(poolSize) < minSize)
      ensures poolSize == if create then old(poolSize) + 1 else old(poolSize)
      ensures poolSize <= Ceiling()
    {
      create := false;
      if state == Running {
        if poolSize > maxSize {
        } else if waiters.Size() > 0 || poolSize < minSize {
          poolSize := poolSize + 1;
          creating := creating + 1;
          create := true;
        }
      }
    }

    /** start(): from NotYetStarted, runs the pool, schedules the reaper when
        idleTimeout is positive, and requests the creations needed to reach
        minSize; from any other state throws IllegalStateException and
        changes nothing. */
    method Start() returns (thrown: Option<Throwable>, effects: seq<Effect<T>>)
      requires Valid()
      modifies this`state, this`reaperScheduled, this`poolSize, this`creating
      ensures Valid()
      ensures old(state) != NotYetStarted ==>
        thrown == Some(IllegalState(old(state))) && effects == []
        && state == old(state) && poolSize == old(poolSize) && reaperScheduled == old(reaperScheduled)
      ensures old(state) == NotYetStarted ==>
        thrown == None && state == Running && reaperScheduled == (idleTimeout > 0)
        && poolSize == StartCreations(minSize, maxSize) && creating == poolSize
        && effects == seq(poolSize, _ => SubmitCreate)
    {
      effects := [];
      if state != NotYetStarted {
        thrown := Some(IllegalState(state));
        return;
      }
      thrown := None;
      state := Running;
      if idleTimeout > 0 {
        reaperScheduled := true;
      }
      var i := 0;
      while i < minSize
        invariant Valid() && state == Running && waiters.nodes == []
        invariant 0 <= i <= (if minSize > 0 then minSize else 0)
        invariant poolSize == if i < Ceiling() then i else Ceiling()
        invariant creating == poolSize
        invariant effects == seq(poolSize, _ => SubmitCreate)
        invariant reaperScheduled == (idleTimeout > 0)
      {
        var create := ShouldCreate();
        if create {
          effects := effects + [SubmitCreate];
        }
        i := i + 1;
      }
    }

    /** add(obj): hands the object held to the oldest waiter, counting it
        as checked out, or, when nobody waits, parks it at the idle tail. */
    method Add(obj: T, now: int) returns (effects: seq<Effect<T>>)
      requires Valid() && inHand > 0
      modifies this`idle, this`checkedOut, this`inHand, waiters
      ensures Valid()
      ensures inHand == old(inHand) - 1
      ensures old(waiters.nodes) == [] ==>
        idle == old(idle) + [TimedObject(obj, now)] && checkedOut == old(checkedOut)
        && waiters.nodes == [] && effects == []
      ensures old(waiters.nodes) != [] ==>
        idle == old(idle) && checkedOut == old(checkedOut) + 1
        && waiters.nodes == old(waiters.nodes)[1..]
        && effects == [WaiterSuccess(old(waiters.nodes)[0].value, obj)]
    {
      var waiter := waiters.PollFirst();
      inHand := inHand - 1;
      if waiter.None? {
        idle := idle + [TimedObject(obj, now)];
        effects := [];
      } else {
        checkedOut := checkedOut + 1;
        effects := [WaiterSuccess(waiter.value.value, obj)];
      }
    }

    /** destroy(obj, bad) up to the LifeCycle call: a bad object backs the
        create latch off and is counted; the object held is then being
        destroyed. */
    method DestroyBegin(obj: T, bad: bool) returns (effects: seq<Effect<T>>)
      requires Valid() && inHand > 0
      modifies this`totalBadDestroyed, this`inHand, this`destroying
      ensures Valid()
      ensures inHand == old(inHand) - 1 && destroying == old(destroying) + 1
      ensures totalBadDestroyed == old(totalBadDestroyed) + (if bad then 1 else 0)
      ensures effects == (if bad then [IncrementPeriod] else []) + [Destroy(obj, bad)]
    {
      effects := [];
      if bad {
        effects := [IncrementPeriod];
        totalBadDestroyed := totalBadDestroyed + 1;
      }
      inHand, destroying := inHand - 1, destroying + 1;
      effects := effects + [Destroy(obj, bad)];
    }

    /** objectDestroyed(num): lowers the pool size by `num`, never below
        zero, and then asks shouldCreate() whether to replace the loss.  The
        `num` destroys reported were in flight, so the floor at zero is
        never reached. */
    method ObjectDestroyed(num: nat) returns (create: bool)
      requires Valid() && num <= destroying
      modifies this`poolSize, this`creating, this`destroying
      ensures Valid()
      ensures old(poolSize) >= num && destroying == old(destroying) - num
      ensures creating == old(creating) + (if create then 1 else 0)
      ensures var floored := if old(poolSize) - num > 0 then old(poolSize) - num else 0;
        && (create <==> state == Running && floored <= maxSize && (waiters.Size() > 0 || floored < minSize))
        && poolSize == if create then floored + 1 else floored
    {
      destroying := destroying - num;
      if poolSize - num > 0 {
        poolSize := poolSize - num;
      } else {
        poolSize := 0;
      }
      create := ShouldCreate();
    }

    /** The LifeCycle's answer to a destroy in flight: a success or an error
        is counted, the pool shrinks by one, and a replacement is requested
        if needed. */
    method DestroyCompleted(ok: bool) returns (effects: seq<Effect<T>>)
      requires Valid() && destroying > 0
      modifies this`totalDestroyed, this`totalDestroyErrors, this`poolSize, this`creating, this`destroying
      ensures Valid()
      ensures destroying == old(destroying) - 1
      ensures creating == old(creating) + |effects|
      ensures ok ==> totalDestroyed == old(totalDestroyed) + 1 && totalDestroyErrors == old(totalDestroyErrors)
      ensures !ok ==> totalDestroyErrors == old(totalDestroyErrors) + 1 && totalDestroyed == old(totalDestroyed)
      ensures var floored := if old(poolSize) - 1 > 0 then old(poolSize) - 1 else 0;
        && poolSize == (if effects == [] then floored else floored + 1)
        && (effects == [] || effects == [SubmitCreate])
        && (effects == [SubmitCreate] <==>
              state == Running && floored <= maxSize && (waiters.Size() > 0 || floored < minSize))
    {
      if ok {
        totalDestroyed := totalDestroyed + 1;
      } else {
        totalDestroyErrors := totalDestroyErrors + 1;
      }
      var create := ObjectDestroyed(1);
      effects := if create then [SubmitCreate] else [];
    }

    /** The LifeCycle's success answer to a creation in flight: the object
        is counted, placed as add() places it, and the task reports done. */
    method CreateSucceeded(obj: T, now: int) returns (effects: seq<Effect<T>>)
      requires Valid() && creating > 0
      modifies this`totalCreated, this`idle, this`checkedOut, this`creating, this`inHand, waiters
      ensures Valid()
      ensures totalCreated == old(totalCreated) + 1
      ensures creating == old(creating) - 1 && inHand == old(inHand)
      ensures old(waiters.nodes) == [] ==>
        idle == old(idle) + [TimedObject(obj, now)] && checkedOut == old(checkedOut)
        && waiters.nodes == [] && effects == [TaskDone]
      ensures old(waiters.nodes) != [] ==>
        idle == old(idle) && checkedOut == old(checkedOut) + 1
        && waiters.nodes == old(waiters.nodes)[1..]
        && effects == [WaiterSuccess(old(waiters.nodes)[0].value, obj), TaskDone]
    {
      totalCreated := totalCreated + 1;
      creating, inHand := creating - 1, inHand + 1;
      effects := Add(obj, now);
      effects := effects + [TaskDone];
    }

    /** The LifeCycle's error answer to a creation in flight, as the code
        has it: the handler's body is empty, so nothing is counted, nothing
        is called, and the slot claimed by shouldCreate() stays claimed by
        an object that will never exist. */
    method CreateFailed(error: Throwable) returns (effects: seq<Effect<T>>)
      requires Valid() && creating > 0
      modifies this`creating, this`lostSlots
      ensures Valid() && effects == []
      ensures creating == old(creating) - 1 && lostSlots == old(lostSlots) + 1
      ensures poolSize == old(poolSize) && idle == old(idle) && totalCreateErrors == old(totalCreateErrors)
    {
      creating, lostSlots := creating - 1, lostSlots + 1;
      effects := [];
    }

    /** Once a creation has failed, the idle objects never again account
        for the whole pool size, which is what shutdown waits for. */
    lemma LostSlotBlocksShutdown()
      requires Valid() && lostSlots > 0
      ensures |idle| < poolSize
    {
    }

    /** The error answer to a creation as the pool's statistics and its
        create latch expect it: the error is counted, the claimed slot is
        given back as objectDestroyed() gives back a destroyed one (with a
        replacement requested if needed), and the task reports done. */
    method CreateFailedReconciled(error: Throwable) returns (effects: seq<Effect<T>>)
      requires Valid() && creating > 0
      modifies this`totalCreateErrors, this`poolSize, this`creating
      ensures Valid()
      ensures totalCreateErrors == old(totalCreateErrors) + 1
      ensures lostSlots == old(lostSlots) && idle == old(idle)
      ensures var create := state == Running && old(poolSize) - 1 <= maxSize
                            && (waiters.Size() > 0 || old(poolSize) - 1 < minSize);
        && poolSize == old(poolSize) - 1 + (if create then 1 else 0)
        && creating == old(creating) - 1 + (if create then 1 else 0)
        && effects == [TaskDone] + (if create then [SubmitCreate] else [])
    {
      creating := creating - 1;
      totalCreateErrors := totalCreateErrors + 1;
      if poolSize - 1 > 0 {
        poolSize := poolSize - 1;
      } else {
        poolSize := 0;
      }
      var create := ShouldCreate();
      effects := [TaskDone] + (if create then [SubmitCreate] else []);
    }

    /** put(obj): one object fewer is checked out; an object the LifeCycle
        rejects (`valid` is its validatePut answer) is destroyed as bad,
        any other resets the latch period to 0 and is placed by add().
        Only a checked-out object may be put back. */
    method Put(obj: T, valid: bool, now: int) returns (effects: seq<Effect<T>>)
      requires Valid() && checkedOut > 0
      modifies this`checkedOut, this`idle, this`totalBadDestroyed, this`inHand, this`destroying, waiters
      ensures Valid()
      ensures inHand == old(inHand) && destroying == old(destroying) + (if valid then 0 else 1)
      ensures !valid ==>
        checkedOut == old(checkedOut) - 1 && totalBadDestroyed == old(totalBadDestroyed) + 1
        && idle == old(idle) && waiters.nodes == old(waiters.nodes)
        && effects == [IncrementPeriod, Destroy(obj, true)]
      ensures valid && old(waiters.nodes) == [] ==>
        checkedOut == old(checkedOut) - 1 && totalBadDestroyed == old(totalBadDestroyed)
        && idle == old(idle) + [TimedObject(obj, now)] && waiters.nodes == []
        && effects == [ResetPeriod]
      ensures valid && old(waiters.nodes) != [] ==>
        checkedOut == old(checkedOut) && totalBadDestroyed == old(totalBadDestroyed)
        && idle == old(idle) && waiters.nodes == old(waiters.nodes)[1..]
        && effects == [ResetPeriod, WaiterSuccess(old(waiters.nodes)[0].value, obj)]
    {
      checkedOut, inHand := checkedOut - 1, inHand + 1;
      if !valid {
        effects := DestroyBegin(obj, true);
        return;
      }
      effects := [ResetPeriod];
      var placed := Add(obj, now);
      effects := effects + placed;
    }

    /** dispose(obj): one object fewer is checked out, and it is destroyed
        as bad.  Only a checked-out object may be disposed of. */
    method Dispose(obj: T) returns (effects: seq<Effect<T>>)
      requires Valid() && checkedOut > 0
      modifies this`checkedOut, this`totalBadDestroyed, this`inHand, this`destroying
      ensures Valid()
      ensures checkedOut == old(checkedOut) - 1
      ensures inHand == old(inHand) && destroying == old(destroying) + 1
      ensures totalBadDestroyed == old(totalBadDestroyed) + 1
      ensures effects == [IncrementPeriod, Destroy(obj, true)]
    {
      checkedOut, inHand := checkedOut - 1, inHand + 1;
      effects := DestroyBegin(obj, true);
    }

    /** The bookkeeping of a poll of `idle` that rejected `bad` objects and,
        if `held`, found a valid one after them: what the poll left is
        `rest`, the rejected objects, counted as bad, are being destroyed,
        and the valid one is held for the caller. */
    method TakeFromIdle(rest: seq<TimedObject<T>>, bad: nat, held: bool)
      requires Valid() && bad <= |idle| && held == (bad < |idle|)
      requires rest == if held then Remaining(idle, strategy, bad + 1) else []
      modifies this`idle, this`totalBadDestroyed, this`inHand, this`destroying
      ensures Valid() && idle == rest
      ensures totalBadDestroyed == old(totalBadDestroyed) + bad
      ensures inHand == old(inHand) + (if held then 1 else 0)
      ensures destroying == old(destroying) + bad
    {
      idle := rest;
      totalBadDestroyed := totalBadDestroyed + bad;
      inHand, destroying := inHand + (if held then 1 else 0), destroying + bad;
    }

    /** The polling region of get(): PollValid over the idle objects; the
        ones polled leave `idle`, the rejected ones count as bad and are
        being destroyed, and the valid one is held for the caller. */
    method PollIdle(validateGet: T -> bool) returns (found: Option<T>, effects: seq<Effect<T>>)
      requires Valid()
      modifies this`idle, this`totalBadDestroyed, this`inHand, this`destroying
      ensures Valid()
      ensures |idle| <= |old(idle)| && totalBadDestroyed >= old(totalBadDestroyed)
      ensures inHand == old(inHand) + (if found.Some? then 1 else 0)
      ensures destroying == old(destroying) + BadRun(old(idle), strategy, validateGet)
      ensures var k := BadRun(old(idle), strategy, validateGet);
        && totalBadDestroyed == old(totalBadDestroyed) + k
        && effects == BadDestroys(Polled(old(idle), strategy, k))
        && (k < |old(idle)| ==>
              found == Some(PollOrder(old(idle), strategy, k).obj) && idle == Remaining(old(idle), strategy, k + 1))
        && (k == |old(idle)| ==> found == None && idle == [])
    {
      var n, rest;
      found, n, effects, rest := PollValid(idle, strategy, validateGet);
      TakeFromIdle(rest, n, found.Some?);
    }

    /** The region of get() after a polled object proves valid: the object
        held becomes checked out. */
    method CheckOut()
      requires Valid() && state == Running && inHand > 0
      modifies this`checkedOut, this`inHand
      ensures Valid()
      ensures checkedOut == old(checkedOut) + 1 && inHand == old(inHand) - 1
    {
      checkedOut, inHand := checkedOut + 1, inHand - 1;
    }

    /** The region of get() that finds no idle object: queues the waiter at
        the tail, requesting a creation if shouldCreate() agrees, or, when
        maxWaiters are already waiting, rejects it. */
    method WaitOrReject(w: Waiter) returns (r: GetOutcome<T>, effects: seq<Effect<T>>)
      requires Valid() && state == Running && idle == []
      modifies this`poolSize, this`creating, waiters
      ensures Valid()
      ensures old(waiters.Size()) < maxWaiters ==>
        && r.Queued? && !Linked(old(waiters.nodes), r.handle)
        && waiters.nodes == old(waiters.nodes) + [Node(r.handle, w)]
        && (if old(poolSize) <= maxSize
            then poolSize == old(poolSize) + 1 && creating == old(creating) + 1 && effects == [SubmitCreate]
            else poolSize == old(poolSize) && creating == old(creating) && effects == [])
      ensures old(waiters.Size()) >= maxWaiters ==>
        && r == Rejected && waiters.nodes == old(waiters.nodes)
        && poolSize == old(poolSize) && creating == old(creating)
        && effects == [WaiterError(w, SizeLimitExceeded)]
    {
      if waiters.Size() < maxWaiters {
        var h := waiters.AddLastNode(w);
        var create := ShouldCreate();
        r := Queued(h);
        effects := if create then [SubmitCreate] else [];
      } else {
        r := Rejected;
        effects := [WaiterError(w, SizeLimitExceeded)];
      }
    }

    /** get(callback): fails at once unless running; otherwise hands over
        the first valid idle object PollIdle finds; with no idle object
        left, queues the callback at the tail of the waiters (requesting a
        creation if shouldCreate() agrees) or, when maxWaiters are already
        waiting, rejects it. */
    method Get(callback: nat, now: int, validateGet: T -> bool) returns (r: GetOutcome<T>, effects: seq<Effect<T>>)
      requires Valid()
      modifies this`idle, this`checkedOut, this`totalBadDestroyed, this`poolSize, waiters
      modifies this`inHand, this`creating, this`destroying
      ensures Valid()
      ensures inHand == old(inHand)
      ensures old(state) != Running ==>
        r == NotRunning
        && effects == [WaiterError(TimeTrackingCallback(callback, now), IllegalState(old(state)))]
        && idle == old(idle) && waiters.nodes == old(waiters.nodes) && checkedOut == old(checkedOut)
        && totalBadDestroyed == old(totalBadDestroyed) && poolSize == old(poolSize)
        && creating == old(creating) && destroying == old(destroying)
      ensures old(state) == Running ==>
        var k := BadRun(old(idle), strategy, validateGet);
        var w := TimeTrackingCallback(callback, now);
        var bad := BadDestroys(Polled(old(idle), strategy, k));
        && totalBadDestroyed == old(totalBadDestroyed) + k
        && destroying == old(destroying) + k
        && creating == old(creating) + (if r.Queued? && old(poolSize) <= maxSize then 1 else 0)
        && (k < |old(idle)| ==>
              var obj := PollOrder(old(idle), strategy, k).obj;
              && r == Delivered(obj)
              && idle == Remaining(old(idle), strategy, k + 1)
              && checkedOut == old(checkedOut) + 1
              && waiters.nodes == old(waiters.nodes) && poolSize == old(poolSize)
              && effects == bad + [WaiterSuccess(w, obj)])
        && (k == |old(idle)| && old(waiters.Size()) < maxWaiters ==>
              && r.Queued? && !Linked(old(waiters.nodes), r.handle)
              && waiters.nodes == old(waiters.nodes) + [Node(r.handle, w)]
              && idle == [] && checkedOut == old(checkedOut)
              && (if old(poolSize) <= maxSize
                  then poolSize == old(poolSize) + 1 && effects == bad + [SubmitCreate]
                  else poolSize == old(poolSize) && effects == bad))
        && (k == |old(idle)| && old(waiters.Size()) >= maxWaiters ==>
              && r == Rejected
              && waiters.nodes == old(waiters.nodes)
              && idle == [] && checkedOut == old(checkedOut) && poolSize == old(poolSize)
              && effects == bad + [WaiterError(w, SizeLimitExceeded)])
    {
      var w := TimeTrackingCallback(callback, now);
      if state != Running {
        r := NotRunning;
        effects := [WaiterError(w, IllegalState(state))];
        return;
      }
      var found;
      found, effects := PollIdle(validateGet);
      if found.Some? {
        CheckOut();
        r := Delivered(found.value);
        effects := effects + [WaiterSuccess(w, found.value)];
      } else {
        var waited;
        r, waited := WaitOrReject(w);
        effects := effects + waited;
      }
    }

    /** The Cancellable a get() returns: removes the waiter with handle
        `node` and answers whether it was still waiting.  A Cancellable
        without a node (a rejected get) cancels nothing. */
    method Cancel(node: Option<nat>) returns (cancelled: bool)
      requires Valid()
      modifies waiters
      ensures Valid()
      ensures cancelled <==> node.Some? && Linked(old(waiters.nodes), node.value)
      ensures !cancelled ==> waiters.nodes == old(waiters.nodes)
      ensures cancelled ==>
        waiters.nodes == RemoveAt(old(waiters.nodes), IndexOf(old(waiters.nodes), node.value).value)
    {
      cancelled := false;
      if node.Some? {
        var removed := waiters.RemoveNode(node.value);
        cancelled := removed.Some?;
      }
    }

    /** checkShutdownComplete(): a shutting-down pool with no waiters and
        every object idle stops, and its stored callback is handed out once
        and cleared. */
    method CheckShutdownComplete() returns (done: Option<nat>)
      requires Valid()
      modifies this`state, this`shutdownCallback
      ensures Valid()
      ensures old(state) == ShuttingDown && waiters.Size() == 0 && |idle| == poolSize ==>
        state == Stopped && done == old(shutdownCallback) && done.Some? && shutdownCallback == None
      ensures state == Stopped && old(state) != Stopped ==>
        checkedOut == 0 && inHand == 0 && creating == 0 && destroying == 0 && lostSlots == 0
      ensures lostSlots > 0 ==> state == old(state) && done == None
      ensures !(old(state) == ShuttingDown && waiters.Size() == 0 && |idle| == poolSize) ==>
        state == old(state) && shutdownCallback == old(shutdownCallback) && done == None
    {
      done := None;
      if state == ShuttingDown && waiters.Size() == 0 && |idle| == poolSize {
        state := Stopped;
        done := shutdownCallback;
        shutdownCallback := None;
      }
    }

    /** finishShutdown(finish): cancels the reaper, if scheduled, and
        completes the shutdown callback. */
    method FinishShutdown(finish: nat) returns (effects: seq<Effect<T>>)
      requires Valid() && state == Stopped
      modifies this`reaperScheduled
      ensures Valid() && !reaperScheduled
      ensures effects == (if old(reaperScheduled) then [CancelReaper] else []) + [ShutdownSuccess(finish)]
    {
      effects := [];
      if reaperScheduled {
        reaperScheduled := false;
        effects := [CancelReaper];
      }
      effects := effects + [ShutdownSuccess(finish)];
    }

    /** shutdown(callback): only a running pool starts shutting down, storing
        the callback, and stops at once if it is already quiescent; in any
        other state the callback fails with IllegalStateException. */
    method Shutdown(callback: nat) returns (effects: seq<Effect<T>>)
      requires Valid()
      modifies this`state, this`shutdownCallback, this`reaperScheduled
      ensures Valid()
      ensures old(state) != Running ==>
        state == old(state) && shutdownCallback == old(shutdownCallback)
        && reaperScheduled == old(reaperScheduled)
        && effects == [ShutdownError(callback, IllegalState(old(state)))]
      ensures old(state) == Running && waiters.Size() == 0 && |idle| == poolSize ==>
        state == Stopped && shutdownCallback == None && !reaperScheduled
        && effects == (if old(reaperScheduled) then [CancelReaper] else []) + [ShutdownSuccess(callback)]
        && checkedOut == 0 && inHand == 0 && creating == 0 && destroying == 0 && lostSlots == 0
      ensures old(state) == Running && lostSlots > 0 ==> state == ShuttingDown
      ensures old(state) == Running && !(waiters.Size() == 0 && |idle| == poolSize) ==>
        state == ShuttingDown && shutdownCallback == Some(callback)
        && reaperScheduled == old(reaperScheduled) && effects == []
    {
      if state != Running {
        effects := [ShutdownError(callback, IllegalState(state))];
        return;
      }
      state := ShuttingDown;
      shutdownCallback := Some(callback);
      var done := CheckShutdownComplete();
      effects := [];
      if done.Some? {
        effects := FinishShutdown(done.value);
      }
    }

    /** reap(idle, idleTimeout): takes from the idle head the entries idle
        since before `now - idleTimeout`, at most poolSize - minSize of
        them, counting each as a timeout; they are held for destruction. */
    method Reap(now: int) returns (reaped: seq<T>)
      requires Valid()
      modifies this`idle, this`totalTimeout, this`inHand
      ensures Valid()
      ensures inHand == old(inHand) + |reaped|
      ensures var k := ReapCount(old(idle), now - idleTimeout, poolSize - minSize);
        && reaped == Objects(old(idle)[..k])
        && idle == old(idle)[k..]
        && totalTimeout == old(totalTimeout) + k
    {
      var n;
      reaped, n := TakeExpired(idle, now - idleTimeout, poolSize - minSize);
      idle := idle[n..];
      totalTimeout := totalTimeout + n;
      inHand := inHand + n;
    }

    /** timeoutObjects(): the reaper's periodic task, run only while it is
        scheduled; every reaped object is destroyed as not bad. */
    method TimeoutObjects(now: int) returns (effects: seq<Effect<T>>)
      requires Valid() && reaperScheduled
      modifies this`idle, this`totalTimeout, this`totalBadDestroyed, this`inHand, this`destroying
      ensures Valid()
      ensures totalBadDestroyed == old(totalBadDestroyed) && inHand == old(inHand)
      ensures destroying == old(destroying) + |effects|
      ensures var k := ReapCount(old(idle), now - idleTimeout, poolSize - minSize);
        && idle == old(idle)[k..]
        && totalTimeout == old(totalTimeout) + k
        && |effects| == k
        && forall i :: 0 <= i < k ==> effects[i] == Destroy(old(idle)[i].obj, false)
    {
      var reaped := Reap(now);
      ghost var idleAfter, timeoutsAfter, destroyingAfter := idle, totalTimeout, destroying;
      effects := [];
      for i := 0 to |reaped|
        invariant Valid()
        invariant inHand == old(inHand) + |reaped| - i && destroying == destroyingAfter + i
        invariant totalBadDestroyed == old(totalBadDestroyed)
        invariant idle == idleAfter && totalTimeout == timeoutsAfter
        invariant |effects| == i
        invariant forall j :: 0 <= j < i ==> effects[j] == Destroy(reaped[j], false)
      {
        var destroyed := DestroyBegin(reaped[i], false);
        effects := effects + destroyed;
      }
    }
  }

  /** A pool with minSize 1 and maxSize 1 starts one creation and the
      LifeCycle fails it; shutdown() then waits for an object that will
      never exist, and by LostSlotBlocksShutdown no later call completes
      it. */
  method FailedCreationStallsShutdown() returns (p: AsyncPoolImpl<int>)
    ensures p.Valid() && p.state == ShuttingDown && p.lostSlots == 1
    ensures |p.idle| < p.poolSize
  {
    p := new AsyncPoolImpl(1, 1, 5, 0, LRU);
    var thrown, effects := p.Start();
    effects := p.CreateFailed(Plain);
    effects := p.Shutdown(7);
    p.LostSlotBlocksShutdown();
  }

  /** With the corrected error handler, the same kind of failure does not
      stall shutdown: a pool with minSize 0 queues a get(), which requests
      a creation; the get is cancelled, the creation fails and its slot is
      given back without a replacement, so shutdown() stops the pool at
      once. */
  method ReconciledFailureLetsShutdownFinish() returns (p: AsyncPoolImpl<int>)
    ensures p.Valid() && p.state == Stopped && p.lostSlots == 0
    ensures p.poolSize == 0 && p.totalCreateErrors == 1
  {
    p := new AsyncPoolImpl(1, 0, 5, 0, LRU);
    var thrown, effects := p.Start();
    var r;
    r, effects := p.Get(3, 0, _ => true);
    var cancelled := p.Cancel(Some(r.handle));
    effects := p.CreateFailedReconciled(Plain);
    effects := p.Shutdown(7);
  }
}
