/** SimpleCreateLatch: the creation limiter.  It runs creation tasks with at
    most `maxRunningTasks` in flight and, while its period is non-zero,
    dispatches queued tasks one at a time through a delayed dispatch.

    The executor's scheduled future is modelled by `scheduled`: None when no
    dispatch is outstanding, Some(d) when one was scheduled to fire after
    `d` milliseconds.  A dispatch firing is the method `Dispatch`; what
    `task.cancel(false)` and `task.getDelay` answer are parameters of
    `SetPeriod`.  Running a task is reported to the caller, who then calls
    the task; the task later calls `OnDone`. */
module CreateLatches {
  import opened Errors

  /** The clamp `min(maxPeriod, max(minPeriod, ms))` applied to every
      requested period. */
  function ClampPeriod(ms: int, minPeriod: int, maxPeriod: int): (r: int)
    ensures r <= maxPeriod
    ensures minPeriod <= maxPeriod ==> minPeriod <= r
    ensures minPeriod <= ms <= maxPeriod ==> r == ms
    ensures ms < minPeriod ==> r == if minPeriod <= maxPeriod then minPeriod else maxPeriod
    ensures maxPeriod < ms ==> r == maxPeriod
  {
    var atLeastMin := if minPeriod < ms then ms else minPeriod;
    if maxPeriod < atLeastMin then maxPeriod else atLeastMin
  }

  /** The delay of a dispatch rescheduled after a period change: what is
      left of the new period once the time the cancelled dispatch had
      already waited (`oldPeriod - remaining`) is counted, and zero when
      that is used up. */
  function AdjustedDelay(newPeriod: int, oldPeriod: int, remaining: int): (r: int)
    ensures r >= 0
    ensures r == 0 || r + (oldPeriod - remaining) == newPeriod
    ensures oldPeriod - remaining <= newPeriod ==> r + (oldPeriod - remaining) == newPeriod
    ensures 0 <= newPeriod && remaining <= oldPeriod ==> r <= newPeriod
  {
    var elapsed := oldPeriod - remaining;
    if newPeriod - elapsed > 0 then newPeriod - elapsed else 0
  }

  class SimpleCreateLatch<Task> {
    const maxPeriod: int
    const minPeriod: int
    const maxRunningTasks: int
    var period: int
    var runningTasks: int
    /** Tasks submitted but not yet dispatched, oldest first. */
    var pendingTasks: seq<Task>
    /** The outstanding dispatch, with the delay it was scheduled for. */
    var scheduled: Option<int>

    /** The limiter's invariant: the running count never passes its cap,
        and a queued task that could run always has a dispatch on the way. */
    ghost predicate Valid()
      reads this
    {
      && runningTasks <= (if maxRunningTasks < 0 then 0 else maxRunningTasks)
      && (pendingTasks != [] && runningTasks < maxRunningTasks ==> scheduled.Some?)
    }

    constructor (maxPeriod: int, minPeriod: int, maxRunningTasks: int)
      ensures Valid()
      ensures this.maxPeriod == maxPeriod && this.minPeriod == minPeriod
      ensures this.maxRunningTasks == maxRunningTasks
      ensures period == 0 && runningTasks == 0 && pendingTasks == [] && scheduled == None
    {
      this.maxPeriod := maxPeriod;
      this.minPeriod := minPeriod;
      this.maxRunningTasks := maxRunningTasks;
      period := 0;
      runningTasks := 0;
      pendingTasks := [];
      scheduled := None;
    }

    /** schedule(delay): creates a dispatch only when none is outstanding,
        capacity remains and a task is queued. */
    method Schedule(delay: int)
      modifies this`scheduled
      ensures old(scheduled).Some? ==> scheduled == old(scheduled)
      ensures scheduled == if old(scheduled).None? && runningTasks < maxRunningTasks && pendingTasks != []
                           then Some(delay) else old(scheduled)
      ensures pendingTasks != [] && runningTasks < maxRunningTasks ==> scheduled.Some?
    {
      if runningTasks < maxRunningTasks && pendingTasks != [] && scheduled.None? {
        scheduled := Some(delay);
      }
    }

    /** submit(t): runs `t` at once (`runNow`) when the period is zero,
        nothing is queued and capacity remains; otherwise queues it. */
    method Submit(t: Task) returns (runNow: bool)
      requires Valid()
      modifies this
      ensures Valid()
      ensures runNow <==> old(period) == 0 && old(pendingTasks) == [] && old(runningTasks) < maxRunningTasks
      ensures runNow ==> runningTasks == old(runningTasks) + 1 && pendingTasks == old(pendingTasks)
                         && scheduled == old(scheduled)
      ensures !runNow ==> runningTasks == old(runningTasks) && pendingTasks == old(pendingTasks) + [t]
      ensures period == old(period)
      ensures old(scheduled).Some? ==> scheduled == old(scheduled)
      ensures old(scheduled).None? && !runNow ==>
        scheduled == if runningTasks < maxRunningTasks then Some(period) else None
    {
      if period == 0 && pendingTasks == [] && runningTasks < maxRunningTasks {
        runningTasks := runningTasks + 1;
        runNow := true;
      } else {
        pendingTasks := pendingTasks + [t];
        Schedule(period);
        runNow := false;
      }
    }

    /** The `latch` runnable, run when the outstanding dispatch fires: it
        clears the dispatch, starts the oldest queued task if capacity
        remains, and schedules the next dispatch.  Only an outstanding
        dispatch fires. */
    method Dispatch() returns (started: Option<Task>)
      requires Valid() && scheduled.Some?
      modifies this
      ensures Valid()
      ensures started.Some? <==> old(runningTasks) < maxRunningTasks && old(pendingTasks) != []
      ensures started.Some? ==> started.value == old(pendingTasks)[0] && pendingTasks == old(pendingTasks)[1..]
                                && runningTasks == old(runningTasks) + 1
      ensures started.None? ==> pendingTasks == old(pendingTasks) && runningTasks == old(runningTasks)
      ensures scheduled == if runningTasks < maxRunningTasks && pendingTasks != [] then Some(period) else None
      ensures period == old(period)
    {
      scheduled := None;
      if runningTasks < maxRunningTasks && pendingTasks != [] {
        runningTasks := runningTasks + 1;
        started := Some(pendingTasks[0]);
        pendingTasks := pendingTasks[1..];
      } else {
        started := None;
      }
      Schedule(period);
    }

    /** The done-callback handed to every task: one task fewer is running,
        and a dispatch is scheduled if one can now proceed. */
    method OnDone()
      requires Valid()
      modifies this
      ensures Valid()
      ensures runningTasks == old(runningTasks) - 1
      ensures pendingTasks == old(pendingTasks) && period == old(period)
      ensures old(scheduled).Some? ==> scheduled == old(scheduled)
      ensures old(scheduled).None? ==>
        scheduled == if runningTasks < maxRunningTasks && pendingTasks != [] then Some(period) else None
    {
      runningTasks := runningTasks - 1;
      Schedule(period);
    }

    /** setPeriod(ms): stores the clamped period; when it differs from the
        current one and tasks are queued, an outstanding dispatch is
        cancelled (`cancelled` is what `task.cancel(false)` answers,
        `remaining` what `task.getDelay` answers) and rescheduled with the
        delay left of the new period, or a dispatch is scheduled for the new
        period when none was outstanding. */
    method SetPeriod(ms: int, cancelled: bool, remaining: int)
      requires Valid()
      modifies this
      ensures Valid()
      ensures var p := ClampPeriod(ms, minPeriod, maxPeriod);
        if p == old(period) then
          period == old(period) && scheduled == old(scheduled)
        else
          period == p &&
          scheduled ==
            if old(pendingTasks) == [] then old(scheduled)
            else if old(scheduled).None? then
              (if runningTasks < maxRunningTasks then Some(p) else None)
            else if !cancelled then old(scheduled)
            else if runningTasks < maxRunningTasks then Some(AdjustedDelay(p, old(period), remaining))
            else None
      ensures pendingTasks == old(pendingTasks) && runningTasks == old(runningTasks)
    {
      var p := ClampPeriod(ms, minPeriod, maxPeriod);
      if p != period {
        var previous := period;
        period := p;
        if pendingTasks != [] && (scheduled.None? || cancelled) {
          var adjustPeriod := period;
          if scheduled.Some? {
            adjustPeriod := AdjustedDelay(period, previous, remaining);
            scheduled := None;
          }
          Schedule(adjustPeriod);
        }
      }
    }

    /** incrementPeriod(): its body is empty, so nothing changes. */
    method IncrementPeriod()
      requires Valid()
      ensures Valid()
      ensures unchanged(this)
    {
    }

    /** cancelPendingTasks(): drains the queue and returns every task not
        yet dispatched, in submission order. */
    method CancelPendingTasks() returns (cancelledTasks: seq<Task>)
      requires Valid()
      modifies this`pendingTasks
      ensures Valid()
      ensures cancelledTasks == old(pendingTasks) && pendingTasks == []
    {
      cancelledTasks := [];
      while pendingTasks != []
        invariant cancelledTasks + pendingTasks == old(pendingTasks)
        decreases |pendingTasks|
      {
        cancelledTasks := cancelledTasks + [pendingTasks[0]];
        pendingTasks := pendingTasks[1..];
      }
    }
  }
}
