/** NoopCreateLatch: the create latch without a limit.  It keeps no state,
    so each of its operations is described by what it does with one call:
    the tasks it runs (with the done-callback it hands them) and the tasks
    it returns as cancelled. */
module NoopCreateLatches {
  /** The done-callback handed to a task: the shared NULL_CALLBACK. */
  datatype DoneCallback = NullDone

  /** A task run, with the done-callback it was handed. */
  datatype Run<Task> = Run(task: Task, done: DoneCallback)

  /** The calls the CreateLatch interface offers. */
  datatype LatchCall<Task> =
    | Submit(task: Task)
    | SetPeriod(period: int)
    | IncrementPeriod
    | CancelPendingTasks

  /** The answer to one call: the tasks run during it, and the tasks it
      returns as cancelled. */
  datatype Answer<Task> = Answer(runs: seq<Run<Task>>, cancelled: seq<Task>)

  /** What NULL_CALLBACK's onDone() sets off: no task is released. */
  function OnDone<Task>(d: DoneCallback): (runs: seq<Run<Task>>)
    ensures |runs| == 0
  {
    []
  }

  /** One call on the latch: submit runs the task at once, exactly once,
      handing it NULL_CALLBACK, whose onDone() releases nothing more;
      setPeriod and incrementPeriod do nothing; cancelPendingTasks returns
      an empty collection. */
  function Step<Task>(call: LatchCall<Task>): (a: Answer<Task>)
    ensures call.Submit? ==> a.runs == [Run(call.task, NullDone)]
    ensures !call.Submit? ==> a.runs == []
    ensures a.cancelled == []
  {
    match call
    case Submit(t) => Answer([Run(t, NullDone)] + OnDone(NullDone), [])
    case SetPeriod(_) => Answer([], [])
    case IncrementPeriod => Answer([], [])
    case CancelPendingTasks => Answer([], [])
  }

  /** The tasks submitted by `calls`, in order. */
  function Submitted<Task>(calls: seq<LatchCall<Task>>): (r: seq<Task>)
    ensures |r| <= |calls|
  {
    if calls == [] then []
    else Submitted(calls[..|calls| - 1]) + (if calls[|calls| - 1].Submit? then [calls[|calls| - 1].task] else [])
  }

  /** The answers to `calls`, gathered in order. */
  function Replay<Task>(calls: seq<LatchCall<Task>>): (a: Answer<Task>)
  {
    if calls == [] then Answer([], [])
    else
      var before := Replay(calls[..|calls| - 1]);
      var last := Step(calls[|calls| - 1]);
      Answer(before.runs + last.runs, before.cancelled + last.cancelled)
  }

  /** Over any sequence of calls, the latch runs exactly the submitted
      tasks, in submission order, each once with NULL_CALLBACK, and never
      returns a cancelled task: nothing is ever held back. */
  lemma {:induction false} ReplayRunsEverySubmit<Task>(calls: seq<LatchCall<Task>>)
    ensures var a := Replay(calls);
      && |a.runs| == |Submitted(calls)|
      && (forall i :: 0 <= i < |a.runs| ==> a.runs[i] == Run(Submitted(calls)[i], NullDone))
      && a.cancelled == []
  {
    if calls != [] {
      ReplayRunsEverySubmit(calls[..|calls| - 1]);
    }
  }
}
