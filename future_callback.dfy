/** FutureCallback: a callback that is also a Future, whose result cell is
    set once.  The done latch of count one is `doneCount`; a wait on it that
    would block is reported as `None` (no other thread runs during a call
    here, so a latch that is not yet open never opens during the call). */
module Futures {
  import opened Errors

  /** The private Result record: a success with its value or an error with
      its Throwable. */
  datatype FutureResult<T> = Succeeded(value: T) | Errored(ex: Throwable)

  /** unwrapResultRaw(): the recorded value, or the recorded error thrown. */
  function UnwrapResultRaw<T>(r: FutureResult<T>): (u: Result<T, Throwable>)
    ensures u.Success? <==> r.Succeeded?
    ensures u.Success? ==> u.value == r.value
    ensures u.Failure? ==> u.error == r.ex
  {
    match r
    case Succeeded(v) => Success(v)
    case Errored(ex) => Failure(ex)
  }

  /** unwrapResult(): whatever unwrapResultRaw() throws comes back wrapped
      in an ExecutionException. */
  function UnwrapResult<T>(r: FutureResult<T>): (u: Result<T, Throwable>)
    ensures u.Success? <==> r.Succeeded?
    ensures u.Success? ==> u.value == r.value
    ensures u.Failure? ==> u.error == Execution(r.ex)
  {
    var raw := UnwrapResultRaw(r);
    if raw.Success? then Success(raw.value) else Failure(Execution(raw.error))
  }

  class FutureCallback<T> {
    var result: Option<FutureResult<T>>
    /** The count of the done latch, created at one. */
    var doneCount: nat

    ghost predicate Valid()
      reads this
    {
      doneCount == if result.None? then 1 else 0
    }

    constructor ()
      ensures Valid() && result == None
    {
      result := None;
      doneCount := 1;
    }

    /** isDone(): the latch has been counted down. */
    function IsDone(): (d: bool)
      requires Valid()
      reads this
      ensures d <==> result.Some?
    {
      doneCount == 0
    }

    /** get(): waits for the latch, then unwraps the result; `None` when
        the wait would block. */
    function Get(): (r: Option<Result<T, Throwable>>)
      requires Valid()
      reads this
      ensures r.None? <==> result.None?
      ensures r.Some? ==> r.value == UnwrapResult(result.value)
    {
      if doneCount != 0 then None else Some(UnwrapResult(result.value))
    }

    /** get(timeout, unit): a TimeoutException when the latch is still
        closed, otherwise as get(). */
    function GetTimed(): (r: Result<T, Throwable>)
      requires Valid()
      reads this
      ensures result.None? ==> r == Failure(Timeout)
      ensures result.Some? ==> Get() == Some(r)
    {
      if doneCount != 0 then Failure(Timeout) else UnwrapResult(result.value)
    }

    /** cancel(mayInterruptIfRunning): cancellation is not supported. */
    method Cancel(mayInterruptIfRunning: bool) returns (cancelled: bool)
      ensures !cancelled
    {
      cancelled := false;
    }

    /** isCancelled(): never. */
    function IsCancelled(): (cancelled: bool)
      ensures !cancelled
    {
      false
    }

    /** safeSetValue(r): a compare-and-set from null; a second value is
        refused with IllegalStateException and the first one stays. */
    method SafeSetValue(r: FutureResult<T>) returns (thrown: Option<Throwable>)
      modifies this`result
      ensures old(result).None? ==> thrown == None && result == Some(r)
      ensures old(result).Some? ==> thrown == Some(AlreadyInvoked) && result == old(result)
    {
      if result.Some? {
        return Some(AlreadyInvoked);
      }
      result := Some(r);
      thrown := None;
    }

    /** doneLatch.countDown(): an open latch stays open. */
    method CountDown()
      modifies this`doneCount
      ensures doneCount == if old(doneCount) > 0 then old(doneCount) - 1 else 0
    {
      if doneCount > 0 {
        doneCount := doneCount - 1;
      }
    }

    /** onError(e): a null error is refused with NullPointerException
        before anything is recorded; otherwise the first completion is
        recorded as an error and opens the latch. */
    method OnError(e: Option<Throwable>) returns (thrown: Option<Throwable>)
      requires Valid()
      modifies this
      ensures Valid()
      ensures e.None? ==> thrown == Some(NullPointer) && unchanged(this)
      ensures e.Some? && old(result).None? ==> thrown == None && Get() == Some(Failure(Execution(e.value)))
      ensures e.Some? && old(result).Some? ==> thrown == Some(AlreadyInvoked) && unchanged(this)
    {
      if e.None? {
        return Some(NullPointer);
      }
      thrown := SafeSetValue(Errored(e.value));
      if thrown.Some? {
        return;
      }
      CountDown();
    }

    /** onSuccess(v): the first completion is recorded as a success and
        opens the latch; a later one is refused and changes nothing. */
    method OnSuccess(v: T) returns (thrown: Option<Throwable>)
      requires Valid()
      modifies this
      ensures Valid()
      ensures old(result).None? ==> thrown == None && Get() == Some(Success(v))
      ensures old(result).Some? ==> thrown == Some(AlreadyInvoked) && unchanged(this)
    {
      thrown := SafeSetValue(Succeeded(v));
      if thrown.Some? {
        return;
      }
      CountDown();
    }
  }
}
