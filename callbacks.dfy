/** MultiCallback and Callbacks: an N-of-N countdown that reports one
    outcome to the callback it wraps, and the do-nothing callback.  A call
    the aggregator receives and a call it makes on its original callback are
    both a `Completion`. */
module Callbacks {
  import opened Errors

  /** onSuccess(None) or onError(e). */
  datatype Completion = Succeeded | Errored(error: Throwable)

  /** The errors a sequence of completions hands over, in order. */
  function ErrorsOf(calls: seq<Completion>): (r: seq<Throwable>)
    ensures |r| <= |calls|
    ensures r == [] <==> forall i :: 0 <= i < |calls| ==> calls[i].Succeeded?
  {
    if calls == [] then []
    else
      var last := calls[|calls| - 1];
      ErrorsOf(calls[..|calls| - 1]) + (if last.Errored? then [last.error] else [])
  }

  /** The outcome checkDone() reports once `calls` have brought the count to
      zero: success when no error was recorded, otherwise an error carrying
      a fresh, plain Throwable (the recorded ones are not passed on). */
  function Downstream(calls: seq<Completion>): (r: Completion)
    ensures r == Succeeded <==> forall i :: 0 <= i < |calls| ==> calls[i].Succeeded?
    ensures r.Errored? ==> r.error == Plain
  {
    if ErrorsOf(calls) == [] then Succeeded else Errored(Plain)
  }

  /** What the aggregator created for `count` completions does on the last
      of `calls`: it reports only when that call takes the count to zero. */
  function FiredAt(count: int, calls: seq<Completion>): (r: Option<Completion>)
    ensures r.Some? <==> |calls| == count
  {
    if |calls| == count then Some(Downstream(calls)) else None
  }

  function OptionToSeq<X>(o: Option<X>): (r: seq<X>)
    ensures o.None? ==> r == []
    ensures o.Some? ==> r == [o.value]
  {
    if o.Some? then [o.value] else []
  }

  /** Every call the aggregator makes on its original callback over the
      whole sequence `calls`, in order. */
  function Fired(count: int, calls: seq<Completion>): (r: seq<Completion>)
  {
    if calls == [] then []
    else Fired(count, calls[..|calls| - 1]) + OptionToSeq(FiredAt(count, calls))
  }

  /** The original callback is called exactly once when `count` or more
      completions arrive and never before; the outcome depends only on the
      first `count` of them. */
  lemma {:induction false} FiresExactlyOnce(count: int, calls: seq<Completion>)
    requires count >= 1
    ensures |Fired(count, calls)| == (if |calls| >= count then 1 else 0)
    ensures |calls| >= count ==> Fired(count, calls) == [Downstream(calls[..count])]
  {
    if calls != [] {
      var init := calls[..|calls| - 1];
      FiresExactlyOnce(count, init);
      if |calls| == count {
        assert calls[..count] == calls;
      } else if |calls| > count {
        assert init[..count] == calls[..count];
      }
    }
  }

  /** The recorded errors grow by the error of each onError call. */
  lemma ErrorsOfAppend(calls: seq<Completion>, c: Completion)
    ensures ErrorsOf(calls + [c]) == ErrorsOf(calls) + (if c.Errored? then [c.error] else [])
  {
    assert (calls + [c])[..|calls|] == calls;
  }

  class MultiCallback {
    /** The callback the outcome is reported to. */
    const original: nat
    /** The number of completions the aggregator was created for. */
    const initial: int
    var count: int
    var exceptions: seq<Throwable>
    /** The completions received so far. */
    ghost var calls: seq<Completion>

    ghost predicate Valid()
      reads this
    {
      && initial >= 1
      && count == initial - |calls|
      && exceptions == ErrorsOf(calls)
    }

    constructor (count: int, original: nat)
      requires count >= 1
      ensures Valid() && calls == [] && this.initial == count && this.original == original
    {
      this.original := original;
      this.initial := count;
      this.count := count;
      this.exceptions := [];
      this.calls := [];
    }

    /** checkDone(): one decrement; reports when it reaches zero. */
    method CheckDone() returns (fired: Option<Completion>)
      modifies this`count
      ensures count == old(count) - 1
      ensures fired == (if count == 0 then Some(if exceptions == [] then Succeeded else Errored(Plain)) else None)
    {
      count := count - 1;
      fired := None;
      if count == 0 {
        if exceptions == [] {
          fired := Some(Succeeded);
        } else {
          fired := Some(Errored(Plain));
        }
      }
    }

    /** onError(e): records the error, then counts down.  A null error
        (`None`) is refused by the collection with NullPointerException
        before anything changes. */
    method OnError(e: Option<Throwable>) returns (thrown: Option<Throwable>, fired: Option<Completion>)
      requires Valid()
      modifies this
      ensures Valid()
      ensures e.None? ==> thrown == Some(NullPointer) && fired == None && unchanged(this)
      ensures e.Some? ==> thrown == None && calls == old(calls) + [Errored(e.value)]
      ensures e.Some? ==> exceptions == old(exceptions) + [e.value] && count == old(count) - 1
      ensures e.Some? ==> fired == FiredAt(initial, calls)
    {
      if e.None? {
        return Some(NullPointer), None;
      }
      ErrorsOfAppend(calls, Errored(e.value));
      exceptions := exceptions + [e.value];
      calls := calls + [Errored(e.value)];
      thrown := None;
      fired := CheckDone();
    }

    /** onSuccess(None): counts down. */
    method OnSuccess() returns (fired: Option<Completion>)
      requires Valid()
      modifies this
      ensures Valid()
      ensures calls == old(calls) + [Succeeded]
      ensures exceptions == old(exceptions) && count == old(count) - 1
      ensures fired == FiredAt(initial, calls)
    {
      ErrorsOfAppend(calls, Succeeded);
      calls := calls + [Succeeded];
      fired := CheckDone();
    }
  }

  /** new MultiCallback(count, original): refuses a count below one with
      IllegalArgumentException. */
  method NewMultiCallback(count: int, original: nat) returns (r: Result<MultiCallback, Throwable>)
    ensures count < 1 <==> r == Failure(IllegalArgument)
    ensures r.Success? ==> fresh(r.value) && r.value.Valid() && r.value.calls == []
    ensures r.Success? ==> r.value.initial == count && r.value.original == original
  {
    if count < 1 {
      return Failure(IllegalArgument);
    }
    var m := new MultiCallback(count, original);
    r := Success(m);
  }

  /** The callback countDown() hands back: the shared do-nothing callback,
      or a new aggregator for `count` completions. */
  datatype Handed = NullCallback | Aggregator(count: int)

  /** The calls the handed-back callback makes on the original callback
      over the completions `calls`: the do-nothing callback ignores every
      completion. */
  function Deliveries(h: Handed, calls: seq<Completion>): (r: seq<Completion>)
    ensures h.NullCallback? ==> r == []
  {
    match h
    case NullCallback => []
    case Aggregator(n) => Fired(n, calls)
  }

  /** countDown(callback, size): with size zero the callback succeeds at
      once (`fired`) and the do-nothing callback is returned; otherwise an
      aggregator for `size` completions, which refuses a negative size. */
  function CountDown(size: int): (r: Result<(Handed, Option<Completion>), Throwable>)
    ensures size < 0 <==> r.Failure?
    ensures r.Failure? ==> r.error == IllegalArgument
    ensures r.Success? && size == 0 ==> r.value.0 == NullCallback && r.value.1 == Some(Succeeded)
    ensures r.Success? && size > 0 ==> r.value.0 == Aggregator(size) && r.value.1 == None
  {
    if size == 0 then Success((NullCallback, Some(Succeeded)))
    else if size < 1 then Failure(IllegalArgument)
    else Success((Aggregator(size), None))
  }

  /** Whatever the size, once `size` completions have arrived the original
      callback has been called exactly once, with success exactly when none
      of those completions was an error. */
  lemma CountDownDeliversOnce(size: int, calls: seq<Completion>)
    requires CountDown(size).Success? && |calls| >= size
    ensures var (h, now) := CountDown(size).value;
      OptionToSeq(now) + Deliveries(h, calls) == [Downstream(calls[..size])]
    ensures var (h, now) := CountDown(size).value;
      |OptionToSeq(now) + Deliveries(h, calls)| == 1
  {
    if size > 0 {
      FiresExactlyOnce(size, calls);
    }
  }

  /** Before `size` completions have arrived, countDown's callback has not
      been called, unless the size was zero. */
  lemma CountDownWaits(size: int, calls: seq<Completion>)
    requires size >= 1 && |calls| < size
    ensures CountDown(size).Success?
    ensures Deliveries(CountDown(size).value.0, calls) == [] && CountDown(size).value.1 == None
  {
    FiresExactlyOnce(size, calls);
  }
}
