/** Values shared by the whole model: optional values, results, and the
    exceptions the pool and its callbacks raise or hand to callbacks. */
module Errors {

  datatype Option<+T> = None | Some(value: T)

  datatype Result<+R, +E> = Success(value: R) | Failure(error: E)

  /** The lifecycle states of a pool (AsyncPoolImpl.State). */
  datatype PoolState = NotYetStarted | Running | ShuttingDown | Stopped

  /** The exceptions the core raises or passes to an onError, as tags.
      `External` stands for an error produced by code outside the model
      (a LifeCycle implementation, a user callback), told apart by an id. */
  datatype Throwable =
    | IllegalState(state: PoolState)   // IllegalStateException naming the pool state
    | AlreadyInvoked                   // IllegalStateException: callback already invoked
    | IllegalArgument
    | NullPointer
    | SizeLimitExceeded
    | Execution(cause: Throwable)
    | Timeout
    | Plain
    | External(id: nat)
}
