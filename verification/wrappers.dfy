/** Optional values and results of operations that can throw. */
module Wrappers {

  datatype Option<T> = None | Some(value: T)

  /** A computation that either produced a value or threw an exception with a message. */
  datatype Result<T> = Success(value: T) | Failure(error: string)
  {
    predicate IsFailure() {
      Failure?
    }

    function PropagateFailure<U>(): Result<U>
      requires Failure?
    {
      Failure(error)
    }

    function Extract(): T
      requires Success?
    {
      value
    }
  }
}
