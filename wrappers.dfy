/** Optional values, results and outcomes: the model's stand-ins for Java's
    null / Optional and for checked exceptions. */
module Wrappers {

  /** `null` or `Optional.empty()` versus a present value. */
  datatype Option<+T> = None | Some(value: T)

  /** A value, or the exception that was raised instead. */
  datatype Result<+R, +E> = Success(value: R) | Failure(error: E)

  /** A `void` operation: it returned normally, or it raised an exception. */
  datatype Outcome<+E> = Pass | Fail(error: E)
}
