/** Optional values and pass/fail outcomes, standing in for C#'s null references
    and for the exceptions a call may throw. */
module Wrappers {

  /** A value that may be absent (a C# reference that may be null). */
  datatype Option<+T> = None | Some(value: T)

  /** The outcome of a call that returns nothing but may fail with an error. */
  datatype Outcome<+E> = Pass | Fail(error: E)

  /** A value, or the error that prevented computing it. */
  datatype Result<+R, +E> = Success(value: R) | Failure(error: E)
}
