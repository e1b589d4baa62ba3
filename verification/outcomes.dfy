/** Values produced by awaited calls, and optional values. */
module Outcomes {

  /** What one awaited call produced: the value it resolved to, or the error it threw. */
  datatype Outcome<+T, +E> = Success(value: T) | Failure(error: E)

  /** A value that may be absent, used for stages an upload never reached. */
  datatype Option<+T> = None | Some(value: T)
}
