/** Option (SQL NULL / None) and Result (an operation that raises). */
module Wrappers {

  /** A nullable value: SQL NULL / Python None is `None`. */
  datatype Option<+T> = None | Some(value: T)

  /** The outcome of an operation that raises on failure. */
  datatype Result<+R, +E> = Success(value: R) | Failure(error: E)
}
