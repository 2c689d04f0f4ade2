/** Failure-carrying datatypes shared by the model. */
module Wrappers {

  /** A value that may be absent: a missing file, a key string that does not parse. */
  datatype Option<+T> = None | Some(value: T)

  /** The outcome of a host step that may throw instead of returning. */
  datatype Result<+T, +E> = Success(value: T) | Failure(error: E)
}
