/** Failure-carrying values shared by every module of the model: a missing value
    (the source's `null`) and an operation that either succeeds or raises an error. */
module Outcomes {

  /** A value that may be absent; `None` stands for a Java `null`. */
  datatype Option<+T> = None | Some(value: T)

  /** The outcome of an operation that can throw: its result, or the error it raises. */
  datatype Result<+T, +E> = Ok(value: T) | Err(error: E)
}
