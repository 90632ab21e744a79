/**
 Failure-carrying values used throughout the model.
 - Option<T>: Python's `None` or a value.
 - Result<T>: a computation that either returns a value or raises an exception.
 */
module Outcome {

  datatype Option<+T> = None | Some(value: T)

  /** `Raised` stands for any exception escaping the call; its payload is never inspected. */
  datatype Result<+T> = Ok(value: T) | Raised
}
