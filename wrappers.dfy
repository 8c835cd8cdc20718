/** Failure-carrying values used across the model: Python's `None` and a raised exception. */
module Wrappers {

  /** An optional value; `None` stands for Python's `None`. */
  datatype Option<+T> = None | Some(value: T)

  /** Either a value or the error the source would raise instead of returning. */
  datatype Result<+T, +E> = Ok(value: T) | Err(error: E)
}
