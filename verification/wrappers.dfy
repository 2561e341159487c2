/** Failure-carrying wrappers used across the model. */
module Wrappers {

  /** An optional value; stands for Python's `Optional[...]` / `None`. */
  datatype Option<+T> = None | Some(value: T)

  /** The outcome of an operation that may raise: `Err` stands for the raised exception. */
  datatype Result<+T, +E> = Ok(value: T) | Err(error: E)
}
