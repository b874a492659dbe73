/** Failure-carrying result types shared by the layers of the model. */
module Wrappers {

  /** An optional value: `null` in the source becomes `None`. */
  datatype Option<+T> = None | Some(value: T)

  /** The outcome of an operation that either returns a value or throws an error. */
  datatype Result<+T, +E> = Ok(value: T) | Err(error: E)
}
