/** Small failure-carrying datatypes used for the model's error paths. */
module Wrappers {

  /** A value that may be missing (the source's `null` / `undefined`). */
  datatype Option<+T> = None | Some(value: T)

  /** The outcome of an operation that can be refused. */
  datatype Result<+T, +E> = Ok(value: T) | Err(error: E)
}
