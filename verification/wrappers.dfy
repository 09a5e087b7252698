/** Small failure-compatible result types shared by the other modules. */
module Wrappers {

  /** A value that may be missing (JavaScript `null`). */
  datatype Option<+T> = None | Some(value: T)

  /** Either a value or an error. */
  datatype Result<+T, +E> = Ok(value: T) | Err(error: E)
}
