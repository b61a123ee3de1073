/** Small shared vocabulary: optional values, results with an error, and Go's `byte`. */
module Basics {

  /** Go's `byte` (`uint8`). */
  newtype byte = x: int | 0 <= x < 256

  datatype Option<+T> = None | Some(value: T)

  /** A Go `(value, error)` pair where exactly one side is meaningful. */
  datatype Result<+T, +E> = Ok(value: T) | Err(error: E)
}
