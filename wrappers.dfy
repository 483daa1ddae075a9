/** Failure-carrying values shared by every module: a Go nil pointer or a missing
    optional field is `None`, a Go `(value, error)` pair is a `Result`. */
module Wrappers {

  datatype Option<+T> = None | Some(value: T)

  datatype Result<+T, +E> = Ok(value: T) | Err(error: E)

  /** Go's `int64`, used for offsets and session identifiers on the wire. */
  newtype int64 = x: int | -0x8000_0000_0000_0000 <= x < 0x8000_0000_0000_0000

  /** Go's `uint32`, used for node identifiers, issue codes, precision and scale. */
  newtype uint32 = x: int | 0 <= x < 0x1_0000_0000
}
