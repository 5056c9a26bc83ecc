/** Option and Result, the failure-carrying datatypes the other modules use. */
module Wrappers {

  datatype Option<+T> = None | Some(value: T)

  datatype Result<+T, +E> = Ok(value: T) | Err(error: E)

  /** Unsigned 8-bit value, as `u8` in the source. */
  newtype byte = x: int | 0 <= x < 256
}
