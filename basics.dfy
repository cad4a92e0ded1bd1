/** Small value types shared by the rest of the model. */
module Basics {

  /** An optional value, as Rust's `Option`. */
  datatype Option<+T> = None | Some(value: T)

  /** A value or an error, as Rust's `Result`. */
  datatype Result<+T, +E> = Ok(value: T) | Err(error: E)

  /** An unsigned 8-bit value, as Rust's `u8`. */
  newtype byte = x: int | 0 <= x < 256
}
