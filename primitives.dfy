/** Machine types and the two sum types the bridge's Rust code relies on. */
module Primitives {

  /** One octet of a Kafka key or payload (Rust `u8`). */
  newtype byte = x: int | 0 <= x < 0x100

  /** Rust `u16`, the type of the routing field `YEAR`. */
  newtype u16 = x: int | 0 <= x < 0x1_0000

  /** Rust `Option<T>`. */
  datatype Option<+T> = None | Some(value: T)

  /** Rust `Result<T, E>`. */
  datatype Result<+T, +E> = Ok(value: T) | Err(error: E)
}
