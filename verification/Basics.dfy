/** Result types shared by every component. */
module Results {
  datatype Option<+T> = None | Some(value: T)

  datatype Result<+T, +E> = Ok(value: T) | Err(error: E)
}

/** Bytes as the integers 0..255. */
module Octets {
  type octet = x: int | 0 <= x < 256
}
