/** Option and Result values used for the node's error paths, and the byte type. */
module Wrappers {

  datatype Option<+T> = None | Some(value: T)

  /** The outcome of a step that may throw: the value, or the error's message. */
  datatype Result<+T, +E> = Ok(value: T) | Err(error: E)

  /** One octet of a Node.js Buffer. */
  type uint8 = x: int | 0 <= x < 256
}
