/** Small failure-compatible wrapper shared by the other modules. */
module Wrappers {

  /** A value that may be absent (Rust's `Option`). */
  datatype Option<+T> = None | Some(value: T)
}
