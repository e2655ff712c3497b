/** Option and Result, the shapes the Rust source uses for absent values and failures. */
module Wrappers {

  datatype Option<+T> = None | Some(value: T)

  /** A failure carries the message the source panics or errors with. */
  datatype Result<+T> = Ok(value: T) | Err(message: string)
}
