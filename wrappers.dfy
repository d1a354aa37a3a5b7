/** Option and Result, used for absent bounds and for the two ways a call can fail. */
module Wrappers {

  /** A value that may be absent: `None` plays the role of a JavaScript `null` bound. */
  datatype Option<+T> = None | Some(value: T)

  /** The outcome of a call that can fail: `Err` stands for a thrown exception. */
  datatype Result<+T, +E> = Ok(value: T) | Err(error: E)
}
