/** Option and Result values: the model's stand-ins for Kotlin's nullable returns,
    java.util.Optional, and thrown exceptions. */
module Wrappers {

  /** `null` / `Optional.empty()` versus a present value. */
  datatype Option<+T> = None | Some(value: T)

  /** A normal return versus a thrown exception. */
  datatype Result<+T, +E> = Ok(value: T) | Err(error: E)
}
