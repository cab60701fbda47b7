/** Failure-carrying result types used across the model. */
module Wrappers {

  datatype Option<+T> = None | Some(value: T)

  /** Rust's `Result<(), E>`: `Pass` is `Ok(())`. */
  datatype Outcome<+E> = Pass | Fail(error: E)
}
