/** Failure-carrying values: `Option` for a parse that may not succeed and
    `Result` for an operation that may throw. */
module Outcomes {

  datatype Option<+T> = None | Some(value: T)

  datatype Result<+T, +E> = Ok(value: T) | Err(error: E)
}
