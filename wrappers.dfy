/** Value-or-error wrappers shared by every module of the model.
    - Option<T>: stout's `Option<T>` (Some or None).
    - Result<T, E>: stout's `Try<T>` (a value or an error).
    - Outcome<E>: stout's `Try<Nothing>` (success or an error). */
module Wrappers {

  datatype Option<+T> = None | Some(value: T)

  datatype Result<+T, +E> = Ok(value: T) | Err(error: E)

  datatype Outcome<+E> = Pass | Fail(error: E)
}
