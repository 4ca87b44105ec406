/** The `Option` and `Result` datatypes used throughout the model: an
    optional value (a JavaScript `undefined`-able field) and a value-or-error
    result (a call that may throw). */
module Wrappers {

  datatype Option<+T> = None | Some(value: T)

  datatype Result<+R, +E> = Success(value: R) | Failure(error: E)
}
