/**
 * Optional values, the model's stand-in for `undefined` / `null` results,
 * and results that are either a value or a thrown error.
 */
module Wrappers {

  datatype Option<+T> = None | Some(value: T)

  datatype Result<+T, +E> = Success(value: T) | Failure(error: E)
}
