/** Optional values and results with an error, as used across the model. */
module Wrappers {

  /** A value that may be absent (a JavaScript `undefined`, `null` or `NaN`). */
  datatype Option<+T> = None | Some(value: T)

  /** The outcome of an operation that the source lets throw. */
  datatype Result<+T> = Success(value: T) | Failure(error: string)
}
