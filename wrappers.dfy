/** Option and Result: the model's stand-ins for `null` and for a thrown `Error`. */
module Wrappers {

  /** A value that may be absent (`T | null` in the source). */
  datatype Option<+T> = None | Some(value: T)

  /** The outcome of a step that may throw: the thrown error is carried as its message text. */
  datatype Result<+R> = Success(value: R) | Failure(error: string)
}
