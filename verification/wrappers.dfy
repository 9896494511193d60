/** Failure-carrying values used by the converter: `Option` for lookups that
    may find nothing, `Result` for steps that abort the conversion. */
module Wrappers {

  datatype Option<+T> = None | Some(value: T)

  datatype Result<+T, +E> = Success(value: T) | Failure(error: E)
}
