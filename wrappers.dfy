/** Failure-carrying results used by the importer model. */
module Wrappers {

  datatype Option<+T> = None | Some(value: T)

  datatype Result<+T, +E> = Success(value: T) | Failure(error: E)

  /** A step that either completes or aborts with an error and no value. */
  datatype Outcome<+E> = Pass | Fail(error: E)
}
