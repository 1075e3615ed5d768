/** The outcome types the pipeline stages return: a lookup that may find nothing, and a
    stage that either produces its value or reports the error the library would raise. */
module Outcomes {

  /** Some/None, used for lookups that may find nothing. */
  datatype Option<+T> = None | Some(value: T)

  /** A stage either produces a value or carries the error the library would raise. */
  datatype Result<+R, +E> = Success(value: R) | Failure(error: E)
}
