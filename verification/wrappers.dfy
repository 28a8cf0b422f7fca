/** Failure-carrying result types shared by every request handler of the model. */
module Wrappers {

  /** A value that may be absent: a nullable column, a missing request
      parameter, a row that a lookup did not find. */
  datatype Option<+T> = None | Some(value: T)

  /** Either the value a request produced or the reason it was refused.
      A refused request carries no new state: the caller keeps the old one. */
  datatype Result<+T, +E> = Success(value: T) | Failure(error: E) {

    /** The value, or nothing for a refusal. */
    function ToOption(): Option<T> {
      if Success? then Some(value) else None
    }
  }
}
