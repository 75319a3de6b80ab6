/** Optional values and results that are either a value or an error, standing in for Go's
    nil pointers and (value, error) return pairs. */
module Outcomes {

  datatype Option<+T> = None | Some(value: T)

  datatype Result<+T, +E> = Success(value: T) | Failure(error: E)
}
