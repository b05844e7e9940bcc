/** Failure-compatible wrappers shared by every module: a missing value
    (pandas NaN / Python None) and an operation that either succeeds or
    raises. */
module Base {

  datatype Option<+T> = None | Some(value: T)

  datatype Result<+T, +E> = Success(value: T) | Failure(error: E)
}
