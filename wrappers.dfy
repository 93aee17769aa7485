/** Option and Result, used for the optional device path, uninitialised
    values and the errors the script layer sees as exceptions. */
module Wrappers {
  datatype Option<+T> = None | Some(value: T)

  datatype Result<+T, +E> = Success(value: T) | Failure(error: E)
}
