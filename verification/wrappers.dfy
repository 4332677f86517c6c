/** Failure-carrying wrappers: `Option` stands for PHP's nullable values, `Result` for a value or a thrown error. */
module Wrappers {

  datatype Option<+T> = None | Some(value: T)

  datatype Result<+T, +E> = Success(value: T) | Failure(error: E)
}
