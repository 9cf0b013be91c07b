/** Failure-carrying wrappers used across the model: `Option` for values that
    JavaScript leaves `null`/`undefined`, `Result` for operations that throw. */
module Wrappers {

  datatype Option<T> = None | Some(value: T)

  datatype Result<T, E> = Success(value: T) | Failure(error: E)
}
