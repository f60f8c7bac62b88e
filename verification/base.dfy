/** Failure-carrying wrappers used across the model: `Option` stands for a
    JavaScript value that may be `null`/`undefined`, `Result` for an operation
    that may throw. */
module Base {

  datatype Option<+T> = None | Some(value: T)

  datatype Result<+R, +E> = Success(value: R) | Failure(error: E)
}
