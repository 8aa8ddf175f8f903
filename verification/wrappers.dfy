/** The `Option` and `Result` types used across the model: `Option` stands for
    Python's "-1 / None" sentinels, `Result` for a value or a raised error. */
module Wrappers {

  datatype Option<+T> = None | Some(value: T)

  datatype Result<+R, +E> = Success(value: R) | Failure(error: E)
}
