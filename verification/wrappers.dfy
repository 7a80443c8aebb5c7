/** Option and Result, the failure-carrying wrappers used throughout the model.
    `Option` stands for Rust's `Option`; `Result` stands for an operation that
    either completes or would have panicked in the source. */
module Wrappers {

  datatype Option<+T> = None | Some(value: T)

  datatype Result<+T, +E> = Success(value: T) | Failure(error: E)
}
