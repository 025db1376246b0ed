/** Failure-carrying values: `Option` for the builder's internal `Option<Tree>`
    and `Result` for the panics of the public constructor. */
module Wrappers {

  datatype Option<+T> = None | Some(value: T)

  datatype Result<+R, +E> = Success(value: R) | Failure(error: E)
}
