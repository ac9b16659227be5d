/** Failure-compatible wrappers for the two shapes of fallible result the
    crate uses: `Option` (a request that may simply not be satisfiable) and
    `Result` (an operation that fails with an error kind). */
module Wrappers {

  datatype Option<+T> = None | Some(value: T)

  datatype Result<+R, +E> = Success(value: R) | Failure(error: E)
}
