/** Option for a value that may be absent (a missing CSV cell, a missing
    session key), and Result for a computation that may raise. */
module Wrappers {

  datatype Option<T> = None | Some(value: T)

  datatype Result<T> = Success(value: T) | Failure(error: string)
}
