/** Option and Result, for JavaScript's `undefined`/-1 answers and for the
    exceptions the chat monitor raises. */
module Wrappers {

  datatype Option<+T> = None | Some(value: T)

  datatype Result<+T, +E> = Success(value: T) | Failure(error: E)
}
