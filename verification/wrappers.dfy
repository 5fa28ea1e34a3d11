/** Failure-compatible wrappers shared by the other modules: `Option` stands
    for a JavaScript value that may be `undefined`, `Result` for a computation
    that may throw. */
module Wrappers {

  datatype Option<+T> = None | Some(value: T)

  datatype Result<+R, +E> = Success(value: R) | Failure(error: E)
}
