/** Wrappers shared by the modules of this model:
    `Option` for Python's `None`-or-value results and `Result` for a value
    or the message of an exception that was raised instead. */
module Wrappers {

  datatype Option<+T> = None | Some(value: T)

  datatype Result<+R, +E> = Success(value: R) | Failure(error: E)
}
