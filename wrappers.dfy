/// Option, Result and Outcome: the shapes used for null references, for
/// operations that can raise an exception and for checks that either pass or
/// raise one.
module Wrappers {

  datatype Option<+T> = None | Some(value: T)

  datatype Result<+T, +E> = Ok(value: T) | Err(error: E)

  datatype Outcome<+E> = Pass | Fail(error: E)
}
