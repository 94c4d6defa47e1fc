/** Option, Result and Outcome: the shapes used for Java's null and for its exceptions. */
module Wrappers {

  datatype Option<+T> = None | Some(value: T)

  /** A call that either returns a value or throws `error`. */
  datatype Result<+R, +E> = Ok(value: R) | Err(error: E)

  /** A void call that either completes or throws `error`. */
  datatype Outcome<+E> = Pass | Fail(error: E)
}
