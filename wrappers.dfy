/** Java's nullable references and thrown exceptions as datatypes: a
    reference that may be null is an Option, and a method that may throw
    returns a Result. */
module Wrappers {

  /** A Java reference that may be null. */
  datatype Option<+T> = None | Some(value: T)

  /** The outcome of a Java method that either returns normally or throws. */
  datatype Result<+T, +E> = Ok(value: T) | Err(error: E)
}
