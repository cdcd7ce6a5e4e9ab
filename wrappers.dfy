/** Failure-carrying results used where the C# code returns null or throws. */
module Wrappers {

  /** A value or nothing; stands for a nullable reference or a call that may throw. */
  datatype Option<+T> = None | Some(value: T)

  /** A value or the reason it could not be computed (the exception the C# code would throw). */
  datatype Result<+T, +E> = Ok(value: T) | Err(error: E)
}
