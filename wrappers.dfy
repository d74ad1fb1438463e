/**
 The two small wrappers the query operators return instead of the host
 language's `null` sentinel and thrown message strings.
 */
module Wrappers {

  /** `None` stands for the `null` that a search returns when nothing matches. */
  datatype Option<+T> = None | Some(value: T)

  /** `Failure(msg)` stands for an operator that throws the string `msg`. */
  datatype Result<+R, +E> = Success(value: R) | Failure(error: E)
}
