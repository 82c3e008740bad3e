/** Failure-carrying datatypes shared by the pipeline model. */
module Wrappers {

  /** A value that may be absent (a parse that failed, a pattern that did not match). */
  datatype Option<+T> = None | Some(value: T)

  /** The outcome of calling an external service that may raise an exception:
      either the value it returned or the fact that it raised. */
  datatype Attempt<+T> = Returned(value: T) | Raised
}
