/** Small failure-carrying datatypes shared by the other modules. */
module Wrappers {

  /** An optional value: stands for a nullable pointer or an iterator that may be `end()`. */
  datatype Option<+T> = None | Some(value: T)

  /** The outcome of an operation that either succeeds or raises an error. */
  datatype Outcome<+E> = Pass | Fail(error: E)
}
