/** Failure-compatible wrappers shared by the drawing model. */
module Wrappers {

  /** An optional value; `None` stands for an absent reference or, for a
      position, the "+infinity" sentinel the component uses. */
  datatype Option<+T> = None | Some(value: T)

  /** The outcome of an operation that can throw in the component. */
  datatype Result<+T, +E> = Success(value: T) | Failure(error: E)
}
