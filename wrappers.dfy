/** Small failure-carrying datatypes shared by the other modules. */
module Wrappers {

  /** A value that may be absent. In the argument parser, `None` stands for a
      JavaScript slot that is still `null` or was assigned `undefined`. */
  datatype Option<+T> = None | Some(value: T)

  /** The outcome of an operation that either yields a value or throws. */
  datatype Result<+T, +E> = Success(value: T) | Failure(error: E)
}
