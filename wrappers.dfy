/** Option and Result wrappers shared by the bundling modules. */
module Wrappers {

  /** An optional value: JavaScript's `undefined` is `None`. */
  datatype Option<+T> = None | Some(value: T)

  /** The outcome of an operation that may reject with an error. */
  datatype Result<+R, +E> = Success(value: R) | Failure(error: E)
}
