/** Failure-carrying result types shared by the parser's modules. */
module Wrappers {

  /** A value that may be absent; stands for a C pointer that may be NULL. */
  datatype Option<+T> = None | Some(value: T)

  /** Either a computed value or the reason the computation gave up. */
  datatype Result<+R, +E> = Success(value: R) | Failure(error: E)
}
