/** The option and result types shared by the whole model. */
module Wrappers {

  /** Rust's `Option`. */
  datatype Option<+T> = None | Some(value: T)

  /** Rust's `Result`: a construction panic or a lookup error is a `Failure`. */
  datatype Result<+R, +E> = Success(value: R) | Failure(error: E)
}
