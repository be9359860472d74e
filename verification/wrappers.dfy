/** The optional value and the value-or-error datatypes shared by the other modules. */
module Wrappers {

  /** An optional value; `None` stands for PHP's `false` sentinel. */
  datatype Option<+T> = None | Some(value: T)

  /** A value or the error that replaced it (a thrown exception in the source). */
  datatype Result<+R, +E> = Success(value: R) | Failure(error: E)
}
