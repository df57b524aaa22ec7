/** Failure-carrying values shared by every module: the C++ library reports
    errors by throwing, and the model returns the exception instead. */
module Wrappers {

  /** The exception types the library throws. */
  datatype Exception =
    | RuntimeError      // std::runtime_error (capacity exhausted)
    | OutOfRange        // std::out_of_range
    | OverflowError     // ntl::overflow_error
    | DivideByZero      // a division by zero (a hardware trap in C++)
    | BadStorageAccess  // ntl::bad_storage_access

  datatype Option<+T> = None | Some(value: T)

  /** The value of an operation that either returns or throws. */
  datatype Result<+T> = Ok(value: T) | Err(error: Exception)

  /** The value of an operation returning void that may throw. */
  datatype Outcome = Pass | Fail(error: Exception)
}
