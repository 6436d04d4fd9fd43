/** Failure-carrying results for the operations of the toolkit that throw a C++ exception. */
module Wrappers {

  /** `Failure(message)` stands for an exception that escapes the modelled function. */
  datatype Result<+T> = Success(value: T) | Failure(message: string)
}
