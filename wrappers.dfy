/** The success-or-failure wrapper used where the modelled code can read out of bounds. */
module Wrappers {
  datatype Result<+T, +E> = Success(value: T) | Failure(error: E)
}
