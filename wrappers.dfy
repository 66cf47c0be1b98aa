/** Optional values and success-or-error results: the model's stand-ins for Java's
    `Optional`, a nullable reference, and a method that either returns or throws. */
module Wrappers {

  datatype Option<+T> = None | Some(value: T)

  datatype Result<+T, +E> = Success(value: T) | Failure(error: E)
}
