/** Option and Result, the two wrappers the rest of the model uses for values that a Ruby
    expression may leave `nil` and for operations that end the script with an error. */
module Basics {

  datatype Option<+T> = None | Some(value: T)

  datatype Result<+T, +E> = Success(value: T) | Failure(error: E)
}
