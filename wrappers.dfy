/** Option and Result values: the model's stand-in for Python's `None` and for
    the validation errors that the serializers raise. */
module Wrappers {

  datatype Option<+T> = None | Some(value: T)

  datatype Result<+T, +E> = Success(value: T) | Failure(error: E)
}
