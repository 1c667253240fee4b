/** The optional-value and success-or-error datatypes the model uses in place
    of Python's None returns and caught exceptions. */
module Wrappers {

  datatype Option<+T> = None | Some(value: T)

  datatype Result<+R, +E> = Success(value: R) | Failure(error: E)
}
