/** Failure-carrying values: Python's `None`-or-value and value-or-exception
    become explicit datatypes in the model. */
module Wrappers {

  /** A value that may be missing, as for `dict.get` on an absent key. */
  datatype Option<+T> = None | Some(value: T)

  /** A successful result, or the error the Python code would raise. */
  datatype Result<+R, +E> = Success(value: R) | Failure(error: E)
}
