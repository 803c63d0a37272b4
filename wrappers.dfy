/** The two failure-carrying datatypes the model uses: a cell that may be
    missing, and a pipeline step that may raise. */
module Wrappers {

  datatype Option<+T> = None | Some(value: T)

  datatype Result<+R, +E> = Success(value: R) | Failure(error: E)
}
