/** Failure-carrying results for the operations of the model whose Python
    counterparts raise an exception on some inputs. */
module Wrappers {

  /** A value that may be absent. */
  datatype Option<+T> = None | Some(value: T)

  /** Either a computed value or the error the Python code would raise. */
  datatype Result<+R, +E> = Success(value: R) | Failure(error: E)
}
