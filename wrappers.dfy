/** Option stands for a value that SQL may leave NULL or that pandas may
    leave missing; Result for a computation that can raise. */
module Wrappers {

  datatype Option<+T> = None | Some(value: T)

  datatype Result<+R, +E> = Success(value: R) | Failure(error: E)
}
