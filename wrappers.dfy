/** Failure-carrying values shared by the registry modules. */
module Wrappers {

  datatype Option<T> = None | Some(value: T)

  /** Either the value an operation produced or the error it stopped with. */
  datatype Result<T, E> = Success(value: T) | Failure(error: E)
}
