/** Option and Result values shared by the modules of this model. */
module Wrappers {

  /** A value that may be absent; `None` plays the role of Python's `None`. */
  datatype Option<T> = None | Some(value: T)

  /** The outcome of an operation that can raise in the source. */
  datatype Result<T, E> = Ok(value: T) | Err(error: E)
}
