/** Optional values and the two Python exceptions the modelled code can raise. */
module Wrappers {

  /** A value that may be absent: Python's `None` return. */
  datatype Option<T> = None | Some(value: T)

  /** The run-time errors of the source that the model keeps as error results. */
  datatype Failure =
    | IndexError  // `list.pop` or `list[i]` past the end of a list
    | TypeError   // `len(None)`

  /** The outcome of an operation that either returns a value or raises. */
  datatype Result<T> = Ok(value: T) | Fail(error: Failure)
}
