/** Failure-carrying result types shared by the other modules. */
module Wrappers {

  /** A value that may be absent; `None` is Python's `None` return. */
  datatype Option<+T> = None | Some(value: T)

  /** The errors the modelled Python code can raise on bad input. */
  datatype Error = IndexError

  /** A computation that either yields a value or raises an error. */
  datatype Result<+T> = Ok(value: T) | Err(error: Error)
}
