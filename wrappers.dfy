// Option and Result values used across the model for Go's (value, ok),
// (value, error) and nil returns and for thrown exceptions.
module Wrappers {
  datatype Option<T> = None | Some(value: T)

  /** A Go error return or a thrown exception, carrying its message. */
  datatype Result<T> = Ok(value: T) | Err(error: string)

  /** A call that either returns or fails at run time: a Go panic (an index or slice out of range, a nil interface call) or a JavaScript TypeError. */
  datatype Completion<T> = Returned(value: T) | Panicked
}
