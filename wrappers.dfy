/** Results of Go's two-value returns. */
module Wrappers {

  datatype Option<+T> = None | Some(value: T)

  /** A Go `error` value; only its message is observable. */
  datatype Error = Error(message: string)

  /** What a Go function returning `(*T, error)` gives back: a value, or nil and an error. */
  datatype Result<+T> = Ok(value: T) | Err(error: Error)

  /** What a Go function returning `(T, error)` for a value type `T` gives back:
      always a value (the zero value when rejecting) together with an optional error. */
  datatype Checked<+T> = Checked(value: T, err: Option<Error>) {
    predicate Accepted() { err.None? }
  }
}
