/** Option and Result values: the model's stand-ins for Go's nil pointers and
    for the (value, error) pairs the source returns. */
module Base {

  /** A value that may be absent (a Go pointer that may be nil). */
  datatype Option<+T> = None | Some(value: T)

  /** Either a value or an error, never both (Go's `(T, error)` return pair). */
  datatype Result<+T, +E> = Success(value: T) | Failure(error: E)
}
