/** Failure-compatible wrappers: Rust's `Option` and the `Result<_, std::io::Error>`
    that the header builder returns. */
module Results {

  /** Rust's `Option<T>`. */
  datatype Option<+T> = None | Some(value: T)

  /** The subset of `std::io::ErrorKind` that the modelled code produces. */
  datatype ErrorKind = InvalidData

  /** A `std::io::Error`; the wrapped cause (`InvalidHeaderValue`) carries no data. */
  datatype Error = Error(kind: ErrorKind)

  /** Rust's `Result<T, std::io::Error>`, usable with `:-` for early return. */
  datatype Result<+T> = Ok(value: T) | Err(error: Error) {

    predicate IsFailure() {
      Err?
    }

    function PropagateFailure<U>(): Result<U>
      requires Err?
    {
      Err(error)
    }

    function Extract(): T
      requires Ok?
    {
      value
    }
  }
}
