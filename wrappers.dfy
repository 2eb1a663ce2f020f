/** Option and Result, the two failure-carrying shapes the Rust code uses
    (`Option<T>` and `Result<T, Box<dyn Error>>`). `Result` is
    failure-compatible, so `:-` plays the role of Rust's `?`. */
module Wrappers {

  datatype Option<+T> = None | Some(value: T)

  datatype Result<+T, +E> = Ok(value: T) | Err(error: E) {

    predicate IsFailure() {
      Err?
    }

    function PropagateFailure<U>(): Result<U, E>
      requires Err?
    {
      Err(error)
    }

    function Extract(): T
      requires Ok?
    {
      value
    }
  }
}
