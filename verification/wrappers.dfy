/** Failure-compatible wrappers used throughout the model.
- Option<T> stands for a JavaScript value that may be `undefined`/`null`
  (a row that `.get()` did not find, a nullable column, an absent body field).
- Result<T> stands for a call that either returns a value or throws an
  `Error` whose `message` is carried along.
 */
module Wrappers {

  datatype Option<+T> = None | Some(value: T) {

    /** The value, or `default` when absent (JavaScript's `x ?? default`). */
    function GetOr(default: T): T {
      match this
      case Some(v) => v
      case None => default
    }
  }

  datatype Result<+T> = Ok(value: T) | Err(message: string)
}
