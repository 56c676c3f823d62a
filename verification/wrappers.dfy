/** Failure-carrying datatypes used to model JavaScript exceptions, `null` results and
    optional object keys. */
module Wrappers {

  /** An optional value: a missing object key, `undefined` or `null`. */
  datatype Option<+T> = None | Some(value: T) {

    /** The value if present, otherwise `default` (the `{ ...old, ...patch }` merge of one key). */
    function GetOr(default: T): T {
      match this
      case Some(v) => v
      case None => default
    }
  }

  /** The outcome of an operation that returns a value or throws an error. */
  datatype Result<+T, +E> = Ok(value: T) | Err(error: E)

  /** The outcome of an operation that returns nothing or throws an error. */
  datatype Outcome<+E> = Pass | Fail(error: E)
}
