/** Optional values and results with an error, used for the values that
    the analytics may fail to produce. */
module Wrappers {

  /** A value that may be absent: what an aggregate over no rows returns. */
  datatype Option<+T> = None | Some(value: T)

  /** A value or the error that stopped its computation; usable with `:-`. */
  datatype Result<+T, +E> = Ok(value: T) | Err(error: E) {

    predicate IsFailure() {
      Err?
    }

    function PropagateFailure<U>(): Result<U, E>
      requires Err?
    {
      Err(error)
    }

    function Extract(): T
      requires Ok?
    {
      value
    }
  }
}
