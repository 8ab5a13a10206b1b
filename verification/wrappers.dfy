/** Option and Result, standing for SQL NULL and for Go's `(value, error)` returns. */
module Wrappers {

  /** A nullable column: `None` is SQL NULL. */
  datatype Option<+T> = None | Some(value: T) {

    /** SQL `COALESCE(column, default)`. */
    function GetOr(default: T): T {
      match this
      case Some(v) => v
      case None => default
    }
  }

  /** A Go result pair: `Ok` when the error is nil, `Err` otherwise. */
  datatype Result<+T, +E> = Ok(value: T) | Err(error: E)
}
