/** Optional values and error-carrying results.

    `Option` stands for a cell of a pandas column that may hold NaN: `None` is
    the missing value, `Some(x)` a present one. `Result` carries the error
    conditions that the request handler raises instead of producing a value.
 */
module Options {

  datatype Option<+T> = None | Some(value: T) {

    /** The held value, or `default` when missing (pandas `fillna`). */
    function GetOr(default: T): T {
      match this
      case Some(v) => v
      case None => default
    }
  }

  datatype Result<+R, +E> = Success(value: R) | Failure(error: E)
}
