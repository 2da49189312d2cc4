/** Optional values and success-or-failure results shared by every module of
    the audit engine. `None` stands for JavaScript's `null`/`undefined` where
    the service treats them alike. */
module Results {

  datatype Option<+T> = None | Some(value: T) {

    /** The wrapped value, or `default` when there is none. */
    function GetOr(default: T): T {
      match this
      case Some(v) => v
      case None => default
    }
  }

  /** A failed call carries the error the service would throw or return. */
  datatype Result<+T, +E> = Success(value: T) | Failure(error: E)
}
