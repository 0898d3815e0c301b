/** Optional values and results with an error, used for the services' return values. */
module Wrappers {

  datatype Option<+T> = None | Some(value: T) {
    /** The carried value, or `default` when there is none. */
    function GetOr(default: T): T {
      if Some? then value else default
    }
  }

  /** A successful value or the exception the source throws instead. */
  datatype Result<+T, +E> = Success(value: T) | Failure(error: E)
}
