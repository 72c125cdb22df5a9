/** Optional values and typed outcomes shared by every service model.
    A service call that throws (NotFoundException, BadRequestException, ...)
    is modelled as an `Err` carrying a per-service error value. */
module Common {

  datatype Option<+T> = None | Some(value: T) {
    /** The value, or `default` when absent (the `x ?? d` of the source). */
    function GetOr(default: T): T {
      if Some? then value else default
    }
  }

  datatype Result<+T, +E> = Ok(value: T) | Err(error: E)

  /** A field of an update request: left out (`undefined`), set to `null`,
      or set to a value. */
  datatype Patch<+T> = Keep | Clear | Set(value: T) {
    function Apply(current: Option<T>): Option<T> {
      match this
      case Keep => current
      case Clear => None
      case Set(v) => Some(v)
    }
  }
}
