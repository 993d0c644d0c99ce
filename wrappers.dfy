/** Optional values, and results that carry the exception a .NET operation would throw. */
module Wrappers {

  datatype Option<+T> = None | Some(value: T) {
    /** The value, or `default` when there is none (the `??` operator of C#). */
    function GetOr(default: T): T {
      match this
      case Some(v) => v
      case None => default
    }
  }

  /** The exceptions the modelled code can raise. */
  datatype Fault = IndexOutOfRange

  datatype Result<+T> = Success(value: T) | Failure(fault: Fault)
}
