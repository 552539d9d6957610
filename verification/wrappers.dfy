/** Option and Result, the failure-carrying values the rest of the model
    uses for absent fields (a JavaScript `null`) and failed fetches. */
module Wrappers {

  datatype Option<+T> = None | Some(value: T) {

    /** The value, or `default` when absent: JavaScript's `x || default`
        when the only falsy value `x` can hold is `null`. */
    function GetOr(default: T): T {
      match this
      case Some(v) => v
      case None => default
    }
  }

  datatype Result<+R, +E> = Success(value: R) | Failure(error: E)
}
