/** Option and Result values, used where the program either has no value or aborts. */
module Wrappers {

  datatype Option<T> = None | Some(value: T) {
    /** The value held, or `default` when there is none. */
    function GetOr(default: T): T {
      if Some? then value else default
    }
  }

  datatype Result<T, E> = Success(value: T) | Failure(error: E)
}
