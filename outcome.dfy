/** Optional values and results with an error, as used throughout the model. */
module Outcome {

  datatype Option<+T> = None | Some(value: T)
  {
    /** Python's `x if x is not None else d`. */
    function GetOr(default: T): (r: T)
      ensures this.Some? ==> r == value
      ensures this.None? ==> r == default
    {
      match this
      case None => default
      case Some(v) => v
    }
  }

  datatype Result<+T, +E> = Ok(value: T) | Err(error: E)
}
