/** Small failure-compatible helpers shared by every module of the model. */
module Wrappers {

  /** A nullable value: a column declared `null=True`, or an optional argument. */
  datatype Option<+T> = None | Some(value: T) {

    /** The value, or `default` when it is absent (Python's `dict.get(key, default)`). */
    function GetOr(default: T): T {
      match this
      case Some(v) => v
      case None => default
    }
  }

  /** The outcome of a model-layer call that may raise a Python exception. */
  datatype Result<+T, +E> = Success(value: T) | Failure(error: E)
}
