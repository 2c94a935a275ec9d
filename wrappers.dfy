/** Option and Result values used by every stage of the pipeline. */
module Wrappers {

  datatype Option<+T> = None | Some(value: T) {

    /** The wrapped value, or `default` when there is none (Python's `dict.get(k, default)`). */
    function GetOr(default: T): T {
      match this
      case Some(v) => v
      case None => default
    }
  }

  /** The outcome of a stage: its output, or the exception the source raises. */
  datatype Result<+T, +E> = Ok(value: T) | Err(error: E)
}
