/** Failure-carrying values shared by every part of the model. */
module Outcome {

  /** A value that may be absent. */
  datatype Option<+T> = None | Some(value: T)

  /**
   * The result of a lowering step: either a value, or an internal error.
   * The compiler signals internal errors with a Go panic, which ends the
   * compilation; the model only records that one happened.
   */
  datatype Result<+T> = Ok(value: T) | Fatal
}
