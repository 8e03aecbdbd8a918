/** The shapes in which the modelled operations report what happened. */
module Outcomes {

  datatype Option<+T> = None | Some(value: T)

  /** A Go call that returns a value, returns an error, or panics. */
  datatype Outcome<+T> = Ok(value: T) | Error | Panic
}
