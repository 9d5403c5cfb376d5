/** Results and options shared by the models of the individual files. */
module Basics {

  datatype Option<+T> = None | Some(value: T)

  /** The errors of the crate that the modelled functions return. */
  datatype Error =
    | BufferTooShort
    | InvalidFrame
    | InvalidPacket
    | InvalidState
    | IdLimit
    | OutOfIdentifiers
    | Done

  datatype Result<+T> = Ok(value: T) | Err(error: Error) {
    predicate IsFailure() { Err? }

    function PropagateFailure<U>(): Result<U>
      requires Err?
    {
      Err(error)
    }

    function Extract(): T
      requires Ok?
    {
      value
    }
  }
}
