// Values shared by the components: bytes, options and the outcome of a Swift call.
module Wrappers {
  type byte = b: int | 0 <= b < 256

  datatype Option<+T> = None | Some(value: T)

  // The errors a builder or a reader can throw, and Trap: the arithmetic or pointer trap
  // that stops a Swift program.
  datatype Error =
    | ObjectIsNotClosed
    | NoOpenObject
    | PropertyIndexIsInvalid
    | OffsetIsTooBig
    | BadFileIdentifier
    | OutOfBufferBounds
    | Trap

  datatype Result<+T> = Ok(value: T) | Err(error: Error) {
    predicate IsFailure() { Err? }

    function PropagateFailure<U>(): Result<U>
      requires Err?
    {
      Err(error)
    }

    function Extract(): T
      requires Ok?
    {
      value
    }
  }
}
