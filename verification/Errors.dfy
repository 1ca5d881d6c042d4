// Error codes and results, after asn1_error.h. A result carries the byte offset the C code reports.
module Errors {

  datatype ErrorCode =
    | TruncatedField
    | InvalidObject
    | UnexpectedFieldType
    | UnsupportedLength
    | InvalidIntegerEncoding
    | ExcessiveDepth
    | BufferTooSmall
    | InvalidOid
    | CapacityExceeded
    | InvalidBoolean
    | TrailingData

  datatype Result<+T> = Ok(value: T) | Err(code: ErrorCode, at: nat) {
    predicate IsFailure() { Err? }

    function PropagateFailure<U>(): Result<U>
      requires Err?
    {
      Err(code, at)
    }

    function Extract(): T
      requires Ok?
    {
      value
    }
  }

  // The status of a call that returns its result through the state it changes.
  datatype Status = Done | Fault(code: ErrorCode, at: nat) {
    predicate IsFailure() { Fault? }

    function PropagateFailure(): Status
      requires Fault?
    {
      this
    }
  }

  function StatusOf<T>(r: Result<T>): Status {
    match r
    case Ok(_) => Done
    case Err(code, at) => Fault(code, at)
  }
}
