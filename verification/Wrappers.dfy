/** Optional values, fallible results and the client's error kinds. */
module Wrappers {

  datatype Option<+T> = None | Some(value: T)

  /** Why a binary payload was rejected; the client folds all of these into one error kind with a message. */
  datatype DecodeReason =
    | Truncated
    | NegativeCount
    | UnknownType
    | UnknownEncoding
    | NestedRle
    | IncompatibleType
    | NegativeLength
    | InvalidUtf8
    | NonInt64Time
    | IndexMapTooShort
    | IndexMapOutOfRange

  /** Why the client refused a call before or instead of sending anything. */
  datatype ClientReason =
    | AlreadyOpen
    | NoEndpoints
    | NotOpen
    | MissingSessionId
    | MissingQueryId
    | LengthMismatch
    | ArityMismatch
    | TypeMismatch
    | AllNull
    | NoTablets
    | TableModelTablet
    | BadNodeUrl
    | MinAboveMax

  /** A transport failure carries what the transport reported, so that two of them can be told apart. */
  datatype Error =
    | Thrift(detail: nat)
    | Server(code: int, message: string)
    | Client(reason: ClientReason)
    | Decode(why: DecodeReason)

  datatype Result<+T> = Success(value: T) | Failure(error: Error) {
    predicate IsFailure() {
      Failure?
    }

    function PropagateFailure<U>(): Result<U>
      requires Failure?
    {
      Failure(error)
    }

    function Extract(): T
      requires Success?
    {
      value
    }
  }
}
