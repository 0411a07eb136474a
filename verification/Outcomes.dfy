/**
  Results of the operations: a value, one of the errors the library returns, or
  a run-time panic of the original program.
 */
module Outcomes {

  /** The error values, one per distinguishable failure. */
  datatype Error =
    | EOF
    | UnexpectedEOF
    | BadMagic
    | BadNumber
    | StrippedWithoutSizes
    | BadFileIndex
    | ReadOutOfOrder
    | UnknownFile
    | HeaderTruncated
    | TableTruncated
    | DataTruncated
    | TableExhausted
    | TagTruncated(tag: int)
    | DigestMismatch
    | InvalidRegionTag
    | NoSuchTag(tag: int)
    | WrongType
    | BadLead
    | NotAnRpm
    | UnknownPayloadDigest
    | PayloadDigestMismatch
    | NoPayloadDigest
    | BadSignature
    | SigningFailed

  datatype Outcome<+T> = Ok(value: T) | Err(error: Error) | Panic {
    predicate IsFailure() { !Ok? }

    function PropagateFailure<U>(): (r: Outcome<U>)
      requires IsFailure()
    {
      if Err? then Outcome.Err(error) else Outcome.Panic
    }

    function Extract(): (v: T)
      requires Ok?
    {
      value
    }
  }

  datatype Option<+T> = None | Some(value: T)
}
