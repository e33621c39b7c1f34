/** pkg/protocol/error.go: which errors may be retried. */
module Errors {
  import opened Primitives
  import opened Wire

  /** The error types of the protocol. Plain covers errors that do not implement
      protocol.Error, such as a context's error, and the two types that are never temporary
      and never leave success open, KeychainError and NominalVCSECError. */
  datatype GoError =
    | CommandError(possibleSuccess: bool, possibleTemporary: bool)
    | NominalError(details: GoError)
    | RoutableMessageError(code: int)
    | Plain(text: string)

  const ERR_BUSY := CommandError(false, true)
  const ERR_UNKNOWN := CommandError(false, false)
  const ERR_NOT_CONNECTED := CommandError(false, false)
  const ERR_NO_SESSION := CommandError(false, false)
  const ERR_KEY_NOT_PAIRED := CommandError(false, false)
  const ERR_BAD_RESPONSE := Plain("invalid response")
  const CONTEXT_DONE := Plain("context done")
  const MARSHAL_FAILED := Plain("marshal")
  const UNKNOWN_METHOD := Plain("unrecognized authentication method")

  const RETRIABLE_FAULTS := [FAULT_BUSY, FAULT_TIMEOUT, FAULT_INVALID_SIGNATURE, FAULT_INVALID_TOKEN_OR_COUNTER,
                             FAULT_INTERNAL, FAULT_INCORRECT_EPOCH, FAULT_TIME_EXPIRED, FAULT_TIME_TO_LIVE_TOO_LONG]

  predicate MayHaveSucceeded(e: GoError) {
    match e
    case CommandError(possible, _) => possible
    case NominalError(details) => MayHaveSucceeded(details)
    case RoutableMessageError(code) => code == FAULT_NONE || code == FAULT_RESPONSE_MTU_EXCEEDED
    case _ => false
  }

  predicate Temporary(e: GoError) {
    match e
    case CommandError(_, temporary) => temporary
    case NominalError(details) => Temporary(details)
    case RoutableMessageError(code) => code in RETRIABLE_FAULTS
    case _ => false
  }

  /** None stands for a nil error. */
  predicate ShouldRetry(e: Option<GoError>) {
    e.Some? && !MayHaveSucceeded(e.value) && Temporary(e.value)
  }

  function GetError(codec: Codec, m: RoutableMessage): Option<GoError> {
    if m.fault != FAULT_NONE then
      if m.fault == FAULT_UNKNOWN_KEY_ID then Some(ERR_KEY_NOT_PAIRED) else Some(RoutableMessageError(m.fault))
    else
      var infoError := if m.payload.EncodedSessionInfo? then SessionInfoError(codec, m.payload.info) else None;
      if infoError.Some? then infoError
      else if m.operationStatus == STATUS_OK then None
      else if m.operationStatus == STATUS_WAIT then Some(ERR_BUSY)
      else if m.operationStatus == STATUS_ERROR then None
      else Some(ERR_UNKNOWN)
  }

  function SessionInfoError(codec: Codec, info: bytes): Option<GoError> {
    match codec.unmarshal(info)
    case None => Some(ERR_BAD_RESPONSE)
    case Some(i) =>
      if i.status == INFO_OK then None
      else if i.status == INFO_KEY_NOT_ON_WHITELIST then Some(ERR_KEY_NOT_PAIRED)
      else Some(ERR_UNKNOWN)
  }

  /** A vehicle's answer makes the client try again in exactly two cases: a fault on the
      list, or no fault, no bad session info and the status WAIT. Faults that may mean
      success are never among them. */
  lemma AnswersThatAreRetried(codec: Codec, m: RoutableMessage)
    ensures ShouldRetry(GetError(codec, m))
            <==> m.fault in RETRIABLE_FAULTS
                 || (m.fault == FAULT_NONE && m.operationStatus == STATUS_WAIT
                     && (m.payload.EncodedSessionInfo? ==> SessionInfoError(codec, m.payload.info).None?))
  {
  }

  /** An answer counts as success in exactly two cases, and one of them is the status
      ERROR without a fault. */
  lemma AnswersThatAreSuccess(codec: Codec, m: RoutableMessage)
    ensures GetError(codec, m).None?
            <==> m.fault == FAULT_NONE
                 && (m.payload.EncodedSessionInfo? ==> SessionInfoError(codec, m.payload.info).None?)
                 && (m.operationStatus == STATUS_OK || m.operationStatus == STATUS_ERROR)
  {
  }

  /** The faults that are retried, by their numbers. */
  lemma RetriedFaultNumbers(codec: Codec, m: RoutableMessage)
    requires m.fault != 0
    ensures ShouldRetry(GetError(codec, m)) <==> m.fault in {1, 2, 5, 6, 11, 15, 17, 20}
    ensures MayHaveSucceeded(RoutableMessageError(m.fault)) <==> m.fault == 25
  {
  }

  /** A wrapped error is retried exactly if the error it wraps is. */
  lemma NominalFollowsDetails(e: GoError)
    ensures ShouldRetry(Some(NominalError(e))) <==> ShouldRetry(Some(e))
    ensures MayHaveSucceeded(NominalError(e)) <==> MayHaveSucceeded(e)
  {
  }
}
