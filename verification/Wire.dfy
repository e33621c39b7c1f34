/** The protobuf messages the protocol exchanges, and the cryptographic operations it
    treats as black boxes. Only the fields the modelled code reads are kept. */
module Wire {
  import opened Primitives

  // ---- universal_message.proto ----

  const DOMAIN_BROADCAST := 0
  const DOMAIN_VEHICLE_SECURITY := 2
  const DOMAIN_INFOTAINMENT := 3

  /** Unset covers both a missing destination and one without a sub-destination. */
  datatype Destination = Missing | Unset | ToDomain(domain: int) | ToAddress(address: bytes)
  {
    /** The generated getter: anything that is not a domain reads as BROADCAST. */
    function GetDomain(): int {
      if ToDomain? then domain else DOMAIN_BROADCAST
    }
  }

  datatype Payload = NoPayload
                   | ProtobufMessage(data: bytes)
                   | SessionInfoRequest(publicKey: bytes)
                   | EncodedSessionInfo(info: bytes)

  /** Absent (nil) byte fields are distinguished from empty ones where it matters: epochs,
      UUIDs and session info tags. */
  datatype SignatureData =
    | NoSignature
    | Gcm(gcmEpoch: Option<bytes>, gcmNonce: bytes, gcmCounter: u32, gcmExpiresAt: u32, gcmTag: bytes)
    | Hmac(hmacEpoch: Option<bytes>, hmacCounter: u32, hmacExpiresAt: u32, hmacTag: bytes)
    | GcmResponse(responseCounter: u32, responseNonce: bytes, responseTag: bytes)
    | SessionInfoTag(infoTag: Option<bytes>)
    | OtherSignature

  datatype RoutableMessage = RoutableMessage(
    to: Destination,
    from: Destination,
    payload: Payload,
    signature: SignatureData,
    flags: u32,
    uuid: Option<bytes>,
    requestUuid: Option<bytes>,
    fault: int,
    operationStatus: int)
  {
    function RequestUuidBytes(): bytes {
      requestUuid.GetOr([])
    }

    function ProtobufBytes(): bytes {
      if payload.ProtobufMessage? then payload.data else []
    }
  }

  // MessageFault_E values
  const FAULT_NONE := 0
  const FAULT_BUSY := 1
  const FAULT_TIMEOUT := 2
  const FAULT_UNKNOWN_KEY_ID := 3
  const FAULT_INVALID_SIGNATURE := 5
  const FAULT_INVALID_TOKEN_OR_COUNTER := 6
  const FAULT_INVALID_DOMAINS := 8
  const FAULT_DECODING := 10
  const FAULT_INTERNAL := 11
  const FAULT_WRONG_PERSONALIZATION := 12
  const FAULT_BAD_PARAMETER := 13
  const FAULT_INCORRECT_EPOCH := 15
  const FAULT_TIME_EXPIRED := 17
  const FAULT_TIME_TO_LIVE_TOO_LONG := 20
  const FAULT_RESPONSE_MTU_EXCEEDED := 25

  // OperationStatus_E values
  const STATUS_OK := 0
  const STATUS_WAIT := 1
  const STATUS_ERROR := 2

  // ---- signatures.proto ----

  const TYPE_GCM_PERSONALIZED: byte := 5
  const TYPE_HMAC: byte := 6
  const TYPE_HMAC_PERSONALIZED: byte := 8
  const TYPE_GCM_RESPONSE: byte := 9

  const INFO_OK := 0
  const INFO_KEY_NOT_ON_WHITELIST := 1

  datatype SessionInfo = SessionInfo(
    counter: u32, publicKey: bytes, epoch: bytes, clockTime: u32, handle: u32, status: int)

  const EPOCH_ID_LENGTH := 16
  type EpochId = e: bytes | |e| == EPOCH_ID_LENGTH witness seq(16, _ => 0)

  const LABEL_SESSION_INFO := "session info"
  const LABEL_MESSAGE_AUTH := "authenticated command"

  /** The protobuf encoding of SessionInfo. */
  datatype Codec = Codec(marshal: SessionInfo -> bytes, unmarshal: bytes -> Option<SessionInfo>)
  {
    ghost predicate Lawful() {
      forall i :: unmarshal(marshal(i)) == Some(i)
    }
  }

  /** The primitives of a session key: AES-GCM, HMAC-SHA256 under the subkey of a label,
      and SHA-256. Nothing is known about them except what Lawful says. */
  datatype Suite = Suite(
    seal: (bytes, bytes, bytes) -> (bytes, bytes),               // nonce, plaintext, data -> ciphertext, tag
    open: (bytes, bytes, bytes, bytes) -> Option<bytes>,         // nonce, ciphertext, data, tag -> plaintext
    mac: (string, bytes) -> bytes,
    digest: bytes -> bytes,
    codec: Codec)
  {
    ghost predicate Lawful() {
      && (forall n, p, d :: open(n, seal(n, p, d).0, d, seal(n, p, d).1) == Some(p))
      && codec.Lawful()
    }
  }

  /** A client's private key: Exchange with a public key fails if that key is invalid. */
  datatype ClientKey = ClientKey(exchange: bytes -> Option<Suite>, codec: Codec)
  {
    ghost predicate Lawful() {
      codec.Lawful() && forall p :: exchange(p).Some? ==> exchange(p).value.codec == codec
    }
  }

  /** Errors returned by the authentication package. */
  datatype AuthError =
    | ProtocolFault(code: int)
    | FieldTooLong
    | DecryptionFailed
    | InvalidSignature(faultCode: int, encodedInfo: bytes, tag: bytes)

  datatype Result<+T> = Ok(value: T) | Err(error: AuthError)
}
