/** internal/authentication/signer.go: what each operation of the client's side of the
    protocol does to its state and returns. */
module SignerSpec {
  import opened Primitives
  import opened Wire
  import opened GoTime
  import opened Peer

  datatype SignerState = SignerState(
    name: Option<bytes>,
    suite: Suite,
    counter: u32,
    epoch: EpochId,
    timeZero: Time,
    verifierPublic: bytes,
    setTime: u32)

  /** Go's copy: the shorter of the two lengths is overwritten. */
  function CopyInto(target: EpochId, source: bytes): EpochId {
    if |source| >= |target| then source[..|target|] else source + target[|source|..]
  }

  /** Byte by byte: those the source has, and the rest of the target. */
  lemma CopyIntoExactly(target: EpochId, source: bytes, i: nat)
    requires i < EPOCH_ID_LENGTH
    ensures CopyInto(target, source)[i] == if i < |source| then source[i] else target[i]
  {
  }

  // ---- creation and storage ----

  function NewSigner(key: ClientKey, name: Option<bytes>, info: SessionInfo, now: Time): Result<SignerState> {
    if name.Some? && |name.value| > 255 then Err(FieldTooLong)
    else
      match key.exchange(info.publicKey)
      case None => Err(ProtocolFault(FAULT_BAD_PARAMETER))
      case Some(suite) =>
        Ok(SignerState(name, suite, info.counter, CopyInto(seq(EPOCH_ID_LENGTH, _ => 0), info.epoch),
                       EpochStartTime(now, info.clockTime), info.publicKey, info.clockTime))
  }

  function ImportSessionInfo(key: ClientKey, name: Option<bytes>, encodedInfo: bytes, generatedAt: Time, now: Time)
    : Result<SignerState>
  {
    match key.codec.unmarshal(encodedInfo)
    case None => Err(ProtocolFault(FAULT_DECODING))
    case Some(info) =>
      match NewSigner(key, name, info, now)
      case Err(e) => Err(e)
      case Ok(s) => Ok(s.(timeZero := Add(generatedAt, -(info.clockTime * SECOND))))
  }

  function NewAuthenticatedSigner(key: ClientKey, name: Option<bytes>, challenge: Option<bytes>, encodedInfo: bytes,
                                  tag: bytes, generatedAt: Time, now: Time): Result<SignerState>
  {
    match ImportSessionInfo(key, name, encodedInfo, generatedAt, now)
    case Err(e) => Err(e)
    case Ok(s) =>
      match SessionInfoHmac(s.suite, name, challenge, encodedInfo)
      case Err(e) => Err(e)
      case Ok(validTag) => if validTag == tag then Ok(s) else Err(ProtocolFault(FAULT_INVALID_SIGNATURE))
  }

  function ExportedInfo(s: SignerState, now: Time): SessionInfo {
    SessionInfo(s.counter, s.verifierPublic, s.epoch, Timestamp(s.timeZero, now), 0, INFO_OK)
  }

  // ---- resynchronisation ----

  predicate Adopts(s: SignerState, info: SessionInfo) {
    s.epoch != info.epoch || s.setTime <= info.clockTime
  }

  function UpdateSessionInfo(s: SignerState, info: SessionInfo, now: Time): (SignerState, Option<AuthError>) {
    if info.publicKey != s.verifierPublic then (s, Some(ProtocolFault(FAULT_UNKNOWN_KEY_ID)))
    else if Adopts(s, info) then
      (s.(counter := if s.counter < info.counter then info.counter else s.counter,
          epoch := CopyInto(s.epoch, info.epoch),
          setTime := info.clockTime,
          timeZero := EpochStartTime(now, info.clockTime)), None)
    else (s, None)
  }

  function UpdateSignedSessionInfo(s: SignerState, challenge: Option<bytes>, encodedInfo: bytes, tag: bytes, now: Time)
    : (SignerState, Option<AuthError>)
  {
    match SessionInfoHmac(s.suite, s.name, challenge, encodedInfo)
    case Err(e) => (s, Some(e))
    case Ok(validTag) =>
      if validTag != tag then (s, Some(ProtocolFault(FAULT_INVALID_SIGNATURE)))
      else
        match s.suite.codec.unmarshal(encodedInfo)
        case None => (s, Some(ProtocolFault(FAULT_DECODING)))
        case Some(info) => UpdateSessionInfo(s, info, now)
  }

  // ---- authorisation ----

  /** The message that encryptWithCounter leaves behind, and its error. The signature is
      attached before anything is checked. nonce is absent when the random source fails. */
  function EncryptWithCounter(s: SignerState, message: RoutableMessage, expiresIn: int, counter: u32, now: Time,
                              nonce: Option<bytes>)
    : (RoutableMessage, Option<AuthError>)
  {
    var expiresAt := ExpiresAt(s.timeZero, now, expiresIn);
    var unsealed := message.(signature := Gcm(Some(s.epoch), [], counter, expiresAt, []));
    match GcmData(s.suite, s.name, s.epoch, message, expiresAt, counter)
    case Err(e) => (unsealed, Some(e))
    case Ok(data) =>
      if !message.payload.ProtobufMessage? then (unsealed, Some(ProtocolFault(FAULT_BAD_PARAMETER)))
      else if nonce.None? then (unsealed.(payload := ProtobufMessage([])), Some(ProtocolFault(FAULT_INTERNAL)))
      else
        var (ciphertext, tag) := s.suite.seal(nonce.value, message.payload.data, data);
        var signature := Gcm(Some(s.epoch), nonce.value, counter, expiresAt, tag);
        (message.(signature := signature, payload := ProtobufMessage(ciphertext)), None)
  }

  function Encrypt(s: SignerState, message: RoutableMessage, expiresIn: int, now: Time, nonce: Option<bytes>)
    : (SignerState, RoutableMessage, Option<AuthError>)
  {
    if s.counter == MAX_U32 then (s, message, Some(ProtocolFault(FAULT_INVALID_TOKEN_OR_COUNTER)))
    else
      var (message', e) := EncryptWithCounter(s, message, expiresIn, s.counter + 1, now, nonce);
      (s.(counter := s.counter + 1), message', e)
  }

  /** Unlike Encrypt, this has no guard against rollover: the counter wraps to zero. */
  function AuthorizeHmac(s: SignerState, message: RoutableMessage, expiresIn: int, now: Time)
    : (SignerState, RoutableMessage, Option<AuthError>)
  {
    var counter := ToU32(s.counter + 1);
    var expiresAt := ExpiresAt(s.timeZero, now, expiresIn);
    var tag := HmacTag(s.suite, s.name, s.epoch, message, expiresAt, counter);
    (s.(counter := counter),
     message.(signature := Hmac(Some(s.epoch), counter, expiresAt, if tag.Ok? then tag.value else [])),
     if tag.Ok? then None else Some(tag.error))
  }

  // ---- responses ----

  /** The decrypted message and the response counter. An error in computing the metadata
      is reported as success with counter zero and an untouched message. */
  function Decrypt(s: SignerState, message: RoutableMessage, id: Option<bytes>): (RoutableMessage, Result<u32>) {
    if !message.signature.GcmResponse? then (message, Err(ProtocolFault(FAULT_BAD_PARAMETER)))
    else
      var g := message.signature;
      match ResponseData(s.suite, s.name, message, id, g.responseCounter)
      case Err(_) => (message, Ok(0))
      case Ok(data) =>
        match s.suite.open(g.responseNonce, message.ProtobufBytes(), data, g.responseTag)
        case None => (message, Err(DecryptionFailed))
        case Some(plaintext) =>
          (message.(payload := ProtobufMessage(plaintext), signature := NoSignature), Ok(g.responseCounter))
  }
}
