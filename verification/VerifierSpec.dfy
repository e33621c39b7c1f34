/** internal/authentication/verifier.go: what each operation of the vehicle's side of the
    protocol does to its state and returns.

    Every reading of the clock and every draw of random bytes is an explicit input, one
    for each place where the source takes it. */
module VerifierSpec {
  import opened Primitives
  import opened Wire
  import opened GoTime
  import opened Peer
  import opened ReplayWindow

  const MAX_SECONDS_WITHOUT_COUNTER := 30

  datatype VerifierState = VerifierState(
    domain: int,
    name: Option<bytes>,
    suite: Suite,
    publicKey: bytes,
    counter: u32,
    epoch: EpochId,
    timeZero: Time,
    window: u64,
    handle: u32)

  // ---- the environment of a call ----

  /** A failed read may already have overwritten part of the buffer. */
  datatype RandomBytes = Filled(id: EpochId) | Failed(partial: EpochId)

  datatype RotateEnv = RotateEnv(check: Time, start: Time, random: RandomBytes)
  datatype AdjustEnv = AdjustEnv(now: Time, rotate: RotateEnv)
  datatype InfoEnv = InfoEnv(adjust: AdjustEnv, stamp: Time)
  datatype VerifyEnv = VerifyEnv(adjust: AdjustEnv, expiry: Time, timeToLive: Time, report: InfoEnv)

  // ---- clock and epochs ----

  predicate RotationDue(v: VerifierState, check: Time) {
    IsZero(v.timeZero) || v.counter == MAX_U32 || Timestamp(v.timeZero, check) > EPOCH_SECONDS
  }

  function RotateEpochIfNeeded(v: VerifierState, force: bool, env: RotateEnv): (VerifierState, bool) {
    if force || RotationDue(v, env.check) then
      match env.random
      case Failed(partial) => (v.(epoch := partial, counter := MAX_U32), false)
      case Filled(id) => (v.(epoch := id, timeZero := env.start, counter := 0), true)
    else (v, true)
  }

  /** Whole seconds the wall clock has advanced since the epoch began. */
  function WallSeconds(v: VerifierState, now: Time): int {
    Unix(now) - Unix(v.timeZero)
  }

  /** How far the wall clock has run ahead of the monotonic clock in this epoch. */
  function Sleep(v: VerifierState, now: Time): int {
    WallSeconds(v, now) * SECOND - Sub(now, v.timeZero)
  }

  predicate WallClockUnusable(v: VerifierState, now: Time) {
    WallSeconds(v, now) < 0 || WallSeconds(v, now) > YEAR_IN_SECONDS
  }

  function AdjustClock(v: VerifierState, env: AdjustEnv): (VerifierState, bool) {
    if WallClockUnusable(v, env.now) then RotateEpochIfNeeded(v, true, env.rotate)
    else if Sleep(v, env.now) > SECOND then
      var elapsed := WallSeconds(v, env.now) * SECOND;
      if After(Add(ZERO_TIME, elapsed), env.now) then RotateEpochIfNeeded(v, true, env.rotate)
      else RotateEpochIfNeeded(v.(timeZero := Add(env.now, -elapsed)), false, env.rotate)
    else RotateEpochIfNeeded(v, false, env.rotate)
  }

  /** `session` is the outcome of the key exchange with the signer's public key. */
  function NewVerifier(session: Option<Suite>, publicKey: bytes, name: Option<bytes>, domain: int, env: RotateEnv)
    : Result<VerifierState>
  {
    if session.None? then Err(ProtocolFault(FAULT_BAD_PARAMETER))
    else if name.Some? && |name.value| > 255 then Err(FieldTooLong)
    else
      var noEpoch := seq(EPOCH_ID_LENGTH, _ => 0);
      var blank := VerifierState(domain, name, session.value, publicKey, 0, noEpoch, ZERO_TIME, 0, 0);
      var (v, ok) := RotateEpochIfNeeded(blank, false, env);
      if ok then Ok(v) else Err(ProtocolFault(FAULT_INTERNAL))
  }

  // ---- session info ----

  function InfoOf(v: VerifierState, stamp: Time): SessionInfo {
    SessionInfo(v.counter, v.publicKey, v.epoch, Timestamp(v.timeZero, stamp), v.handle, INFO_OK)
  }

  function GetSessionInfo(v: VerifierState, env: InfoEnv): (VerifierState, Result<SessionInfo>) {
    var (v', ok) := AdjustClock(v, env.adjust);
    (v', if ok then Ok(InfoOf(v', env.stamp)) else Err(ProtocolFault(FAULT_INTERNAL)))
  }

  function GetSignedSessionInfo(v: VerifierState, challenge: Option<bytes>, env: InfoEnv)
    : (VerifierState, Result<(bytes, bytes)>)
  {
    var (v', info) := GetSessionInfo(v, env);
    match info
    case Err(e) => (v', Err(e))
    case Ok(i) =>
      var encoded := v'.suite.codec.marshal(i);
      match SessionInfoHmac(v'.suite, v'.name, challenge, encoded)
      case Err(e) => (v', Err(e))
      case Ok(tag) => (v', Ok((encoded, tag)))
  }

  function SignatureError(v: VerifierState, code: int, challenge: Option<bytes>, env: InfoEnv)
    : (VerifierState, AuthError)
  {
    var (v', signed) := GetSignedSessionInfo(v, challenge, env);
    (v', match signed
         case Ok((info, tag)) => InvalidSignature(code, info, tag)
         case Err(_) => ProtocolFault(FAULT_INTERNAL))
  }

  // ---- verification ----

  /** The fault verifySessionInfo finds, if any. Subtracting the timestamp from the
      expiration time wraps around when the clock ticks in between. */
  function SessionFault(v: VerifierState, epoch: Option<bytes>, counter: u32, expiresAt: u32,
                        expiry: Time, timeToLive: Time): Option<int>
  {
    if epoch.Some? && epoch.value != v.epoch then Some(FAULT_INCORRECT_EPOCH)
    else if expiresAt != 0 && expiresAt < Timestamp(v.timeZero, expiry) then Some(FAULT_TIME_EXPIRED)
    else if expiresAt > EPOCH_SECONDS then Some(FAULT_BAD_PARAMETER)
    else if (counter == 0 || counter < v.counter)
            && (expiresAt == 0 || ToU32(expiresAt - Timestamp(v.timeZero, timeToLive)) > MAX_SECONDS_WITHOUT_COUNTER)
    then Some(FAULT_TIME_TO_LIVE_TOO_LONG)
    else None
  }

  /** What verification makes of a message before any state changes: it passes, it is
      refused outright, or it is refused with session info attached. */
  datatype Judgement = Pass(plaintext: bytes) | Refuse(error: AuthError) | Report(code: int)

  function JudgeSession(v: VerifierState, message: RoutableMessage, epoch: Option<bytes>, counter: u32,
                        expiresAt: u32, expiry: Time, timeToLive: Time): Option<Judgement>
  {
    if message.to.GetDomain() != v.domain && v.domain != DOMAIN_BROADCAST then
      Some(Refuse(ProtocolFault(FAULT_INVALID_DOMAINS)))
    else
      match SessionFault(v, epoch, counter, expiresAt, expiry, timeToLive)
      case None => None
      case Some(code) => Some(Report(code))
  }

  function JudgeGcm(v: VerifierState, message: RoutableMessage, expiry: Time, timeToLive: Time): Judgement
    requires message.signature.Gcm?
  {
    var s := message.signature;
    match JudgeSession(v, message, s.gcmEpoch, s.gcmCounter, s.gcmExpiresAt, expiry, timeToLive)
    case Some(judgement) => judgement
    case None =>
      match GcmData(v.suite, v.name, v.epoch, message, s.gcmExpiresAt, s.gcmCounter)
      case Err(e) => Refuse(e)
      case Ok(data) =>
        match v.suite.open(s.gcmNonce, message.ProtobufBytes(), data, s.gcmTag)
        case Some(plaintext) => Pass(plaintext)
        case None => Report(FAULT_INVALID_SIGNATURE)
  }

  function JudgeHmac(v: VerifierState, message: RoutableMessage, expiry: Time, timeToLive: Time): Judgement
    requires message.signature.Hmac?
  {
    var s := message.signature;
    match JudgeSession(v, message, s.hmacEpoch, s.hmacCounter, s.hmacExpiresAt, expiry, timeToLive)
    case Some(judgement) => judgement
    case None =>
      match HmacTag(v.suite, v.name, v.epoch, message, s.hmacExpiresAt, s.hmacCounter)
      case Err(e) => Refuse(e)
      case Ok(expected) =>
        if s.hmacTag == expected then Pass(message.ProtobufBytes()) else Report(FAULT_INVALID_SIGNATURE)
  }

  function Judge(v: VerifierState, message: RoutableMessage, expiry: Time, timeToLive: Time): Judgement {
    if message.signature.Gcm? then JudgeGcm(v, message, expiry, timeToLive)
    else if message.signature.Hmac? then JudgeHmac(v, message, expiry, timeToLive)
    else Refuse(ProtocolFault(FAULT_BAD_PARAMETER))
  }

  function Conclude(v: VerifierState, judgement: Judgement, message: RoutableMessage, env: VerifyEnv)
    : (VerifierState, Result<bytes>)
  {
    match judgement
    case Pass(plaintext) => (v, Ok(plaintext))
    case Refuse(e) => (v, Err(e))
    case Report(code) =>
      var (v', e) := SignatureError(v, code, message.uuid, env.report);
      (v', Err(e))
  }

  function CounterOf(message: RoutableMessage): u32 {
    match message.signature
    case Gcm(_, _, c, _, _) => c
    case Hmac(_, c, _, _) => c
    case _ => 0
  }

  /** The last check: the counter must be unused. Counter zero is exempt. */
  function UseCounter(v: VerifierState, message: RoutableMessage, plaintext: bytes, env: VerifyEnv)
    : (VerifierState, Result<bytes>)
  {
    var (counter, window, unused) := UpdateSlidingWindow(v.counter, v.window, CounterOf(message));
    if CounterOf(message) == 0 then (v, Ok(plaintext))
    else if unused then (v.(counter := counter, window := window), Ok(plaintext))
    else Conclude(v, Report(FAULT_INVALID_TOKEN_OR_COUNTER), message, env)
  }

  function Verify(v: VerifierState, message: RoutableMessage, env: VerifyEnv): (VerifierState, Result<bytes>) {
    var (v', ok) := AdjustClock(v, env.adjust);
    if !ok then (v', Err(ProtocolFault(FAULT_INTERNAL)))
    else
      var judgement := Judge(v', message, env.expiry, env.timeToLive);
      if judgement.Pass? then UseCounter(v', message, judgement.plaintext, env)
      else Conclude(v', judgement, message, env)
  }

  /** Encryption of a response; nonce is absent when the random source fails. */
  function EncryptResponse(v: VerifierState, message: RoutableMessage, id: Option<bytes>, counter: u32,
                           nonce: Option<bytes>): Result<RoutableMessage>
  {
    match ResponseData(v.suite, v.name, message, id, counter)
    case Err(e) => Err(e)
    case Ok(data) =>
      if nonce.None? then Err(ProtocolFault(FAULT_INTERNAL))
      else
        var (ciphertext, tag) := v.suite.seal(nonce.value, message.ProtobufBytes(), data);
        Ok(message.(signature := GcmResponse(counter, nonce.value, tag), payload := ProtobufMessage(ciphertext)))
  }
}
