/** internal/authentication/verifier.go: the Verifier object. Each method changes the
    fields in place and is proved to do what VerifierSpec says. */
module Verifier {
  import opened Primitives
  import opened Wire
  import opened GoTime
  import opened Peer
  import opened ReplayWindow
  import Tlv
  import Spec = VerifierSpec
  import opened VerifierSpec

  class Verifier {
    const domain: int
    const name: Option<bytes>
    const suite: Suite
    const publicKey: bytes
    var counter: u32
    var epoch: EpochId
    var timeZero: Time
    var window: u64
    var handle: u32

    ghost function State(): VerifierState
      reads this
    {
      VerifierState(domain, name, suite, publicKey, counter, epoch, timeZero, window, handle)
    }

    constructor (domain: int, name: Option<bytes>, suite: Suite, publicKey: bytes)
      ensures State() == VerifierState(domain, name, suite, publicKey, 0, seq(EPOCH_ID_LENGTH, _ => 0), ZERO_TIME, 0, 0)
    {
      this.domain, this.name, this.suite, this.publicKey := domain, name, suite, publicKey;
      counter, epoch, timeZero, window, handle := 0, seq(EPOCH_ID_LENGTH, _ => 0), ZERO_TIME, 0, 0;
    }

    static method NewVerifier(session: Option<Suite>, publicKey: bytes, name: Option<bytes>, domain: int,
                              env: RotateEnv)
      returns (v: Verifier?, error: Option<AuthError>)
      ensures match Spec.NewVerifier(session, publicKey, name, domain, env)
              case Ok(state) => v != null && fresh(v) && v.State() == state && error.None?
              case Err(e) => v == null && error == Some(e)
    {
      if session.None? {
        return null, Some(ProtocolFault(FAULT_BAD_PARAMETER));
      }
      var verifier := new Verifier(domain, name, session.value, publicKey);
      if name.Some? && |name.value| > 255 {
        return null, Some(FieldTooLong);
      }
      var ok := verifier.RotateEpochIfNeeded(false, env);
      if !ok {
        return null, Some(ProtocolFault(FAULT_INTERNAL));
      }
      return verifier, None;
    }

    method AssignHandle(h: u32)
      modifies this`handle
      ensures State() == old(State()).(handle := h)
    {
      handle := h;
    }

    method RotateEpochIfNeeded(force: bool, env: RotateEnv) returns (ok: bool)
      modifies this`counter, this`epoch, this`timeZero
      ensures (State(), ok) == Spec.RotateEpochIfNeeded(old(State()), force, env)
    {
      if force || IsZero(timeZero) || counter == MAX_U32 || Timestamp(timeZero, env.check) > EPOCH_SECONDS {
        match env.random
        case Failed(partial) =>
          epoch := partial;
          counter := MAX_U32;
          return false;
        case Filled(id) =>
          epoch := id;
          timeZero := env.start;
          counter := 0;
      }
      ok := true;
    }

    method AdjustClock(env: AdjustEnv) returns (ok: bool)
      modifies this`counter, this`epoch, this`timeZero
      ensures (State(), ok) == Spec.AdjustClock(old(State()), env)
    {
      var wallClock := Unix(env.now);
      var wallClockStart := Unix(timeZero);
      if wallClockStart > wallClock || wallClock - wallClockStart > YEAR_IN_SECONDS {
        ok := RotateEpochIfNeeded(true, env.rotate);
        return;
      }
      var elapsedWallTime := (wallClock - wallClockStart) * SECOND;
      var elapsedProcessTime := Sub(env.now, timeZero);
      if elapsedWallTime > elapsedProcessTime {
        var sleepDuration := elapsedWallTime - elapsedProcessTime;
        if sleepDuration > SECOND {
          if After(Add(ZERO_TIME, elapsedWallTime), env.now) {
            ok := RotateEpochIfNeeded(true, env.rotate);
            return;
          }
          timeZero := Add(env.now, -elapsedWallTime);
        }
      }
      ok := RotateEpochIfNeeded(false, env.rotate);
    }

    method GetSessionInfo(env: InfoEnv) returns (r: Result<SessionInfo>)
      modifies this`counter, this`epoch, this`timeZero
      ensures (State(), r) == Spec.GetSessionInfo(old(State()), env)
    {
      var ok := AdjustClock(env.adjust);
      if !ok {
        return Err(ProtocolFault(FAULT_INTERNAL));
      }
      r := Ok(SessionInfo(counter, publicKey, epoch, Timestamp(timeZero, env.stamp), handle, INFO_OK));
    }

    method GetSignedSessionInfo(challenge: Option<bytes>, env: InfoEnv) returns (r: Result<(bytes, bytes)>)
      modifies this`counter, this`epoch, this`timeZero
      ensures (State(), r) == Spec.GetSignedSessionInfo(old(State()), challenge, env)
    {
      var info := GetSessionInfo(env);
      if info.Err? {
        return Err(info.error);
      }
      var encoded := suite.codec.marshal(info.value);
      var tag := ComputeSessionInfoHmac(suite, name, challenge, encoded);
      if tag.Err? {
        return Err(tag.error);
      }
      r := Ok((encoded, tag.value));
    }

    method SignatureError(code: int, challenge: Option<bytes>, env: InfoEnv) returns (e: AuthError)
      modifies this`counter, this`epoch, this`timeZero
      ensures (State(), e) == Spec.SignatureError(old(State()), code, challenge, env)
    {
      var signed := GetSignedSessionInfo(challenge, env);
      if signed.Ok? {
        return InvalidSignature(code, signed.value.0, signed.value.1);
      }
      e := ProtocolFault(FAULT_INTERNAL);
    }

    method VerifySessionInfo(message: RoutableMessage, messageEpoch: Option<bytes>, messageCounter: u32,
                             expiresAt: u32, env: VerifyEnv) returns (error: Option<AuthError>)
      modifies this`counter, this`epoch, this`timeZero
      ensures match Spec.JudgeSession(old(State()), message, messageEpoch, messageCounter, expiresAt, env.expiry,
                                      env.timeToLive)
              case None => State() == old(State()) && error.None?
              case Some(judgement) =>
                error.Some? && (State(), Err(error.value)) == Spec.Conclude(old(State()), judgement, message, env)
    {
      var e: AuthError;
      if message.to.GetDomain() != domain && domain != DOMAIN_BROADCAST {
        return Some(ProtocolFault(FAULT_INVALID_DOMAINS));
      }
      if messageEpoch.Some? && messageEpoch.value != epoch {
        e := SignatureError(FAULT_INCORRECT_EPOCH, message.uuid, env.report);
        return Some(e);
      }
      if expiresAt != 0 && expiresAt < Timestamp(timeZero, env.expiry) {
        e := SignatureError(FAULT_TIME_EXPIRED, message.uuid, env.report);
        return Some(e);
      }
      if expiresAt > EPOCH_SECONDS {
        e := SignatureError(FAULT_BAD_PARAMETER, message.uuid, env.report);
        return Some(e);
      }
      if messageCounter == 0 || messageCounter < counter {
        if expiresAt == 0 || ToU32(expiresAt - Timestamp(timeZero, env.timeToLive)) > MAX_SECONDS_WITHOUT_COUNTER {
          e := SignatureError(FAULT_TIME_TO_LIVE_TOO_LONG, message.uuid, env.report);
          return Some(e);
        }
      }
      error := None;
    }

    method VerifyGcm(message: RoutableMessage, env: VerifyEnv) returns (r: Result<bytes>)
      requires message.signature.Gcm?
      modifies this`counter, this`epoch, this`timeZero
      ensures var judgement := Spec.JudgeGcm(old(State()), message, env.expiry, env.timeToLive);
              (State(), r) == Spec.Conclude(old(State()), judgement, message, env)
    {
      var s := message.signature;
      var error := VerifySessionInfo(message, s.gcmEpoch, s.gcmCounter, s.gcmExpiresAt, env);
      if error.Some? {
        return Err(error.value);
      }
      var meta := new Tlv.Metadata();
      error := ExtractMetadata(meta, name, epoch, message, s.gcmExpiresAt, s.gcmCounter, TYPE_GCM_PERSONALIZED);
      if error.Some? {
        return Err(error.value);
      }
      var preimage := meta.Checksum([]);
      var plaintext := suite.open(s.gcmNonce, message.ProtobufBytes(), suite.digest(preimage), s.gcmTag);
      if plaintext.None? {
        var e := SignatureError(FAULT_INVALID_SIGNATURE, message.uuid, env.report);
        return Err(e);
      }
      r := Ok(plaintext.value);
    }

    method VerifyHmac(message: RoutableMessage, env: VerifyEnv) returns (r: Result<bytes>)
      requires message.signature.Hmac?
      modifies this`counter, this`epoch, this`timeZero
      ensures var judgement := Spec.JudgeHmac(old(State()), message, env.expiry, env.timeToLive);
              (State(), r) == Spec.Conclude(old(State()), judgement, message, env)
    {
      var s := message.signature;
      var error := VerifySessionInfo(message, s.hmacEpoch, s.hmacCounter, s.hmacExpiresAt, env);
      if error.Some? {
        return Err(error.value);
      }
      var expected := ComputeHmacTag(suite, name, epoch, message, s.hmacExpiresAt, s.hmacCounter);
      if expected.Err? {
        return Err(expected.error);
      }
      if s.hmacTag != expected.value {
        var e := SignatureError(FAULT_INVALID_SIGNATURE, message.uuid, env.report);
        return Err(e);
      }
      r := Ok(message.ProtobufBytes());
    }

    method Verify(message: RoutableMessage, env: VerifyEnv) returns (r: Result<bytes>)
      modifies this`counter, this`epoch, this`timeZero, this`window
      ensures (State(), r) == Spec.Verify(old(State()), message, env)
    {
      var ok := AdjustClock(env.adjust);
      if !ok {
        return Err(ProtocolFault(FAULT_INTERNAL));
      }
      var messageCounter := 0;
      match message.signature {
        case Gcm(_, _, c, _, _) =>
          messageCounter := c;
          r := VerifyGcm(message, env);
        case Hmac(_, c, _, _) =>
          messageCounter := c;
          r := VerifyHmac(message, env);
        case _ =>
          return Err(ProtocolFault(FAULT_BAD_PARAMETER));
      }
      if r.Err? {
        return;
      }
      if messageCounter > 0 {
        var u := UpdateSlidingWindow(counter, window, messageCounter);
        counter, window := u.0, u.1;
        if !u.2 {
          var e := SignatureError(FAULT_INVALID_TOKEN_OR_COUNTER, message.uuid, env.report);
          return Err(e);
        }
      }
    }

    method Encrypt(message: RoutableMessage, id: Option<bytes>, responseCounter: u32, nonce: Option<bytes>)
      returns (r: Result<RoutableMessage>)
      ensures r == Spec.EncryptResponse(State(), message, id, responseCounter, nonce)
    {
      var data := ComputeResponseData(suite, name, message, id, responseCounter);
      if data.Err? {
        return Err(data.error);
      }
      if nonce.None? {
        return Err(ProtocolFault(FAULT_INTERNAL));
      }
      var sealed := suite.seal(nonce.value, message.ProtobufBytes(), data.value);
      r := Ok(message.(signature := GcmResponse(responseCounter, nonce.value, sealed.1),
                       payload := ProtobufMessage(sealed.0)));
    }
  }
}
