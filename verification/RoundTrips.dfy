/** Messages that cross between the two sides: what one side authorises the other side
    accepts and recovers, in both directions. */
module RoundTrips {
  import opened Primitives
  import opened Wire
  import opened GoTime
  import opened Peer
  import opened ReplayWindow
  import V = VerifierSpec
  import S = SignerSpec

  /** Both sides derived the same session key and use the same name for the vehicle. */
  ghost predicate Paired(s: S.SignerState, v: V.VerifierState) {
    s.suite == v.suite && v.suite.Lawful() && s.name == v.name
  }

  /** Right domain and epoch, not expired, and a short remaining lifetime if it arrives
      out of order or has no counter. */
  predicate InSession(v: V.VerifierState, domain: int, epoch: EpochId, counter: u32, expiresAt: u32, expiry: Time,
                      timeToLive: Time)
  {
    && (v.domain == domain || v.domain == DOMAIN_BROADCAST)
    && epoch == v.epoch
    && (expiresAt == 0 || Timestamp(v.timeZero, expiry) <= expiresAt)
    && (counter == 0 || counter < v.counter ==>
          expiresAt != 0 && ToU32(expiresAt - Timestamp(v.timeZero, timeToLive)) <= V.MAX_SECONDS_WITHOUT_COUNTER)
  }

  /** The conditions, besides authenticity, for accepting a message that was authorised for
      the given epoch. `seen` holds the counters already used; counter zero is exempt. */
  ghost predicate Admissible(v: V.VerifierState, seen: set<u32>, domain: int, epoch: EpochId, counter: u32,
                             expiresAt: u32, expiry: Time, timeToLive: Time)
  {
    InSession(v, domain, epoch, counter, expiresAt, expiry, timeToLive) && (counter == 0 || Fresh(seen, counter))
  }

  lemma SessionAdmits(v: V.VerifierState, m: RoutableMessage, epoch: EpochId, counter: u32, expiresAt: u32,
                      expiry: Time, timeToLive: Time)
    requires expiresAt <= EPOCH_SECONDS
    ensures V.JudgeSession(v, m, Some(epoch), counter, expiresAt, expiry, timeToLive).None?
            <==> InSession(v, m.to.GetDomain(), epoch, counter, expiresAt, expiry, timeToLive)
    ensures V.JudgeSession(v, m, Some(epoch), counter, expiresAt, expiry, timeToLive).Some?
            ==> !V.JudgeSession(v, m, Some(epoch), counter, expiresAt, expiry, timeToLive).value.Pass?
  {
  }

  lemma VerifyDecides(v: V.VerifierState, m: RoutableMessage, env: V.VerifyEnv, seen: set<u32>)
    requires var v' := V.AdjustClock(v, env.adjust).0; Tracks(v'.counter, v'.window, seen)
    ensures var (v', ok) := V.AdjustClock(v, env.adjust);
            var judgement := V.Judge(v', m, env.expiry, env.timeToLive);
            && (V.Verify(v, m, env).1.Ok?
                <==> ok && judgement.Pass? && (V.CounterOf(m) == 0 || Fresh(seen, V.CounterOf(m))))
            && (V.Verify(v, m, env).1.Ok? ==> V.Verify(v, m, env).1.value == judgement.plaintext)
  {
    var v' := V.AdjustClock(v, env.adjust).0;
    UpdateKeepsTracking(v'.counter, v'.window, seen, V.CounterOf(m));
  }

  lemma SealedIsJudged(s: S.SignerState, message: RoutableMessage, expiresIn: int, now: Time, nonce: Option<bytes>,
                       v: V.VerifierState, expiry: Time, timeToLive: Time)
    requires Paired(s, v)
    requires S.Encrypt(s, message, expiresIn, now, nonce).2.None?
    ensures var sealed := S.Encrypt(s, message, expiresIn, now, nonce).1;
            var judgement := V.Judge(v, sealed, expiry, timeToLive);
            && V.CounterOf(sealed) == s.counter + 1
            && (judgement.Pass? <==> InSession(v, message.to.GetDomain(), s.epoch, s.counter + 1,
                                              ExpiresAt(s.timeZero, now, expiresIn), expiry, timeToLive))
            && (judgement.Pass? ==> judgement.plaintext == message.payload.data)
  {
    var sealed := S.Encrypt(s, message, expiresIn, now, nonce).1;
    var expiresAt := ExpiresAt(s.timeZero, now, expiresIn);
    SessionAdmits(v, sealed, s.epoch, s.counter + 1, expiresAt, expiry, timeToLive);
    if v.epoch == s.epoch {
      assert GcmData(v.suite, v.name, v.epoch, sealed, expiresAt, s.counter + 1)
          == GcmData(s.suite, s.name, s.epoch, message, expiresAt, s.counter + 1);
    }
  }

  lemma SignedIsJudged(s: S.SignerState, message: RoutableMessage, expiresIn: int, now: Time,
                       v: V.VerifierState, expiry: Time, timeToLive: Time)
    requires Paired(s, v)
    requires S.AuthorizeHmac(s, message, expiresIn, now).2.None?
    ensures var signed := S.AuthorizeHmac(s, message, expiresIn, now).1;
            var judgement := V.Judge(v, signed, expiry, timeToLive);
            && V.CounterOf(signed) == ToU32(s.counter + 1)
            && (judgement.Pass? <==> InSession(v, message.to.GetDomain(), s.epoch, ToU32(s.counter + 1),
                                              ExpiresAt(s.timeZero, now, expiresIn), expiry, timeToLive))
            && (judgement.Pass? ==> judgement.plaintext == message.ProtobufBytes())
  {
    var signed := S.AuthorizeHmac(s, message, expiresIn, now).1;
    var expiresAt := ExpiresAt(s.timeZero, now, expiresIn);
    SessionAdmits(v, signed, s.epoch, ToU32(s.counter + 1), expiresAt, expiry, timeToLive);
    if v.epoch == s.epoch {
      assert HmacTag(v.suite, v.name, v.epoch, signed, expiresAt, ToU32(s.counter + 1))
          == HmacTag(s.suite, s.name, s.epoch, message, expiresAt, ToU32(s.counter + 1));
    }
  }

  /** A message that Signer.Encrypt seals verifies exactly when it is admissible, and then
      to the payload that was sealed. */
  lemma GcmRoundTrip(s: S.SignerState, message: RoutableMessage, expiresIn: int, now: Time, nonce: Option<bytes>,
                     v: V.VerifierState, seen: set<u32>, env: V.VerifyEnv)
    requires Paired(s, v)
    requires S.Encrypt(s, message, expiresIn, now, nonce).2.None?
    requires var v' := V.AdjustClock(v, env.adjust).0; Tracks(v'.counter, v'.window, seen)
    ensures var sealed := S.Encrypt(s, message, expiresIn, now, nonce).1;
            var (v', ok) := V.AdjustClock(v, env.adjust);
            var result := V.Verify(v, sealed, env).1;
            && (result.Ok? <==> ok && Admissible(v', seen, message.to.GetDomain(), s.epoch, s.counter + 1,
                                                ExpiresAt(s.timeZero, now, expiresIn), env.expiry, env.timeToLive))
            && (result.Ok? ==> result.value == message.payload.data)
  {
    var v' := V.AdjustClock(v, env.adjust).0;
    SealedIsJudged(s, message, expiresIn, now, nonce, v', env.expiry, env.timeToLive);
    VerifyDecides(v, S.Encrypt(s, message, expiresIn, now, nonce).1, env, seen);
  }

  /** The same for AuthorizeHmac, which leaves the payload readable. Its counter may have
      wrapped to zero, and then the message is exempt from the replay check. */
  lemma HmacRoundTrip(s: S.SignerState, message: RoutableMessage, expiresIn: int, now: Time,
                      v: V.VerifierState, seen: set<u32>, env: V.VerifyEnv)
    requires Paired(s, v)
    requires S.AuthorizeHmac(s, message, expiresIn, now).2.None?
    requires var v' := V.AdjustClock(v, env.adjust).0; Tracks(v'.counter, v'.window, seen)
    ensures var signed := S.AuthorizeHmac(s, message, expiresIn, now).1;
            var (v', ok) := V.AdjustClock(v, env.adjust);
            var result := V.Verify(v, signed, env).1;
            && (result.Ok? <==> ok && Admissible(v', seen, message.to.GetDomain(), s.epoch, ToU32(s.counter + 1),
                                                ExpiresAt(s.timeZero, now, expiresIn), env.expiry, env.timeToLive))
            && (result.Ok? ==> result.value == message.ProtobufBytes())
  {
    var v' := V.AdjustClock(v, env.adjust).0;
    SignedIsJudged(s, message, expiresIn, now, v', env.expiry, env.timeToLive);
    VerifyDecides(v, S.AuthorizeHmac(s, message, expiresIn, now).1, env, seen);
  }

  /** A response the Verifier encrypts is restored by Signer.Decrypt under the same request
      identifier, and its counter is returned. */
  lemma ResponseRoundTrip(v: V.VerifierState, message: RoutableMessage, id: Option<bytes>, counter: u32,
                          nonce: Option<bytes>, s: S.SignerState)
    requires Paired(s, v)
    requires V.EncryptResponse(v, message, id, counter, nonce).Ok?
    ensures S.Decrypt(s, V.EncryptResponse(v, message, id, counter, nonce).value, id)
         == (message.(payload := ProtobufMessage(message.ProtobufBytes()), signature := NoSignature), Ok(counter))
  {
    var sealed := V.EncryptResponse(v, message, id, counter, nonce).value;
    assert ResponseData(s.suite, s.name, sealed, id, counter) == ResponseData(v.suite, v.name, message, id, counter);
  }

  /** The error that Decrypt swallows cannot happen to a Signer made by NewSigner: it needs
      a vehicle name of more than 255 bytes. */
  lemma DecryptSwallowsNothing(s: S.SignerState, message: RoutableMessage, id: Option<bytes>)
    ensures S.Decrypt(s, message, id).1.Ok? && S.Decrypt(s, message, id).0.signature.GcmResponse?
            <==> message.signature.GcmResponse? && s.name.Some? && |s.name.value| > 255
  {
  }

  lemma NewSignerBoundsName(key: ClientKey, name: Option<bytes>, info: SessionInfo, now: Time)
    requires S.NewSigner(key, name, info, now).Ok?
    ensures var s := S.NewSigner(key, name, info, now).value;
            s.name == name && !(s.name.Some? && |s.name.value| > 255)
  {
  }
}
