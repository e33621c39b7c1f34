/** What the vehicle reads out of a message that session.authorize has authorised, after any
    number of failed attempts. */
module SessionRoundTrips {
  import opened Primitives
  import opened Wire
  import opened GoTime
  import opened Peer
  import opened RoundTrips
  import opened Session
  import V = VerifierSpec
  import S = SignerSpec
  import Runs = VerifierRuns

  /** The random source fails after all other checks of Encrypt have passed. The payload has
      then already been replaced by the ciphertext that there is not. */
  predicate NonceFails(s: S.SignerState, m: RoutableMessage, auth: AuthMethod, lifetime: int, now: Time,
                       nonce: Option<bytes>)
  {
    && auth.AuthGcm? && nonce.None? && s.counter != MAX_U32 && m.payload.ProtobufMessage?
    && GcmData(s.suite, s.name, s.epoch, m, ExpiresAt(s.timeZero, now, lifetime), s.counter + 1).Ok?
  }

  /** This happens to an attempt that authorize then repeats. */
  predicate LosesPayload(key: Option<ClientKey>, vin: bytes, s: S.SignerState, m: RoutableMessage, auth: AuthMethod,
                         lifetime: int, passes: seq<Pass>)
    decreases |passes|
  {
    && passes != [] && passes[0].picked.Ready?
    && var p := passes[0];
       var heard := HearIfAny(key, vin, Some(s), p.hello);
       && heard.Some?
       && var (s', m', e) := AuthorizeOnce(heard.value, m, auth, lifetime, p.now, p.nonce);
          && e.Some?
          && (NonceFails(heard.value, m, auth, lifetime, p.now, p.nonce)
              || LosesPayload(key, vin, s', m', auth, lifetime, passes[1..]))
  }

  lemma HearingKeepsKeys(key: Option<ClientKey>, vin: bytes, s: S.SignerState, hello: Option<Hello>)
    ensures var heard := HearIfAny(key, vin, Some(s), hello);
            heard.Some? && heard.value.suite == s.suite && heard.value.name == s.name
  {
  }

  /** Whatever authorize does, the session key and the vehicle's name stay. */
  lemma {:induction false} AuthorizeKeepsKeys(key: Option<ClientKey>, vin: bytes, s: S.SignerState, m: RoutableMessage,
                                              auth: AuthMethod, lifetime: int, passes: seq<Pass>)
    ensures var s' := AuthorizeLoop(key, vin, Some(s), m, auth, lifetime, passes).0;
            s'.Some? && s'.value.suite == s.suite && s'.value.name == s.name
    decreases |passes|
  {
    if passes != [] {
      var p := passes[0];
      HearingKeepsKeys(key, vin, s, p.hello);
      var heard := HearIfAny(key, vin, Some(s), p.hello).value;
      if p.picked.Ready? && !auth.AuthUnknown? {
        var (s', m', e) := AuthorizeOnce(heard, m, auth, lifetime, p.now, p.nonce);
        if e.Some? {
          AuthorizeKeepsKeys(key, vin, s', m', auth, lifetime, passes[1..]);
        }
      }
    }
  }

  /** The message that is authorised differs from the original in payload and signature
      only. */
  lemma {:induction false} AuthorizeKeepsAddressing(key: Option<ClientKey>, vin: bytes, s: S.SignerState,
                                                    m: RoutableMessage, auth: AuthMethod, lifetime: int,
                                                    passes: seq<Pass>)
    requires AuthorizeLoop(key, vin, Some(s), m, auth, lifetime, passes).1.Authorized?
    ensures var m' := AuthorizeLoop(key, vin, Some(s), m, auth, lifetime, passes).1.message;
            m' == m.(payload := m'.payload, signature := m'.signature)
    decreases |passes|
  {
    var p := passes[0];
    HearingKeepsKeys(key, vin, s, p.hello);
    var heard := HearIfAny(key, vin, Some(s), p.hello).value;
    var (s', m', e) := AuthorizeOnce(heard, m, auth, lifetime, p.now, p.nonce);
    if e.Some? {
      AuthorizeKeepsAddressing(key, vin, s', m', auth, lifetime, passes[1..]);
    }
  }

  /** What a failed attempt leaves in the message. */
  lemma FailedAttempt(s: S.SignerState, m: RoutableMessage, auth: AuthMethod, lifetime: int, now: Time,
                      nonce: Option<bytes>)
    requires auth.AuthGcm? || auth.AuthHmac?
    requires AuthorizeOnce(s, m, auth, lifetime, now, nonce).2.Some?
    ensures var (s', m', _) := AuthorizeOnce(s, m, auth, lifetime, now, nonce);
            && s'.suite == s.suite && s'.name == s.name
            && m'.ProtobufBytes() == if NonceFails(s, m, auth, lifetime, now, nonce) then [] else m.ProtobufBytes()
  {
  }

  lemma AcceptedIsJudged(v: V.VerifierState, m: RoutableMessage, env: V.VerifyEnv)
    requires V.Verify(v, m, env).1.Ok?
    ensures var v' := V.AdjustClock(v, env.adjust).0;
            V.Judge(v', m, env.expiry, env.timeToLive) == V.Pass(V.Verify(v, m, env).1.value)
  {
  }

  /** A successful attempt: what the vehicle accepts is the payload. */
  lemma AttemptRoundTrip(s: S.SignerState, m: RoutableMessage, auth: AuthMethod, lifetime: int, now: Time,
                         nonce: Option<bytes>, v: V.VerifierState, env: V.VerifyEnv)
    requires Paired(s, v) && (auth.AuthGcm? || auth.AuthHmac?)
    requires AuthorizeOnce(s, m, auth, lifetime, now, nonce).2.None?
    ensures var m' := AuthorizeOnce(s, m, auth, lifetime, now, nonce).1;
            V.Verify(v, m', env).1.Ok? ==> V.Verify(v, m', env).1.value == m.ProtobufBytes()
  {
    var m' := AuthorizeOnce(s, m, auth, lifetime, now, nonce).1;
    var v' := V.AdjustClock(v, env.adjust).0;
    Runs.AdjustEffect(v, env.adjust);
    if auth.AuthGcm? {
      SealedIsJudged(s, m, lifetime, now, nonce, v', env.expiry, env.timeToLive);
    } else {
      SignedIsJudged(s, m, lifetime, now, v', env.expiry, env.timeToLive);
    }
    if V.Verify(v, m', env).1.Ok? {
      AcceptedIsJudged(v, m', env);
    }
  }

  /** What the vehicle accepts is the original payload, unless an attempt before has lost
      it; then it is the empty command. */
  lemma {:induction false} AuthorizedPayload(key: Option<ClientKey>, vin: bytes, s: S.SignerState, m: RoutableMessage,
                                             auth: AuthMethod, lifetime: int, passes: seq<Pass>,
                                             v: V.VerifierState, env: V.VerifyEnv)
    requires Paired(s, v) && (auth.AuthGcm? || auth.AuthHmac?)
    requires AuthorizeLoop(key, vin, Some(s), m, auth, lifetime, passes).1.Authorized?
    ensures var m' := AuthorizeLoop(key, vin, Some(s), m, auth, lifetime, passes).1.message;
            V.Verify(v, m', env).1.Ok? ==>
              V.Verify(v, m', env).1.value
              == if LosesPayload(key, vin, s, m, auth, lifetime, passes) then [] else m.ProtobufBytes()
    decreases |passes|
  {
    var p := passes[0];
    HearingKeepsKeys(key, vin, s, p.hello);
    var heard := HearIfAny(key, vin, Some(s), p.hello).value;
    var (s', m', e) := AuthorizeOnce(heard, m, auth, lifetime, p.now, p.nonce);
    if e.None? {
      AttemptRoundTrip(heard, m, auth, lifetime, p.now, p.nonce, v, env);
    } else {
      FailedAttempt(heard, m, auth, lifetime, p.now, p.nonce);
      AuthorizedPayload(key, vin, s', m', auth, lifetime, passes[1..], v, env);
    }
  }

  /** The round trip through authorize, and exactly when it holds: a command that is not
      empty arrives as it is if and only if no repeated attempt has lost it. */
  lemma RoundTripExactly(key: Option<ClientKey>, vin: bytes, s: S.SignerState, m: RoutableMessage, auth: AuthMethod,
                         lifetime: int, passes: seq<Pass>, v: V.VerifierState, env: V.VerifyEnv)
    requires Paired(s, v) && (auth.AuthGcm? || auth.AuthHmac?) && m.ProtobufBytes() != []
    requires AuthorizeLoop(key, vin, Some(s), m, auth, lifetime, passes).1.Authorized?
    requires V.Verify(v, AuthorizeLoop(key, vin, Some(s), m, auth, lifetime, passes).1.message, env).1.Ok?
    ensures var m' := AuthorizeLoop(key, vin, Some(s), m, auth, lifetime, passes).1.message;
            V.Verify(v, m', env).1.value == m.ProtobufBytes()
            <==> !LosesPayload(key, vin, s, m, auth, lifetime, passes)
  {
    AuthorizedPayload(key, vin, s, m, auth, lifetime, passes, v, env);
  }

  /** The input on which it fails: one failing draw, then a good one. The vehicle takes the
      empty command. */
  lemma RetryEmptiesCommand(key: Option<ClientKey>, vin: bytes, s: S.SignerState, m: RoutableMessage, lifetime: int,
                            now: Time, nonce: bytes, v: V.VerifierState, expiry: Time, timeToLive: Time)
    requires Paired(s, v) && s.counter < MAX_U32 - 1 && m.payload.ProtobufMessage?
    requires NonceFails(s, m, AuthGcm, lifetime, now, None)
    requires var expiresAt := ExpiresAt(s.timeZero, now, lifetime);
             InSession(v, m.to.GetDomain(), s.epoch, s.counter + 2, expiresAt, expiry, timeToLive)
    ensures var passes := [Pass(None, Ready, now, None), Pass(None, Ready, now, Some(nonce))];
            var r := AuthorizeLoop(key, vin, Some(s), m, AuthGcm, lifetime, passes).1;
            r.Authorized? && V.Judge(v, r.message, expiry, timeToLive) == V.Pass([])
  {
    var passes := [Pass(None, Ready, now, None), Pass(None, Ready, now, Some(nonce))];
    var (s', m', e) := AuthorizeOnce(s, m, AuthGcm, lifetime, now, None);
    var expiresAt := ExpiresAt(s.timeZero, now, lifetime);
    assert e.Some? && s' == s.(counter := s.counter + 1) && m'.payload == ProtobufMessage([]) && m'.to == m.to;
    assert ExtractedFields(s.name, s.epoch, m', expiresAt, s.counter + 2, TYPE_GCM_PERSONALIZED).Ok?;
    assert passes[1..] == [Pass(None, Ready, now, Some(nonce))];
    SealedIsJudged(s', m', lifetime, now, Some(nonce), v, expiry, timeToLive);
  }
}
