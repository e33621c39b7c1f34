/** What acceptance says about a message that need not come from a Signer: which tags and
    ciphertexts either side takes, and that nothing authenticated can be altered. */
module Authenticity {
  import opened Primitives
  import opened Wire
  import opened GoTime
  import opened Tlv
  import opened Peer
  import opened ReplayWindow
  import opened Errors
  import opened RoundTrips
  import opened Session
  import opened SessionRoundTrips
  import V = VerifierSpec
  import S = SignerSpec
  import opened Synchronisation
  import G = Guarantees
  import Runs = VerifierRuns

  // ---- requests ----

  /** The metadata of a request can be written at all. */
  predicate Encodable(name: Option<bytes>, m: RoutableMessage, expiresAt: u32) {
    && m.to.ToDomain? && 0 <= m.to.domain <= 255
    && (name.Some? ==> |name.value| <= 255) && expiresAt <= EPOCH_SECONDS
  }

  /** The string a request authenticates, for a receiver with this name and epoch. */
  function Authenticated(method': byte, name: Option<bytes>, epoch: EpochId, m: RoutableMessage,
                         expiresAt: u32, counter: u32, payload: bytes): bytes
    requires Encodable(name, m, expiresAt)
  {
    Terminated(RequestFields(method', m.to.domain, name, epoch, expiresAt, counter, m.flags), payload)
  }

  /** The message is authentic for this Verifier: its tag is the MAC of what it says, or its
      ciphertext opens under what it says. */
  predicate Authentic(v: V.VerifierState, m: RoutableMessage) {
    match m.signature
    case Hmac(_, c, x, tag) =>
      && Encodable(v.name, m, x)
      && tag == v.suite.mac(LABEL_MESSAGE_AUTH,
                            Authenticated(TYPE_HMAC_PERSONALIZED, v.name, v.epoch, m, x, c, m.ProtobufBytes()))
    case Gcm(_, n, c, x, tag) =>
      && Encodable(v.name, m, x)
      && Opened(v, m).Some?
    case _ => false
  }

  /** What opens under the metadata of a GCM request. */
  function Opened(v: V.VerifierState, m: RoutableMessage): Option<bytes>
    requires m.signature.Gcm? && Encodable(v.name, m, m.signature.gcmExpiresAt)
  {
    var s := m.signature;
    var data := Authenticated(TYPE_GCM_PERSONALIZED, v.name, v.epoch, m, s.gcmExpiresAt, s.gcmCounter, []);
    v.suite.open(s.gcmNonce, m.ProtobufBytes(), v.suite.digest(data), s.gcmTag)
  }

  /** The payload of an authentic message. */
  function Content(v: V.VerifierState, m: RoutableMessage): bytes
    requires Authentic(v, m)
  {
    if m.signature.Gcm? then Opened(v, m).value else m.ProtobufBytes()
  }

  function ExpiryOf(m: RoutableMessage): u32 {
    match m.signature
    case Gcm(_, _, _, x, _) => x
    case Hmac(_, _, x, _) => x
    case _ => 0
  }

  predicate WrongDomain(v: V.VerifierState, m: RoutableMessage) {
    m.to.GetDomain() != v.domain && v.domain != DOMAIN_BROADCAST
  }

  predicate WrongEpoch(v: V.VerifierState, m: RoutableMessage) {
    Runs.EpochOf(m).Some? && Runs.EpochOf(m).value != v.epoch
  }

  predicate Expired(v: V.VerifierState, m: RoutableMessage, expiry: Time) {
    ExpiryOf(m) != 0 && ExpiryOf(m) < Timestamp(v.timeZero, expiry)
  }

  /** Out of order, or without a counter, and with too much time left. */
  predicate TooLongLived(v: V.VerifierState, m: RoutableMessage, timeToLive: Time) {
    && (V.CounterOf(m) == 0 || V.CounterOf(m) < v.counter)
    && (ExpiryOf(m) == 0 || ToU32(ExpiryOf(m) - Timestamp(v.timeZero, timeToLive)) > 30)
  }

  /** The checks that do not depend on the counters used before. */
  predicate PassesChecks(v: V.VerifierState, m: RoutableMessage, expiry: Time, timeToLive: Time) {
    && Authentic(v, m)
    && !WrongDomain(v, m) && !WrongEpoch(v, m) && !Expired(v, m, expiry) && !TooLongLived(v, m, timeToLive)
  }

  lemma SessionExactly(v: V.VerifierState, m: RoutableMessage, expiry: Time, timeToLive: Time)
    ensures V.JudgeSession(v, m, Runs.EpochOf(m), V.CounterOf(m), ExpiryOf(m), expiry, timeToLive).None?
            <==> && !WrongDomain(v, m) && !WrongEpoch(v, m) && !Expired(v, m, expiry) && !TooLongLived(v, m, timeToLive)
                 && ExpiryOf(m) <= EPOCH_SECONDS
    ensures var j := V.JudgeSession(v, m, Runs.EpochOf(m), V.CounterOf(m), ExpiryOf(m), expiry, timeToLive);
            j.Some? ==> !j.value.Pass?
  {
  }

  lemma JudgedExactly(v: V.VerifierState, m: RoutableMessage, expiry: Time, timeToLive: Time)
    ensures V.Judge(v, m, expiry, timeToLive).Pass? <==> PassesChecks(v, m, expiry, timeToLive)
    ensures V.Judge(v, m, expiry, timeToLive).Pass? ==> V.Judge(v, m, expiry, timeToLive).plaintext == Content(v, m)
  {
    SessionExactly(v, m, expiry, timeToLive);
  }

  /** Verify accepts exactly the authentic messages of the epoch that are addressed to it,
      in time and not used before, and returns their content. `seen` holds the counters
      that were used. */
  lemma VerifyExactly(v: V.VerifierState, m: RoutableMessage, env: V.VerifyEnv, seen: set<u32>)
    requires var v' := V.AdjustClock(v, env.adjust).0; Tracks(v'.counter, v'.window, seen)
    ensures var (v', ok) := V.AdjustClock(v, env.adjust);
            var c := V.CounterOf(m);
            && (V.Verify(v, m, env).1.Ok?
                <==> ok && PassesChecks(v', m, env.expiry, env.timeToLive) && (c == 0 || Fresh(seen, c)))
            && (V.Verify(v, m, env).1.Ok? ==> V.Verify(v, m, env).1.value == Content(v', m))
  {
    JudgedExactly(V.AdjustClock(v, env.adjust).0, m, env.expiry, env.timeToLive);
    VerifyDecides(v, m, env, seen);
  }

  /** Whatever the state, an accepted message is authentic. */
  lemma AcceptedIsAuthentic(v: V.VerifierState, m: RoutableMessage, env: V.VerifyEnv)
    requires V.Verify(v, m, env).1.Ok?
    ensures var v' := V.AdjustClock(v, env.adjust).0;
            && Authentic(v', m) && V.Verify(v, m, env).1.value == Content(v', m)
            && v'.name == v.name && v'.suite == v.suite && !WrongEpoch(v', m) && !WrongDomain(v', m)
            && V.Verify(v, m, env).0.epoch == v'.epoch
  {
    JudgedExactly(V.AdjustClock(v, env.adjust).0, m, env.expiry, env.timeToLive);
    AcceptedIsJudged(v, m, env);
    Runs.AdjustEffect(v, env.adjust);
    Runs.VerifyEffect(v, m, env);
  }

  lemma {:induction false} KeysKept(v: V.VerifierState, calls: seq<Runs.Call>)
    ensures var v' := Runs.Reach(v, calls); v'.name == v.name && v'.suite == v.suite && v'.domain == v.domain
  {
    if calls != [] {
      var before, call := Runs.Reach(v, calls[..|calls| - 1]), calls[|calls| - 1];
      KeysKept(v, calls[..|calls| - 1]);
      match call
      case Check(m, env) =>
        Runs.VerifyEffect(before, m, env);
        Runs.AdjustEffect(before, env.adjust);
        Runs.AdjustEffect(V.AdjustClock(before, env.adjust).0, env.report.adjust);
      case Inform(_, env) =>
        Runs.AdjustEffect(before, env.adjust);
    }
  }

  /** Authenticity depends on key, name and epoch only. */
  lemma AuthenticByKeys(v: V.VerifierState, w: V.VerifierState, m: RoutableMessage)
    requires v.suite == w.suite && v.name == w.name && v.epoch == w.epoch && Authentic(v, m)
    ensures Authentic(w, m)
  {
  }

  /** Over every run: each message a Verifier accepts is authentic under its own key and
      name, for the epoch in force and for its domain. */
  lemma AcceptedInRunIsAuthentic(v: V.VerifierState, calls: seq<Runs.Call>, i: nat)
    requires i < |calls| && Runs.Accepts(Runs.Reach(v, calls[..i]), calls[i])
    ensures var m, epoch := calls[i].message, Runs.Do(Runs.Reach(v, calls[..i]), calls[i]).epoch;
            && Authentic(v.(epoch := epoch), m)
            && !WrongDomain(v, m) && !WrongEpoch(v.(epoch := epoch), m)
  {
    KeysKept(v, calls[..i]);
    var before, m, env := Runs.Reach(v, calls[..i]), calls[i].message, calls[i].env;
    AcceptedIsAuthentic(before, m, env);
    var adjusted := V.AdjustClock(before, env.adjust).0;
    assert adjusted.domain == v.domain by {
      Runs.AdjustEffect(before, env.adjust);
    }
    AuthenticByKeys(adjusted, v.(epoch := adjusted.epoch), m);
  }

  /** Of all HMAC tags for one message at most one is accepted. */
  lemma OneTagAccepted(v: V.VerifierState, m: RoutableMessage, tag: bytes, tag': bytes, env: V.VerifyEnv)
    requires m.signature.Hmac?
    requires V.Verify(v, m.(signature := m.signature.(hmacTag := tag)), env).1.Ok?
    requires V.Verify(v, m.(signature := m.signature.(hmacTag := tag')), env).1.Ok?
    ensures tag == tag'
  {
    AcceptedIsAuthentic(v, m.(signature := m.signature.(hmacTag := tag)), env);
    AcceptedIsAuthentic(v, m.(signature := m.signature.(hmacTag := tag')), env);
  }

  /** Nothing that an HMAC authenticates can be altered: two messages with the same tag
      that are accepted, in whatever states of Verifiers with the same key, say the same -
      unless the MAC takes the same value for the two strings. */
  lemma AlteredHmacRefused(v: V.VerifierState, m: RoutableMessage, env: V.VerifyEnv,
                           w: V.VerifierState, m': RoutableMessage, env': V.VerifyEnv)
    requires v.suite == w.suite && m.signature.Hmac? && m'.signature.Hmac?
             && m.signature.hmacTag == m'.signature.hmacTag
    requires V.Verify(v, m, env).1.Ok? && V.Verify(w, m', env').1.Ok?
    requires forall a, b :: v.suite.mac(LABEL_MESSAGE_AUTH, a) == v.suite.mac(LABEL_MESSAGE_AUTH, b) ==> a == b
    ensures m.to == m'.to && m.flags == m'.flags && m.ProtobufBytes() == m'.ProtobufBytes() && v.name == w.name
    ensures V.CounterOf(m) == V.CounterOf(m') && ExpiryOf(m) == ExpiryOf(m')
    ensures V.AdjustClock(v, env.adjust).0.epoch == V.AdjustClock(w, env'.adjust).0.epoch
  {
    AcceptedIsAuthentic(v, m, env);
    AcceptedIsAuthentic(w, m', env');
    var x, x' := V.AdjustClock(v, env.adjust).0, V.AdjustClock(w, env'.adjust).0;
    RequestPreimageInjective(x.name, x.epoch, m, ExpiryOf(m), V.CounterOf(m), TYPE_HMAC_PERSONALIZED, m.ProtobufBytes(),
                             x'.name, x'.epoch, m', ExpiryOf(m'), V.CounterOf(m'), TYPE_HMAC_PERSONALIZED,
                             m'.ProtobufBytes());
  }

  /** The same for GCM: of all metadata one ciphertext is accepted with at most one -
      unless digests collide, or a ciphertext opens under two of them. */
  lemma AlteredGcmRefused(v: V.VerifierState, m: RoutableMessage, env: V.VerifyEnv,
                          w: V.VerifierState, m': RoutableMessage, env': V.VerifyEnv)
    requires v.suite == w.suite && m.signature.Gcm? && m'.signature.Gcm? && m.ProtobufBytes() == m'.ProtobufBytes()
    requires m.signature.gcmTag == m'.signature.gcmTag && m.signature.gcmNonce == m'.signature.gcmNonce
    requires V.Verify(v, m, env).1.Ok? && V.Verify(w, m', env').1.Ok?
    requires forall a, b :: v.suite.digest(a) == v.suite.digest(b) ==> a == b
    requires forall n, c, d, d', t :: v.suite.open(n, c, d, t).Some? && v.suite.open(n, c, d', t).Some? ==> d == d'
    ensures m.to == m'.to && m.flags == m'.flags && v.name == w.name
    ensures V.CounterOf(m) == V.CounterOf(m') && ExpiryOf(m) == ExpiryOf(m')
    ensures V.AdjustClock(v, env.adjust).0.epoch == V.AdjustClock(w, env'.adjust).0.epoch
    ensures V.Verify(v, m, env).1.value == V.Verify(w, m', env').1.value
  {
    AcceptedIsAuthentic(v, m, env);
    AcceptedIsAuthentic(w, m', env');
    var x, x' := V.AdjustClock(v, env.adjust).0, V.AdjustClock(w, env'.adjust).0;
    RequestPreimageInjective(x.name, x.epoch, m, ExpiryOf(m), V.CounterOf(m), TYPE_GCM_PERSONALIZED, [],
                             x'.name, x'.epoch, m', ExpiryOf(m'), V.CounterOf(m'), TYPE_GCM_PERSONALIZED, []);
  }

  // ---- what a refusal says ----

  /** Which fault a rejection reports: the first of these that applies. */
  lemma FaultExactly(v: V.VerifierState, m: RoutableMessage, env: V.VerifyEnv)
    requires V.Verify(v, m, env).1.Err? && V.Verify(v, m, env).1.error.InvalidSignature?
    ensures var v' := V.AdjustClock(v, env.adjust).0;
            var code := V.Verify(v, m, env).1.error.faultCode;
            && !WrongDomain(v', m) && (m.signature.Gcm? || m.signature.Hmac?)
            && code == if WrongEpoch(v', m) then FAULT_INCORRECT_EPOCH
                       else if Expired(v', m, env.expiry) then FAULT_TIME_EXPIRED
                       else if ExpiryOf(m) > EPOCH_SECONDS then FAULT_BAD_PARAMETER
                       else if TooLongLived(v', m, env.timeToLive) then FAULT_TIME_TO_LIVE_TOO_LONG
                       else if !Authentic(v', m) then FAULT_INVALID_SIGNATURE
                       else FAULT_INVALID_TOKEN_OR_COUNTER
  {
  }

  /** Which error an outright refusal returns, if random bytes can be drawn and session info
      can be signed. */
  lemma RefusalExactly(v: V.VerifierState, m: RoutableMessage, env: V.VerifyEnv)
    requires V.AdjustClock(v, env.adjust).1 && V.AdjustClock(V.AdjustClock(v, env.adjust).0, env.report.adjust).1
    requires Nameable(v.name, m.uuid)
    requires V.Verify(v, m, env).1.Err? && !V.Verify(v, m, env).1.error.InvalidSignature?
    ensures var v' := V.AdjustClock(v, env.adjust).0;
            V.Verify(v, m, env).1.error
            == if !m.signature.Gcm? && !m.signature.Hmac? then ProtocolFault(FAULT_BAD_PARAMETER)
               else ProtocolFault(FAULT_INVALID_DOMAINS)
    ensures m.signature.Gcm? || m.signature.Hmac? ==>
              WrongDomain(V.AdjustClock(v, env.adjust).0, m) || !m.to.ToDomain? || !(0 <= m.to.domain <= 255)
  {
    var v' := V.AdjustClock(v, env.adjust).0;
    Runs.AdjustEffect(v, env.adjust);
    Runs.AdjustEffect(v', env.report.adjust);
    SessionExactly(v', m, env.expiry, env.timeToLive);
  }

  /** The client tries again after a rejection exactly if the expiration time is not what is
      wrong with its message: session info cures every other fault. */
  lemma RejectionsAreRetried(v: V.VerifierState, m: RoutableMessage, env: V.VerifyEnv, codec: Codec,
                             reply: RoutableMessage)
    requires V.Verify(v, m, env).1.Err? && V.Verify(v, m, env).1.error.InvalidSignature?
    requires reply.fault == V.Verify(v, m, env).1.error.faultCode
    ensures var v' := V.AdjustClock(v, env.adjust).0;
            ShouldRetry(GetError(codec, reply))
            <==> WrongEpoch(v', m) || Expired(v', m, env.expiry) || ExpiryOf(m) <= EPOCH_SECONDS
  {
    FaultExactly(v, m, env);
    AnswersThatAreRetried(codec, reply);
  }

  /** A message that is not authentic is refused with session info, and neither a counter
      nor the window is used up. */
  lemma ForgeryChangesNothing(v: V.VerifierState, m: RoutableMessage, env: V.VerifyEnv)
    requires V.AdjustClock(v, env.adjust) == (v, true) && V.AdjustClock(v, env.report.adjust) == (v, true)
    requires !Authentic(v, m)
    ensures V.Verify(v, m, env).1.Err? && V.Verify(v, m, env).0 == v
  {
    Runs.VerifyEffect(v, m, env);
  }

  // ---- session info ----

  predicate Nameable(name: Option<bytes>, challenge: Option<bytes>) {
    (name.Some? ==> |name.value| <= 255) && (challenge.Some? ==> |challenge.value| <= 255)
  }

  /** The only tag that authenticates session info. */
  function InfoTag(suite: Suite, name: Option<bytes>, challenge: Option<bytes>, info: bytes): bytes
    requires Nameable(name, challenge)
  {
    suite.mac(LABEL_SESSION_INFO, Terminated(SessionInfoFields(name, challenge), info))
  }

  /** What the vehicle signs always makes a Signer, with the vehicle's epoch, counter, key
      and time: for every lawful client key that leads to the vehicle's session key. */
  lemma HandshakeSucceeds(v: V.VerifierState, challenge: Option<bytes>, env: V.InfoEnv, key: ClientKey,
                          generatedAt: Time, now: Time)
    requires key.Lawful() && key.exchange(v.publicKey) == Some(v.suite)
    requires V.GetSignedSessionInfo(v, challenge, env).1.Ok?
    ensures var (v', r) := V.GetSignedSessionInfo(v, challenge, env);
            var clock := Timestamp(v'.timeZero, env.stamp);
            S.NewAuthenticatedSigner(key, v.name, challenge, r.value.0, r.value.1, generatedAt, now)
            == Ok(S.SignerState(v.name, v.suite, v'.counter, v'.epoch, Add(generatedAt, -(clock * SECOND)),
                                v.publicKey, clock))
  {
    Runs.AdjustEffect(v, env.adjust);
    var v' := V.AdjustClock(v, env.adjust).0;
    assert v.suite.codec == key.codec;
    assert S.CopyInto(seq(EPOCH_ID_LENGTH, _ => 0), v'.epoch) == v'.epoch;
  }

  /** One handshake is enough: the first message of the Signer it makes is accepted with its
      payload, if it arrives in time and the vehicle neither handles other messages nor
      starts a new epoch in between. */
  lemma HandshakeThenAccepted(v: V.VerifierState, challenge: Option<bytes>, env: V.InfoEnv, key: ClientKey, at: int,
                              now: Time, skew: int, message: RoutableMessage, expiresIn: int, sendAt: int,
                              nonce: bytes, env': V.VerifyEnv)
    requires key.Lawful() && key.exchange(v.publicKey) == Some(v.suite) && v.suite.Lawful()
    requires V.GetSignedSessionInfo(v, challenge, env).1.Ok? && env.stamp.mono.Some?
    requires message.payload.ProtobufMessage? && message.to.ToDomain? && 0 <= message.to.domain <= 255
    requires v.domain == message.to.domain || v.domain == DOMAIN_BROADCAST
    requires var v1 := V.GetSignedSessionInfo(v, challenge, env).0;
             var v2 := V.AdjustClock(v1, env'.adjust).0;
             && !Runs.Rotates(v1, env'.adjust)
             && v1.timeZero.mono.Some? && v2.timeZero.mono.Some? && env'.expiry.mono.Some?
             && G.InTime(v1.timeZero.mono.value, env.stamp.mono.value, at, sendAt, expiresIn,
                         env'.expiry.mono.value + v1.timeZero.mono.value - v2.timeZero.mono.value)
    ensures var (v1, r) := V.GetSignedSessionInfo(v, challenge, env);
            var made := S.NewAuthenticatedSigner(key, v.name, challenge, r.value.0, r.value.1, ClientTime(at, skew),
                                                 now);
            && made.Ok?
            && var sealed := S.Encrypt(made.value, message, expiresIn, ClientTime(sendAt, skew), Some(nonce));
               var signed := S.AuthorizeHmac(made.value, message, expiresIn, ClientTime(sendAt, skew));
               && sealed.2.None? && V.Verify(v1, sealed.1, env').1 == Ok(message.payload.data)
               && signed.2.None? && V.Verify(v1, signed.1, env').1 == Ok(message.payload.data)
  {
    HandshakeSucceeds(v, challenge, env, key, ClientTime(at, skew), now);
    Runs.AdjustEffect(v, env.adjust);
    var (v1, r) := V.GetSignedSessionInfo(v, challenge, env);
    var s := S.NewAuthenticatedSigner(key, v.name, challenge, r.value.0, r.value.1, ClientTime(at, skew), now).value;
    var zero := V.AdjustClock(v1, env'.adjust).0.timeZero;
    G.ResyncedExpiry(v1.timeZero, env.stamp, at, sendAt, expiresIn, zero, env'.expiry, skew);
    G.NextSealedAccepted(s, v1, message, expiresIn, ClientTime(sendAt, skew), nonce, env');
    G.NextSignedAccepted(s, v1, message, expiresIn, ClientTime(sendAt, skew), env');
  }

  /** When the vehicle can sign. */
  lemma SigningExactly(v: V.VerifierState, challenge: Option<bytes>, env: V.InfoEnv)
    ensures V.GetSignedSessionInfo(v, challenge, env).1.Ok?
            <==> V.AdjustClock(v, env.adjust).1 && Nameable(v.name, challenge)
    ensures V.GetSignedSessionInfo(v, challenge, env).1.Ok? ==>
              var (info, tag) := V.GetSignedSessionInfo(v, challenge, env).1.value;
              tag == InfoTag(v.suite, v.name, challenge, info)
              && info == v.suite.codec.marshal(V.InfoOf(V.AdjustClock(v, env.adjust).0, env.stamp))
  {
    Runs.AdjustEffect(v, env.adjust);
  }

  /** What the signed info says to whoever decodes it. */
  lemma IssuedInfoSays(v: V.VerifierState, challenge: Option<bytes>, env: V.InfoEnv)
    requires V.GetSignedSessionInfo(v, challenge, env).1.Ok? && v.suite.codec.Lawful()
    ensures var (v', r) := V.GetSignedSessionInfo(v, challenge, env);
            var info := v.suite.codec.unmarshal(r.value.0);
            && info.Some? && info.value.counter == v'.counter && info.value.epoch == v'.epoch
            && info.value.publicKey == v.publicKey && info.value.handle == v.handle && info.value.status == INFO_OK
            && info.value.clockTime == Timestamp(v'.timeZero, env.stamp)
  {
    Runs.AdjustEffect(v, env.adjust);
  }

  /** Why a handshake fails: the first of these that applies. */
  lemma HandshakeFault(key: ClientKey, name: Option<bytes>, challenge: Option<bytes>, info: bytes, tag: bytes,
                       generatedAt: Time, now: Time)
    ensures var r := S.NewAuthenticatedSigner(key, name, challenge, info, tag, generatedAt, now);
            var decoded := key.codec.unmarshal(info);
            r.Err? ==>
              r.error == if decoded.None? then ProtocolFault(FAULT_DECODING)
                         else if name.Some? && |name.value| > 255 then FieldTooLong
                         else if key.exchange(decoded.value.publicKey).None? then ProtocolFault(FAULT_BAD_PARAMETER)
                         else if !Nameable(name, challenge) then FieldTooLong
                         else ProtocolFault(FAULT_INVALID_SIGNATURE)
  {
  }

  /** A Signer is made only of session info with the right tag for this name, challenge and
      info. */
  lemma HandshakeIsAuthentic(key: ClientKey, name: Option<bytes>, challenge: Option<bytes>, info: bytes, tag: bytes,
                             generatedAt: Time, now: Time)
    requires S.NewAuthenticatedSigner(key, name, challenge, info, tag, generatedAt, now).Ok?
    ensures Nameable(name, challenge) && key.codec.unmarshal(info).Some?
    ensures var s := S.NewAuthenticatedSigner(key, name, challenge, info, tag, generatedAt, now).value;
            && tag == InfoTag(s.suite, name, challenge, info)
            && key.exchange(key.codec.unmarshal(info).value.publicKey) == Some(s.suite)
  {
  }

  lemma OneHandshakeTag(key: ClientKey, name: Option<bytes>, challenge: Option<bytes>, info: bytes, tag: bytes,
                        tag': bytes, generatedAt: Time, now: Time)
    requires S.NewAuthenticatedSigner(key, name, challenge, info, tag, generatedAt, now).Ok?
    requires S.NewAuthenticatedSigner(key, name, challenge, info, tag', generatedAt, now).Ok?
    ensures tag == tag'
  {
    HandshakeIsAuthentic(key, name, challenge, info, tag, generatedAt, now);
    HandshakeIsAuthentic(key, name, challenge, info, tag', generatedAt, now);
  }

  /** A Signer takes notice of session info exactly if its tag is right for this challenge,
      it decodes, and it is about the same vehicle key; otherwise nothing changes. */
  lemma ResyncIsAuthentic(s: S.SignerState, challenge: Option<bytes>, info: bytes, tag: bytes, now: Time)
    ensures var (s', e) := S.UpdateSignedSessionInfo(s, challenge, info, tag, now);
            && (e.None? <==> && Nameable(s.name, challenge) && tag == InfoTag(s.suite, s.name, challenge, info)
                             && s.suite.codec.unmarshal(info).Some?
                             && s.suite.codec.unmarshal(info).value.publicKey == s.verifierPublic)
            && (e.Some? ==> s' == s)
            && (e.Some? ==>
                  e.value == if !Nameable(s.name, challenge) then FieldTooLong
                             else if tag != InfoTag(s.suite, s.name, challenge, info) then
                               ProtocolFault(FAULT_INVALID_SIGNATURE)
                             else if s.suite.codec.unmarshal(info).None? then ProtocolFault(FAULT_DECODING)
                             else ProtocolFault(FAULT_UNKNOWN_KEY_ID))
  {
  }

  /** What reaches a session has these effects: signed info of the paired vehicle makes a
      Signer where there is none, and updates the one there is. */
  lemma HelloTakesEffect(v: V.VerifierState, challenge: Option<bytes>, env: V.InfoEnv, key: ClientKey, vin: bytes,
                         ctx: Option<S.SignerState>, generatedAt: Time, now: Time)
    requires key.Lawful() && key.exchange(v.publicKey) == Some(v.suite) && v.name == Some(vin)
    requires V.GetSignedSessionInfo(v, challenge, env).1.Ok?
    requires ctx.Some? ==>
               && ctx.value.suite == v.suite && ctx.value.name == v.name
               && ctx.value.verifierPublic == v.publicKey
    ensures var (v', r) := V.GetSignedSessionInfo(v, challenge, env);
            var clock := Timestamp(v'.timeZero, env.stamp);
            var (ctx', e) := Hear(key, vin, ctx, Hello(challenge, r.value.0, r.value.1, generatedAt, now));
            && e.None? && ctx'.Some?
            && (ctx.None? ==> ctx'.value.counter == v'.counter)
            && (ctx.None? || ctx.value.epoch != v'.epoch || ctx.value.setTime <= clock ==>
                  && ctx'.value.epoch == v'.epoch && ctx'.value.setTime == clock && ctx'.value.counter >= v'.counter
                  && ctx'.value.timeZero == Add(if ctx.None? then generatedAt else now, -(clock * SECOND)))
  {
    var (v', r) := V.GetSignedSessionInfo(v, challenge, env);
    SigningExactly(v, challenge, env);
    IssuedInfoSays(v, challenge, env);
    assert v.suite.codec == key.codec;
    if ctx.None? {
      HandshakeSucceeds(v, challenge, env, key, generatedAt, now);
    } else {
      ResyncIsAuthentic(ctx.value, challenge, r.value.0, r.value.1, now);
      assert S.CopyInto(ctx.value.epoch, v'.epoch) == v'.epoch;
    }
  }

  /** Session info issued for one challenge is of no use for another, nor can it be altered -
      unless the MAC takes the same value for two strings. */
  lemma ReplayedInfoRefused(s: S.SignerState, challenge: Option<bytes>, info: bytes, challenge': Option<bytes>,
                            info': bytes, tag: bytes, now: Time, now': Time)
    requires S.UpdateSignedSessionInfo(s, challenge, info, tag, now).1.None?
    requires S.UpdateSignedSessionInfo(s, challenge', info', tag, now').1.None?
    requires forall a, b :: s.suite.mac(LABEL_SESSION_INFO, a) == s.suite.mac(LABEL_SESSION_INFO, b) ==> a == b
    ensures challenge == challenge' && info == info'
  {
    ResyncIsAuthentic(s, challenge, info, tag, now);
    ResyncIsAuthentic(s, challenge', info', tag, now');
    SessionInfoPreimageInjective(s.name, challenge, info, s.name, challenge', info');
  }

  // ---- responses ----

  /** The additional data of a response to the request `id`. */
  function ResponseString(name: Option<bytes>, m: RoutableMessage, id: Option<bytes>, counter: u32): bytes
    requires name.Some? ==> |name.value| <= 255
  {
    Terminated(ResponseFields(ToByte(m.from.GetDomain()), name, counter, m.flags, id, ToU32(m.fault)), [])
  }

  /** A Signer with a name of normal length delivers a response exactly if its ciphertext
      opens under the response's metadata and the identifier of the request. */
  lemma ResponseIsAuthentic(s: S.SignerState, m: RoutableMessage, id: Option<bytes>)
    requires s.name.Some? ==> |s.name.value| <= 255
    ensures S.Decrypt(s, m, id).1.Ok?
            <==> m.signature.GcmResponse? && OpenedResponse(s, m, id).Some?
    ensures S.Decrypt(s, m, id).1.Ok? ==>
              var plain := ProtobufMessage(OpenedResponse(s, m, id).value);
              S.Decrypt(s, m, id) == (m.(payload := plain, signature := NoSignature),
                                      Ok(m.signature.responseCounter))
    ensures S.Decrypt(s, m, id).1.Err? ==>
              && S.Decrypt(s, m, id).0 == m
              && S.Decrypt(s, m, id).1.error
                 == if m.signature.GcmResponse? then DecryptionFailed else ProtocolFault(FAULT_BAD_PARAMETER)
  {
  }

  function OpenedResponse(s: S.SignerState, m: RoutableMessage, id: Option<bytes>): Option<bytes>
    requires m.signature.GcmResponse? && (s.name.Some? ==> |s.name.value| <= 255)
  {
    var g := m.signature;
    s.suite.open(g.responseNonce, m.ProtobufBytes(), s.suite.digest(ResponseString(s.name, m, id, g.responseCounter)),
                 g.responseTag)
  }

  /** A response to one request does not decrypt as the response to another, if both
      identifiers are encoded - unless digests collide or it opens under two of them. */
  lemma ResponseToOneRequest(s: S.SignerState, m: RoutableMessage, id: Option<bytes>, id': Option<bytes>)
    requires s.name.Some? ==> |s.name.value| <= 255
    requires S.Decrypt(s, m, id).1.Ok? && S.Decrypt(s, m, id').1.Ok?
    requires RequestHashField(id) != [] || RequestHashField(id') != []
    requires forall a, b :: s.suite.digest(a) == s.suite.digest(b) ==> a == b
    requires forall n, c, d, d', t :: s.suite.open(n, c, d, t).Some? && s.suite.open(n, c, d', t).Some? ==> d == d'
    ensures id == id'
  {
    ResponseIsAuthentic(s, m, id);
    ResponseIsAuthentic(s, m, id');
    ResponseBindsRequest(ToByte(m.from.GetDomain()), s.name, m.signature.responseCounter, m.flags, id, ToU32(m.fault),
                         id');
  }

  // ---- failing to authorise ----

  /** Encrypt succeeds exactly if the counter is not exhausted, the message is a command
      whose metadata can be written, and a nonce can be drawn; otherwise it reports the
      first of these that fails. */
  lemma EncryptExactly(s: S.SignerState, m: RoutableMessage, expiresIn: int, now: Time, nonce: Option<bytes>)
    ensures var e := S.Encrypt(s, m, expiresIn, now, nonce).2;
            var x := GoTime.ExpiresAt(s.timeZero, now, expiresIn);
            && (e.None?
                <==> s.counter != MAX_U32 && Encodable(s.name, m, x) && m.payload.ProtobufMessage? && nonce.Some?)
            && (e.Some? ==>
                  e.value == ProtocolFault(
                    if s.counter == MAX_U32 then FAULT_INVALID_TOKEN_OR_COUNTER
                    else if !m.to.ToDomain? || !(0 <= m.to.domain <= 255) then FAULT_INVALID_DOMAINS
                    else if s.name.Some? && |s.name.value| > 255 then FAULT_WRONG_PERSONALIZATION
                    else if x > EPOCH_SECONDS || !m.payload.ProtobufMessage? then FAULT_BAD_PARAMETER
                    else FAULT_INTERNAL))
  {
  }

  /** AuthorizeHMAC succeeds exactly if the metadata can be written, whatever the payload. */
  lemma AuthorizeHmacExactly(s: S.SignerState, m: RoutableMessage, expiresIn: int, now: Time)
    ensures var x := GoTime.ExpiresAt(s.timeZero, now, expiresIn);
            S.AuthorizeHmac(s, m, expiresIn, now).2.None? <==> Encodable(s.name, m, x)
  {
  }

  /** The vehicle encrypts a response exactly if its name is short enough and a nonce can be
      drawn. */
  lemma EncryptResponseExactly(v: V.VerifierState, m: RoutableMessage, id: Option<bytes>, counter: u32,
                               nonce: Option<bytes>)
    ensures var r := V.EncryptResponse(v, m, id, counter, nonce);
            && (r.Ok? <==> (v.name.Some? ==> |v.name.value| <= 255) && nonce.Some?)
            && (r.Err? ==>
                  r.error
                  == if v.name.Some? && |v.name.value| > 255 then FieldTooLong else ProtocolFault(FAULT_INTERNAL))
  {
  }

  /** A failed draw of random bytes is reported as an internal fault, whatever was asked. */
  lemma FailedDrawIsInternal(v: V.VerifierState, m: RoutableMessage, env: V.VerifyEnv, challenge: Option<bytes>)
    requires !V.AdjustClock(v, env.adjust).1
    ensures V.Verify(v, m, env).1 == Err(ProtocolFault(FAULT_INTERNAL))
    ensures forall stamp :: V.GetSignedSessionInfo(v, challenge, V.InfoEnv(env.adjust, stamp)).1
                            == Err(ProtocolFault(FAULT_INTERNAL))
  {
  }

  /** Exported info describes the Signer as the vehicle would describe itself. */
  lemma ExportSays(s: S.SignerState, v: V.VerifierState, now: Time)
    requires s.counter == v.counter && s.verifierPublic == v.publicKey && s.epoch == v.epoch && v.handle == 0
    requires s.timeZero == v.timeZero
    ensures S.ExportedInfo(s, now) == V.InfoOf(v, now)
  {
  }
}
