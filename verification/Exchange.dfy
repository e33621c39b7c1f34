/** A command and its encrypted answer, through both endpoints and the dispatcher's tables. */
module Exchange {
  import opened Primitives
  import opened Wire
  import opened GoTime
  import opened Peer
  import opened ReplayWindow
  import opened Routing
  import opened RoundTrips
  import opened Session
  import opened SessionRoundTrips
  import opened Dispatcher
  import opened Authenticity
  import opened Synchronisation
  import G = Guarantees
  import Retry
  import V = VerifierSpec
  import S = SignerSpec

  /** The answer as the caller gets it. */
  function Plain(answer: RoutableMessage): RoutableMessage {
    answer.(payload := ProtobufMessage(answer.ProtobufBytes()), signature := NoSignature)
  }

  lemma SealedAnswer(v: V.VerifierState, answer: RoutableMessage, id: Option<bytes>, counter: u32, nonce: bytes,
                     s: S.SignerState, address: Id, r: Request)
    requires Paired(s, v) && (s.name.Some? ==> |s.name.value| <= 255) && r.uuid != ZERO_ID
             && Answers(answer, address, r)
    ensures V.EncryptResponse(v, answer, id, counter, Some(nonce)).Ok?
    ensures var sealed := V.EncryptResponse(v, answer, id, counter, Some(nonce)).value;
            && sealed.signature.GcmResponse? && RoutingKey(sealed) == Some(RequestKey(address, r))
            && S.Decrypt(s, sealed, id) == (Plain(answer), Ok(counter))
  {
    ResponseRoundTrip(v, answer, id, counter, Some(nonce), s);
    RoutedByRequest(V.EncryptResponse(v, answer, id, counter, Some(nonce)).value, address, r);
  }

  /** An answer that the vehicle encrypts under the identifier of a pending request reaches
      exactly that request's receiver, with its payload and its counter, if the counter is
      new and the queue has room. */
  method DeliverAnswer(d: Dispatcher, recv: Receiver, r: Request, v: V.VerifierState, answer: RoutableMessage,
                       counter: u32, nonce: bytes) returns (result: ProcessResult)
    requires d.Valid() && RequestKey(d.address, r) in d.handlers && d.handlers[RequestKey(d.address, r)] == recv
    requires r.domain in d.sessions && d.sessions[r.domain].ctx.Some? && Paired(d.sessions[r.domain].ctx.value, v)
    requires r.uuid != ZERO_ID && Answers(answer, d.address, r)
    modifies recv, recv.antireplay
    ensures d.Valid()
    ensures result.Queued?
            <==> Fresh(old(recv.antireplay.accepted), counter) && |old(recv.queue)| < RECEIVER_BUFFER_SIZE
    ensures result.Queued? ==>
              && recv.queue == old(recv.queue) + [Plain(answer)]
              && recv.history == old(recv.history) + [Response(Plain(answer), Some(counter))]
  {
    var session := d.sessions[r.domain];
    assert session in d.everSession && session.Valid();
    SealedAnswer(v, answer, recv.requestID, counter, nonce, session.ctx.value, d.address, r);
    var sealed := V.EncryptResponse(v, answer, recv.requestID, counter, Some(nonce)).value;
    var handler := d.Lookup(sealed);
    assert handler == recv && recv.key.domain == r.domain;
    result := d.Deliver(sealed, recv);
  }

  /** The same from the start: whatever Send hands to the connector, the answer to it under
      its own identifier is the first thing the caller receives. */
  method CommandAndAnswer(d: Dispatcher, message: RoutableMessage, auth: AuthMethod, lifetime: int, r: Request,
                          passes: seq<Pass>, now: Time, marshalFails: bool, transmissions: seq<Retry.Transmission>,
                          v: V.VerifierState, answer: RoutableMessage, counter: u32, nonce: bytes)
    returns (recv: Receiver?, handed: RoutableMessage, result: ProcessResult)
    requires d.Valid() && (auth.AuthGcm? || auth.AuthHmac?) && r.domain == message.to.GetDomain()
    requires r.domain in d.sessions && d.sessions[r.domain].ctx.Some? && Paired(d.sessions[r.domain].ctx.value, v)
    requires r.uuid != ZERO_ID && Answers(answer, d.address, r)
    modifies d`handlers, d`requests, d`closed, d.everSession
    ensures d.Valid()
    ensures recv != null ==>
              && !HasShortTag(handed) && recv.requestID == RequestID(handed)
              && handed.uuid == Some(r.uuid) && handed.from == ToAddress(RequestKey(d.address, r).address)
              && handed.to == message.to
              && result.Queued? && recv.queue == [Plain(answer)]
                 && recv.history == [Response(Plain(answer), Some(counter))]
  {
    var error, crashed;
    ghost var before, prepared := d.sessions[r.domain].ctx, d.Prepared(message, Some(r.uuid), Some(r.randomAddress));
    assert d.sessions[r.domain] in d.everSession && d.sessions[r.domain].Valid();
    recv, error, crashed, handed :=
      d.Send(message, auth, lifetime, Some(r.uuid), Some(r.randomAddress), passes, now, marshalFails, transmissions);
    result := Undecryptable;
    var session := d.sessions[r.domain];
    assert session in d.everSession;
    if recv != null {
      AuthorizeKeepsKeys(d.key, d.vin, before.value, prepared, auth, lifetime, passes);
      AuthorizeKeepsAddressing(d.key, d.vin, before.value, prepared, auth, lifetime, passes);
      result := DeliverAnswer(d, recv, r, v, answer, counter, nonce);
    }
  }

  /** Session info that the dispatcher lets through to a session bounds its clock: its epoch
      start is at or after the vehicle's, and less than the latency limit, a second of
      rounding and the processing delay after it. */
  lemma ConsideredHelloBoundsSkew(d: Dispatcher, recv: Receiver, m: RoutableMessage, v: V.VerifierState, stamp: Time,
                                  sentAt: int, received: int, at: int, skew: int)
    requires d.ConsidersHello(m, recv, ClientTime(received, skew)) && recv.requestSentAt == ClientTime(sentAt, skew)
    requires d.key.value.codec.Lawful() && m.payload.info == d.key.value.codec.marshal(V.InfoOf(v, stamp))
    requires v.timeZero.mono.Some? && stamp.mono.Some? && v.timeZero.mono.value <= stamp.mono.value
    requires stamp.mono.value - v.timeZero.mono.value < 0x1_0000_0000 * SECOND
    requires sentAt <= stamp.mono.value <= received <= at
    requires d.sessions[recv.key.domain].ctx.None?
    ensures var h := d.HelloOf(m, ClientTime(at, skew), ClientTime(at, skew));
            var (ctx, e) := Hear(d.key.value, d.vin, None, h);
            e.None? ==>
              && ctx.Some?
              && v.timeZero.mono.value <= SignerZero(ctx.value, skew)
              && SignerZero(ctx.value, skew) < v.timeZero.mono.value + d.maxLatency + SECOND + (at - received)
  {
    var now := ClientTime(at, skew);
    var h := d.HelloOf(m, now, now);
    if Hear(d.key.value, d.vin, None, h).1.None? {
      G.HandshakeSkewBound(d.key.value, Some(d.vin), h.challenge, h.tag, v, stamp, sentAt, received, at, now,
                           d.maxLatency, skew);
    }
  }

  /** A session info message of the paired vehicle takes effect through the dispatcher: the
      challenge it was signed for is the UUID of the request it answers. */
  lemma HelloThroughDispatcher(d: Dispatcher, m: RoutableMessage, v: V.VerifierState, env: V.InfoEnv,
                               ctx: Option<S.SignerState>, generatedAt: Time, now: Time)
    requires d.key.Some? && d.key.value.Lawful() && d.key.value.exchange(v.publicKey) == Some(v.suite)
    requires v.name == Some(d.vin) && V.GetSignedSessionInfo(v, m.requestUuid, env).1.Ok?
    requires ctx.Some? ==>
               && ctx.value.suite == v.suite && ctx.value.name == v.name
               && ctx.value.verifierPublic == v.publicKey
    requires var (info, tag) := V.GetSignedSessionInfo(v, m.requestUuid, env).1.value;
             m.payload == EncodedSessionInfo(info) && m.signature == SessionInfoTag(Some(tag))
    ensures var v' := V.GetSignedSessionInfo(v, m.requestUuid, env).0;
            var clock := Timestamp(v'.timeZero, env.stamp);
            var (ctx', e) := Hear(d.key.value, d.vin, ctx, d.HelloOf(m, generatedAt, now));
            && e.None? && ctx'.Some?
            && (ctx.None? || ctx.value.epoch != v'.epoch || ctx.value.setTime <= clock ==>
                  ctx'.value.epoch == v'.epoch && ctx'.value.setTime == clock && ctx'.value.counter >= v'.counter)
  {
    HelloTakesEffect(v, m.requestUuid, env, d.key.value, d.vin, ctx, generatedAt, now);
  }

  /** What the vehicle accepts of a Vehicle.Send is the command: its payload - or the empty
      one, if a repeated attempt of authorize lost it - with its domain and flags. */
  lemma SentCarriesCommand(c: Retry.Sender, s: S.SignerState, a: Retry.Attempt, m: RoutableMessage,
                           v: V.VerifierState, env: V.VerifyEnv)
    requires c.auth.AuthGcm? || c.auth.AuthHmac?
    requires m in Retry.TrySend(c, Some(s), a).sent
    requires var s' := Retry.AfterOthers(Some(s), a).value; Paired(s', v)
    ensures m.to == ToDomain(c.domain) && m.flags == c.flags && m.uuid == Some(a.uuid) && m.from == a.from
    ensures var s' := Retry.AfterOthers(Some(s), a).value;
            var lost := LosesPayload(c.key, c.vin, s', Retry.Command(c, a), c.auth, a.lifetime, a.passes);
            V.Verify(v, m, env).1.Ok? ==> V.Verify(v, m, env).1.value == if lost then [] else c.payload
  {
    var s' := Retry.AfterOthers(Some(s), a).value;
    Retry.TryReports(c, Some(s), a);
    AuthorizeKeepsAddressing(c.key, c.vin, s', Retry.Command(c, a), c.auth, a.lifetime, a.passes);
    AuthorizedPayload(c.key, c.vin, s', Retry.Command(c, a), c.auth, a.lifetime, a.passes, v, env);
  }
}
