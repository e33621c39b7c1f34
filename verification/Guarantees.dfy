/** What the two sides can rely on: a client that is told why its message was rejected
    gets the next one through, and the clock error of a client is bounded. */
module Guarantees {
  import opened Primitives
  import opened Wire
  import opened GoTime
  import opened Peer
  import opened ReplayWindow
  import opened RoundTrips
  import opened Synchronisation
  import V = VerifierSpec
  import S = SignerSpec
  import Runs = VerifierRuns

  // ---- resynchronisation ----

  /** The lifetime covers the latency of the rejection, the transit of the new message and
      a second of rounding, and the message expires within the epoch. `arrival` includes
      any time by which the vehicle has moved its clock forward since `stamp`. */
  predicate InTime(zero: int, stamp: int, at: int, sendAt: int, expiresIn: int, arrival: int) {
    && zero <= stamp <= at <= sendAt <= arrival
    && (at - stamp) + SECOND + (arrival - sendAt) <= expiresIn
    && (stamp - zero) + (sendAt - at) + expiresIn <= EPOCH_SECONDS * SECOND
  }

  lemma ResyncedExpiry(zero: Time, stamp: Time, at: int, sendAt: int, expiresIn: int, zero': Time, arrival: Time,
                       skew: int)
    requires zero.mono.Some? && stamp.mono.Some? && zero'.mono.Some? && arrival.mono.Some?
    requires InTime(zero.mono.value, stamp.mono.value, at, sendAt, expiresIn,
                    arrival.mono.value + zero.mono.value - zero'.mono.value)
    ensures var clock := Timestamp(zero, stamp);
            var expiresAt := ExpiresAt(EpochStartTime(ClientTime(at, skew), clock), ClientTime(sendAt, skew),
                                       expiresIn);
            Timestamp(zero', arrival) <= expiresAt <= EPOCH_SECONDS
  {
    var clock := Timestamp(zero, stamp);
    var elapsed := stamp.mono.value - zero.mono.value;
    assert clock == elapsed / SECOND;
    var x := sendAt + expiresIn - at + clock * SECOND;
    assert ExpiresAt(EpochStartTime(ClientTime(at, skew), clock), ClientTime(sendAt, skew), expiresIn) == x / SECOND;
    assert arrival.mono.value - zero'.mono.value <= x;
    assert Timestamp(zero', arrival) == (arrival.mono.value - zero'.mono.value) / SECOND;
  }

  /** The session info attached to a rejection brings the Signer to the vehicle's epoch and
      at least to its counter. */
  lemma RejectionResyncs(y: System, m: RoutableMessage, env: V.VerifyEnv, at: int)
    requires InOrder(y) && Paired(y.s, y.v) && y.s.verifierPublic == y.v.publicKey
    requires env.report.stamp.mono.Some? && Possible(y, VehicleCall(Runs.Check(m, env)), env.report.stamp.mono.value)
    requires V.Verify(y.v, m, env).1.Err? && V.Verify(y.v, m, env).1.error.InvalidSignature?
    requires var v := V.Verify(y.v, m, env).0;
             v.timeZero.mono.Some? ==> env.report.stamp.mono.value - v.timeZero.mono.value < 0x1_0000_0000 * SECOND
    ensures var (v, r) := V.Verify(y.v, m, env);
            var (s, e) := S.UpdateSignedSessionInfo(y.s, m.uuid, r.error.encodedInfo, r.error.tag,
                                                    ClientTime(at, y.skew));
            && e.None? && Paired(s, v) && v.counter != MAX_U32 && v.domain == y.v.domain
            && v.timeZero.mono.Some? && v.timeZero.mono.value <= env.report.stamp.mono.value
            && s == y.s.(counter := if y.s.counter < v.counter then v.counter else y.s.counter, epoch := v.epoch,
                         setTime := Timestamp(v.timeZero, env.report.stamp),
                         timeZero := EpochStartTime(ClientTime(at, y.skew), Timestamp(v.timeZero, env.report.stamp)))
  {
    var call := Runs.Check(m, env);
    var (v, r) := V.Verify(y.v, m, env);
    Runs.VerifyEffect(y.v, m, env);
    var v1 := V.AdjustClock(y.v, env.adjust).0;
    Runs.AdjustEffect(y.v, env.adjust);
    Runs.AdjustEffect(v1, env.report.adjust);
    EventKeepsOrder(y, VehicleCall(call), env.report.stamp.mono.value);
    Runs.TimestampExact(v.timeZero, env.report.stamp);
    var info := V.InfoOf(v, env.report.stamp);
    assert r.error.encodedInfo == v.suite.codec.marshal(info);
    assert S.CopyInto(y.s.epoch, v.epoch) == v.epoch;
  }

  /** One round trip is enough. Whatever put the two sides out of step, once the vehicle
      answers a message with session info, the client's next message is accepted: if it
      arrives in time and the vehicle neither handles other messages nor starts a new epoch
      in between. It may adjust its clock, for instance after having slept. */
  lemma ResyncInOneRoundTrip(y: System, m: RoutableMessage, env: V.VerifyEnv, at: int,
                             message: RoutableMessage, expiresIn: int, sendAt: int, nonce: bytes, env': V.VerifyEnv)
    requires InOrder(y) && Paired(y.s, y.v) && y.s.verifierPublic == y.v.publicKey && y.s.counter != MAX_U32
    requires env.report.stamp.mono.Some? && Possible(y, VehicleCall(Runs.Check(m, env)), env.report.stamp.mono.value)
    requires V.Verify(y.v, m, env).1.Err? && V.Verify(y.v, m, env).1.error.InvalidSignature?
    requires message.payload.ProtobufMessage? && message.to.ToDomain? && 0 <= message.to.domain <= 255
    requires y.v.domain == message.to.domain || y.v.domain == DOMAIN_BROADCAST
    requires var v := V.Verify(y.v, m, env).0;
             var v' := V.AdjustClock(v, env'.adjust).0;
             && !Runs.Rotates(v, env'.adjust)
             && v.timeZero.mono.Some? && v'.timeZero.mono.Some? && env'.expiry.mono.Some?
             && InTime(v.timeZero.mono.value, env.report.stamp.mono.value, at, sendAt, expiresIn,
                       env'.expiry.mono.value + v.timeZero.mono.value - v'.timeZero.mono.value)
    ensures var (v, r) := V.Verify(y.v, m, env);
            var s := S.UpdateSignedSessionInfo(y.s, m.uuid, r.error.encodedInfo, r.error.tag, ClientTime(at, y.skew)).0;
            var sealed := S.Encrypt(s, message, expiresIn, ClientTime(sendAt, y.skew), Some(nonce));
            var signed := S.AuthorizeHmac(s, message, expiresIn, ClientTime(sendAt, y.skew));
            && sealed.2.None? && V.Verify(v, sealed.1, env').1 == Ok(message.payload.data)
            && signed.2.None? && V.Verify(v, signed.1, env').1 == Ok(message.payload.data)
  {
    var (v, r) := V.Verify(y.v, m, env);
    RejectionResyncs(y, m, env, at);
    var s := S.UpdateSignedSessionInfo(y.s, m.uuid, r.error.encodedInfo, r.error.tag, ClientTime(at, y.skew)).0;
    var zero' := V.AdjustClock(v, env'.adjust).0.timeZero;
    ResyncedExpiry(v.timeZero, env.report.stamp, at, sendAt, expiresIn, zero', env'.expiry, y.skew);
    NextSealedAccepted(s, v, message, expiresIn, ClientTime(sendAt, y.skew), nonce, env');
    NextSignedAccepted(s, v, message, expiresIn, ClientTime(sendAt, y.skew), env');
  }

  /** A message that passes every check and has a larger counter than all before it. */
  lemma NewerIsAccepted(v: V.VerifierState, m: RoutableMessage, env: V.VerifyEnv, plaintext: bytes)
    requires v.counter < V.CounterOf(m) && !Runs.Rotates(v, env.adjust)
    requires V.Judge(V.AdjustClock(v, env.adjust).0, m, env.expiry, env.timeToLive) == V.Pass(plaintext)
    ensures V.Verify(v, m, env).1 == Ok(plaintext)
  {
    Runs.AdjustEffect(v, env.adjust);
    var v' := V.AdjustClock(v, env.adjust).0;
    assert UpdateSlidingWindow(v'.counter, v'.window, V.CounterOf(m)).2;
  }

  lemma NextSealedAccepted(s: S.SignerState, v: V.VerifierState, message: RoutableMessage, expiresIn: int, now: Time,
                           nonce: bytes, env: V.VerifyEnv)
    requires Paired(s, v) && s.epoch == v.epoch && v.counter <= s.counter < MAX_U32
    requires s.name.Some? ==> |s.name.value| <= 255
    requires message.payload.ProtobufMessage? && message.to.ToDomain? && 0 <= message.to.domain <= 255
    requires v.domain == message.to.domain || v.domain == DOMAIN_BROADCAST
    requires !Runs.Rotates(v, env.adjust)
    requires var zero := V.AdjustClock(v, env.adjust).0.timeZero;
             Timestamp(zero, env.expiry) <= ExpiresAt(s.timeZero, now, expiresIn) <= EPOCH_SECONDS
    ensures var sealed := S.Encrypt(s, message, expiresIn, now, Some(nonce));
            sealed.2.None? && V.Verify(v, sealed.1, env).1 == Ok(message.payload.data)
  {
    Runs.AdjustEffect(v, env.adjust);
    var v', sealed := V.AdjustClock(v, env.adjust).0, S.Encrypt(s, message, expiresIn, now, Some(nonce)).1;
    SealedIsJudged(s, message, expiresIn, now, Some(nonce), v', env.expiry, env.timeToLive);
    assert V.Judge(v', sealed, env.expiry, env.timeToLive).Pass?;
    NewerIsAccepted(v, sealed, env, message.payload.data);
  }

  lemma NextSignedAccepted(s: S.SignerState, v: V.VerifierState, message: RoutableMessage, expiresIn: int, now: Time,
                           env: V.VerifyEnv)
    requires Paired(s, v) && s.epoch == v.epoch && v.counter <= s.counter < MAX_U32
    requires s.name.Some? ==> |s.name.value| <= 255
    requires message.payload.ProtobufMessage? && message.to.ToDomain? && 0 <= message.to.domain <= 255
    requires v.domain == message.to.domain || v.domain == DOMAIN_BROADCAST
    requires !Runs.Rotates(v, env.adjust)
    requires var zero := V.AdjustClock(v, env.adjust).0.timeZero;
             Timestamp(zero, env.expiry) <= ExpiresAt(s.timeZero, now, expiresIn) <= EPOCH_SECONDS
    ensures var signed := S.AuthorizeHmac(s, message, expiresIn, now);
            signed.2.None? && V.Verify(v, signed.1, env).1 == Ok(message.payload.data)
  {
    Runs.AdjustEffect(v, env.adjust);
    var v', signed := V.AdjustClock(v, env.adjust).0, S.AuthorizeHmac(s, message, expiresIn, now).1;
    SignedIsJudged(s, message, expiresIn, now, v', env.expiry, env.timeToLive);
    assert V.Judge(v', signed, env.expiry, env.timeToLive).Pass?;
    NewerIsAccepted(v, signed, env, message.payload.data);
  }

  // ---- clock skew ----

  /** Session info that arrives while its request is not older than `latency` sets the
      Signer's clock to within latency + 1 s, plus the time spent processing it. */
  lemma SkewBound(s: S.SignerState, v: V.VerifierState, stamp: Time, sentAt: int, received: int, at: int, latency: int,
                  skew: int)
    requires v.timeZero.mono.Some? && stamp.mono.Some? && v.timeZero.mono.value <= stamp.mono.value
    requires stamp.mono.value - v.timeZero.mono.value < 0x1_0000_0000 * SECOND
    requires sentAt <= stamp.mono.value <= received <= at
    requires !After(ClientTime(received, skew), Add(ClientTime(sentAt, skew), latency))
    requires s.verifierPublic == v.publicKey && S.Adopts(s, V.InfoOf(v, stamp))
    ensures var s' := S.UpdateSessionInfo(s, V.InfoOf(v, stamp), ClientTime(at, skew)).0;
            v.timeZero.mono.value <= SignerZero(s', skew) < v.timeZero.mono.value + latency + SECOND + (at - received)
  {
    Runs.TimestampExact(v.timeZero, stamp);
  }

  /** The same for the Signer that a handshake makes. `at` is the reading with which its
      clock is set. */
  lemma HandshakeSkewBound(key: ClientKey, name: Option<bytes>, challenge: Option<bytes>, tag: bytes,
                           v: V.VerifierState, stamp: Time, sentAt: int, received: int, at: int, now: Time,
                           latency: int, skew: int)
    requires v.timeZero.mono.Some? && stamp.mono.Some? && v.timeZero.mono.value <= stamp.mono.value
    requires stamp.mono.value - v.timeZero.mono.value < 0x1_0000_0000 * SECOND
    requires sentAt <= stamp.mono.value <= received <= at
    requires !After(ClientTime(received, skew), Add(ClientTime(sentAt, skew), latency))
    requires key.codec.Lawful()
    requires var info := key.codec.marshal(V.InfoOf(v, stamp));
             S.NewAuthenticatedSigner(key, name, challenge, info, tag, ClientTime(at, skew), now).Ok?
    ensures var info := key.codec.marshal(V.InfoOf(v, stamp));
            var s := S.NewAuthenticatedSigner(key, name, challenge, info, tag, ClientTime(at, skew), now).value;
            && s.epoch == v.epoch && s.counter == v.counter && s.verifierPublic == v.publicKey
            && v.timeZero.mono.value <= SignerZero(s, skew)
            && SignerZero(s, skew) < v.timeZero.mono.value + latency + SECOND + (at - received)
  {
    Runs.TimestampExact(v.timeZero, stamp);
    assert S.CopyInto(seq(EPOCH_ID_LENGTH, _ => 0), v.epoch) == v.epoch;
  }

  datatype Cycle = Cycle(exportedAt: int, createdAt: int, stored: bool)

  function Cycled(s: S.SignerState, cycles: seq<Cycle>, skew: int): S.SignerState {
    if cycles == [] then s
    else
      var last := cycles[|cycles| - 1];
      Reload(Cycled(s, cycles[..|cycles| - 1], skew), ClientTime(last.exportedAt, skew),
             EntryTime(last.createdAt, skew, last.stored))
  }

  function SaveDelay(cycles: seq<Cycle>): int {
    if cycles == [] then 0
    else SaveDelay(cycles[..|cycles| - 1]) + cycles[|cycles| - 1].createdAt - cycles[|cycles| - 1].exportedAt
  }

  /** Saving and loading a session n times never moves its clock ahead, and sets it back by
      less than a second each time, plus the delay between export and time stamp. */
  lemma {:induction false} CacheCyclesBoundSkew(s: S.SignerState, cycles: seq<Cycle>, skew: int)
    requires forall k | 0 <= k < |cycles| ::
               var zero := SignerZero(Cycled(s, cycles[..k], skew), skew);
               && zero <= cycles[k].exportedAt <= cycles[k].createdAt
               && cycles[k].exportedAt - zero < 0x1_0000_0000 * SECOND
    ensures var zero := SignerZero(s, skew) + SaveDelay(cycles);
            zero <= SignerZero(Cycled(s, cycles, skew), skew) <= zero + |cycles| * SECOND
            && (cycles != [] ==> SignerZero(Cycled(s, cycles, skew), skew) < zero + |cycles| * SECOND)
  {
    if cycles != [] {
      var before, last := cycles[..|cycles| - 1], cycles[|cycles| - 1];
      forall k | 0 <= k < |before| ensures before[..k] == cycles[..k] {
      }
      CacheCyclesBoundSkew(s, before, skew);
      ReloadShift(Cycled(s, before, skew), last.exportedAt, last.createdAt, last.stored, skew);
    }
  }

  lemma ReloadShift(s: S.SignerState, exportedAt: int, createdAt: int, stored: bool, skew: int)
    requires SignerZero(s, skew) <= exportedAt <= createdAt
    requires exportedAt - SignerZero(s, skew) < 0x1_0000_0000 * SECOND
    ensures var zero := SignerZero(s, skew) + createdAt - exportedAt;
            var s' := Reload(s, ClientTime(exportedAt, skew), EntryTime(createdAt, skew, stored));
            zero <= SignerZero(s', skew) < zero + SECOND
  {
    var elapsed := exportedAt - SignerZero(s, skew);
    assert Sub(ClientTime(exportedAt, skew), s.timeZero) == elapsed;
    assert Timestamp(s.timeZero, ClientTime(exportedAt, skew)) == elapsed / SECOND;
  }
}
