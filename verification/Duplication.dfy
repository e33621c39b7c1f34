/** Several copies of a message: what the retries of one Vehicle.Send lead to at a vehicle
    that receives copies delayed, reordered and duplicated by the network. */
module Duplication {
  import opened Primitives
  import opened Wire
  import opened GoTime
  import opened Peer
  import opened ReplayWindow
  import opened RoundTrips
  import opened Errors
  import opened Session
  import opened Retry
  import V = VerifierSpec
  import S = SignerSpec
  import Ops = SignerRuns
  import Runs = VerifierRuns
  import G = Guarantees

  // ---- what the vehicle has done ----

  /** Call k checks m and accepts it. */
  predicate AcceptedAt(v: V.VerifierState, calls: seq<Runs.Call>, k: nat, m: RoutableMessage) {
    k < |calls| && calls[k].Check? && calls[k].message == m && Runs.Accepts(Runs.Reach(v, calls[..k]), calls[k])
  }

  predicate RefusedAt(v: V.VerifierState, calls: seq<Runs.Call>, k: nat, m: RoutableMessage) {
    k < |calls| && calls[k].Check? && calls[k].message == m && !Runs.Accepts(Runs.Reach(v, calls[..k]), calls[k])
  }

  ghost predicate Accepted(v: V.VerifierState, calls: seq<Runs.Call>, m: RoutableMessage) {
    exists k: nat :: AcceptedAt(v, calls, k, m)
  }

  ghost predicate Refused(v: V.VerifierState, calls: seq<Runs.Call>, m: RoutableMessage) {
    exists k: nat :: RefusedAt(v, calls, k, m)
  }

  /** The network delivers no message twice. */
  ghost predicate NoCopies(calls: seq<Runs.Call>) {
    forall i, j | 0 <= i < j < |calls| && calls[i].Check? && calls[j].Check? :: calls[i].message != calls[j].message
  }

  // ---- what the client is told ----

  /** The messages of attempts that end in a retriable error and are followed by another. */
  function Retried(c: Sender, ctx: Option<S.SignerState>, attempts: seq<Attempt>): seq<RoutableMessage>
    decreases |attempts|
  {
    if attempts == [] then []
    else
      var o := TrySend(c, ctx, attempts[0]);
      if ShouldRetry(o.error) && attempts[0].pause.Elapsed? then o.sent + Retried(c, o.ctx, attempts[1..]) else []
  }

  /** A retriable answer or error comes from a vehicle that refused the message, or that
      never got it. */
  ghost predicate Truthful(c: Sender, ctx: Option<S.SignerState>, attempts: seq<Attempt>, v: V.VerifierState,
                           calls: seq<Runs.Call>)
  {
    forall m | m in Retried(c, ctx, attempts) :: Accepted(v, calls, m) ==> Refused(v, calls, m)
  }

  /** What the client concludes: no message it retries was accepted. */
  ghost predicate Honest(c: Sender, ctx: Option<S.SignerState>, attempts: seq<Attempt>, v: V.VerifierState,
                         calls: seq<Runs.Call>)
  {
    forall m | m in Retried(c, ctx, attempts) :: !Accepted(v, calls, m)
  }

  /** From truthful answers the client concludes rightly exactly if no message it retries
      was accepted in one copy and refused in another. */
  lemma {:induction false} HonestExactly(c: Sender, ctx: Option<S.SignerState>, attempts: seq<Attempt>,
                                         v: V.VerifierState, calls: seq<Runs.Call>)
    requires Truthful(c, ctx, attempts, v, calls)
    ensures Honest(c, ctx, attempts, v, calls)
            <==> forall m | m in Retried(c, ctx, attempts) :: !(Accepted(v, calls, m) && Refused(v, calls, m))
  {
  }

  /** Only the last message that was sent is not retried. */
  lemma {:induction false} OneIsNotRetried(c: Sender, ctx: Option<S.SignerState>, attempts: seq<Attempt>,
                                           m: RoutableMessage, m': RoutableMessage)
    requires m in Retry.Send(c, ctx, attempts).sent && m' in Retry.Send(c, ctx, attempts).sent
    ensures m == m' || m in Retried(c, ctx, attempts) || m' in Retried(c, ctx, attempts)
    decreases |attempts|
  {
    var o := TrySend(c, ctx, attempts[0]);
    if ShouldRetry(o.error) && attempts[0].pause.Elapsed? && m !in o.sent && m' !in o.sent {
      OneIsNotRetried(c, o.ctx, attempts[1..], m, m');
    }
  }

  /** Every message names its epoch and carries a counter other than zero. */
  lemma {:induction false} SentIsNumbered(c: Sender, s: S.SignerState, attempts: seq<Attempt>, m: RoutableMessage)
    requires c.auth.AuthGcm? || c.auth.AuthHmac?
    requires Guarded(c, Some(s), attempts) && m in Retry.Send(c, Some(s), attempts).sent
    ensures Runs.EpochOf(m).Some? && V.CounterOf(m) > 0
    decreases |attempts|
  {
    var a := attempts[0];
    var o := TrySend(c, Some(s), a);
    AttemptCounter(c, s, a);
    if m !in o.sent {
      SentIsNumbered(c, o.ctx.value, attempts[1..], m);
    }
  }

  // ---- at most one acceptance, and why not always ----

  /** If the vehicle accepts two messages of one call, then it has accepted one copy of a
      message the client retried, and its answer to another copy made the client retry. */
  lemma {:induction false} OnlyCopiesExecuteTwice(c: Sender, s: S.SignerState, attempts: seq<Attempt>,
                               v: V.VerifierState, calls: seq<Runs.Call>, i: nat, j: nat,
                               m: RoutableMessage, m': RoutableMessage)
    requires (c.auth.AuthGcm? || c.auth.AuthHmac?) && Guarded(c, Some(s), attempts)
    requires v.counter == 0 && Runs.FreshRun(v, calls) && Truthful(c, Some(s), attempts, v, calls)
    requires m in Retry.Send(c, Some(s), attempts).sent && m' in Retry.Send(c, Some(s), attempts).sent
    requires i < j && AcceptedAt(v, calls, i, m) && AcceptedAt(v, calls, j, m')
    ensures exists twice ::
              twice in Retried(c, Some(s), attempts) && Accepted(v, calls, twice) && Refused(v, calls, twice)
  {
    SentIsNumbered(c, s, attempts, m);
    if m == m' {
      Runs.CopiesAcceptedOnce(v, calls, i, j);
    }
    OneIsNotRetried(c, Some(s), attempts, m, m');
    assert Accepted(v, calls, m) && Accepted(v, calls, m');
  }

  /** Retry safety up to the vehicle: if answers are truthful and the network delivers
      nothing twice, a vehicle in any run accepts at most one message of one call, over any
      number of attempts, delays and reorderings. */
  lemma {:induction false} AtMostOneAcceptance(c: Sender, s: S.SignerState, attempts: seq<Attempt>,
                            v: V.VerifierState, calls: seq<Runs.Call>, i: nat, j: nat,
                            m: RoutableMessage, m': RoutableMessage)
    requires (c.auth.AuthGcm? || c.auth.AuthHmac?) && Guarded(c, Some(s), attempts)
    requires v.counter == 0 && Runs.FreshRun(v, calls) && Truthful(c, Some(s), attempts, v, calls)
    requires NoCopies(calls)
    requires m in Retry.Send(c, Some(s), attempts).sent && m' in Retry.Send(c, Some(s), attempts).sent
    ensures !(i < j && AcceptedAt(v, calls, i, m) && AcceptedAt(v, calls, j, m'))
  {
    if i < j && AcceptedAt(v, calls, i, m) && AcceptedAt(v, calls, j, m') {
      NoneTwice(v, calls);
      OnlyCopiesExecuteTwice(c, s, attempts, v, calls, i, j, m, m');
    }
  }

  lemma {:induction false} CopiesSeen(v: V.VerifierState, calls: seq<Runs.Call>, m: RoutableMessage)
    requires Accepted(v, calls, m) && Refused(v, calls, m)
    ensures !NoCopies(calls)
  {
    var k: nat :| AcceptedAt(v, calls, k, m);
    var l: nat :| RefusedAt(v, calls, l, m);
    assert k != l;
    assert calls[if k < l then k else l].message == calls[if k < l then l else k].message;
  }

  lemma {:induction false} NoneTwice(v: V.VerifierState, calls: seq<Runs.Call>)
    requires NoCopies(calls)
    ensures forall m :: !(Accepted(v, calls, m) && Refused(v, calls, m))
  {
    forall m | Accepted(v, calls, m) && Refused(v, calls, m) ensures false {
      CopiesSeen(v, calls, m);
    }
  }

  // ---- the input ----

  /** The adjustment leaves the vehicle's state as it is, and draws nothing. */
  ghost predicate Quiet(v: V.VerifierState, env: V.AdjustEnv) {
    env.rotate.random.Failed? && V.AdjustClock(v, env) == (v, true)
  }

  lemma {:induction false} QuietStays(v: V.VerifierState, env: V.AdjustEnv, counter: u32, window: u64)
    requires Quiet(v, env) && counter != MAX_U32
    ensures Quiet(v.(counter := counter, window := window), env) && !Runs.Rotates(v, env)
  {
    Runs.AdjustEffect(v, env);
  }

  /** Accepting a newer message moves the counter to its own. */
  lemma {:induction false} NewerMovesCounter(v: V.VerifierState, m: RoutableMessage, env: V.VerifyEnv)
    requires Quiet(v, env.adjust) && v.counter < V.CounterOf(m) && V.Verify(v, m, env).1.Ok?
    ensures var v' := V.Verify(v, m, env).0; v' == v.(counter := V.CounterOf(m), window := v'.window)
  {
    Runs.VerifyEffect(v, m, env);
  }

  /** A copy of the message accepted last is answered with a fault that asks for a retry. */
  lemma {:induction false} CopyAsksForRetry(v: V.VerifierState, m: RoutableMessage, env: V.VerifyEnv)
    requires Quiet(v, env.adjust) && Quiet(v, env.report.adjust) && v.counter == V.CounterOf(m) > 0
    requires V.Judge(v, m, env.expiry, env.timeToLive).Pass?
    requires (v.name.Some? ==> |v.name.value| <= 255) && (m.uuid.Some? ==> |m.uuid.value| <= 255)
    ensures V.Verify(v, m, env).0 == v
    ensures var r := V.Verify(v, m, env).1;
            && r.Err? && r.error.InvalidSignature? && r.error.faultCode == FAULT_INVALID_TOKEN_OR_COUNTER
            && r.error.faultCode in RETRIABLE_FAULTS
  {
  }

  /** An undisturbed attempt: sealed at `now` and handed to the connector once. */
  predicate Plainly(a: Attempt, now: Time, nonce: bytes) {
    && a.others == [] && a.refused.None? && !a.marshalFails && |a.uuid| <= 255
    && a.passes == [Pass(None, Ready, now, Some(nonce))] && a.transmissions == [Transmission(None, true, Elapsed)]
    && a.reply.Answer?
  }

  lemma {:induction false} PlainAttempt(c: Sender, s: S.SignerState, a: Attempt, now: Time, nonce: bytes)
    requires Plainly(a, now, nonce) && c.auth.AuthGcm?
    requires S.Encrypt(s, Command(c, a), a.lifetime, now, Some(nonce)).2.None?
    ensures var (s', m, _) := S.Encrypt(s, Command(c, a), a.lifetime, now, Some(nonce));
            TrySend(c, Some(s), a) == Outcome(Some(s'), GetError(c.codec, a.reply.message), 1, [m], 1)
  {
    assert Ops.Reach(s, a.others) == s;
    assert a.transmissions[0].error.None?;
  }

  /** Two undisturbed attempts, the first answered with the fault, the second with success. */
  lemma {:induction false} TwoAttempts(c: Sender, s: S.SignerState, a1: Attempt, a2: Attempt,
                                       now1: Time, nonce1: bytes, now2: Time, nonce2: bytes)
    requires c.auth.AuthGcm? && Plainly(a1, now1, nonce1) && Plainly(a2, now2, nonce2)
    requires a1.reply.message.fault == FAULT_INVALID_TOKEN_OR_COUNTER && a1.pause.Elapsed?
    requires GetError(c.codec, a2.reply.message).None?
    requires S.Encrypt(s, Command(c, a1), a1.lifetime, now1, Some(nonce1)).2.None?
    requires var s' := S.Encrypt(s, Command(c, a1), a1.lifetime, now1, Some(nonce1)).0;
             S.Encrypt(s', Command(c, a2), a2.lifetime, now2, Some(nonce2)).2.None?
    ensures var (s', m1, _) := S.Encrypt(s, Command(c, a1), a1.lifetime, now1, Some(nonce1));
            var m2 := S.Encrypt(s', Command(c, a2), a2.lifetime, now2, Some(nonce2)).1;
            && Retry.Send(c, Some(s), [a1, a2]).sent == [m1, m2]
            && Retried(c, Some(s), [a1, a2]) == [m1]
  {
    var s' := S.Encrypt(s, Command(c, a1), a1.lifetime, now1, Some(nonce1)).0;
    PlainAttempt(c, s, a1, now1, nonce1);
    PlainAttempt(c, s', a2, now2, nonce2);
    AnswersThatAreRetried(c.codec, a1.reply.message);
    LastAttempt(c, s', a2);
    SendStep(c, Some(s), [a1, a2]);
    var attempts := [a1, a2];
    assert attempts[1..] == [a2];
  }

  lemma {:induction false} LastAttempt(c: Sender, s: S.SignerState, a: Attempt)
    ensures Retry.Send(c, Some(s), [a]).sent == TrySend(c, Some(s), a).sent
    ensures Retried(c, Some(s), [a])
            == if ShouldRetry(TrySend(c, Some(s), a).error) && a.pause.Elapsed? then TrySend(c, Some(s), a).sent else []
  {
    var attempts := [a];
    assert attempts[1..] == [];
  }

  // ---- the run ----

  /** What the situation needs besides: the two sides in step, and the message admissible
      when the copy of it is checked. */
  predicate InTime(v: V.VerifierState, s: S.SignerState, a: Attempt, now: Time, env: V.VerifyEnv) {
    Timestamp(v.timeZero, env.expiry) <= ExpiresAt(s.timeZero, now, a.lifetime) <= EPOCH_SECONDS
  }

  ghost predicate InStep(c: Sender, s: S.SignerState, v: V.VerifierState) {
    && Paired(s, v) && s.epoch == v.epoch && (s.name.Some? ==> |s.name.value| <= 255)
    && c.auth.AuthGcm? && 0 <= c.domain <= 255 && (v.domain == c.domain || v.domain == DOMAIN_BROADCAST)
  }

  /** The next message is accepted, and moves the vehicle's counter. */
  lemma {:induction false} NextAccepted(c: Sender, s: S.SignerState, a: Attempt, now: Time, nonce: bytes,
                                        v: V.VerifierState, env: V.VerifyEnv)
    requires InStep(c, s, v) && v.counter <= s.counter < MAX_U32 && InTime(v, s, a, now, env) && Quiet(v, env.adjust)
    ensures var (s', m, e) := S.Encrypt(s, Command(c, a), a.lifetime, now, Some(nonce));
            && e.None? && s' == s.(counter := s.counter + 1) && V.CounterOf(m) == s.counter + 1
               && m.uuid == Some(a.uuid)
            && V.Verify(v, m, env).1.Ok?
            && V.Verify(v, m, env).0 == v.(counter := s.counter + 1, window := V.Verify(v, m, env).0.window)
  {
    QuietStays(v, env.adjust, v.counter, v.window);
    G.NextSealedAccepted(s, v, Command(c, a), a.lifetime, now, nonce, env);
    NewerMovesCounter(v, S.Encrypt(s, Command(c, a), a.lifetime, now, Some(nonce)).1, env);
  }

  /** A copy of the message accepted last passes every check but the last. */
  lemma {:induction false} CopyIsJudged(c: Sender, s: S.SignerState, a: Attempt, now: Time, nonce: bytes,
                                        v: V.VerifierState, env: V.VerifyEnv)
    requires InStep(c, s, v) && v.counter == s.counter + 1 && InTime(v, s, a, now, env)
    requires S.Encrypt(s, Command(c, a), a.lifetime, now, Some(nonce)).2.None?
    ensures var m := S.Encrypt(s, Command(c, a), a.lifetime, now, Some(nonce)).1;
            V.CounterOf(m) == v.counter && V.Judge(v, m, env.expiry, env.timeToLive).Pass?
  {
    SealedIsJudged(s, Command(c, a), a.lifetime, now, Some(nonce), v, env.expiry, env.timeToLive);
  }

  /** The vehicle's three calls and what becomes of them. */
  lemma {:induction false} ThreeCalls(c: Sender, s: S.SignerState, a1: Attempt, a2: Attempt, now1: Time, nonce1: bytes,
                                      now2: Time, nonce2: bytes, v: V.VerifierState,
                                      env1: V.VerifyEnv, env2: V.VerifyEnv, env3: V.VerifyEnv)
    requires InStep(c, s, v) && v.counter <= s.counter < MAX_U32 - 1 && |a1.uuid| <= 255
    requires InTime(v, s, a1, now1, env1) && InTime(v, s, a1, now1, env2) && InTime(v, s, a2, now2, env3)
    requires Quiet(v, env1.adjust) && Quiet(v, env2.adjust) && Quiet(v, env2.report.adjust) && Quiet(v, env3.adjust)
    ensures var (s', m1, e1) := S.Encrypt(s, Command(c, a1), a1.lifetime, now1, Some(nonce1));
            var (_, m2, e2) := S.Encrypt(s', Command(c, a2), a2.lifetime, now2, Some(nonce2));
            var (v1, r1) := V.Verify(v, m1, env1);
            var (v2, r2) := V.Verify(v1, m1, env2);
            && e1.None? && e2.None? && r1.Ok? && V.Verify(v2, m2, env3).1.Ok?
            && r2.Err? && r2.error.InvalidSignature? && r2.error.faultCode == FAULT_INVALID_TOKEN_OR_COUNTER
  {
    NextAccepted(c, s, a1, now1, nonce1, v, env1);
    var (s', m1, _) := S.Encrypt(s, Command(c, a1), a1.lifetime, now1, Some(nonce1));
    var v1 := V.Verify(v, m1, env1).0;
    QuietStays(v, env2.adjust, v1.counter, v1.window);
    QuietStays(v, env2.report.adjust, v1.counter, v1.window);
    QuietStays(v, env3.adjust, v1.counter, v1.window);
    CopyIsJudged(c, s, a1, now1, nonce1, v1, env2);
    CopyAsksForRetry(v1, m1, env2);
    NextAccepted(c, s', a2, now2, nonce2, v1, env3);
  }

  /** Calls that draw nothing repeat no epoch identifier. */
  lemma {:induction false} NoDrawsAreFresh(v: V.VerifierState, calls: seq<Runs.Call>)
    requires forall call | call in calls :: Runs.Ids(call) == {}
    ensures Runs.FreshRun(v, calls)
    decreases |calls|
  {
    if calls != [] {
      NoDrawsAreFresh(v, calls[..|calls| - 1]);
      assert Runs.Ids(calls[|calls| - 1]) == {};
    }
  }

  lemma {:induction false} RunOfThree(v: V.VerifierState, m1: RoutableMessage, m2: RoutableMessage,
                                      env1: V.VerifyEnv, env2: V.VerifyEnv, env3: V.VerifyEnv)
    requires var (v1, r1) := V.Verify(v, m1, env1);
             var (v2, r2) := V.Verify(v1, m1, env2);
             r1.Ok? && r2.Err? && V.Verify(v2, m2, env3).1.Ok?
    ensures var calls := [Runs.Check(m1, env1), Runs.Check(m1, env2), Runs.Check(m2, env3)];
            && AcceptedAt(v, calls, 0, m1) && RefusedAt(v, calls, 1, m1) && AcceptedAt(v, calls, 2, m2)
            && Runs.Reach(v, calls[..1]) == V.Verify(v, m1, env1).0
            && ((forall call | call in calls :: Runs.Ids(call) == {}) ==> Runs.FreshRun(v, calls))
  {
    var calls := [Runs.Check(m1, env1), Runs.Check(m1, env2), Runs.Check(m2, env3)];
    assert calls[..2][..1] == calls[..1] && calls[..1][..0] == [] == calls[..0];
    assert Runs.Reach(v, calls[..1]) == V.Verify(v, m1, env1).0;
    assert Runs.Reach(v, calls[..2]) == V.Verify(Runs.Reach(v, calls[..1]), m1, env2).0;
    if forall call | call in calls :: Runs.Ids(call) == {} {
      NoDrawsAreFresh(v, calls);
    }
  }

  /** Retry safety fails if the network duplicates. The vehicle accepts the first copy of
      the first message and answers the second copy with a fault that asks for a retry; the
      client authorises the command again, and the vehicle accepts it again. Every answer
      was true of the copy it answers. */
  lemma {:induction false} CopyExecutesTwice(c: Sender, s: S.SignerState, a1: Attempt, a2: Attempt, now1: Time,
                                             nonce1: bytes, now2: Time, nonce2: bytes, v: V.VerifierState,
                                             env1: V.VerifyEnv, env2: V.VerifyEnv, env3: V.VerifyEnv)
    requires InStep(c, s, v) && v.counter <= s.counter < MAX_U32 - 1
    requires InTime(v, s, a1, now1, env1) && InTime(v, s, a1, now1, env2) && InTime(v, s, a2, now2, env3)
    requires Quiet(v, env1.adjust) && Quiet(v, env2.adjust) && Quiet(v, env2.report.adjust) && Quiet(v, env3.adjust)
    requires Plainly(a1, now1, nonce1) && Plainly(a2, now2, nonce2)
    requires a1.reply.message.fault == FAULT_INVALID_TOKEN_OR_COUNTER && a1.pause.Elapsed?
    requires GetError(c.codec, a2.reply.message).None?
    ensures var (s', m1, _) := S.Encrypt(s, Command(c, a1), a1.lifetime, now1, Some(nonce1));
            var m2 := S.Encrypt(s', Command(c, a2), a2.lifetime, now2, Some(nonce2)).1;
            var calls := [Runs.Check(m1, env1), Runs.Check(m1, env2), Runs.Check(m2, env3)];
            && Retry.Send(c, Some(s), [a1, a2]).sent == [m1, m2]
            && AcceptedAt(v, calls, 0, m1) && RefusedAt(v, calls, 1, m1) && AcceptedAt(v, calls, 2, m2)
            && Truthful(c, Some(s), [a1, a2], v, calls)
            && ((forall call | call in calls :: Runs.Ids(call) == {}) ==> Runs.FreshRun(v, calls))
            && var r := V.Verify(Runs.Reach(v, calls[..1]), m1, env2).1;
               r.Err? && r.error.InvalidSignature? && r.error.faultCode == a1.reply.message.fault
  {
    ThreeCalls(c, s, a1, a2, now1, nonce1, now2, nonce2, v, env1, env2, env3);
    TwoAttempts(c, s, a1, a2, now1, nonce1, now2, nonce2);
    var (s', m1, _) := S.Encrypt(s, Command(c, a1), a1.lifetime, now1, Some(nonce1));
    var m2 := S.Encrypt(s', Command(c, a2), a2.lifetime, now2, Some(nonce2)).1;
    RunOfThree(v, m1, m2, env1, env2, env3);
    var calls := [Runs.Check(m1, env1), Runs.Check(m1, env2), Runs.Check(m2, env3)];
    assert Refused(v, calls, m1);
  }
}
