/** pkg/vehicle/vehicle.go, Send and trySend, with the transmission loop of
    internal/dispatcher/dispatcher.go, Send: how often one command can be executed. */
module Retry {
  import opened Primitives
  import opened Wire
  import opened Errors
  import S = SignerSpec
  import opened Session
  import Ops = SignerRuns
  import V = VerifierSpec
  import Runs = VerifierRuns

  /** The outcome of a select between the context and a timer. */
  datatype Pause = Elapsed | Cancelled

  /** One call of the connector's Send: its error, whether the vehicle executes the message
      because of it (now or later), and the pause before a retransmission. The network may
      deliver several copies; module Duplication says what becomes of them. */
  datatype Transmission = Transmission(error: Option<GoError>, executed: bool, pause: Pause)

  datatype Reply = Answer(message: RoutableMessage) | NoAnswer

  /** What stays the same over the attempts of one Vehicle.Send: the client, the method of
      authentication and the command. */
  datatype Sender = Sender(codec: Codec, key: Option<ClientKey>, vin: bytes, auth: AuthMethod,
                           domain: int, payload: bytes, flags: u32)

  /** What the world does during one iteration. Other commands of the same client use the
      session's Signer first (`others`). `refused` is the error if the dispatcher gives up
      before it authorises; uuid and from are its draws; lifetime and passes belong to
      authorize; marshalling the authorised message may fail. A script that runs out stands for an expired context. */
  datatype Attempt = Attempt(
    others: seq<Ops.Op>, refused: Option<GoError>, uuid: bytes, from: Destination, lifetime: int, passes: seq<Pass>,
    marshalFails: bool, transmissions: seq<Transmission>, reply: Reply, pause: Pause)

  /** The session's Signer afterwards, the error, the executions, the messages that were
      handed to the connector (retransmissions not repeated), and how many attempts were
      made. */
  datatype Outcome = Outcome(
    ctx: Option<S.SignerState>, error: Option<GoError>, executions: nat, sent: seq<RoutableMessage>, made: nat)

  function Count(executed: bool): nat {
    if executed then 1 else 0
  }

  /** Dispatcher.Send from the first transmission on: its error and the executions. */
  function Transmit(ts: seq<Transmission>): (Option<GoError>, nat)
    decreases |ts|
  {
    if ts == [] then (Some(CommandError(false, true)), 0)
    else
      var t := ts[0];
      if t.error.None? || !ShouldRetry(t.error) then (t.error, Count(t.executed))
      else if t.pause.Cancelled? then (Some(CommandError(false, true)), Count(t.executed))
      else
        var (e, n) := Transmit(ts[1..]);
        (e, n + Count(t.executed))
  }

  /** The command of one attempt, before it is authorised. */
  function Command(c: Sender, a: Attempt): RoutableMessage {
    var payload := ProtobufMessage(c.payload);
    RoutableMessage(ToDomain(c.domain), a.from, payload, NoSignature, c.flags, Some(a.uuid), None, 0, 0)
  }

  function AfterOthers(ctx: Option<S.SignerState>, a: Attempt): Option<S.SignerState> {
    if ctx.None? then None else Some(Ops.Reach(ctx.value, a.others))
  }

  /** The Signer and the message after authorize, or its error. */
  function Authorise(c: Sender, ctx: Option<S.SignerState>, a: Attempt)
    : (Option<S.SignerState>, RoutableMessage, Option<GoError>)
  {
    if a.refused.Some? || c.auth.AuthNone? then (ctx, Command(c, a), a.refused)
    else if ctx.None? then (ctx, Command(c, a), Some(ERR_NO_SESSION))
    else
      var (ctx', r) := AuthorizeLoop(c.key, c.vin, ctx, Command(c, a), c.auth, a.lifetime, a.passes);
      match r
      case Authorized(m) => (ctx', m, None)
      case GaveUp(m) => (ctx', m, Some(CONTEXT_DONE))
      case UnknownMethod => (ctx', Command(c, a), Some(UNKNOWN_METHOD))
  }

  function TrySend(c: Sender, ctx: Option<S.SignerState>, a: Attempt): Outcome {
    var (ctx', m, refused) := Authorise(c, AfterOthers(ctx, a), a);
    if refused.Some? then Outcome(ctx', refused, 0, [], 1)
    else if a.marshalFails then Outcome(ctx', Some(MARSHAL_FAILED), 0, [], 1)
    else
      var (e, n) := Transmit(a.transmissions);
      if e.Some? then Outcome(ctx', e, n, [m], 1)
      else
        match a.reply
        case Answer(answer) => Outcome(ctx', GetError(c.codec, answer), n, [m], 1)
        case NoAnswer => Outcome(ctx', Some(CommandError(true, true)), n, [m], 1)
  }

  /** Vehicle.Send. */
  function Send(c: Sender, ctx: Option<S.SignerState>, attempts: seq<Attempt>): Outcome
    decreases |attempts|
  {
    if attempts == [] then Outcome(ctx, Some(CONTEXT_DONE), 0, [], 0)
    else
      var o := TrySend(c, ctx, attempts[0]);
      if !ShouldRetry(o.error) then o
      else if attempts[0].pause.Cancelled? then o.(error := Some(CONTEXT_DONE))
      else
        Then(o, Send(c, o.ctx, attempts[1..]))
  }

  /** Two consecutive parts of one call. */
  function Then(o: Outcome, rest: Outcome): Outcome {
    Outcome(rest.ctx, rest.error, o.executions + rest.executions, o.sent + rest.sent, o.made + rest.made)
  }

  lemma ThenAssociative(a: Outcome, b: Outcome, rest: Outcome)
    ensures Then(Then(a, b), rest) == Then(a, Then(b, rest))
  {
    assert a.sent + b.sent + rest.sent == a.sent + (b.sent + rest.sent);
  }

  lemma SendStep(c: Sender, ctx: Option<S.SignerState>, attempts: seq<Attempt>)
    requires attempts != []
    ensures var o := TrySend(c, ctx, attempts[0]);
            Send(c, ctx, attempts)
            == if !ShouldRetry(o.error) then o
               else if attempts[0].pause.Cancelled? then o.(error := Some(CONTEXT_DONE))
               else Then(o, Send(c, o.ctx, attempts[1..]))
  {
  }

  /** The loops as they are written. */
  method TransmitLoop(ts: seq<Transmission>) returns (error: Option<GoError>, executions: nat)
    ensures (error, executions) == Transmit(ts)
  {
    executions := 0;
    var i := 0;
    while i < |ts|
      invariant 0 <= i <= |ts|
      invariant Transmit(ts) == (Transmit(ts[i..]).0, executions + Transmit(ts[i..]).1)
    {
      error := ts[i].error;
      executions := executions + Count(ts[i].executed);
      if error.None? {
        return;
      }
      if !ShouldRetry(error) {
        return;
      }
      if ts[i].pause.Cancelled? {
        return Some(CommandError(false, true)), executions;
      }
      i := i + 1;
    }
    error := Some(CommandError(false, true));
  }

  method TryOnce(c: Sender, ctx: Option<S.SignerState>, a: Attempt) returns (o: Outcome)
    ensures o == TrySend(c, ctx, a)
  {
    var (ctx', m, refused) := Authorise(c, AfterOthers(ctx, a), a);
    if refused.Some? {
      return Outcome(ctx', refused, 0, [], 1);
    }
    if a.marshalFails {
      return Outcome(ctx', Some(MARSHAL_FAILED), 0, [], 1);
    }
    var error, executions := TransmitLoop(a.transmissions);
    if error.None? {
      error := if a.reply.Answer? then GetError(c.codec, a.reply.message) else Some(CommandError(true, true));
    }
    o := Outcome(ctx', error, executions, [m], 1);
  }

  method SendLoop(c: Sender, ctx: Option<S.SignerState>, attempts: seq<Attempt>) returns (r: Outcome)
    ensures r == Send(c, ctx, attempts)
  {
    r := Outcome(ctx, Some(CONTEXT_DONE), 0, [], 0);
    while r.made < |attempts|
      invariant 0 <= r.made <= |attempts| && r.error == Some(CONTEXT_DONE)
      invariant Send(c, ctx, attempts) == Then(r, Send(c, r.ctx, attempts[r.made..]))
      decreases |attempts| - r.made
    {
      var a := attempts[r.made];
      var o := TryOnce(c, r.ctx, a);
      assert attempts[r.made..][1..] == attempts[r.made + 1..];
      SendStep(c, r.ctx, attempts[r.made..]);
      ThenAssociative(r, o, Send(c, o.ctx, attempts[r.made + 1..]));
      r := Then(r, o);
      if !ShouldRetry(r.error) {
        return;
      }
      r := r.(error := Some(CONTEXT_DONE));
      if a.pause.Cancelled? {
        return;
      }
    }
  }

  // ---- assumptions on the connector and the vehicle ----

  /** An error that does not admit success means that the message was not executed. */
  predicate HonestConnector(t: Transmission) {
    t.error.Some? && !MayHaveSucceeded(t.error.value) ==> !t.executed
  }

  /** The transmission after which Transmit stops. */
  function Last(ts: seq<Transmission>): Option<Transmission>
    decreases |ts|
  {
    if ts == [] then None
    else if ts[0].error.None? || !ShouldRetry(ts[0].error) || ts[0].pause.Cancelled? then Some(ts[0])
    else Last(ts[1..])
  }

  /** A vehicle that asks for a retry has not executed the message, and will not. */
  predicate HonestVehicle(codec: Codec, a: Attempt) {
    a.reply.Answer? && ShouldRetry(GetError(codec, a.reply.message)) && Last(a.transmissions).Some?
    ==> !Last(a.transmissions).value.executed
  }

  /** A vehicle that reports any failure which excludes success has not executed the message. */
  predicate TruthfulVehicle(codec: Codec, a: Attempt) {
    var e := if a.reply.Answer? then GetError(codec, a.reply.message) else None;
    e.Some? && !MayHaveSucceeded(e.value) && Last(a.transmissions).Some?
    ==> !Last(a.transmissions).value.executed
  }

  predicate Honest(codec: Codec, attempts: seq<Attempt>) {
    forall a | a in attempts :: HonestVehicle(codec, a) && forall t | t in a.transmissions :: HonestConnector(t)
  }

  lemma {:induction false} TransmitExecutesLast(ts: seq<Transmission>)
    requires forall t | t in ts :: HonestConnector(t)
    ensures Transmit(ts).1 == (if Last(ts).Some? then Count(Last(ts).value.executed) else 0)
    ensures Transmit(ts).0.Some? && !MayHaveSucceeded(Transmit(ts).0.value) ==> Transmit(ts).1 == 0
    decreases |ts|
  {
    if ts != [] {
      assert HonestConnector(ts[0]);
      if ShouldRetry(ts[0].error) && ts[0].pause.Elapsed? {
        TransmitExecutesLast(ts[1..]);
      }
    }
  }

  /** One attempt executes at most its last transmission, and none if it is to be retried. */
  lemma TryExecutes(c: Sender, ctx: Option<S.SignerState>, a: Attempt)
    requires HonestVehicle(c.codec, a) && forall t | t in a.transmissions :: HonestConnector(t)
    ensures var o := TrySend(c, ctx, a);
            && o.executions <= 1 && o.made == 1
            && (ShouldRetry(o.error) ==> o.executions == 0)
            && (o.executions == 1 ==> Transmit(a.transmissions).1 == 1)
  {
    TransmitExecutesLast(a.transmissions);
  }

  /** Retry safety: over any number of attempts, each with any number of transmissions, one
      call executes the command at most once, and not at all before the last attempt. */
  lemma {:induction false} AtMostOneExecution(c: Sender, ctx: Option<S.SignerState>, attempts: seq<Attempt>)
    requires Honest(c.codec, attempts)
    ensures Send(c, ctx, attempts).executions <= 1
    ensures Send(c, ctx, attempts).executions > 0 ==> ExecutedLast(c, ctx, attempts)
    decreases |attempts|
  {
    if attempts != [] {
      var a := attempts[0];
      assert a in attempts;
      var o := TrySend(c, ctx, a);
      TryExecutes(c, ctx, a);
      if ShouldRetry(o.error) && a.pause.Elapsed? {
        AtMostOneExecution(c, o.ctx, attempts[1..]);
        assert Send(c, ctx, attempts) == Then(o, Send(c, o.ctx, attempts[1..]));
      }
    }
  }

  /** The last attempt that was made transmitted a message that was executed. */
  predicate ExecutedLast(c: Sender, ctx: Option<S.SignerState>, attempts: seq<Attempt>) {
    var made := Send(c, ctx, attempts).made;
    0 < made <= |attempts| && Transmit(attempts[made - 1].transmissions).1 == 1
  }

  /** An error that excludes success means that the command was not executed. */
  lemma {:induction false} ErrorsTellTheTruth(c: Sender, ctx: Option<S.SignerState>, attempts: seq<Attempt>)
    requires Honest(c.codec, attempts)
    requires forall a | a in attempts :: TruthfulVehicle(c.codec, a)
    ensures var o := Send(c, ctx, attempts); o.error.Some? && !MayHaveSucceeded(o.error.value) ==> o.executions == 0
    decreases |attempts|
  {
    if attempts != [] {
      var a := attempts[0];
      assert a in attempts;
      TransmitExecutesLast(a.transmissions);
      ErrorsTellTheTruth(c, TrySend(c, ctx, a).ctx, attempts[1..]);
    }
  }

  /** Without the connector's promise the command can be executed twice. */
  lemma DishonestConnectorExecutesTwice(c: Sender, a: Attempt)
    requires a.refused.None? && c.auth.AuthNone? && !a.marshalFails && a.reply.Answer?
             && GetError(c.codec, a.reply.message).None?
    requires a.transmissions == [Transmission(Some(ERR_BUSY), true, Elapsed), Transmission(None, true, Elapsed)]
    ensures Send(c, None, [a]).executions == 2
  {
    assert a.transmissions[1..] == [Transmission(None, true, Elapsed)];
    assert Transmit(a.transmissions[1..]) == (None, 1);
  }

  // ---- what the caller is told ----

  /** The error of the transmissions: none exactly if the last one had none; otherwise the
      connector's own error if it is final, and the context's if the context ended or the
      script ran out before a retransmission. */
  lemma {:induction false} TransmitReports(ts: seq<Transmission>)
    ensures Transmit(ts).0 == match Last(ts)
                              case None => Some(CommandError(false, true))
                              case Some(t) =>
                                if t.error.None? || !ShouldRetry(t.error) then t.error
                                else Some(CommandError(false, true))
    decreases |ts|
  {
    if ts != [] && ts[0].error.Some? && ShouldRetry(ts[0].error) && ts[0].pause.Elapsed? {
      TransmitReports(ts[1..]);
    }
  }

  /** The attempt got its message to the connector, which took it. */
  predicate Delivered(c: Sender, ctx: Option<S.SignerState>, a: Attempt) {
    && Authorise(c, AfterOthers(ctx, a), a).2.None? && !a.marshalFails
    && Last(a.transmissions).Some? && Last(a.transmissions).value.error.None?
  }

  /** An answer without fault and bad session info, and with the status OK or ERROR. */
  predicate SuccessfulAnswer(codec: Codec, m: RoutableMessage) {
    && m.fault == FAULT_NONE
    && (m.payload.EncodedSessionInfo? ==> SessionInfoError(codec, m.payload.info).None?)
    && (m.operationStatus == STATUS_OK || m.operationStatus == STATUS_ERROR)
  }

  /** Why an attempt gets no message to the connector: the dispatcher refuses, there is no
      session, or the context ends before the message is authorised. Unauthenticated
      commands need no session. */
  lemma AuthoriseReports(c: Sender, ctx: Option<S.SignerState>, a: Attempt)
    ensures var (ctx', m, e) := Authorise(c, ctx, a);
            && (a.refused.Some? ==> e == a.refused && ctx' == ctx)
            && (a.refused.None? && c.auth.AuthNone? ==> e.None? && m == Command(c, a) && ctx' == ctx)
            && (a.refused.None? && !c.auth.AuthNone? && ctx.None? ==> e == Some(ERR_NO_SESSION))
            && (a.refused.None? && !c.auth.AuthNone? && !c.auth.AuthUnknown? && ctx.Some? && e.Some? ==>
                  e.value == CONTEXT_DONE && !ShouldRetry(e))
  {
    if ctx.Some? {
      UnknownMethodExactly(c.key, c.vin, ctx, Command(c, a), c.auth, a.lifetime, a.passes);
    }
  }

  /** One attempt reports success exactly for a delivered message with a successful answer,
      and otherwise the error of the step that failed. */
  lemma TryReports(c: Sender, ctx: Option<S.SignerState>, a: Attempt)
    ensures TrySend(c, ctx, a).error.None?
            <==> Delivered(c, ctx, a) && a.reply.Answer? && SuccessfulAnswer(c.codec, a.reply.message)
    ensures var (_, m, refused) := Authorise(c, AfterOthers(ctx, a), a);
            var o := TrySend(c, ctx, a);
            && (refused.Some? ==> o.error == refused && o.sent == [])
            && (refused.None? && a.marshalFails ==> o.error == Some(MARSHAL_FAILED) && o.sent == [])
            && (refused.None? && !a.marshalFails ==> o.sent == [m])
            && (refused.None? && !a.marshalFails && !Delivered(c, ctx, a) ==> o.error == Transmit(a.transmissions).0)
            && (Delivered(c, ctx, a) ==>
                  o.error
                  == if a.reply.NoAnswer? then Some(CommandError(true, true)) else GetError(c.codec, a.reply.message))
  {
    TransmitReports(a.transmissions);
    if a.reply.Answer? {
      AnswersThatAreSuccess(c.codec, a.reply.message);
    }
  }

  /** The session's Signer when attempt k starts. */
  function CtxBefore(c: Sender, ctx: Option<S.SignerState>, attempts: seq<Attempt>, k: nat): Option<S.SignerState>
    requires k <= |attempts|
    decreases k
  {
    if k == 0 then ctx else CtxBefore(c, TrySend(c, ctx, attempts[0]).ctx, attempts[1..], k - 1)
  }

  /** Attempt k. */
  function Try(c: Sender, ctx: Option<S.SignerState>, attempts: seq<Attempt>, k: nat): Outcome
    requires k < |attempts|
  {
    TrySend(c, CtxBefore(c, ctx, attempts, k), attempts[k])
  }

  /** Another attempt follows attempt k. */
  predicate GoesOn(c: Sender, ctx: Option<S.SignerState>, attempts: seq<Attempt>, k: nat)
    requires k < |attempts|
  {
    ShouldRetry(Try(c, ctx, attempts, k).error) && attempts[k].pause.Elapsed?
  }

  lemma GoesOnShift(c: Sender, ctx: Option<S.SignerState>, attempts: seq<Attempt>, k: nat)
    requires 0 < k < |attempts|
    ensures var ctx' := TrySend(c, ctx, attempts[0]).ctx;
            && Try(c, ctx, attempts, k) == Try(c, ctx', attempts[1..], k - 1)
            && GoesOn(c, ctx, attempts, k) == GoesOn(c, ctx', attempts[1..], k - 1)
  {
  }

  /** How many attempts are made: they go on as long as they fail with a retriable error
      and the context lasts. */
  lemma {:induction false} AttemptsMade(c: Sender, ctx: Option<S.SignerState>, attempts: seq<Attempt>)
    ensures var made := Send(c, ctx, attempts).made;
            && made <= |attempts| && (made == 0 <==> attempts == [])
            && (forall k | 0 <= k < made - 1 :: GoesOn(c, ctx, attempts, k))
            && (0 < made < |attempts| ==> !GoesOn(c, ctx, attempts, made - 1))
    decreases |attempts|
  {
    if attempts != [] {
      SendStep(c, ctx, attempts);
      if GoesOn(c, ctx, attempts, 0) {
        var ctx' := Try(c, ctx, attempts, 0).ctx;
        var made := Send(c, ctx', attempts[1..]).made;
        AttemptsMade(c, ctx', attempts[1..]);
        assert Send(c, ctx, attempts).made == made + 1;
        forall k | 1 <= k < |attempts|
          ensures GoesOn(c, ctx, attempts, k) == GoesOn(c, ctx', attempts[1..], k - 1)
        {
          GoesOnShift(c, ctx, attempts, k);
        }
      } else {
        assert Send(c, ctx, attempts).made == 1;
      }
    }
  }

  /** What is reported: the last attempt decides, but a retriable error gives way to that of
      the context. */
  lemma {:induction false} SendReports(c: Sender, ctx: Option<S.SignerState>, attempts: seq<Attempt>)
    ensures var o := Send(c, ctx, attempts);
            && o.made <= |attempts|
            && (o.made == 0 ==> o.error == Some(CONTEXT_DONE))
            && (o.made > 0 ==>
                  o.error == Final(Try(c, ctx, attempts, o.made - 1).error))
    decreases |attempts|
  {
    if attempts != [] {
      var o := Try(c, ctx, attempts, 0);
      SendStep(c, ctx, attempts);
      if ShouldRetry(o.error) && attempts[0].pause.Elapsed? {
        var rest := Send(c, o.ctx, attempts[1..]);
        SendReports(c, o.ctx, attempts[1..]);
        if rest.made > 0 {
          GoesOnShift(c, ctx, attempts, rest.made);
        }
        assert Send(c, ctx, attempts).made == rest.made + 1 && Send(c, ctx, attempts).error == rest.error;
      } else {
        assert Send(c, ctx, attempts).made == 1;
      }
    }
  }

  function Final(e: Option<GoError>): Option<GoError> {
    if ShouldRetry(e) then Some(CONTEXT_DONE) else e
  }

  /** Success is reported exactly if the last attempt's message was taken by the connector
      and answered with success. */
  lemma SuccessExactly(c: Sender, ctx: Option<S.SignerState>, attempts: seq<Attempt>)
    ensures var o := Send(c, ctx, attempts);
            o.error.None?
            <==> && 0 < o.made <= |attempts|
                 && var a := attempts[o.made - 1];
                    && Delivered(c, CtxBefore(c, ctx, attempts, o.made - 1), a)
                    && a.reply.Answer? && SuccessfulAnswer(c.codec, a.reply.message)
  {
    SendReports(c, ctx, attempts);
    var made := Send(c, ctx, attempts).made;
    if made > 0 {
      TryReports(c, CtxBefore(c, ctx, attempts, made - 1), attempts[made - 1]);
    }
  }

  // ---- counters ----

  /** No HMAC is computed on an exhausted counter, neither for this command nor for
      others. Without HMAC there is nothing to ask for. */
  ghost predicate Guarded(c: Sender, ctx: Option<S.SignerState>, attempts: seq<Attempt>)
    decreases |attempts|
  {
    attempts == []
    || (var a := attempts[0];
        var o := TrySend(c, ctx, a);
        && (ctx.Some? ==>
              && Ops.RunWithoutRollover(ctx.value, a.others)
              && (c.auth.AuthHmac? ==>
                    NoneExhausted(c.key, c.vin, AfterOthers(ctx, a), Command(c, a), c.auth, a.lifetime, a.passes)))
        && (ShouldRetry(o.error) && a.pause.Elapsed? ==> Guarded(c, o.ctx, attempts[1..])))
  }

  /** The counters of the messages are above `floor` and strictly increase. */
  predicate Rising(floor: u32, messages: seq<RoutableMessage>) {
    && (forall i | 0 <= i < |messages| :: floor < V.CounterOf(messages[i]))
    && (forall i, j | 0 <= i < j < |messages| :: V.CounterOf(messages[i]) < V.CounterOf(messages[j]))
  }

  /** One attempt: whatever others do first, the message is sealed on a counter that was
      never used before, which is then the Signer's. */
  lemma AttemptCounter(c: Sender, s: S.SignerState, a: Attempt)
    requires c.auth.AuthGcm? || c.auth.AuthHmac?
    requires Guarded(c, Some(s), [a])
    ensures var o := TrySend(c, Some(s), a);
            && o.ctx.Some? && s.counter <= o.ctx.value.counter && |o.sent| <= 1
            && (o.sent != [] ==> s.counter < V.CounterOf(o.sent[0]) == o.ctx.value.counter
                                 && Runs.EpochOf(o.sent[0]).Some?)
  {
    var s' := Ops.Reach(s, a.others);
    assert a.others[..|a.others|] == a.others && a.others[..0] == [];
    Ops.CounterGrows(s, a.others, 0, |a.others|);
    if a.refused.None? {
      AuthorizedCounterIsNew(c.key, c.vin, s', Command(c, a), c.auth, a.lifetime, a.passes);
    }
  }

  /** Over any number of attempts, with failures, new session info and other commands of
      the client in between, every attempt is authorised with a larger counter than all
      before it. */
  lemma {:induction false} FreshCounters(c: Sender, s: S.SignerState, attempts: seq<Attempt>)
    requires c.auth.AuthGcm? || c.auth.AuthHmac?
    requires Guarded(c, Some(s), attempts)
    ensures Rising(s.counter, Send(c, Some(s), attempts).sent)
    decreases |attempts|
  {
    if attempts != [] {
      var a := attempts[0];
      var o := TrySend(c, Some(s), a);
      AttemptCounter(c, s, a);
      if ShouldRetry(o.error) && a.pause.Elapsed? {
        FreshCounters(c, o.ctx.value, attempts[1..]);
      }
    }
  }
}
