/** What the Verifier promises over whole runs: at-most-once acceptance, a clock that
    never runs backwards within an epoch, and failing closed without randomness. */
module VerifierRuns {
  import opened Primitives
  import opened Wire
  import opened GoTime
  import opened Peer
  import opened ReplayWindow
  import opened VerifierSpec

  // ---- one call ----

  /** A caller's view of the Verifier: check a message, or ask for (signed) session info. */
  datatype Call = Check(message: RoutableMessage, env: VerifyEnv)
                | Inform(challenge: Option<bytes>, infoEnv: InfoEnv)

  function Do(v: VerifierState, call: Call): VerifierState {
    match call
    case Check(m, env) => Verify(v, m, env).0
    case Inform(c, env) => GetSignedSessionInfo(v, c, env).0
  }

  predicate Accepts(v: VerifierState, call: Call) {
    call.Check? && Verify(v, call.message, call.env).1.Ok?
  }

  /** Whether a call hands out session info, directly or inside an error. */
  predicate Informs(v: VerifierState, call: Call) {
    match call
    case Check(m, env) => Verify(v, m, env).1.Err? && Verify(v, m, env).1.error.InvalidSignature?
    case Inform(c, env) => GetSignedSessionInfo(v, c, env).1.Ok?
  }

  /** Verify touches the state only through one clock adjustment, then either one window
      update or a second adjustment made to report an error. */
  lemma VerifyEffect(v: VerifierState, m: RoutableMessage, env: VerifyEnv)
    ensures var (v1, ok) := AdjustClock(v, env.adjust);
            var (v', r) := Verify(v, m, env);
            var c := CounterOf(m);
            var (counter, window, unused) := UpdateSlidingWindow(v1.counter, v1.window, c);
            && (r.Ok? ==> ok && v' == if c == 0 then v1 else v1.(counter := counter, window := window))
            && (r.Ok? && c > 0 ==> unused)
            && (r.Err? ==> v' == v1 || (ok && v' == AdjustClock(v1, env.report.adjust).0))
            && (r.Err? && r.error.InvalidSignature? ==>
                  ok && AdjustClock(v1, env.report.adjust).1
                  && (v', Ok((r.error.encodedInfo, r.error.tag))) == GetSignedSessionInfo(v1, m.uuid, env.report))
  {
  }

  /** The outcomes of a clock adjustment: a failed draw, a new epoch, or the same epoch
      with its start moved back or left alone. */
  lemma AdjustEffect(v: VerifierState, env: AdjustEnv)
    ensures var (v', ok) := AdjustClock(v, env);
            && v'.window == v.window && v'.handle == v.handle && v'.domain == v.domain && v'.name == v.name
            && v'.suite == v.suite && v'.publicKey == v.publicKey
            && (!ok ==> env.rotate.random.Failed? && v'.counter == MAX_U32)
            && (ok ==> v'.counter != MAX_U32)
            && (ok && Rotates(v, env) ==> env.rotate.random.Filled? && v'.counter == 0
                                          && v'.epoch == env.rotate.random.id && v'.timeZero == env.rotate.start)
            && (ok && !Rotates(v, env)
                ==> v'.counter == v.counter && v'.epoch == v.epoch && !RotationDue(v', env.rotate.check))
            && (v.counter == MAX_U32 ==> Rotates(v, env))
            && (!ok ==> Rotates(v, env))
  {
  }

  /** Whether an adjustment reaches the random source. */
  predicate Rotates(v: VerifierState, env: AdjustEnv) {
    if WallClockUnusable(v, env.now) then true
    else if Sleep(v, env.now) > SECOND then
      var elapsed := WallSeconds(v, env.now) * SECOND;
      After(Add(ZERO_TIME, elapsed), env.now) || RotationDue(v.(timeZero := Add(env.now, -elapsed)), env.rotate.check)
    else RotationDue(v, env.rotate.check)
  }

  // ---- at-most-once acceptance ----

  function Reach(v: VerifierState, calls: seq<Call>): VerifierState {
    if calls == [] then v else Do(Reach(v, calls[..|calls| - 1]), calls[|calls| - 1])
  }

  type Pair = (EpochId, u32)

  /** The (epoch, counter) pairs accepted by a call, the counter zero being exempt. */
  function AcceptedPair(v: VerifierState, call: Call): set<Pair> {
    if Accepts(v, call) && CounterOf(call.message) > 0 then {(Do(v, call).epoch, CounterOf(call.message))} else {}
  }

  function AcceptedPairs(v: VerifierState, calls: seq<Call>): set<Pair> {
    if calls == [] then {}
    else
      var before := calls[..|calls| - 1];
      AcceptedPairs(v, before) + AcceptedPair(Reach(v, before), calls[|calls| - 1])
  }

  function Id(random: RandomBytes): set<EpochId> {
    if random.Filled? then {random.id} else {}
  }

  /** The identifiers a call may draw: one per clock adjustment it can make. */
  function Ids(call: Call): set<EpochId> {
    match call
    case Check(_, env) => Id(env.adjust.rotate.random) + Id(env.report.adjust.rotate.random)
    case Inform(_, env) => Id(env.adjust.rotate.random)
  }

  function UsedIds(v: VerifierState, calls: seq<Call>): set<EpochId> {
    if calls == [] then {v.epoch} else UsedIds(v, calls[..|calls| - 1]) + Ids(calls[|calls| - 1])
  }

  predicate FreshCall(used: set<EpochId>, call: Call) {
    && Ids(call) !! used
    && (call.Check? ==> Id(call.env.adjust.rotate.random) !! Id(call.env.report.adjust.rotate.random))
  }

  /** Sixteen fresh random bytes never repeat an epoch identifier. */
  predicate FreshRun(v: VerifierState, calls: seq<Call>) {
    calls == []
    || (FreshRun(v, calls[..|calls| - 1]) && FreshCall(UsedIds(v, calls[..|calls| - 1]), calls[|calls| - 1]))
  }

  /** Counters that count as used in the epoch: those accepted, and zero. */
  ghost function Seen(accepted: set<Pair>, epoch: EpochId): set<u32> {
    {0} + set p | p in accepted && p.0 == epoch :: p.1
  }

  /** The counter and window describe exactly the counters accepted in the current epoch,
      unless the counter is exhausted and the next call has to start a new epoch. */
  ghost predicate HistoryMatches(v: VerifierState, accepted: set<Pair>, used: set<EpochId>) {
    && (forall p | p in accepted :: p.0 in used)
    && (v.counter != MAX_U32 ==> v.epoch in used && Tracks(v.counter, v.window, Seen(accepted, v.epoch)))
  }

  lemma NewEpochSeesNothing(accepted: set<Pair>, used: set<EpochId>, id: EpochId)
    requires forall p | p in accepted :: p.0 in used
    requires id !in used
    ensures Seen(accepted, id) == {0}
  {
  }

  lemma AdjustKeepsHistory(v: VerifierState, env: AdjustEnv, accepted: set<Pair>, used: set<EpochId>)
    requires HistoryMatches(v, accepted, used)
    requires Id(env.rotate.random) !! used
    ensures HistoryMatches(AdjustClock(v, env).0, accepted, used + Id(env.rotate.random))
  {
    AdjustEffect(v, env);
    if env.rotate.random.Filled? {
      NewEpochSeesNothing(accepted, used, env.rotate.random.id);
    }
  }

  lemma CheckKeepsHistory(v: VerifierState, m: RoutableMessage, env: VerifyEnv, accepted: set<Pair>, used: set<EpochId>)
    requires HistoryMatches(v, accepted, used)
    requires FreshCall(used, Check(m, env))
    ensures HistoryMatches(Verify(v, m, env).0, accepted + AcceptedPair(v, Check(m, env)), used + Ids(Check(m, env)))
    ensures AcceptedPair(v, Check(m, env)) !! accepted
  {
    AdjustKeepsHistory(v, env.adjust, accepted, used);
    AdjustEffect(v, env.adjust);
    VerifyEffect(v, m, env);
    var v1 := AdjustClock(v, env.adjust).0;
    var used1 := used + Id(env.adjust.rotate.random);
    assert used + Ids(Check(m, env)) == used1 + Id(env.report.adjust.rotate.random);
    if Accepts(v, Check(m, env)) {
      AcceptKeepsHistory(v1, CounterOf(m), accepted, used1);
    } else {
      assert accepted + {} == accepted;
      AdjustKeepsHistory(v1, env.report.adjust, accepted, used1);
    }
  }

  lemma CallKeepsHistory(v: VerifierState, call: Call, accepted: set<Pair>, used: set<EpochId>)
    requires HistoryMatches(v, accepted, used)
    requires FreshCall(used, call)
    ensures HistoryMatches(Do(v, call), accepted + AcceptedPair(v, call), used + Ids(call))
    ensures AcceptedPair(v, call) !! accepted
  {
    match call
    case Check(m, env) =>
      CheckKeepsHistory(v, m, env, accepted, used);
    case Inform(_, env) =>
      AdjustKeepsHistory(v, env.adjust, accepted, used);
      assert accepted + {} == accepted;
  }

  lemma AcceptKeepsHistory(v: VerifierState, c: u32, accepted: set<Pair>, used: set<EpochId>)
    requires v.counter != MAX_U32 && HistoryMatches(v, accepted, used)
    requires c > 0 ==> UpdateSlidingWindow(v.counter, v.window, c).2
    ensures c > 0 ==> (v.epoch, c) !in accepted
    ensures var u := UpdateSlidingWindow(v.counter, v.window, c);
            HistoryMatches(if c == 0 then v else v.(counter := u.0, window := u.1),
                           accepted + (if c > 0 then {(v.epoch, c)} else {}), used)
  {
    if c > 0 {
      var seen := Seen(accepted, v.epoch);
      UpdateKeepsTracking(v.counter, v.window, seen, c);
      assert (v.epoch, c) in accepted ==> c in seen;
      assert Seen(accepted + {(v.epoch, c)}, v.epoch) == seen + {c};
    } else {
      assert accepted + {} == accepted;
    }
  }

  lemma {:induction false} HistoryInvariant(v: VerifierState, calls: seq<Call>)
    requires v.counter == 0 && FreshRun(v, calls)
    ensures HistoryMatches(Reach(v, calls), AcceptedPairs(v, calls), UsedIds(v, calls))
  {
    if calls == [] {
      assert Seen({}, v.epoch) == {0};
    } else {
      var before := calls[..|calls| - 1];
      HistoryInvariant(v, before);
      CallKeepsHistory(Reach(v, before), calls[|calls| - 1], AcceptedPairs(v, before), UsedIds(v, before));
    }
  }

  lemma {:induction false} PairsGrow(v: VerifierState, calls: seq<Call>, i: nat, j: nat)
    requires i <= j <= |calls|
    ensures AcceptedPairs(v, calls[..i]) <= AcceptedPairs(v, calls[..j])
  {
    if i < j {
      PairsGrow(v, calls, i, j - 1);
      assert calls[..j][..j - 1] == calls[..j - 1];
    }
  }

  lemma {:induction false} FreshPrefix(v: VerifierState, calls: seq<Call>, n: nat)
    requires n <= |calls| && FreshRun(v, calls)
    ensures FreshRun(v, calls[..n])
    decreases |calls|
  {
    if n == |calls| {
      assert calls[..n] == calls;
    } else {
      FreshPrefix(v, calls[..|calls| - 1], n);
      assert calls[..|calls| - 1][..n] == calls[..n];
    }
  }

  lemma PairRecorded(v: VerifierState, calls: seq<Call>, i: nat)
    requires i < |calls|
    ensures AcceptedPair(Reach(v, calls[..i]), calls[i]) <= AcceptedPairs(v, calls[..i + 1])
  {
    assert calls[..i + 1][..i] == calls[..i];
  }

  lemma PairIsNew(v: VerifierState, calls: seq<Call>, j: nat)
    requires v.counter == 0 && FreshRun(v, calls)
    requires j < |calls|
    ensures AcceptedPair(Reach(v, calls[..j]), calls[j]) !! AcceptedPairs(v, calls[..j])
  {
    FreshPrefix(v, calls, j + 1);
    assert calls[..j + 1][..j] == calls[..j];
    HistoryInvariant(v, calls[..j]);
    CallKeepsHistory(Reach(v, calls[..j]), calls[j], AcceptedPairs(v, calls[..j]), UsedIds(v, calls[..j]));
  }

  /** At most once: in any run from the start of an epoch, whatever mixture of messages,
      info requests, clock jumps and rotations it holds, no (epoch, counter) pair with a
      nonzero counter is accepted by two of its calls. */
  lemma AtMostOnce(v: VerifierState, calls: seq<Call>, i: nat, j: nat)
    requires v.counter == 0 && FreshRun(v, calls)
    requires i < j < |calls|
    ensures AcceptedPair(Reach(v, calls[..i]), calls[i]) !! AcceptedPair(Reach(v, calls[..j]), calls[j])
  {
    PairRecorded(v, calls, i);
    PairIsNew(v, calls, j);
    PairsGrow(v, calls, i + 1, j);
  }

  /** The epoch a message was authorised for, if it names one. */
  function EpochOf(m: RoutableMessage): Option<bytes> {
    match m.signature
    case Gcm(e, _, _, _, _) => e
    case Hmac(e, _, _, _) => e
    case _ => None
  }

  lemma PairOfAccepted(v: VerifierState, call: Call)
    requires Accepts(v, call) && EpochOf(call.message).Some? && CounterOf(call.message) > 0
    ensures (Do(v, call).epoch, CounterOf(call.message)) in AcceptedPair(v, call)
    ensures Do(v, call).epoch == EpochOf(call.message).value
  {
    VerifyEffect(v, call.message, call.env);
  }

  /** The network may duplicate, delay and reorder: in any run, of all copies of a message
      with an epoch and a nonzero counter at most one is accepted. */
  lemma CopiesAcceptedOnce(v: VerifierState, calls: seq<Call>, i: nat, j: nat)
    requires v.counter == 0 && FreshRun(v, calls)
    requires i < j < |calls| && calls[i].Check? && calls[j].Check? && calls[i].message == calls[j].message
    requires EpochOf(calls[i].message).Some? && CounterOf(calls[i].message) > 0
    ensures !(Accepts(Reach(v, calls[..i]), calls[i]) && Accepts(Reach(v, calls[..j]), calls[j]))
  {
    AtMostOnce(v, calls, i, j);
    var vi, vj := Reach(v, calls[..i]), Reach(v, calls[..j]);
    if Accepts(vi, calls[i]) && Accepts(vj, calls[j]) {
      PairOfAccepted(vi, calls[i]);
      PairOfAccepted(vj, calls[j]);
    }
  }

  /** The last clock adjustment of the call drew no random bytes where it needed them. */
  ghost predicate DrawFailed(v: VerifierState, call: Call) {
    match call
    case Check(m, env) =>
      var (v1, ok) := AdjustClock(v, env.adjust);
      !ok || (Verify(v, m, env) == (AdjustClock(v1, env.report.adjust).0, Err(ProtocolFault(FAULT_INTERNAL)))
              && !AdjustClock(v1, env.report.adjust).1)
    case Inform(_, env) => !AdjustClock(v, env.adjust).1
  }

  /** Unless a draw has failed, a counter at its maximum has just been accepted. */
  lemma ExhaustedByAcceptance(v: VerifierState, call: Call)
    requires Do(v, call).counter == MAX_U32 && !DrawFailed(v, call)
    ensures Accepts(v, call) && CounterOf(call.message) == MAX_U32
  {
    match call
    case Check(m, env) =>
      VerifyEffect(v, m, env);
      AdjustEffect(v, env.adjust);
      AdjustEffect(AdjustClock(v, env.adjust).0, env.report.adjust);
    case Inform(_, env) =>
      AdjustEffect(v, env.adjust);
  }

  /** Within an epoch the counter is the largest counter accepted, or zero. The state after
      a failed draw belongs to no epoch. */
  lemma CounterIsLargestAccepted(v: VerifierState, calls: seq<Call>)
    requires v.counter == 0 && FreshRun(v, calls)
    requires calls != [] ==> !DrawFailed(Reach(v, calls[..|calls| - 1]), calls[|calls| - 1])
    ensures var v' := Reach(v, calls);
            && (v'.counter > 0 ==> (v'.epoch, v'.counter) in AcceptedPairs(v, calls))
            && (forall p | p in AcceptedPairs(v, calls) && p.0 == v'.epoch :: p.1 <= v'.counter)
  {
    var v' := Reach(v, calls);
    if v'.counter == MAX_U32 {
      ExhaustedByAcceptance(Reach(v, calls[..|calls| - 1]), calls[|calls| - 1]);
    } else {
      HistoryInvariant(v, calls);
      forall p | p in AcceptedPairs(v, calls) && p.0 == v'.epoch ensures p.1 <= v'.counter {
        assert p.1 in Seen(AcceptedPairs(v, calls), v'.epoch);
      }
    }
  }

  /** Exactly when a message that passes every other check is refused: if its counter was
      accepted before in the epoch, or lies more than the window below one that was. Every
      further copy of an accepted message is refused in this way. */
  lemma RefusedExactly(v: VerifierState, calls: seq<Call>, m: RoutableMessage, env: VerifyEnv)
    requires v.counter == 0 && FreshRun(v, calls) && FreshCall(UsedIds(v, calls), Check(m, env))
    requires CounterOf(m) > 0
    requires var (v1, ok) := AdjustClock(Reach(v, calls), env.adjust);
             ok && Judge(v1, m, env.expiry, env.timeToLive).Pass?
    ensures var epoch := AdjustClock(Reach(v, calls), env.adjust).0.epoch;
            var used := AcceptedPairs(v, calls);
            Verify(Reach(v, calls), m, env).1.Err?
            <==> || (epoch, CounterOf(m)) in used
                 || exists p :: p in used && p.0 == epoch && p.1 > CounterOf(m) + 32
    ensures var r := Verify(Reach(v, calls), m, env).1;
            r.Err? && r.error.InvalidSignature? ==> r.error.faultCode == FAULT_INVALID_TOKEN_OR_COUNTER
  {
    var used := AcceptedPairs(v, calls);
    HistoryInvariant(v, calls);
    AdjustKeepsHistory(Reach(v, calls), env.adjust, used, UsedIds(v, calls));
    AdjustEffect(Reach(v, calls), env.adjust);
    var v1 := AdjustClock(Reach(v, calls), env.adjust).0;
    var seen, c := Seen(used, v1.epoch), CounterOf(m);
    UpdateKeepsTracking(v1.counter, v1.window, seen, c);
    FreshByPairs(used, v1.epoch, c);
  }

  lemma FreshByPairs(used: set<Pair>, epoch: EpochId, c: u32)
    requires c > 0
    ensures Fresh(Seen(used, epoch), c)
            <==> (epoch, c) !in used && !exists p :: p in used && p.0 == epoch && p.1 > c + WINDOW_SIZE
  {
    forall p | p in used && p.0 == epoch ensures p.1 in Seen(used, epoch) {
    }
    forall x | x in Seen(used, epoch) && x != 0 ensures (epoch, x) in used {
    }
  }

  // ---- rotation without clearing the window ----

  /** v and w differ at most in window bits that are not going to be consulted: those that
      stand for no counter and, when the next call has to rotate, all of them. */
  ghost predicate Twins(v: VerifierState, w: VerifierState) {
    w == v.(window := w.window) && (v.counter == MAX_U32 || AgreeBelow(v.counter, v.window, w.window))
  }

  lemma TwinsAdjust(v: VerifierState, w: VerifierState, env: AdjustEnv)
    requires Twins(v, w)
    ensures Twins(AdjustClock(v, env).0, AdjustClock(w, env).0)
    ensures AdjustClock(v, env).1 == AdjustClock(w, env).1
  {
  }

  lemma TwinsReport(v: VerifierState, w: VerifierState, challenge: Option<bytes>, env: InfoEnv)
    requires Twins(v, w)
    ensures Twins(GetSignedSessionInfo(v, challenge, env).0, GetSignedSessionInfo(w, challenge, env).0)
    ensures GetSignedSessionInfo(v, challenge, env).1 == GetSignedSessionInfo(w, challenge, env).1
  {
    TwinsAdjust(v, w, env.adjust);
  }

  lemma TwinsJudge(v: VerifierState, w: VerifierState, m: RoutableMessage, expiry: Time, timeToLive: Time)
    requires Twins(v, w)
    ensures Judge(v, m, expiry, timeToLive) == Judge(w, m, expiry, timeToLive)
  {
    forall epoch, counter, expiresAt
      ensures JudgeSession(v, m, epoch, counter, expiresAt, expiry, timeToLive)
           == JudgeSession(w, m, epoch, counter, expiresAt, expiry, timeToLive)
    {
    }
  }

  lemma TwinsConclude(v: VerifierState, w: VerifierState, judgement: Judgement, m: RoutableMessage, env: VerifyEnv)
    requires Twins(v, w)
    ensures Twins(Conclude(v, judgement, m, env).0, Conclude(w, judgement, m, env).0)
    ensures Conclude(v, judgement, m, env).1 == Conclude(w, judgement, m, env).1
  {
    TwinsReport(v, w, m.uuid, env.report);
  }

  lemma TwinsUseCounter(v: VerifierState, w: VerifierState, m: RoutableMessage, plaintext: bytes, env: VerifyEnv)
    requires Twins(v, w) && v.counter != MAX_U32
    ensures Twins(UseCounter(v, m, plaintext, env).0, UseCounter(w, m, plaintext, env).0)
    ensures UseCounter(v, m, plaintext, env).1 == UseCounter(w, m, plaintext, env).1
  {
    StaleBitsStep(v.counter, v.window, w.window, CounterOf(m));
    TwinsConclude(v, w, Report(FAULT_INVALID_TOKEN_OR_COUNTER), m, env);
  }

  lemma TwinsVerify(v: VerifierState, w: VerifierState, m: RoutableMessage, env: VerifyEnv)
    requires Twins(v, w)
    ensures Verify(v, m, env).1 == Verify(w, m, env).1
    ensures Twins(Verify(v, m, env).0, Verify(w, m, env).0)
  {
    TwinsAdjust(v, w, env.adjust);
    AdjustEffect(v, env.adjust);
    var (v1, ok) := AdjustClock(v, env.adjust);
    var w1 := AdjustClock(w, env.adjust).0;
    if ok {
      TwinsJudge(v1, w1, m, env.expiry, env.timeToLive);
      var judgement := Judge(v1, m, env.expiry, env.timeToLive);
      TwinsConclude(v1, w1, judgement, m, env);
      if judgement.Pass? {
        TwinsUseCounter(v1, w1, m, judgement.plaintext, env);
      }
    }
  }

  /** What the caller of each call in a run sees. */
  datatype Answer = Checked(result: Result<bytes>) | Informed(info: Result<(bytes, bytes)>)

  function AnswerTo(v: VerifierState, call: Call): Answer {
    match call
    case Check(m, env) => Checked(Verify(v, m, env).1)
    case Inform(c, env) => Informed(GetSignedSessionInfo(v, c, env).1)
  }

  lemma TwinsCall(v: VerifierState, w: VerifierState, call: Call)
    requires Twins(v, w)
    ensures Twins(Do(v, call), Do(w, call)) && AnswerTo(v, call) == AnswerTo(w, call)
  {
    match call
    case Check(m, env) =>
      TwinsVerify(v, w, m, env);
    case Inform(c, env) =>
      TwinsReport(v, w, c, env);
  }

  lemma {:induction false} TwinsRun(v: VerifierState, w: VerifierState, calls: seq<Call>)
    requires Twins(v, w)
    ensures Twins(Reach(v, calls), Reach(w, calls))
  {
    if calls != [] {
      TwinsRun(v, w, calls[..|calls| - 1]);
      TwinsCall(Reach(v, calls[..|calls| - 1]), Reach(w, calls[..|calls| - 1]), calls[|calls| - 1]);
    }
  }

  /** Starting an epoch at counter 0 with whatever window is left over answers each call
      of every later run as a Verifier whose window was cleared would. */
  lemma RotationNeedsNoClearing(v: VerifierState, window: u64, calls: seq<Call>, i: nat)
    requires v.counter == 0 && i < |calls|
    ensures AnswerTo(Reach(v, calls[..i]), calls[i]) == AnswerTo(Reach(v.(window := window), calls[..i]), calls[i])
  {
    var w := v.(window := window);
    TwinsRun(v, w, calls[..i]);
    TwinsCall(Reach(v, calls[..i]), Reach(w, calls[..i]), calls[i]);
  }

  // ---- the clock ----

  /** A timestamp is the number of whole seconds elapsed exactly as long as that number
      fits into 32 bits. */
  lemma TimestampExact(zero: Time, t: Time)
    requires zero.mono.Some? && t.mono.Some? && t.mono.value >= zero.mono.value
    ensures Timestamp(zero, t) == (t.mono.value - zero.mono.value) / SECOND
            <==> t.mono.value - zero.mono.value < 0x1_0000_0000 * SECOND
  {
  }

  /** Whatever the wall clock does, adjusting the clock within an epoch never moves it
      back: every later timestamp is at least what it would have been. */
  lemma ClockNeverRunsBackwards(v: VerifierState, env: AdjustEnv, later: Time)
    requires v.timeZero.mono.Some? && env.now.mono.Some? && later.mono.Some?
    requires v.timeZero.mono.value <= env.now.mono.value
    requires v.timeZero.mono.value <= later.mono.value
    requires !Rotates(v, env)
    ensures var v' := AdjustClock(v, env).0;
            && v'.timeZero.mono.Some?
            && v'.timeZero.mono.value <= v.timeZero.mono.value
            && (later.mono.value - v'.timeZero.mono.value < 0x1_0000_0000 * SECOND ==>
                  Timestamp(v.timeZero, later) <= Timestamp(v'.timeZero, later))
  {
    var v' := AdjustClock(v, env).0;
    TimestampExact(v.timeZero, later);
    TimestampExact(v'.timeZero, later);
  }

  /** Without the bound on elapsed time the promise fails: after 2^32 seconds with no
      call in between, the timestamp starts again at zero. */
  lemma TimestampWraps()
    ensures var zero := Time(0, Some(0));
            && Timestamp(zero, Time(0, Some(0xFFFF_FFFF * SECOND))) == 0xFFFF_FFFF
            && Timestamp(zero, Time(0, Some(0x1_0000_0000 * SECOND))) == 0
  {
  }

  /** After an adjustment that keeps the epoch, the clock is at most a second behind the
      wall clock, so time the process spent asleep is not lost. */
  lemma AdjustmentCatchesUp(v: VerifierState, env: AdjustEnv)
    requires v.timeZero.mono.Some? && env.now.mono.Some?
    requires !Rotates(v, env)
    ensures Sleep(AdjustClock(v, env).0, env.now) <= SECOND
  {
    if Sleep(v, env.now) > SECOND {
      var elapsed := WallSeconds(v, env.now) * SECOND;
      assert (env.now.wall - elapsed) / SECOND == env.now.wall / SECOND - WallSeconds(v, env.now);
    }
  }

  /** When a new epoch has to start: the wall clock went back, or ran ahead by more than a
      year, or the counter is exhausted. An epoch that goes on is at most 2^30 seconds old. */
  lemma EpochsEnd(v: VerifierState, env: AdjustEnv)
    ensures env.now.wall / 1_000_000_000 < v.timeZero.wall / 1_000_000_000 ==> Rotates(v, env)
    ensures env.now.wall / 1_000_000_000 - v.timeZero.wall / 1_000_000_000 > 31_536_000 ==> Rotates(v, env)
    ensures v.counter == 0xFFFF_FFFF ==> Rotates(v, env)
    ensures !Rotates(v, env) ==> Timestamp(AdjustClock(v, env).0.timeZero, env.rotate.check) <= 0x4000_0000
  {
  }

  /** And when nothing happens: the two clocks agree to a second, and the epoch is young
      enough. */
  lemma UndisturbedClock(v: VerifierState, env: AdjustEnv)
    requires 0 <= env.now.wall / SECOND - v.timeZero.wall / SECOND <= 31_536_000
    requires (env.now.wall / SECOND - v.timeZero.wall / SECOND) * SECOND - Sub(env.now, v.timeZero) <= SECOND
    requires !IsZero(v.timeZero) && v.counter != 0xFFFF_FFFF && Timestamp(v.timeZero, env.rotate.check) <= 0x4000_0000
    ensures !Rotates(v, env) && AdjustClock(v, env) == (v, true)
  {
  }

  /** A new Verifier exists exactly if the key exchange succeeds, the name is short enough
      and random bytes can be drawn; it is at the start of an epoch of its own. */
  lemma NewVerifierStartsRun(session: Option<Suite>, publicKey: bytes, name: Option<bytes>, domain: int, env: RotateEnv)
    ensures var r := NewVerifier(session, publicKey, name, domain, env);
            && (r.Ok? <==> session.Some? && (name.Some? ==> |name.value| <= 255) && env.random.Filled?)
            && (r.Ok? ==>
                  && r.value.counter == 0 && r.value.epoch == env.random.id && r.value.timeZero == env.start
                  && r.value.suite == session.value && r.value.name == name && r.value.domain == domain
                  && r.value.publicKey == publicKey)
  {
    assert IsZero(ZERO_TIME);
  }

  // ---- failing closed ----

  lemma LockedOut(v: VerifierState, call: Call)
    requires v.counter == MAX_U32
    requires match call
             case Check(_, env) => env.adjust.rotate.random.Failed?
             case Inform(_, env) => env.adjust.rotate.random.Failed?
    ensures !Accepts(v, call) && !Informs(v, call) && Do(v, call).counter == MAX_U32
  {
    match call
    case Check(m, env) =>
      VerifyEffect(v, m, env);
      AdjustEffect(v, env.adjust);
    case Inform(_, env) =>
      AdjustEffect(v, env.adjust);
  }

  lemma {:induction false} LockedOutRun(v: VerifierState, calls: seq<Call>)
    requires v.counter == MAX_U32
    requires forall call | call in calls :: Ids(call) == {}
    ensures Reach(v, calls).counter == MAX_U32
  {
    if calls != [] {
      LockedOutRun(v, calls[..|calls| - 1]);
      assert Ids(calls[|calls| - 1]) == {};
      LockedOut(Reach(v, calls[..|calls| - 1]), calls[|calls| - 1]);
    }
  }

  /** Once a rotation has failed, no message verifies and no session info is issued, with
      or without an error, until a draw of random bytes succeeds. */
  lemma FailClosed(v: VerifierState, env: AdjustEnv, calls: seq<Call>, i: nat)
    requires !AdjustClock(v, env).1
    requires forall call | call in calls :: Ids(call) == {}
    requires i < |calls|
    ensures var stuck := Reach(AdjustClock(v, env).0, calls[..i]);
            !Accepts(stuck, calls[i]) && !Informs(stuck, calls[i])
  {
    AdjustEffect(v, env);
    LockedOutRun(AdjustClock(v, env).0, calls[..i]);
    assert Ids(calls[i]) == {};
    LockedOut(Reach(AdjustClock(v, env).0, calls[..i]), calls[i]);
  }
}
