/** The two sides together: how far the Signer's idea of the vehicle's clock can be off,
    over every run in which session info may be delayed, repeated and reordered, and why
    one rejected message is enough to resynchronise.

    All monotonic clocks are read on one time axis, in nanoseconds: the protocol uses
    only differences of readings taken by the same process, and both clocks advance at the
    same rate. The vehicle's wall clock is arbitrary. The client's wall clock runs `skew`
    ahead of the axis and is not stepped; a time loaded from a cache has no monotonic part
    and is compared by wall clock. */
module Synchronisation {
  import opened Primitives
  import opened Wire
  import opened GoTime
  import opened Peer
  import opened RoundTrips
  import V = VerifierSpec
  import S = SignerSpec
  import Runs = VerifierRuns
  import Ops = SignerRuns

  function ClientTime(x: int, skew: int): Time {
    Time(x + skew, Some(x))
  }

  /** A client time after a round trip through the cache file. */
  function Stored(t: Time): Time {
    t.(mono := None)
  }

  /** The time of a cache entry, which may be kept in memory or in a file. */
  function EntryTime(x: int, skew: int, stored: bool): Time {
    if stored then Stored(ClientTime(x, skew)) else ClientTime(x, skew)
  }

  /** Where on the axis the Signer places the start of the epoch. */
  function SignerZero(s: S.SignerState, skew: int): int {
    if s.timeZero.mono.Some? then s.timeZero.mono.value else s.timeZero.wall - skew
  }

  // ---- readings of the vehicle's clock ----

  predicate Between(t: Time, from: int, to: int) {
    t.mono.Some? && from <= t.mono.value <= to
  }

  /** A call reads the clock in the order in which the source does, between two instants. */
  predicate AdjustReadings(env: V.AdjustEnv, from: int, to: int) {
    && Between(env.now, from, to)
    && Between(env.rotate.check, env.now.mono.value, to)
    && Between(env.rotate.start, env.rotate.check.mono.value, to)
  }

  predicate InfoReadings(env: V.InfoEnv, from: int, to: int) {
    AdjustReadings(env.adjust, from, to) && Between(env.stamp, env.adjust.rotate.start.mono.value, to)
  }

  predicate VerifyReadings(env: V.VerifyEnv, from: int, to: int) {
    && AdjustReadings(env.adjust, from, to)
    && Between(env.expiry, env.adjust.rotate.start.mono.value, to)
    && Between(env.timeToLive, env.expiry.mono.value, to)
    && InfoReadings(env.report, env.timeToLive.mono.value, to)
  }

  predicate CallReadings(call: Runs.Call, from: int, to: int) {
    match call
    case Check(_, env) => VerifyReadings(env, from, to)
    case Inform(_, env) => InfoReadings(env, from, to)
  }

  // ---- the joint system ----

  /** infos holds every session info the vehicle has ever issued, saved the Signers that
      the client's cache entries lead to when they are loaded. */
  datatype System = System(
    v: V.VerifierState, s: S.SignerState, infos: set<SessionInfo>, saved: seq<S.SignerState>, now: int, skew: int)

  datatype Event =
    | VehicleCall(call: Runs.Call)
    | ClientSync(info: SessionInfo, at: int)
    | ClientAuthorise(op: Ops.Op)
    | ClientSave(exportedAt: int, createdAt: int, stored: bool)
    | ClientLoad(entry: nat)

  /** The session info a call hands out. */
  function IssuedInfo(v: V.VerifierState, call: Runs.Call): set<SessionInfo> {
    if !Runs.Informs(v, call) then {}
    else
      match call
      case Check(_, env) => {V.InfoOf(Runs.Do(v, call), env.report.stamp)}
      case Inform(_, env) => {V.InfoOf(Runs.Do(v, call), env.stamp)}
  }

  /** Exporting a Signer into a cache entry and importing it again (see ReloadIsImport). */
  function Reload(s: S.SignerState, exportedAt: Time, createdAt: Time): S.SignerState {
    var clock := Timestamp(s.timeZero, exportedAt);
    s.(timeZero := Add(createdAt, -(clock * SECOND)), setTime := clock)
  }

  function Apply(y: System, e: Event, later: int): System {
    match e
    case VehicleCall(call) =>
      y.(v := Runs.Do(y.v, call), infos := y.infos + IssuedInfo(y.v, call), now := later)
    case ClientSync(info, at) =>
      y.(s := S.UpdateSessionInfo(y.s, info, ClientTime(at, y.skew)).0, now := later)
    case ClientAuthorise(op) =>
      y.(s := Ops.Do(y.s, op), now := later)
    case ClientSave(exportedAt, createdAt, stored) =>
      var entry := Reload(y.s, ClientTime(exportedAt, y.skew), EntryTime(createdAt, y.skew, stored));
      y.(saved := y.saved + [entry], now := later)
    case ClientLoad(k) =>
      y.(s := if k < |y.saved| then y.saved[k] else y.s, now := later)
  }

  predicate Unseen(ids: set<EpochId>, s: S.SignerState, infos: set<SessionInfo>) {
    s.epoch !in ids && forall i | i in infos :: i.epoch !in ids
  }

  /** Time moves forward, the client only sees session info that was issued, and a new
      epoch identifier is one that nobody has seen before. */
  ghost predicate Possible(y: System, e: Event, later: int) {
    && y.now <= later
    && match e
       case VehicleCall(call) =>
         && CallReadings(call, y.now, later)
         && Unseen(Runs.Ids(call), y.s, y.infos)
         && forall s | s in y.saved :: s.epoch !in Runs.Ids(call)
       case ClientSync(info, at) => info in y.infos && y.now <= at <= later
       case ClientAuthorise(op) => !op.Sync?
       case ClientLoad(k) => k < |y.saved|
       case ClientSave(exportedAt, createdAt, _) => y.now <= exportedAt <= createdAt <= later
  }

  /** While the vehicle's epoch is in force, session info issued in it and the Signer's
      clock are never ahead of the vehicle's clock. */
  ghost predicate ClocksInOrder(v: V.VerifierState, s: S.SignerState, infos: set<SessionInfo>, now: int, skew: int) {
    && v.timeZero.mono.Some?
    && v.timeZero.mono.value <= now
    && SignerZero(s, skew) <= now
    && (forall i | i in infos :: |i.epoch| == EPOCH_ID_LENGTH)
    && (v.counter != MAX_U32 ==>
          && (forall i | i in infos && i.epoch == v.epoch :: i.clockTime * SECOND <= now - v.timeZero.mono.value)
          && (s.epoch == v.epoch ==>
                && v.timeZero.mono.value <= SignerZero(s, skew)
                && s.setTime * SECOND <= now - v.timeZero.mono.value))
  }

  ghost predicate InOrder(y: System) {
    && ClocksInOrder(y.v, y.s, y.infos, y.now, y.skew)
    && forall s | s in y.saved :: ClocksInOrder(y.v, s, y.infos, y.now, y.skew)
  }

  lemma TimestampIsPast(zero: Time, t: Time)
    requires zero.mono.Some? && t.mono.Some? && zero.mono.value <= t.mono.value
    ensures Timestamp(zero, t) * SECOND <= t.mono.value - zero.mono.value
  {
  }

  lemma AdjustKeepsOrder(v: V.VerifierState, env: V.AdjustEnv, s: S.SignerState, infos: set<SessionInfo>, from: int,
                         to: int, skew: int)
    requires ClocksInOrder(v, s, infos, from, skew)
    requires AdjustReadings(env, from, to)
    requires Unseen(Runs.Id(env.rotate.random), s, infos)
    ensures ClocksInOrder(V.AdjustClock(v, env).0, s, infos, env.rotate.start.mono.value, skew)
  {
    Runs.AdjustEffect(v, env);
    var (v', ok) := V.AdjustClock(v, env);
    if ok && !Runs.Rotates(v, env) {
      assert v.counter != MAX_U32;
      assert v'.timeZero.mono.value <= v.timeZero.mono.value by {
        Runs.ClockNeverRunsBackwards(v, env, env.now);
      }
    } else if ok {
      assert v'.epoch in Runs.Id(env.rotate.random);
    }
  }

  /** Session info stamped by the vehicle's own clock keeps the order. */
  lemma StampKeepsOrder(v: V.VerifierState, stamp: Time, s: S.SignerState, infos: set<SessionInfo>, from: int,
                        skew: int)
    requires ClocksInOrder(v, s, infos, from, skew)
    requires stamp.mono.Some? && from <= stamp.mono.value
    ensures ClocksInOrder(v, s, infos + {V.InfoOf(v, stamp)}, stamp.mono.value, skew)
  {
    TimestampIsPast(v.timeZero, stamp);
  }

  lemma Wait(v: V.VerifierState, s: S.SignerState, infos: set<SessionInfo>, now: int, later: int, skew: int)
    requires ClocksInOrder(v, s, infos, now, skew) && now <= later
    ensures ClocksInOrder(v, s, infos, later, skew)
  {
  }

  lemma AcceptKeepsOrder(v: V.VerifierState, v': V.VerifierState, s: S.SignerState, infos: set<SessionInfo>, now: int,
                         skew: int)
    requires ClocksInOrder(v, s, infos, now, skew) && v.counter != MAX_U32
    requires v'.timeZero == v.timeZero && v'.epoch == v.epoch
    ensures ClocksInOrder(v', s, infos, now, skew)
  {
  }

  lemma ReportKeepsOrder(v: V.VerifierState, env: V.InfoEnv, issued: bool, s: S.SignerState, infos: set<SessionInfo>,
                         from: int, to: int, skew: int)
    requires ClocksInOrder(v, s, infos, from, skew)
    requires InfoReadings(env, from, to)
    requires Unseen(Runs.Id(env.adjust.rotate.random), s, infos)
    ensures var v' := V.AdjustClock(v, env.adjust).0;
            ClocksInOrder(v', s, infos + (if issued then {V.InfoOf(v', env.stamp)} else {}), to, skew)
  {
    AdjustKeepsOrder(v, env.adjust, s, infos, from, to, skew);
    var v' := V.AdjustClock(v, env.adjust).0;
    var start := env.adjust.rotate.start.mono.value;
    if issued {
      StampKeepsOrder(v', env.stamp, s, infos, start, skew);
      Wait(v', s, infos + {V.InfoOf(v', env.stamp)}, env.stamp.mono.value, to, skew);
    } else {
      assert infos + {} == infos;
      Wait(v', s, infos, start, to, skew);
    }
  }

  lemma CheckKeepsOrder(v: V.VerifierState, m: RoutableMessage, env: V.VerifyEnv, s: S.SignerState,
                        infos: set<SessionInfo>, from: int, to: int, skew: int)
    requires ClocksInOrder(v, s, infos, from, skew)
    requires VerifyReadings(env, from, to)
    requires Unseen(Runs.Ids(Runs.Check(m, env)), s, infos)
    ensures ClocksInOrder(V.Verify(v, m, env).0, s, infos + IssuedInfo(v, Runs.Check(m, env)), to, skew)
  {
    AdjustKeepsOrder(v, env.adjust, s, infos, from, to, skew);
    Runs.AdjustEffect(v, env.adjust);
    Runs.VerifyEffect(v, m, env);
    var (v1, ok) := V.AdjustClock(v, env.adjust);
    var (v', r) := V.Verify(v, m, env);
    var start := env.adjust.rotate.start.mono.value;
    var issued := r.Err? && r.error.InvalidSignature?;
    if r.Ok? {
      AcceptKeepsOrder(v1, v', s, infos, start, skew);
      Wait(v', s, infos, start, to, skew);
      assert infos + {} == infos;
    } else if !issued && v' == v1 {
      Wait(v', s, infos, start, to, skew);
      assert infos + {} == infos;
    } else {
      Wait(v1, s, infos, start, env.timeToLive.mono.value, skew);
      ReportKeepsOrder(v1, env.report, issued, s, infos, env.timeToLive.mono.value, to, skew);
    }
  }

  lemma SyncKeepsOrder(y: System, info: SessionInfo, at: int)
    requires InOrder(y) && info in y.infos && y.now <= at
    ensures ClocksInOrder(y.v, S.UpdateSessionInfo(y.s, info, ClientTime(at, y.skew)).0, y.infos, at, y.skew)
  {
    if info.publicKey == y.s.verifierPublic && S.Adopts(y.s, info) {
      assert S.CopyInto(y.s.epoch, info.epoch) == info.epoch;
    }
  }

  lemma ReloadKeepsOrder(y: System, exportedAt: int, createdAt: int, stored: bool)
    requires InOrder(y) && y.now <= exportedAt <= createdAt
    ensures var s' := Reload(y.s, ClientTime(exportedAt, y.skew), EntryTime(createdAt, y.skew, stored));
            ClocksInOrder(y.v, s', y.infos, createdAt, y.skew)
  {
    SignerTimestampIsPast(y.s, exportedAt, y.skew);
  }

  lemma SignerTimestampIsPast(s: S.SignerState, at: int, skew: int)
    requires SignerZero(s, skew) <= at
    ensures Timestamp(s.timeZero, ClientTime(at, skew)) * SECOND <= at - SignerZero(s, skew)
  {
  }

  /** A call of the vehicle, seen from any Signer that may still be in use. */
  lemma CallKeepsOrder(y: System, call: Runs.Call, later: int, s: S.SignerState)
    requires ClocksInOrder(y.v, s, y.infos, y.now, y.skew)
    requires CallReadings(call, y.now, later) && Unseen(Runs.Ids(call), s, y.infos)
    ensures ClocksInOrder(Runs.Do(y.v, call), s, y.infos + IssuedInfo(y.v, call), later, y.skew)
  {
    match call
    case Check(m, env) =>
      CheckKeepsOrder(y.v, m, env, s, y.infos, y.now, later, y.skew);
    case Inform(c, env) =>
      ReportKeepsOrder(y.v, env, Runs.Informs(y.v, call), s, y.infos, y.now, later, y.skew);
  }

  lemma EventKeepsOrder(y: System, e: Event, later: int)
    requires InOrder(y) && Possible(y, e, later)
    ensures InOrder(Apply(y, e, later))
  {
    if e.VehicleCall? {
      CallKeepsOrder(y, e.call, later, y.s);
      forall s | s in y.saved
        ensures ClocksInOrder(Runs.Do(y.v, e.call), s, y.infos + IssuedInfo(y.v, e.call), later, y.skew)
      {
        CallKeepsOrder(y, e.call, later, s);
      }
    } else {
      forall s | s in y.saved ensures ClocksInOrder(y.v, s, y.infos, later, y.skew) {
        Wait(y.v, s, y.infos, y.now, later, y.skew);
      }
      Wait(y.v, y.s, y.infos, y.now, later, y.skew);
      match e
      case ClientSync(info, at) =>
        SyncKeepsOrder(y, info, at);
      case ClientSave(exportedAt, createdAt, stored) =>
        ReloadKeepsOrder(y, exportedAt, createdAt, stored);
      case _ =>
    }
  }

  type Trace = seq<(Event, int)>

  function Reach(y: System, trace: Trace): System {
    if trace == [] then y else Apply(Reach(y, trace[..|trace| - 1]), trace[|trace| - 1].0, trace[|trace| - 1].1)
  }

  ghost predicate PossibleTrace(y: System, trace: Trace) {
    trace == []
    || (PossibleTrace(y, trace[..|trace| - 1])
        && Possible(Reach(y, trace[..|trace| - 1]), trace[|trace| - 1].0, trace[|trace| - 1].1))
  }

  /** The lower half of the clock-skew bound, over every run: as long as the two sides agree
      on the epoch, the Signer places its start no earlier than the vehicle does, and no
      session info it has adopted is ahead of the vehicle's clock. */
  lemma {:induction false} ClocksStayInOrder(y: System, trace: Trace)
    requires InOrder(y) && PossibleTrace(y, trace)
    ensures InOrder(Reach(y, trace))
  {
    if trace != [] {
      ClocksStayInOrder(y, trace[..|trace| - 1]);
      EventKeepsOrder(Reach(y, trace[..|trace| - 1]), trace[|trace| - 1].0, trace[|trace| - 1].1);
    }
  }

  /** A handshake starts the system in order: the Signer is made from session info that the
      vehicle has issued, the clock reading `at` being that of NewAuthenticatedSigner. */
  lemma HandshakeInOrder(v: V.VerifierState, stamp: Time, key: ClientKey, name: Option<bytes>, challenge: Option<bytes>,
                         tag: bytes, at: int, now: Time, skew: int)
    requires v.timeZero.mono.Some? && stamp.mono.Some? && v.timeZero.mono.value <= stamp.mono.value <= at
    requires key.codec.Lawful()
    requires var info := key.codec.marshal(V.InfoOf(v, stamp));
             S.NewAuthenticatedSigner(key, name, challenge, info, tag, ClientTime(at, skew), now).Ok?
    ensures var info := key.codec.marshal(V.InfoOf(v, stamp));
            var s := S.NewAuthenticatedSigner(key, name, challenge, info, tag, ClientTime(at, skew), now).value;
            InOrder(System(v, s, {V.InfoOf(v, stamp)}, [], at, skew))
  {
    TimestampIsPast(v.timeZero, stamp);
    assert S.CopyInto(seq(EPOCH_ID_LENGTH, _ => 0), v.epoch) == v.epoch;
  }

  /** Reload is what Dispatcher.Cache followed by LoadCache does to a Signer, when the key
      exchange gives the same session again. */
  lemma ReloadIsImport(s: S.SignerState, key: ClientKey, exportedAt: Time, createdAt: Time, now: Time)
    requires key.exchange(s.verifierPublic) == Some(s.suite) && key.codec == s.suite.codec && key.codec.Lawful()
    requires s.name.Some? ==> |s.name.value| <= 255
    ensures S.ImportSessionInfo(key, s.name, s.suite.codec.marshal(S.ExportedInfo(s, exportedAt)), createdAt, now)
         == Ok(Reload(s, exportedAt, createdAt))
  {
    assert s.epoch[..EPOCH_ID_LENGTH] == s.epoch;
  }

  // ---- counters of cache entries ----

  /** A loaded entry issues counters above those of the Signer it replaces exactly if its
      own is not below: if nothing has moved the counter since it was saved. */
  lemma LoadedCounterIsNewer(y: System, k: nat, op: Ops.Op, later: int)
    requires k < |y.saved| && !op.Sync? && y.saved[k].counter != MAX_U32
    ensures var s := Apply(y, ClientLoad(k), later).s;
            Ops.Issued(s, op).Some? && (Ops.Issued(s, op).value > y.s.counter <==> y.saved[k].counter >= y.s.counter)
  {
    Ops.CounterStep(y.saved[k], op);
  }

  /** An entry loaded after a later authorisation repeats its (epoch, counter) pair. */
  lemma OldEntryRepeatsPair(y: System, op: Ops.Op, at: int, stored: bool)
    requires !op.Sync? && y.s.counter != MAX_U32
    ensures var y1 := Apply(y, ClientSave(at, at, stored), at);
            var y2 := Apply(y1, ClientAuthorise(op), at);
            var y3 := Apply(y2, ClientLoad(|y.saved|), at);
            && Ops.Issued(y1.s, op).Some? && Ops.Issued(y1.s, op) == Ops.Issued(y3.s, op) && y1.s.epoch == y3.s.epoch
  {
    var entry := Reload(y.s, ClientTime(at, y.skew), EntryTime(at, y.skew, stored));
    Ops.CounterStep(y.s, op);
    Ops.CounterStep(entry, op);
  }
}
