/** How long after its requested lifetime a message can still be accepted: for every state
    and lifetime, and over every run of the two sides. */
module Lifetime {
  import opened Primitives
  import opened Wire
  import opened GoTime
  import opened Peer
  import opened Synchronisation
  import V = VerifierSpec
  import S = SignerSpec
  import Runs = VerifierRuns

  const WRAP := 0x1_0000_0000 * SECOND      // timestamps repeat after this time

  /** When a message is to expire, counted from the start of the epoch as the Signer places
      it. */
  function Expiry(s: S.SignerState, sendAt: int, expiresIn: int, skew: int): int {
    sendAt + expiresIn - SignerZero(s, skew)
  }

  /** Lifetimes that end 96 years or more before the start of the epoch are out of scope:
      their expiration times wrap around. */
  predicate Sensible(x: int) {
    -3 * EPOCH_SECONDS * SECOND < x
  }

  /** The expiration time the Signer puts into the message. */
  function Stamped(s: S.SignerState, sendAt: int, expiresIn: int, skew: int): u32 {
    ExpiresAt(s.timeZero, ClientTime(sendAt, skew), expiresIn)
  }

  lemma StampedSeconds(s: S.SignerState, sendAt: int, expiresIn: int, skew: int)
    requires Sensible(Expiry(s, sendAt, expiresIn, skew))
    ensures var x := Expiry(s, sendAt, expiresIn, skew);
            && (x < WRAP ==>
                  Stamped(s, sendAt, expiresIn, skew)
                  == if x > -SECOND then TruncDiv(x, SECOND) else TruncDiv(x, SECOND) + 0x1_0000_0000)
            && (x >= 0 ==> Stamped(s, sendAt, expiresIn, skew) <= x / SECOND)
            && (x <= -SECOND ==> Stamped(s, sendAt, expiresIn, skew) > EPOCH_SECONDS)
  {
    var x := Expiry(s, sendAt, expiresIn, skew);
    assert Sub(Add(ClientTime(sendAt, skew), expiresIn), s.timeZero) == Saturate(x);
  }

  /** The expiration time comes out as zero exactly when the message is to expire within a
      second of the start of the epoch, as the Signer sees it. */
  lemma ZeroExpiration(s: S.SignerState, sendAt: int, expiresIn: int, skew: int)
    requires Sensible(Expiry(s, sendAt, expiresIn, skew)) && Expiry(s, sendAt, expiresIn, skew) < WRAP
    ensures Stamped(s, sendAt, expiresIn, skew) == 0 <==> -SECOND < Expiry(s, sendAt, expiresIn, skew) < SECOND
  {
    StampedSeconds(s, sendAt, expiresIn, skew);
  }

  // ---- one state of the vehicle ----

  /** A message whose expiration time is nonzero is never accepted a second or more after
      its requested lifetime by a vehicle that is in order with the Signer. */
  lemma LifetimeEnforced(s: S.SignerState, sendAt: int, expiresIn: int, skew: int, v: V.VerifierState,
                         m: RoutableMessage, epoch: Option<bytes>, counter: u32, expiry: Time, timeToLive: Time)
    requires v.timeZero.mono.Some? && expiry.mono.Some?
    requires v.timeZero.mono.value <= expiry.mono.value < v.timeZero.mono.value + WRAP
    requires v.timeZero.mono.value <= SignerZero(s, skew)
    requires Sensible(Expiry(s, sendAt, expiresIn, skew)) && Stamped(s, sendAt, expiresIn, skew) != 0
    requires V.JudgeSession(v, m, epoch, counter, Stamped(s, sendAt, expiresIn, skew), expiry, timeToLive).None?
    ensures expiry.mono.value < sendAt + expiresIn + SECOND
  {
    Runs.TimestampExact(v.timeZero, expiry);
    StampedSeconds(s, sendAt, expiresIn, skew);
  }

  /** An instant of the vehicle's monotonic clock. */
  function At(t: int): Time {
    Time(0, Some(t))
  }

  /** The vehicle takes the message at t, as far as the session is concerned. */
  predicate TakenAt(v: V.VerifierState, m: RoutableMessage, counter: u32, expiresAt: u32, t: int)
    requires v.timeZero.mono.Some?
  {
    && v.timeZero.mono.value <= t < v.timeZero.mono.value + WRAP
    && V.JudgeSession(v, m, Some(v.epoch), counter, expiresAt, At(t), At(t)).None?
  }

  /** Exactly when the vehicle takes a message that is addressed to it and in order. */
  lemma TakenExactly(v: V.VerifierState, m: RoutableMessage, counter: u32, expiresAt: u32, t: int)
    requires v.timeZero.mono.Some? && v.timeZero.mono.value <= t < v.timeZero.mono.value + WRAP
    requires m.to.GetDomain() == v.domain || v.domain == DOMAIN_BROADCAST
    requires counter > 0 && counter >= v.counter
    ensures TakenAt(v, m, counter, expiresAt, t)
            <==> expiresAt == 0 || ((t - v.timeZero.mono.value) / SECOND <= expiresAt <= EPOCH_SECONDS)
  {
    Runs.TimestampExact(v.timeZero, At(t));
  }

  /** The promise that a message does not outlive its lifetime by a second or more fails
      for exactly one expiration time: zero, which the vehicle reads as "never". */
  lemma LifetimeEnforcedUnlessZero(s: S.SignerState, sendAt: int, expiresIn: int, skew: int,
                                   v: V.VerifierState, m: RoutableMessage, counter: u32)
    requires v.timeZero.mono.Some?
    requires v.timeZero.mono.value <= SignerZero(s, skew) < v.timeZero.mono.value + EPOCH_SECONDS * SECOND
    requires Sensible(Expiry(s, sendAt, expiresIn, skew)) && Expiry(s, sendAt, expiresIn, skew) < WRAP
    requires m.to.GetDomain() == v.domain || v.domain == DOMAIN_BROADCAST
    requires counter > 0 && counter >= v.counter
    ensures var expiresAt := Stamped(s, sendAt, expiresIn, skew);
            (forall t :: TakenAt(v, m, counter, expiresAt, t) ==> t < sendAt + expiresIn + SECOND)
            <==> expiresAt != 0
  {
    var expiresAt := Stamped(s, sendAt, expiresIn, skew);
    if expiresAt != 0 {
      forall t | TakenAt(v, m, counter, expiresAt, t) ensures t < sendAt + expiresIn + SECOND {
        LifetimeEnforced(s, sendAt, expiresIn, skew, v, m, Some(v.epoch), counter, At(t), At(t));
      }
    } else {
      ZeroExpiration(s, sendAt, expiresIn, skew);
      var late := SignerZero(s, skew) + 2 * SECOND;
      TakenExactly(v, m, counter, expiresAt, late);
    }
  }

  /** The strict promise - a message never outlives its lifetime at all - and exactly when
      it holds. `lag` is how much later than the vehicle the Signer places the start of
      the epoch. The whole seconds of the expiration time and of the vehicle's clock leave
      room for an overrun unless lag and the fraction of a second that is cut off make up
      for it. Messages that expire before the epoch or after its end are never taken. */
  lemma StrictLifetimeExactly(s: S.SignerState, sendAt: int, expiresIn: int, skew: int,
                              v: V.VerifierState, m: RoutableMessage, counter: u32)
    requires v.timeZero.mono.Some?
    requires v.timeZero.mono.value <= SignerZero(s, skew) < v.timeZero.mono.value + EPOCH_SECONDS * SECOND
    requires Sensible(Expiry(s, sendAt, expiresIn, skew)) && Expiry(s, sendAt, expiresIn, skew) < WRAP
    requires m.to.GetDomain() == v.domain || v.domain == DOMAIN_BROADCAST
    requires counter > 0 && counter >= v.counter
    ensures var x := Expiry(s, sendAt, expiresIn, skew);
            var lag := SignerZero(s, skew) - v.timeZero.mono.value;
            (forall t :: TakenAt(v, m, counter, Stamped(s, sendAt, expiresIn, skew), t) ==> t <= sendAt + expiresIn)
            <==> || x <= -SECOND
                 || (SECOND <= x < (EPOCH_SECONDS + 1) * SECOND && x % SECOND + lag >= SECOND - 1)
                 || (EPOCH_SECONDS + 1) * SECOND <= x
  {
    var x := Expiry(s, sendAt, expiresIn, skew);
    var expiresAt := Stamped(s, sendAt, expiresIn, skew);
    StampedSeconds(s, sendAt, expiresIn, skew);
    if -SECOND < x < SECOND {
      TakenExactly(v, m, counter, expiresAt, SignerZero(s, skew) + 2 * SECOND);
    } else if SECOND <= x < (EPOCH_SECONDS + 1) * SECOND {
      LastInstant(s, sendAt, expiresIn, skew, v, m, counter);
    } else {
      forall t | TakenAt(v, m, counter, expiresAt, t) ensures false {
        TakenExactly(v, m, counter, expiresAt, t);
      }
    }
  }

  /** The last instant at which the message is taken. */
  lemma LastInstant(s: S.SignerState, sendAt: int, expiresIn: int, skew: int,
                    v: V.VerifierState, m: RoutableMessage, counter: u32)
    requires v.timeZero.mono.Some?
    requires SECOND <= Expiry(s, sendAt, expiresIn, skew) < (EPOCH_SECONDS + 1) * SECOND
    requires m.to.GetDomain() == v.domain || v.domain == DOMAIN_BROADCAST
    requires counter > 0 && counter >= v.counter
    ensures var x := Expiry(s, sendAt, expiresIn, skew);
            var expiresAt := Stamped(s, sendAt, expiresIn, skew);
            var last := v.timeZero.mono.value + x - x % SECOND + SECOND - 1;
            TakenAt(v, m, counter, expiresAt, last) && forall t :: TakenAt(v, m, counter, expiresAt, t) ==> t <= last
  {
    var x := Expiry(s, sendAt, expiresIn, skew);
    var expiresAt := Stamped(s, sendAt, expiresIn, skew);
    StampedSeconds(s, sendAt, expiresIn, skew);
    assert expiresAt == x / SECOND;
    TakenExactly(v, m, counter, expiresAt, v.timeZero.mono.value + x - x % SECOND + SECOND - 1);
    forall t | TakenAt(v, m, counter, expiresAt, t) ensures t <= v.timeZero.mono.value + x - x % SECOND + SECOND - 1 {
      TakenExactly(v, m, counter, expiresAt, t);
    }
  }

  /** An input on which the strict promise fails, by almost a second. */
  lemma OverrunByRounding(v: V.VerifierState, s: S.SignerState, m: RoutableMessage, counter: u32)
    requires v.timeZero == s.timeZero == At(0)
    requires m.to.GetDomain() == v.domain || v.domain == DOMAIN_BROADCAST
    requires counter > 0 && counter >= v.counter
    ensures TakenAt(v, m, counter, Stamped(s, 0, SECOND, 0), 2 * SECOND - 1)
  {
    assert Expiry(s, 0, SECOND, 0) == SECOND;
    StampedSeconds(s, 0, SECOND, 0);
    TakenExactly(v, m, counter, 1, 2 * SECOND - 1);
  }

  // ---- all runs ----

  /** The Signer as it was when it authorised a message, compared with the system later. */
  ghost predicate SenderInOrder(y: System, s: S.SignerState) {
    ClocksInOrder(y.v, s, y.infos, y.now, y.skew) && exists info :: info in y.infos && info.epoch == s.epoch
  }

  lemma EventKeepsSender(y: System, e: Event, later: int, s: S.SignerState)
    requires SenderInOrder(y, s) && Possible(y, e, later)
    ensures SenderInOrder(Apply(y, e, later), s)
  {
    var info :| info in y.infos && info.epoch == s.epoch;
    if e.VehicleCall? {
      CallKeepsOrder(y, e.call, later, s);
    } else {
      Wait(y.v, s, y.infos, y.now, later, y.skew);
    }
  }

  lemma {:induction false} SenderStaysInOrder(y: System, trace: Trace, s: S.SignerState)
    requires SenderInOrder(y, s) && PossibleTrace(y, trace)
    ensures SenderInOrder(Reach(y, trace), s) && Reach(y, trace).skew == y.skew
  {
    if trace != [] {
      SenderStaysInOrder(y, trace[..|trace| - 1], s);
      EventKeepsSender(Reach(y, trace[..|trace| - 1]), trace[|trace| - 1].0, trace[|trace| - 1].1, s);
    }
  }

  /** What acceptance says about the checks of verifySessionInfo. */
  lemma AcceptedPassedSession(v: V.VerifierState, m: RoutableMessage, env: V.VerifyEnv)
    requires V.Verify(v, m, env).1.Ok?
    ensures var (v', ok) := V.AdjustClock(v, env.adjust);
            && ok
            && match m.signature
               case Gcm(e, _, c, x, _) => V.JudgeSession(v', m, e, c, x, env.expiry, env.timeToLive).None?
               case Hmac(e, c, x, _) => V.JudgeSession(v', m, e, c, x, env.expiry, env.timeToLive).None?
               case _ => false
  {
  }

  /** m is the message that s authorised at sendAt with the requested lifetime. */
  predicate AuthorisedBy(m: RoutableMessage, s: S.SignerState, sendAt: int, expiresIn: int, skew: int) {
    match m.signature
    case Gcm(e, _, _, x, _) => e == Some(s.epoch) && x == Stamped(s, sendAt, expiresIn, skew)
    case Hmac(e, _, x, _) => e == Some(s.epoch) && x == Stamped(s, sendAt, expiresIn, skew)
    case _ => false
  }

  lemma AcceptedInTime(z: System, s: S.SignerState, m: RoutableMessage, sendAt: int, expiresIn: int, env: V.VerifyEnv,
                       later: int)
    requires SenderInOrder(z, s) && AuthorisedBy(m, s, sendAt, expiresIn, z.skew)
    requires Possible(z, VehicleCall(Runs.Check(m, env)), later)
    requires V.Verify(z.v, m, env).1.Ok?
    requires var zero := V.AdjustClock(z.v, env.adjust).0.timeZero;
             zero.mono.Some? ==> env.expiry.mono.value < zero.mono.value + WRAP
    requires Sensible(Expiry(s, sendAt, expiresIn, z.skew))
    ensures env.expiry.mono.value < sendAt + expiresIn + SECOND || Stamped(s, sendAt, expiresIn, z.skew) == 0
  {
    var info :| info in z.infos && info.epoch == s.epoch;
    var v := V.AdjustClock(z.v, env.adjust).0;
    AcceptedPassedSession(z.v, m, env);
    Runs.AdjustEffect(z.v, env.adjust);
    AdjustKeepsOrder(z.v, env.adjust, s, z.infos, z.now, later, z.skew);
    if Stamped(s, sendAt, expiresIn, z.skew) != 0 {
      var counter := V.CounterOf(m);
      LifetimeEnforced(s, sendAt, expiresIn, z.skew, v, m, Some(s.epoch), counter, env.expiry, env.timeToLive);
    }
  }

  /** No message outlives its lifetime by a second or more. Whatever happens after the
      Signer has authorised it - delays, other messages, clock jumps, rotations, session
      info in any order, cache reloads - if the vehicle accepts it, it does so in time, or
      its expiration time is zero. */
  lemma LifetimeEnforcedInEveryRun(y: System, trace: Trace, message: RoutableMessage, expiresIn: int, sendAt: int,
                                   nonce: Option<bytes>, m: RoutableMessage, env: V.VerifyEnv, later: int)
    requires InOrder(y) && PossibleTrace(y, trace)
    requires exists info :: info in y.infos && info.epoch == y.s.epoch
    requires || (S.Encrypt(y.s, message, expiresIn, ClientTime(sendAt, y.skew), nonce).2.None?
                 && m == S.Encrypt(y.s, message, expiresIn, ClientTime(sendAt, y.skew), nonce).1)
             || m == S.AuthorizeHmac(y.s, message, expiresIn, ClientTime(sendAt, y.skew)).1
    requires Possible(Reach(y, trace), VehicleCall(Runs.Check(m, env)), later)
    requires V.Verify(Reach(y, trace).v, m, env).1.Ok?
    requires var zero := V.AdjustClock(Reach(y, trace).v, env.adjust).0.timeZero;
             zero.mono.Some? ==> env.expiry.mono.value < zero.mono.value + WRAP
    requires Sensible(Expiry(y.s, sendAt, expiresIn, y.skew))
    ensures || env.expiry.mono.value < sendAt + expiresIn + SECOND
            || Stamped(y.s, sendAt, expiresIn, y.skew) == 0
  {
    SenderStaysInOrder(y, trace, y.s);
    assert AuthorisedBy(m, y.s, sendAt, expiresIn, y.skew);
    AcceptedInTime(Reach(y, trace), y.s, m, sendAt, expiresIn, env, later);
  }
}
