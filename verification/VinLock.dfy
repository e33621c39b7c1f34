/** pkg/proxy/proxy.go: the per-VIN mutex made of a concurrent map and channels.

    A call is one execution of handleVehicleCommand by its own goroutine: lockVIN, the
    command, unlockVIN. Each atomic operation on the shared map or on a channel is one
    step, and the steps of all calls interleave freely. lockVIN makes one channel per
    call, so the number of the call also names its channel. Nothing is ever sent on these
    channels; receiving succeeds once the channel is closed. */
module VinLock {

  type Vin = string
  type CallId = nat

  datatype Phase =
    | Locking                        // about to LoadOrStore
    | Waiting(channel: CallId)       // blocked in select on the channel found in the map
    | Holding                        // lockVIN has returned nil
    | Loaded(channel: CallId)        // unlockVIN has read the channel from the map
    | Deleted(channel: CallId)       // unlockVIN has removed the entry, the channel is still open
    | Finished
    | TimedOut                       // lockVIN has returned ctx.Err()
    | Panicked

  datatype Call = Call(vin: Vin, phase: Phase)

  datatype State = State(locks: map<Vin, CallId>, closed: set<CallId>, calls: map<CallId, Call>)
  {
    predicate At(t: CallId, phase: Phase) {
      t in calls && calls[t].phase == phase
    }

    function Move(t: CallId, phase: Phase): State
      requires t in calls
    {
      this.(calls := calls[t := calls[t].(phase := phase)])
    }
  }

  const INITIAL := State(map[], {}, map[])

  datatype Step =
    | Begin(t: CallId, vin: Vin)
    | TryStore(t: CallId)
    | Receive(t: CallId)
    | Expire(t: CallId)
    | Load(t: CallId)
    | Delete(t: CallId)
    | Close(t: CallId)

  predicate Enabled(s: State, step: Step) {
    match step
    case Begin(t, _) => t !in s.calls
    case TryStore(t) => s.At(t, Locking)
    case Receive(t) => t in s.calls && s.calls[t].phase.Waiting? && s.calls[t].phase.channel in s.closed
    case Expire(t) => t in s.calls && s.calls[t].phase.Waiting?
    case Load(t) => s.At(t, Holding)
    case Delete(t) => t in s.calls && s.calls[t].phase.Loaded?
    case Close(t) => t in s.calls && s.calls[t].phase.Deleted?
  }

  function Next(s: State, step: Step): State
    requires Enabled(s, step)
  {
    match step
    case Begin(t, vin) => s.(calls := s.calls[t := Call(vin, Locking)])
    case TryStore(t) =>
      var vin := s.calls[t].vin;
      if vin in s.locks then s.Move(t, Waiting(s.locks[vin]))
      else s.Move(t, Holding).(locks := s.locks[vin := t])
    case Receive(t) => s.Move(t, Locking)
    case Expire(t) => s.Move(t, TimedOut)
    case Load(t) =>
      var vin := s.calls[t].vin;
      if vin in s.locks then s.Move(t, Loaded(s.locks[vin])) else s.Move(t, Panicked)
    case Delete(t) =>
      s.Move(t, Deleted(s.calls[t].phase.channel)).(locks := s.locks - {s.calls[t].vin})
    case Close(t) =>
      var channel := s.calls[t].phase.channel;
      if channel in s.closed then s.Move(t, Panicked)
      else s.Move(t, Finished).(closed := s.closed + {channel})
  }

  /** The entry of a call is in the map. */
  predicate Owns(s: State, t: CallId) {
    t in s.calls && (s.calls[t].phase.Holding? || s.calls[t].phase.Loaded?)
  }

  /** A call that still has to close the channel it put into the map. */
  predicate OwesClose(s: State, t: CallId) {
    t in s.calls && (s.calls[t].phase.Holding? || s.calls[t].phase.Loaded? || s.calls[t].phase.Deleted?)
  }

  predicate PhaseOk(s: State, t: CallId)
    requires t in s.calls
  {
    match s.calls[t].phase
    case Waiting(c) => c in s.calls && s.calls[c].vin == s.calls[t].vin && (OwesClose(s, c) || c in s.closed)
    case Loaded(c) => c == t
    case Deleted(c) => c == t && t !in s.closed
    case Panicked => false
    case _ => true
  }

  ghost predicate Inv(s: State) {
    && (forall v | v in s.locks :: Owns(s, s.locks[v]) && s.calls[s.locks[v]].vin == v)
    && (forall t | Owns(s, t) :: s.calls[t].vin in s.locks && s.locks[s.calls[t].vin] == t)
    && (forall t | t in s.calls :: PhaseOk(s, t))
    && (forall t | t in s.closed :: s.At(t, Finished))
  }

  lemma LockingKeepsInv(s: State, step: Step)
    requires Inv(s) && Enabled(s, step) && (step.Begin? || step.TryStore?)
    ensures Inv(Next(s, step))
  {
    var s' := Next(s, step);
    forall t | t in s'.calls ensures PhaseOk(s', t) {
      assert t in s.calls ==> PhaseOk(s, t);
    }
  }

  lemma WaitingKeepsInv(s: State, step: Step)
    requires Inv(s) && Enabled(s, step) && (step.Receive? || step.Expire?)
    ensures Inv(Next(s, step))
  {
    var s' := Next(s, step);
    forall t | t in s'.calls ensures PhaseOk(s', t) {
      assert PhaseOk(s, t);
    }
  }

  lemma UnlockingKeepsInv(s: State, step: Step)
    requires Inv(s) && Enabled(s, step) && (step.Load? || step.Delete? || step.Close?)
    ensures Inv(Next(s, step))
  {
    var s' := Next(s, step);
    assert Owns(s, step.t) || PhaseOk(s, step.t);
    assert PhaseOk(s, step.t);
    forall t | t in s'.calls ensures PhaseOk(s', t) {
      assert PhaseOk(s, t);
    }
  }

  lemma StepKeepsInv(s: State, step: Step)
    requires Inv(s) && Enabled(s, step)
    ensures Inv(Next(s, step))
  {
    match step
    case Begin(_, _) => LockingKeepsInv(s, step);
    case TryStore(_) => LockingKeepsInv(s, step);
    case Receive(_) => WaitingKeepsInv(s, step);
    case Expire(_) => WaitingKeepsInv(s, step);
    case Load(_) => UnlockingKeepsInv(s, step);
    case Delete(_) => UnlockingKeepsInv(s, step);
    case Close(_) => UnlockingKeepsInv(s, step);
  }

  // ---- all interleavings ----

  predicate Feasible(s: State, steps: seq<Step>)
    decreases |steps|
  {
    steps == [] || (Enabled(s, steps[0]) && Feasible(Next(s, steps[0]), steps[1..]))
  }

  function RunFrom(s: State, steps: seq<Step>): State
    requires Feasible(s, steps)
    decreases |steps|
  {
    if steps == [] then s else RunFrom(Next(s, steps[0]), steps[1..])
  }

  lemma {:induction false} RunKeepsInv(s: State, steps: seq<Step>)
    requires Inv(s) && Feasible(s, steps)
    ensures Inv(RunFrom(s, steps))
    decreases |steps|
  {
    if steps != [] {
      StepKeepsInv(s, steps[0]);
      RunKeepsInv(Next(s, steps[0]), steps[1..]);
    }
  }

  /** In every interleaving: two calls never hold the mutex of one VIN at the same time,
      unlockVIN never finds its entry missing, and no channel is closed twice. */
  lemma MutualExclusion(steps: seq<Step>)
    requires Feasible(INITIAL, steps)
    ensures var s := RunFrom(INITIAL, steps);
            && (forall t, u | Owns(s, t) && Owns(s, u) && s.calls[t].vin == s.calls[u].vin :: t == u)
            && (forall t :: !s.At(t, Panicked))
  {
    RunKeepsInv(INITIAL, steps);
    var s := RunFrom(INITIAL, steps);
    forall t ensures !s.At(t, Panicked) {
      assert t in s.calls ==> PhaseOk(s, t);
    }
  }

  function Owners(s: State): set<CallId> {
    set t | t in s.calls && Owns(s, t)
  }

  /** The calls whose channels the map holds for these VINs. */
  function Listed(s: State, vins: set<Vin>): set<CallId> {
    set v | v in vins && v in s.locks :: s.locks[v]
  }

  lemma {:induction false} OwnersPerVin(s: State, vins: set<Vin>)
    requires Inv(s) && vins <= s.locks.Keys
    ensures |vins| == |Listed(s, vins)|
  {
    if vins == {} {
      assert Listed(s, vins) == {};
    } else {
      var v :| v in vins;
      var rest := vins - {v};
      OwnersPerVin(s, rest);
      assert s.locks[v] !in Listed(s, rest) by {
        forall w | w in rest ensures s.locks[w] != s.locks[v] {
          assert s.calls[s.locks[w]].vin == w;
        }
      }
      assert Listed(s, vins) == Listed(s, rest) + {s.locks[v]};
    }
  }

  /** The map is never larger than the number of commands being executed: it has exactly
      one entry for each call that holds a mutex and has not yet deleted its entry. */
  lemma MapSizeIsNumberOfOwners(steps: seq<Step>)
    requires Feasible(INITIAL, steps)
    ensures var s := RunFrom(INITIAL, steps); |s.locks| == |Owners(s)|
  {
    RunKeepsInv(INITIAL, steps);
    var s := RunFrom(INITIAL, steps);
    OwnersPerVin(s, s.locks.Keys);
    forall t | t in Owners(s) ensures t in Listed(s, s.locks.Keys) {
      assert s.locks[s.calls[t].vin] == t;
    }
    assert Listed(s, s.locks.Keys) == Owners(s);
  }

  // ---- wake-ups ----

  /** What a call still has to do to give the mutex back. */
  function Release(s: State, t: CallId): seq<Step>
    requires OwesClose(s, t)
  {
    match s.calls[t].phase
    case Holding => [Load(t), Delete(t), Close(t)]
    case Loaded(_) => [Delete(t), Close(t)]
    case Deleted(_) => [Close(t)]
  }

  /** No other call can take from t the step it is about to make. */
  lemma OthersDoNotInterfere(s: State, step: Step, t: CallId)
    requires t in s.calls && Enabled(s, step) && step.t != t
    ensures t in Next(s, step).calls && Next(s, step).calls[t] == s.calls[t]
  {
  }

  lemma ReleaseWorks(s: State, t: CallId)
    requires Inv(s) && OwesClose(s, t)
    ensures Feasible(s, Release(s, t))
    ensures var s' := RunFrom(s, Release(s, t));
            t in s'.closed && forall u | u in s.calls && u != t :: u in s'.calls && s'.calls[u] == s.calls[u]
    decreases |Release(s, t)|
  {
    assert PhaseOk(s, t);
    if s.calls[t].phase.Holding? {
      var s1 := Next(s, Load(t));
      StepKeepsInv(s, Load(t));
      assert Release(s1, t) == Release(s, t)[1..];
      ReleaseWorks(s1, t);
    } else if s.calls[t].phase.Loaded? {
      var s1 := Next(s, Delete(t));
      StepKeepsInv(s, Delete(t));
      assert Release(s1, t) == Release(s, t)[1..];
      ReleaseWorks(s1, t);
    } else {
      assert Release(s, t)[1..] == [];
    }
  }

  /** Nobody can block a release: over every continuation in which c itself makes no step,
      c still owes its close, its remaining steps stay possible, and making them closes its
      channel. */
  lemma {:induction false} ReleaseCannotBeBlocked(s: State, steps: seq<Step>, c: CallId)
    requires Inv(s) && OwesClose(s, c) && Feasible(s, steps)
    requires forall step | step in steps :: step.t != c
    ensures var s' := RunFrom(s, steps);
            && OwesClose(s', c) && Release(s', c) == Release(s, c)
            && Feasible(s', Release(s', c)) && c in RunFrom(s', Release(s', c)).closed
    decreases |steps|
  {
    if steps == [] {
      ReleaseWorks(s, c);
    } else {
      StepKeepsInv(s, steps[0]);
      OthersDoNotInterfere(s, steps[0], c);
      ReleaseCannotBeBlocked(Next(s, steps[0]), steps[1..], c);
    }
  }

  /** A waiting call stays where it is until it makes a step itself. */
  lemma {:induction false} WaitersStay(s: State, steps: seq<Step>, t: CallId)
    requires t in s.calls && Feasible(s, steps)
    requires forall step | step in steps :: step.t != t
    ensures t in RunFrom(s, steps).calls && RunFrom(s, steps).calls[t] == s.calls[t]
    decreases |steps|
  {
    if steps != [] {
      OthersDoNotInterfere(s, steps[0], t);
      WaitersStay(Next(s, steps[0]), steps[1..], t);
    }
  }

  /** No wake-up is lost. In every interleaving, a call t blocked on a channel can either
      proceed at once, or waits for a call c that has yet to close that very channel. Then
      no continuation by the other calls takes that away: the remaining steps of c stay
      possible, and once they are made t can proceed. */
  lemma NoLostWakeUp(steps: seq<Step>, t: CallId, others: seq<Step>)
    requires Feasible(INITIAL, steps)
    requires var s := RunFrom(INITIAL, steps); t in s.calls && s.calls[t].phase.Waiting? && Feasible(s, others)
    requires var c := RunFrom(INITIAL, steps).calls[t].phase.channel;
             forall step | step in others :: step.t != c && step.t != t
    ensures var s := RunFrom(INITIAL, steps);
            var s' := RunFrom(s, others);
            var c := s.calls[t].phase.channel;
            && c != t
            && (Enabled(s, Receive(t))
                || (OwesClose(s', c) && Feasible(s', Release(s', c))
                    && Enabled(RunFrom(s', Release(s', c)), Receive(t))))
  {
    RunKeepsInv(INITIAL, steps);
    var s := RunFrom(INITIAL, steps);
    var c := s.calls[t].phase.channel;
    assert PhaseOk(s, t);
    if OwesClose(s, c) {
      RunKeepsInv(s, others);
      ReleaseCannotBeBlocked(s, others, c);
      WaitersStay(s, others, t);
      ReleaseWorks(RunFrom(s, others), c);
    }
  }

  // ---- waiting, and getting the mutex ----

  /** A call fails only if its context ends: in every feasible run, a call that has timed
      out has made its own Expire step. */
  lemma {:induction false} OnlyExpiryTimesOut(s: State, steps: seq<Step>, t: CallId)
    requires Feasible(s, steps) && RunFrom(s, steps).At(t, TimedOut)
    ensures s.At(t, TimedOut) || Expire(t) in steps
    decreases |steps|
  {
    if steps != [] {
      OnlyExpiryTimesOut(Next(s, steps[0]), steps[1..], t);
    }
  }

  lemma {:induction false} TimedOutStays(s: State, steps: seq<Step>, t: CallId)
    requires Feasible(s, steps) && s.At(t, TimedOut)
    ensures RunFrom(s, steps).At(t, TimedOut)
    decreases |steps|
  {
    if steps != [] {
      TimedOutStays(Next(s, steps[0]), steps[1..], t);
    }
  }

  lemma {:induction false} ExpiryTimesOut(s: State, steps: seq<Step>, t: CallId)
    requires Feasible(s, steps) && Expire(t) in steps
    ensures RunFrom(s, steps).At(t, TimedOut)
    decreases |steps|
  {
    if steps[0] == Expire(t) {
      TimedOutStays(Next(s, steps[0]), steps[1..], t);
    } else {
      ExpiryTimesOut(Next(s, steps[0]), steps[1..], t);
    }
  }

  /** In every run, a call has failed exactly if its context has ended while it waited. */
  lemma TimedOutExactly(steps: seq<Step>, t: CallId)
    requires Feasible(INITIAL, steps)
    ensures RunFrom(INITIAL, steps).At(t, TimedOut) <==> Expire(t) in steps
  {
    if Expire(t) in steps {
      ExpiryTimesOut(INITIAL, steps, t);
    } else if RunFrom(INITIAL, steps).At(t, TimedOut) {
      OnlyExpiryTimesOut(INITIAL, steps, t);
    }
  }

  /** A call that finds the mutex taken waits for its owner, and one that finds it free has
      it. */
  lemma TryStoreWaitsOrHolds(s: State, t: CallId)
    requires s.At(t, Locking)
    ensures var s' := Next(s, TryStore(t));
            var vin := s.calls[t].vin;
            && (vin in s.locks ==> s'.At(t, Waiting(s.locks[vin])) && s'.locks == s.locks)
            && (vin !in s.locks ==> s'.At(t, Holding) && s'.locks == s.locks[vin := t])
  {
  }

  lemma {:induction false} RunSplits(s: State, a: seq<Step>, b: seq<Step>)
    requires Feasible(s, a) && Feasible(RunFrom(s, a), b)
    ensures Feasible(s, a + b) && RunFrom(s, a + b) == RunFrom(RunFrom(s, a), b)
    decreases |a|
  {
    if a == [] {
      assert a + b == b;
    } else {
      assert (a + b)[1..] == a[1..] + b;
      RunSplits(Next(s, a[0]), a[1..], b);
    }
  }

  /** The remaining steps of an owner take its entry out of the map and close its channel. */
  lemma ReleaseFreesVin(s: State, o: CallId)
    requires Inv(s) && OwesClose(s, o)
    ensures Feasible(s, Release(s, o)) && Inv(RunFrom(s, Release(s, o)))
    ensures var s' := RunFrom(s, Release(s, o));
            && o in s'.closed
            && s'.locks == (if Owns(s, o) then s.locks - {s.calls[o].vin} else s.locks)
            && (forall u | u in s.calls && u != o :: u in s'.calls && s'.calls[u] == s.calls[u])
    decreases |Release(s, o)|
  {
    ReleaseWorks(s, o);
    RunKeepsInv(s, Release(s, o));
    assert PhaseOk(s, o);
    if s.calls[o].phase.Holding? || s.calls[o].phase.Loaded? {
      var step := Release(s, o)[0];
      StepKeepsInv(s, step);
      assert Release(Next(s, step), o) == Release(s, o)[1..];
      ReleaseFreesVin(Next(s, step), o);
    } else {
      assert Release(s, o)[1..] == [];
    }
  }

  /** Receiving on a closed channel and trying again gets a free mutex. */
  lemma WakeAndHold(s: State, t: CallId)
    requires t in s.calls && s.calls[t].phase.Waiting? && s.calls[t].phase.channel in s.closed
    requires s.calls[t].vin !in s.locks
    ensures Feasible(s, [Receive(t), TryStore(t)]) && RunFrom(s, [Receive(t), TryStore(t)]).At(t, Holding)
  {
    var s1 := Next(s, Receive(t));
    var steps, rest := [Receive(t), TryStore(t)], [TryStore(t)];
    assert steps[1..] == rest && rest[1..] == [];
    assert s1.At(t, Locking);
    var s2 := Next(s1, TryStore(t));
    TryStoreWaitsOrHolds(s1, t);
    assert Feasible(s2, []) && RunFrom(s2, []) == s2;
    assert RunFrom(s1, rest) == RunFrom(s2, rest[1..]);
    assert RunFrom(s, steps) == RunFrom(s1, steps[1..]);
  }

  /** A call that finds the mutex taken gets it: it waits, the owner can always release, and
      if nobody else stores in between, the woken call then holds the mutex. */
  lemma BlockedThenServed(steps: seq<Step>, t: CallId)
    requires Feasible(INITIAL, steps)
    requires var s := RunFrom(INITIAL, steps); s.At(t, Locking) && s.calls[t].vin in s.locks
    ensures var s := RunFrom(INITIAL, steps);
            var o := s.locks[s.calls[t].vin];
            var s1 := Next(s, TryStore(t));
            && s1.At(t, Waiting(o)) && OwesClose(s1, o) && Enabled(s1, Expire(t))
            && Feasible(s1, Release(s1, o) + [Receive(t), TryStore(t)])
            && RunFrom(s1, Release(s1, o) + [Receive(t), TryStore(t)]).At(t, Holding)
  {
    RunKeepsInv(INITIAL, steps);
    var s := RunFrom(INITIAL, steps);
    var o := s.locks[s.calls[t].vin];
    var s1 := Next(s, TryStore(t));
    TryStoreWaitsOrHolds(s, t);
    StepKeepsInv(s, TryStore(t));
    ReleaseFreesVin(s1, o);
    var s2 := RunFrom(s1, Release(s1, o));
    WakeAndHold(s2, t);
    RunSplits(s1, Release(s1, o), [Receive(t), TryStore(t)]);
  }

  /** No context ends, and nobody but t tries to get a mutex. */
  predicate Cooperative(steps: seq<Step>, t: CallId) {
    forall step | step in steps :: !step.Expire? && !step.Begin? && (step.TryStore? ==> step.t == t)
  }

  /** In every reachable state, a call that is still trying and whose context lasts can get
      the mutex, by steps that release it and the call's own. */
  lemma CanAlwaysAcquire(steps: seq<Step>, t: CallId)
    requires Feasible(INITIAL, steps)
    requires var s := RunFrom(INITIAL, steps); s.At(t, Locking) || (t in s.calls && s.calls[t].phase.Waiting?)
    ensures var s := RunFrom(INITIAL, steps);
            exists more :: Feasible(s, more) && RunFrom(s, more).At(t, Holding) && Cooperative(more, t)
  {
    RunKeepsInv(INITIAL, steps);
    var s := RunFrom(INITIAL, steps);
    if s.At(t, Locking) && s.calls[t].vin !in s.locks {
      var more := [TryStore(t)];
      TryStoreWaitsOrHolds(s, t);
      var s1 := Next(s, TryStore(t));
      assert more[1..] == [] && RunFrom(s1, []) == s1;
      assert RunFrom(s, more) == RunFrom(s1, more[1..]);
      assert Feasible(s, more) && RunFrom(s, more).At(t, Holding);
    } else if s.At(t, Locking) {
      BlockedThenServed(steps, t);
      var s1 := Next(s, TryStore(t));
      var rest := Release(s1, s.locks[s.calls[t].vin]) + [Receive(t), TryStore(t)];
      var more := [TryStore(t)] + rest;
      assert more[1..] == rest;
      assert RunFrom(s, more) == RunFrom(s1, rest);
      assert Feasible(s, more) && RunFrom(s, more).At(t, Holding);
    } else {
      var more := AcquireFromWaiting(s, t);
    }
  }

  lemma AcquireFromWaiting(s: State, t: CallId) returns (more: seq<Step>)
    requires Inv(s) && t in s.calls && s.calls[t].phase.Waiting?
    ensures Feasible(s, more) && RunFrom(s, more).At(t, Holding)
    ensures Cooperative(more, t)
  {
    var c := s.calls[t].phase.channel;
    assert PhaseOk(s, t);
    if OwesClose(s, c) {
      ReleaseFreesVin(s, c);
      var s1 := RunFrom(s, Release(s, c));
      var rest := AcquireFromClosed(s1, t);
      RunSplits(s, Release(s, c), rest);
      more := Release(s, c) + rest;
    } else {
      more := AcquireFromClosed(s, t);
    }
  }

  lemma AcquireFromClosed(s: State, t: CallId) returns (more: seq<Step>)
    requires Inv(s) && t in s.calls && s.calls[t].phase.Waiting? && s.calls[t].phase.channel in s.closed
    ensures Feasible(s, more) && RunFrom(s, more).At(t, Holding)
    ensures Cooperative(more, t)
  {
    var c, vin := s.calls[t].phase.channel, s.calls[t].vin;
    var last := [Receive(t), TryStore(t)];
    if vin in s.locks {
      var o := s.locks[vin];
      ReleaseFreesVin(s, o);
      ClosedStaysClosed(s, Release(s, o), c);
      WakeAndHold(RunFrom(s, Release(s, o)), t);
      RunSplits(s, Release(s, o), last);
      more := Release(s, o) + last;
    } else {
      WakeAndHold(s, t);
      more := last;
    }
  }

  lemma {:induction false} ClosedStaysClosed(s: State, steps: seq<Step>, c: CallId)
    requires Feasible(s, steps) && c in s.closed
    ensures c in RunFrom(s, steps).closed
    decreases |steps|
  {
    if steps != [] {
      ClosedStaysClosed(Next(s, steps[0]), steps[1..], c);
    }
  }
}
