/** internal/dispatcher/receiver.go and the routing half of dispatcher.go: which request an
    incoming message is handed to, over whole runs of the dispatcher. */
module Routing {
  import opened Primitives
  import opened Wire

  const ADDRESS_LENGTH := 16
  const UUID_LENGTH := 16
  const ZERO_ID: bytes := [0, 0, 0, 0, 0, 0, 0, 0, 0, 0, 0, 0, 0, 0, 0, 0]
  type Id = b: bytes | |b| == 16 witness ZERO_ID

  datatype ReceiverKey = ReceiverKey(address: Id, uuid: Id, domain: int)

  /** What Send draws for a request to `domain`. */
  datatype Request = Request(domain: int, randomAddress: Id, uuid: Id)

  /** VCSEC requests get a random return address; the others share the dispatcher's
      address and are told apart by their UUID. */
  function RequestKey(ownAddress: Id, r: Request): ReceiverKey {
    if r.domain == DOMAIN_VEHICLE_SECURITY then ReceiverKey(r.randomAddress, ZERO_ID, r.domain)
    else ReceiverKey(ownAddress, r.uuid, r.domain)
  }

  /** The key process looks up for an incoming message, unless it drops the message. */
  function RoutingKey(m: RoutableMessage): Option<ReceiverKey> {
    if m.from.Missing? then None
    else if |m.RequestUuidBytes()| != UUID_LENGTH && |m.RequestUuidBytes()| != 0 then None
    else if !m.to.ToAddress? || |m.to.address| != ADDRESS_LENGTH then None
    else if m.from.GetDomain() != DOMAIN_VEHICLE_SECURITY && |m.RequestUuidBytes()| == UUID_LENGTH then
      Some(ReceiverKey(m.to.address, m.RequestUuidBytes(), m.from.GetDomain()))
    else Some(ReceiverKey(m.to.address, ZERO_ID, m.from.GetDomain()))
  }

  /** The message answers the request: it comes from the request's domain to the request's
      return address and, except for VCSEC, names the request's UUID. */
  predicate Answers(m: RoutableMessage, ownAddress: Id, r: Request) {
    && !m.from.Missing? && m.from.GetDomain() == r.domain
    && (|m.RequestUuidBytes()| == UUID_LENGTH || |m.RequestUuidBytes()| == 0)
    && if r.domain == DOMAIN_VEHICLE_SECURITY then m.to == ToAddress(r.randomAddress)
       else m.to == ToAddress(ownAddress) && m.RequestUuidBytes() == r.uuid
  }

  lemma RoutedByRequest(m: RoutableMessage, ownAddress: Id, r: Request)
    requires r.uuid != ZERO_ID
    ensures RoutingKey(m) == Some(RequestKey(ownAddress, r)) <==> Answers(m, ownAddress, r)
  {
  }

  /** The random draws tell the two requests apart. */
  predicate Distinguished(r: Request, r': Request) {
    r.domain == r'.domain ==>
      if r.domain == DOMAIN_VEHICLE_SECURITY then r.randomAddress != r'.randomAddress else r.uuid != r'.uuid
  }

  lemma DistinctKeys(ownAddress: Id, r: Request, r': Request)
    ensures RequestKey(ownAddress, r) != RequestKey(ownAddress, r') <==> Distinguished(r, r')
  {
  }

  // ---- runs ----

  /** Requests are numbered in the order in which their handlers are created. `looked` is
      the message that process has found a handler for and not yet handed over. */
  datatype State = State(
    ownAddress: Id,
    requests: seq<Request>,
    handlers: map<ReceiverKey, nat>,
    closed: set<nat>,
    looked: Option<Delivery>,
    delivered: seq<Delivery>)

  datatype Delivery = Delivery(receiver: nat, message: RoutableMessage)

  /** Arrive is process up to the release of the handler lock, Hand the channel send at its
      end; process runs on one goroutine, and a new Arrive means that the message before it
      was dropped or delivered. Open and Close belong to other goroutines. */
  datatype Event = Open(request: Request) | Close(receiver: nat) | Arrive(message: RoutableMessage) | Hand

  function Start(ownAddress: Id): State {
    State(ownAddress, [], map[], {}, None, [])
  }

  function Find(s: State, m: RoutableMessage): Option<Delivery> {
    var k := RoutingKey(m);
    if k.Some? && k.value in s.handlers then Some(Delivery(s.handlers[k.value], m)) else None
  }

  function Step(s: State, e: Event): State {
    match e
    case Open(r) =>
      s.(requests := s.requests + [r], handlers := s.handlers[RequestKey(s.ownAddress, r) := |s.requests|])
    case Close(i) =>
      if i >= |s.requests| then s
      else s.(handlers := s.handlers - {RequestKey(s.ownAddress, s.requests[i])}, closed := s.closed + {i})
    case Arrive(m) => s.(looked := Find(s, m))
    case Hand =>
      if s.looked.None? then s else s.(looked := None, delivered := s.delivered + [s.looked.value])
  }

  /** The draws of the random source: never zero, never the same for two requests. */
  predicate Possible(s: State, e: Event) {
    e.Open? ==> e.request.uuid != ZERO_ID && forall r | r in s.requests :: Distinguished(r, e.request)
  }

  function Run(s: State, es: seq<Event>): State {
    if es == [] then s else Step(Run(s, es[..|es| - 1]), es[|es| - 1])
  }

  ghost predicate PossibleRun(s: State, es: seq<Event>) {
    forall n: nat | n < |es| :: Possible(Run(s, es[..n]), es[n])
  }

  predicate Live(s: State, i: nat) {
    i < |s.requests| && i !in s.closed
  }

  /** Exactly the live requests have a handler, each under its own key. */
  ghost predicate TableInv(s: State) {
    && (forall i, j | 0 <= i < j < |s.requests| :: Distinguished(s.requests[i], s.requests[j]))
    && (forall r | r in s.requests :: r.uuid != ZERO_ID)
    && (forall i | i in s.closed :: i < |s.requests|)
    && (forall i: nat :: Live(s, i) ==> RequestKey(s.ownAddress, s.requests[i]) in s.handlers)
    && (forall k | k in s.handlers ::
          Live(s, s.handlers[k]) && k == RequestKey(s.ownAddress, s.requests[s.handlers[k]]))
  }

  ghost predicate Proper(s: State, d: Delivery) {
    d.receiver < |s.requests| && Answers(d.message, s.ownAddress, s.requests[d.receiver])
  }

  ghost predicate Inv(s: State) {
    && TableInv(s)
    && (s.looked.Some? ==> Proper(s, s.looked.value))
    && (forall d | d in s.delivered :: Proper(s, d))
  }

  lemma KeysDiffer(s: State, i: nat, j: nat)
    requires TableInv(s) && i < |s.requests| && j < |s.requests| && i != j
    ensures RequestKey(s.ownAddress, s.requests[i]) != RequestKey(s.ownAddress, s.requests[j])
  {
    DistinctKeys(s.ownAddress, s.requests[if i < j then i else j], s.requests[if i < j then j else i]);
  }

  /** A message finds the handler of a live request exactly if it answers that request. */
  lemma FoundExactly(s: State, m: RoutableMessage, i: nat)
    requires TableInv(s)
    ensures Find(s, m) == Some(Delivery(i, m)) <==> Live(s, i) && Answers(m, s.ownAddress, s.requests[i])
  {
    if Live(s, i) {
      RoutedByRequest(m, s.ownAddress, s.requests[i]);
    }
  }

  lemma StepKeepsTable(s: State, e: Event)
    requires TableInv(s) && Possible(s, e)
    ensures TableInv(Step(s, e))
  {
    var s' := Step(s, e);
    match e
    case Open(r) =>
      forall i: nat | Live(s, i) ensures RequestKey(s.ownAddress, s.requests[i]) != RequestKey(s.ownAddress, r) {
        assert s.requests[i] in s.requests;
        DistinctKeys(s.ownAddress, s.requests[i], r);
      }
      assert forall i: nat :: Live(s', i) ==> Live(s, i) || i == |s.requests|;
    case Close(c) =>
      if c < |s.requests| {
        forall i: nat | Live(s', i) ensures RequestKey(s.ownAddress, s.requests[i]) in s'.handlers {
          assert Live(s, i);
          KeysDiffer(s, i, c);
        }
      }
    case _ =>
      assert forall i: nat :: Live(s', i) == Live(s, i);
  }

  lemma StepKeepsInv(s: State, e: Event)
    requires Inv(s) && Possible(s, e)
    ensures Inv(Step(s, e))
  {
    StepKeepsTable(s, e);
    if e.Arrive? && Find(s, e.message).Some? {
      FoundExactly(s, e.message, Find(s, e.message).value.receiver);
    }
  }

  lemma {:induction false} RunKeepsInv(s: State, es: seq<Event>)
    requires Inv(s) && PossibleRun(s, es)
    ensures Inv(Run(s, es))
  {
    if es != [] {
      var before := es[..|es| - 1];
      assert forall n: nat | n < |before| :: before[..n] == es[..n];
      RunKeepsInv(s, before);
      StepKeepsInv(Run(s, before), es[|es| - 1]);
    }
  }

  /** No live handler is ever overwritten or lost, and everything ever delivered answers
      the request it was delivered to. */
  lemma RoutingIsExact(ownAddress: Id, es: seq<Event>, m: RoutableMessage, i: nat)
    requires PossibleRun(Start(ownAddress), es)
    ensures var s := Run(Start(ownAddress), es);
            && (Live(s, i) ==> RequestKey(s.ownAddress, s.requests[i]) in s.handlers
                               && s.handlers[RequestKey(s.ownAddress, s.requests[i])] == i)
            && (Find(s, m) == Some(Delivery(i, m)) <==> Live(s, i) && Answers(m, s.ownAddress, s.requests[i]))
            && (forall d | d in s.delivered :: Proper(s, d))
  {
    RunKeepsInv(Start(ownAddress), es);
    var s := Run(Start(ownAddress), es);
    FoundExactly(s, m, i);
    if Live(s, i) {
      var j := s.handlers[RequestKey(s.ownAddress, s.requests[i])];
      if i != j {
        KeysDiffer(s, i, j);
      }
    }
  }

  /** A closed request for which no message is on its way. */
  ghost predicate Silent(s: State, i: nat) {
    i in s.closed && (s.looked.Some? ==> s.looked.value.receiver != i)
  }

  lemma StaysSilent(s: State, e: Event, i: nat)
    requires Inv(s) && Possible(s, e) && Silent(s, i)
    ensures Silent(Step(s, e), i)
    ensures s.delivered <= Step(s, e).delivered
    ensures forall d | d in Step(s, e).delivered[|s.delivered|..] :: d.receiver != i
  {
    if e.Arrive? {
      FoundExactly(s, e.message, i);
    }
  }

  /** A closed receiver gets nothing more, unless its handler had already been looked up
      when it was closed. */
  lemma {:induction false} ClosedReceiversGetNothing(s: State, es: seq<Event>, i: nat)
    requires Inv(s) && PossibleRun(s, es) && Silent(s, i)
    ensures Silent(Run(s, es), i)
    ensures s.delivered <= Run(s, es).delivered
    ensures forall d | d in Run(s, es).delivered[|s.delivered|..] :: d.receiver != i
  {
    if es != [] {
      var before := es[..|es| - 1];
      assert forall n: nat | n < |before| :: before[..n] == es[..n];
      ClosedReceiversGetNothing(s, before, i);
      RunKeepsInv(s, before);
      StaysSilent(Run(s, before), es[|es| - 1], i);
    }
  }

  /** Nothing more is delivered to i, whatever happens. */
  ghost predicate GetsNothingMore(s: State, i: nat) {
    forall es, n | PossibleRun(s, es) && |s.delivered| <= n < |Run(s, es).delivered| ::
      Run(s, es).delivered[n].receiver != i
  }

  /** The promise that a closed receiver gets nothing more, and exactly when it holds: if
      process has not found its handler before it was closed. */
  lemma ClosedReceiversGetNothingExactly(s: State, i: nat)
    requires Inv(s) && i in s.closed
    ensures Silent(s, i) <==> GetsNothingMore(s, i)
  {
    if Silent(s, i) {
      forall es, n | PossibleRun(s, es) && |s.delivered| <= n < |Run(s, es).delivered|
        ensures Run(s, es).delivered[n].receiver != i
      {
        ClosedReceiversGetNothing(s, es, i);
        assert Run(s, es).delivered[n] in Run(s, es).delivered[|s.delivered|..];
      }
    } else {
      var es := [Hand];
      assert es[..0] == [];
      assert PossibleRun(s, es);
      assert Run(s, es).delivered[|s.delivered|].receiver == i;
    }
  }

  /** The exception happens: a response can arrive after Close. */
  lemma ResponseAfterClose(ownAddress: Id, r: Request, m: RoutableMessage)
    requires r.uuid != ZERO_ID && Answers(m, ownAddress, r)
    ensures var es := [Open(r), Arrive(m), Close(0), Hand];
            && PossibleRun(Start(ownAddress), es)
            && 0 in Run(Start(ownAddress), es[..3]).closed && Run(Start(ownAddress), es[..3]).delivered == []
            && Run(Start(ownAddress), es).delivered == [Delivery(0, m)]
  {
    var es := [Open(r), Arrive(m), Close(0), Hand];
    var s := Start(ownAddress);
    RoutedByRequest(m, ownAddress, r);
    assert es[..4] == es && es[..4][..3] == es[..3] && es[..3][..2] == es[..2];
    assert es[..2][..1] == es[..1] && es[..1][..0] == [];
    assert Run(s, es[..1]) == Step(s, es[0]);
    assert Run(s, es[..2]) == Step(Run(s, es[..1]), es[1]);
    assert Run(s, es[..3]) == Step(Run(s, es[..2]), es[2]);
  }
}
