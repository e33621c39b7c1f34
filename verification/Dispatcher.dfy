/** internal/dispatcher/dispatcher.go: the table of pending requests and the table of
    sessions.

    Each method is one critical section of the source, or a sequence of them; methods of
    different goroutines may follow each other in any order, and Valid holds between them.
    process is split where it releases a lock: Lookup, CheckForSessionUpdate, Deliver. */
module Dispatcher {
  import opened Primitives
  import opened Wire
  import opened GoTime
  import opened Peer
  import opened ReplayWindow
  import opened Routing
  import opened Session
  import opened SessionCache
  import opened Errors
  import Retry
  import S = SignerSpec

  const RECEIVER_BUFFER_SIZE := 10

  // ---- a pending request ----

  /** A message put on a receiver's queue, with its counter if it was encrypted. */
  datatype Response = Response(message: RoutableMessage, counter: Option<u32>)

  class Receiver {
    const key: ReceiverKey
    const requestSentAt: Time
    const requestID: Option<bytes>
    const antireplay: SlidingWindow
    ghost const number: nat               // its request, in the order of creation
    var queue: seq<RoutableMessage>
    ghost var history: seq<Response>      // everything that was ever queued

    /** Every counter queued was accepted by the window, and no two encrypted responses
        ever queued have the same counter. */
    ghost predicate Valid()
      reads this, antireplay
    {
      && antireplay.Valid() && antireplay.owner == this
      && (forall h | h in history && h.counter.Some? :: h.counter.value in antireplay.accepted)
      && (forall i, j | 0 <= i < j < |history| :: history[i].counter.Some? ==> history[i].counter != history[j].counter)
    }

    constructor (key: ReceiverKey, id: Option<bytes>, now: Time, ghost number: nat)
      ensures Valid() && fresh(antireplay) && this.key == key && requestID == id && requestSentAt == now
      ensures this.number == number
      ensures queue == [] && history == [] && antireplay.accepted == {}
    {
      this.key, requestID, requestSentAt := key, id, now;
      this.number := number;
      antireplay := new SlidingWindow();
      queue, history := [], [];
      new;
      antireplay.owner := this;
    }

    predicate Expired(now: Time, lifetime: int) {
      After(now, Add(requestSentAt, lifetime))
    }

    /** The channel send that ends process: it never blocks. */
    method Enqueue(m: RoutableMessage, ghost counter: Option<u32>) returns (queued: bool)
      requires Valid()
      requires counter.Some? ==> counter.value in antireplay.accepted && counter !in Counters()
      modifies this`queue, this`history
      ensures Valid() && queued == (|old(queue)| < 10)
      ensures queue == if queued then old(queue) + [m] else old(queue)
      ensures history == if queued then old(history) + [Response(m, counter)] else old(history)
    {
      if |queue| >= RECEIVER_BUFFER_SIZE {
        return false;
      }
      queue := queue + [m];
      assert forall h | h in history :: counter.Some? ==> h.counter in Counters();
      history := history + [Response(m, counter)];
      queued := true;
    }

    /** What a channel send that does not block leads to. */
    function Put(): ProcessResult
      reads this
    {
      if |queue| < RECEIVER_BUFFER_SIZE then Queued else QueueFull
    }

    /** The response has been appended if it was queued. */
    ghost predicate Has(queue': seq<RoutableMessage>, history': seq<Response>, r: ProcessResult, response: Response)
      reads this
    {
      r.Queued? ==> queue == queue' + [response.message] && history == history' + [response]
    }

    ghost function Counters(): set<Option<u32>>
      reads this
    {
      set h | h in history :: h.counter
    }
  }

  datatype ProcessResult = Queued | QueueFull | Replay | Undecryptable | Crash

  /** LoadCache without a private key ends in a nil dereference if the first entry decodes. */
  datatype LoadResult = Loaded | InvalidCache | LoadCrash

  /** What another goroutine can do to the sessions: process session info for a domain, or
      replace the table. */
  datatype Act = Hears(domain: int, hello: Hello) | Loads(entries: seq<CacheEntry>, now: Time)

  predicate NoLoads(acts: seq<Act>) {
    forall a | a in acts :: a.Hears?
  }

  /** What the acts make of the Signer of the session for a domain. */
  function HearAll(key: ClientKey, vin: bytes, ctx: Option<S.SignerState>, domain: int, acts: seq<Act>)
    : Option<S.SignerState>
  {
    if acts == [] then ctx
    else
      var before, act := HearAll(key, vin, ctx, domain, acts[..|acts| - 1]), acts[|acts| - 1];
      if act.Hears? && act.domain == domain then Hear(key, vin, before, act.hello).0 else before
  }

  /** What a select of tryStartSession picks. */
  datatype Choice = PickReady | PickContext | PickTimer | PickReply(failure: Option<GoError>)

  /** One pass of tryStartSession: the random draws, the transmissions, and for each of its
      two selects what happens before it and which ready case it picks. */
  datatype Handshake = Handshake(
    uuid: Option<Id>, randomAddress: Option<Id>, now: Time, transmissions: seq<Retry.Transmission>,
    acts: seq<Act>, pick: Choice, acts2: seq<Act>, pick2: Choice)

  /** The choice that decides a pass: that of the second select if the first picks a reply
      without an error. A second reply is not waited for; the pick stands for the timer. */
  function Decisive(h: Handshake): Choice {
    if !h.pick.PickReply? || h.pick.failure.Some? then h.pick
    else if h.pick2.PickReply? then PickTimer
    else h.pick2
  }

  /** Everything that happens before the decisive choice. */
  function ActsBefore(h: Handshake): seq<Act> {
    if h.pick.PickReply? && h.pick.failure.None? then h.acts + h.acts2 else h.acts
  }

  /** RequestID would slice beyond the end of the tag, which is taken to have no spare
      capacity. */
  predicate HasShortTag(m: RoutableMessage) {
    m.signature.Hmac? && |m.signature.hmacTag| < 16 && m.to.GetDomain() == DOMAIN_VEHICLE_SECURITY
  }

  /** Send gets as far as authorize. */
  predicate Drawn(listening: bool, domain: int, uuid: Option<Id>, randomAddress: Option<Id>) {
    && listening && domain != DOMAIN_BROADCAST && uuid.Some?
    && (domain == DOMAIN_VEHICLE_SECURITY ==> randomAddress.Some?)
  }

  /** A pass gets its request to the connector. */
  predicate Asks(listening: bool, hasKey: bool, domain: int, h: Handshake) {
    hasKey && Drawn(listening, domain, h.uuid, h.randomAddress) && Retry.Transmit(h.transmissions).0.None?
  }

  /** The pass can let the loop of StartSession go on. */
  predicate Undecided(listening: bool, hasKey: bool, domain: int, h: Handshake) {
    Asks(listening, hasKey, domain, h) && (Decisive(h).PickReady? || Decisive(h).PickTimer?)
  }

  /** What a pass returns; `ready` is the session's readiness after it. */
  predicate Returned(listening: bool, hasKey: bool, ready: bool, domain: int, h: Handshake, retry: bool,
                     error: Option<GoError>)
  {
    if !Asks(listening, hasKey, domain, h) then !retry && error.Some?
    else
      match Decisive(h)
      case PickReady => error.None? && retry == !ready
      case PickContext => !retry && error == Some(CONTEXT_DONE)
      case PickTimer => retry && error.None?
      case PickReply(failure) => !retry && error == failure
  }

  /** After `made` passes nothing is decided. */
  predicate Pending(listening: bool, hasKey: bool, ready: bool, domain: int, passes: seq<Handshake>, made: nat,
                    error: Option<GoError>)
  {
    && made <= |passes| && error == Some(CONTEXT_DONE)
    && (forall i | 0 <= i < made :: Undecided(listening, hasKey, domain, passes[i]))
    && (made > 0 && Decisive(passes[made - 1]).PickReady? ==> !ready)
  }

  /** What StartSession returns after `made` passes: success exactly if the last one got its
      request out and its last select picks the ready signal of a session that is ready.
      Passes before it decide nothing, and it is the last of the script or decides. */
  predicate Settled(listening: bool, hasKey: bool, ready: bool, domain: int, passes: seq<Handshake>, made: nat,
                    error: Option<GoError>)
  {
    && made <= |passes|
    && (forall i | 0 <= i < made - 1 :: Undecided(listening, hasKey, domain, passes[i]))
    && if made == 0 then passes == [] && error == Some(CONTEXT_DONE)
       else
         var h := passes[made - 1];
         var asks := Asks(listening, hasKey, domain, h);
         && (error.None? <==> asks && Decisive(h).PickReady? && ready)
         && (asks && Decisive(h).PickReply? ==> error == Decisive(h).failure)
         && (asks && !Decisive(h).PickReply? && error.Some? ==> error == Some(CONTEXT_DONE))
         && (made < |passes| ==> error.None? || !Undecided(listening, hasKey, domain, h))
  }

  /** The state of the loop after `made` passes. */
  predicate Progress(listening: bool, hasKey: bool, ready: bool, domain: int, passes: seq<Handshake>, made: nat,
                     going: bool, error: Option<GoError>)
  {
    if going then Pending(listening, hasKey, ready, domain, passes, made, error)
    else Settled(listening, hasKey, ready, domain, passes, made, error)
  }

  lemma PassMade(listening: bool, hasKey: bool, ready: bool, ready': bool, domain: int, passes: seq<Handshake>,
                 made: nat, error: Option<GoError>, retry: bool, outcome: Option<GoError>)
    requires made < |passes| && Progress(listening, hasKey, ready, domain, passes, made, true, error)
    requires Returned(listening, hasKey, ready', domain, passes[made], retry, outcome)
    ensures var error' := if retry then Some(CONTEXT_DONE) else outcome;
            Progress(listening, hasKey, ready', domain, passes, made + 1, retry, error')
  {
  }

  lemma LoopEnds(listening: bool, hasKey: bool, ready: bool, domain: int, passes: seq<Handshake>, made: nat,
                 going: bool, error: Option<GoError>)
    requires Progress(listening, hasKey, ready, domain, passes, made, going, error) && (going ==> made == |passes|)
    ensures Settled(listening, hasKey, ready, domain, passes, made, error) && (error.None? ==> ready)
  {
  }

  lemma {:induction false} HearAllAppend(key: ClientKey, vin: bytes, ctx: Option<S.SignerState>, domain: int,
                                         a: seq<Act>, b: seq<Act>)
    ensures HearAll(key, vin, ctx, domain, a + b) == HearAll(key, vin, HearAll(key, vin, ctx, domain, a), domain, b)
    decreases |b|
  {
    if b == [] {
      assert a + b == a;
    } else {
      assert (a + b)[..|a + b| - 1] == a + b[..|b| - 1];
      HearAllAppend(key, vin, ctx, domain, a, b[..|b| - 1]);
    }
  }

  function SessionInfoRequestTo(domain: int, publicKey: bytes): RoutableMessage {
    RoutableMessage(ToDomain(domain), Missing, SessionInfoRequest(publicKey), NoSignature, 0, None, None, 0, 0)
  }

  /** Registering a receiver under a new key and removing it again changes nothing. */
  lemma AddAndRemove(handlers: map<ReceiverKey, Receiver>, recv: Receiver)
    ensures recv.key !in handlers ==> handlers[recv.key := recv] - {recv.key} == handlers
  {
  }

  // ---- the table of handlers as Routing sees it ----

  /** The state of Routing between two messages, for the fields of a dispatcher. */
  ghost function RoutesOf(address: Id, requests: seq<Request>, handlers: map<ReceiverKey, Receiver>, closed: set<nat>)
    : State
  {
    State(address, requests, map k | k in handlers :: handlers[k].number, closed, None, [])
  }

  /** What CreateHandler does is Open. */
  lemma CreateHandlerIsOpen(address: Id, requests: seq<Request>, handlers: map<ReceiverKey, Receiver>, closed: set<nat>,
                            r: Request, recv: Receiver)
    requires recv.number == |requests| && recv.key == RequestKey(address, r)
    ensures RoutesOf(address, requests + [r], handlers[recv.key := recv], closed)
         == Step(RoutesOf(address, requests, handlers, closed), Open(r))
  {
  }

  /** What CloseHandler does is Close. */
  lemma CloseHandlerIsClose(address: Id, requests: seq<Request>, handlers: map<ReceiverKey, Receiver>, closed: set<nat>,
                            recv: Receiver)
    requires recv.number < |requests| && recv.key == RequestKey(address, requests[recv.number])
    ensures RoutesOf(address, requests, handlers - {recv.key}, closed + {recv.number})
         == Step(RoutesOf(address, requests, handlers, closed), Close(recv.number))
  {
  }

  /** What Lookup finds is what Arrive finds. */
  lemma LookupIsArrive(address: Id, requests: seq<Request>, handlers: map<ReceiverKey, Receiver>, closed: set<nat>,
                       m: RoutableMessage)
    ensures var looked := Step(RoutesOf(address, requests, handlers, closed), Arrive(m)).looked;
            var k := RoutingKey(m);
            looked == if k.Some? && k.value in handlers then Some(Delivery(handlers[k.value].number, m)) else None
  {
  }

  // ---- the dispatcher ----

  class Dispatcher {
    const key: Option<ClientKey>
    const codec: Codec
    const publicKey: bytes
    const vin: bytes
    const address: Id
    var maxLatency: int
    var listening: bool
    var sessions: map<int, Session>
    var handlers: map<ReceiverKey, Receiver>
    ghost var everSession: set<Session>      // sessions that are or were in the table
    ghost var requests: seq<Request>         // requests that ever got a handler
    ghost var closed: set<nat>               // those whose handler was closed

    /** In particular every session that was ever in the table is usable exactly if it is
        ready, and its signal has been closed exactly once by then and never before. */
    ghost predicate SessionsOk()
      reads this`sessions, this`everSession, everSession
    {
      && (forall d | d in sessions :: sessions[d] in everSession)
      && (forall d, e | d in sessions && e in sessions && d != e :: sessions[d] != sessions[e])
      && (forall s | s in everSession :: s.Valid() && s.key == key && s.vin == vin)
    }

    ghost predicate HandlersOk()
      reads this`handlers, handlers.Values, set h | h in handlers.Values :: h.antireplay
    {
      forall k | k in handlers :: handlers[k].key == k && handlers[k].Valid()
    }

    ghost predicate Unlocked()
      reads this`everSession, everSession
    {
      forall s | s in everSession :: !s.locked
    }

    /** Between two operations no session is locked. */
    ghost predicate Valid()
      reads this, everSession, handlers.Values, set h | h in handlers.Values :: h.antireplay
    {
      SessionsOk() && HandlersOk() && Unlocked()
    }

    /** authorize has returned with the session's lock held. From then on every operation
        on this session blocks; nothing else is wrong. */
    ghost predicate Stuck(domain: int)
      reads this, everSession, handlers.Values, set h | h in handlers.Values :: h.antireplay
    {
      && SessionsOk() && HandlersOk()
      && domain in sessions && forall s | s in everSession :: s.locked <==> s == sessions[domain]
    }

    constructor (key: Option<ClientKey>, codec: Codec, publicKey: bytes, vin: bytes, address: Id, maxLatency: int)
      ensures Valid() && sessions == map[] && handlers == map[] && !listening
      ensures this.key == key && this.codec == codec && this.publicKey == publicKey && this.vin == vin
      ensures this.address == address && this.maxLatency == maxLatency && everSession == {}
      ensures requests == [] && closed == {}
    {
      this.key, this.codec, this.publicKey, this.vin := key, codec, publicKey, vin;
      this.address, this.maxLatency := address, maxLatency;
      listening, sessions, handlers := false, map[], map[];
      everSession, requests, closed := {}, [], {};
    }

    // ---- handlers ----

    /** The receiver belongs to a request of this dispatcher. */
    ghost predicate Opened(recv: Receiver)
      reads this`requests
    {
      recv.number < |requests| && recv.key == RequestKey(address, requests[recv.number])
    }

    method CreateHandler(r: Request, id: Option<bytes>, now: Time) returns (recv: Receiver)
      requires Valid()
      modifies this`handlers, this`requests
      ensures Valid() && Sent(recv, RequestKey(address, r), id, now) && Opened(recv)
      ensures handlers == old(handlers)[recv.key := recv]
      ensures recv.number == |old(requests)| && requests == old(requests) + [r]
    {
      var k := RequestKey(address, r);
      recv := new Receiver(k, id, now, |requests|);
      handlers := handlers[k := recv];
      requests := requests + [r];
    }

    method CloseHandler(recv: Receiver)
      requires Valid() && Opened(recv)
      modifies this`handlers, this`closed
      ensures Valid() && handlers == old(handlers) - {recv.key}
      ensures recv !in handlers.Values && closed == old(closed) + {recv.number}
    {
      handlers := handlers - {recv.key};
      closed := closed + {recv.number};
    }

    // ---- sending ----

    /** A request with these draws, and its key. */
    function RequestFor(domain: int, uuid: Option<Id>, randomAddress: Option<Id>): Request {
      Request(domain, randomAddress.GetOr(ZERO_ID), uuid.GetOr(ZERO_ID))
    }

    function KeyFor(domain: int, uuid: Option<Id>, randomAddress: Option<Id>): ReceiverKey {
      RequestKey(address, RequestFor(domain, uuid, randomAddress))
    }

    /** An unknown method makes authorize return with the session's lock held. */
    predicate Sticks(domain: int, auth: AuthMethod, passes: seq<Pass>)
      reads this, sessions.Values
    {
      && auth.AuthUnknown? && domain in sessions && sessions[domain].ready
      && passes != [] && passes[0].picked.Ready?
    }

    /** The part of Send that needs a session. A session that is not ready is refused before
        authorize could wait for it. An unknown method leaves the session locked exactly if
        the session is ready and the first select picks its signal. */
    method AuthorizeFor(domain: int, message: RoutableMessage, auth: AuthMethod, lifetime: int, passes: seq<Pass>)
      returns (m: RoutableMessage, error: Option<GoError>)
      requires Valid()
      modifies everSession
      ensures if old(Sticks(domain, auth, passes)) then Stuck(domain) && error == Some(UNKNOWN_METHOD) else Valid()
      ensures forall s | s in everSession :: s.ready == old(s.ready)
      ensures domain !in sessions || !old(sessions[domain].ready) ==>
                error == Some(ERR_NO_SESSION) && forall s | s in everSession :: unchanged(s)
      ensures domain in sessions && old(sessions[domain].ready) ==>
                var (ctx, r) := AuthorizeLoop(key, vin, old(sessions[domain].ctx), message, auth, lifetime, passes);
                && sessions[domain].ctx == ctx
                && match r
                   case Authorized(m') => error.None? && m == m'
                   case GaveUp(_) => error == Some(CONTEXT_DONE)
                   case UnknownMethod => error == Some(UNKNOWN_METHOD)
      ensures forall s | s in everSession && (domain !in sessions || s != sessions[domain]) :: unchanged(s)
    {
      m := message;
      if domain !in sessions || !sessions[domain].ready {
        return m, Some(ERR_NO_SESSION);
      }
      UnknownMethodExactly(key, vin, sessions[domain].ctx, message, auth, lifetime, passes);
      var r := sessions[domain].Authorize(message, auth, lifetime, passes);
      match r
      case Authorized(m') => m, error := m', None;
      case GaveUp(_) => error := Some(CONTEXT_DONE);
      case UnknownMethod => error := Some(UNKNOWN_METHOD);
    }

    /** Send. `passes` are those of authorize, `transmissions` the calls of the connector;
        uuid and randomAddress are absent when the random source fails. `handed` is the
        message as it is marshalled for the connector. The handler exists afterwards exactly
        if the caller got it, except that it stays behind when marshalling fails. */
    method Send(message: RoutableMessage, auth: AuthMethod, lifetime: int, uuid: Option<Id>, randomAddress: Option<Id>,
                passes: seq<Pass>, now: Time, marshalFails: bool, transmissions: seq<Retry.Transmission>)
      returns (recv: Receiver?, error: Option<GoError>, crashed: bool, handed: RoutableMessage)
      requires Valid()
      modifies this`handlers, this`requests, this`closed, if auth.AuthNone? then {} else everSession
      ensures var domain := message.to.GetDomain();
              if Drawn(listening, domain, uuid, randomAddress) && old(Sticks(domain, auth, passes)) then
                Stuck(domain) && error == Some(UNKNOWN_METHOD)
              else Valid()
      ensures old(requests) <= requests && (recv != null ==> Opened(recv))
      ensures (recv != null) == (error.None? && !crashed)
      ensures forall s | s in everSession :: s.ready == old(s.ready)
      ensures recv != null
              <==> && Authorises(message, auth, lifetime, uuid, randomAddress, passes, handed)
                   && !HasShortTag(handed) && !marshalFails && Retry.Transmit(transmissions).0.None?
      ensures Authorises(message, auth, lifetime, uuid, randomAddress, passes, handed) && !HasShortTag(handed) ==>
                error == if marshalFails then Some(MARSHAL_FAILED) else Retry.Transmit(transmissions).0
      ensures !listening ==> error == Some(ERR_NOT_CONNECTED)
      ensures var domain := message.to.GetDomain();
              && Drawn(listening, domain, uuid, randomAddress) && !auth.AuthNone?
              && (domain !in sessions || !old(sessions[domain].ready))
              ==> error == Some(ERR_NO_SESSION)
      ensures Drawn(listening, message.to.GetDomain(), uuid, randomAddress) && auth.AuthNone? ==>
                handed == Prepared(message, uuid, randomAddress)
      ensures crashed
              <==> Authorises(message, auth, lifetime, uuid, randomAddress, passes, handed) && HasShortTag(handed)
      ensures recv != null ==>
                && Sent(recv, KeyFor(message.to.GetDomain(), uuid, randomAddress), RequestID(handed), now)
                && handlers == old(handlers)[recv.key := recv]
      ensures recv == null ==>
                var k := KeyFor(message.to.GetDomain(), uuid, randomAddress);
                || handlers == old(handlers)
                || if marshalFails then k in handlers && fresh(handlers[k])
                   && handlers == old(handlers)[k := handlers[k]]
                   else handlers == old(handlers) - {k}
    {
      handed, crashed := message, false;
      if !listening {
        return null, Some(ERR_NOT_CONNECTED), false, handed;
      }
      var domain := message.to.GetDomain();
      if domain == DOMAIN_BROADCAST {
        return null, Some(CommandError(false, false)), false, handed;
      }
      if uuid.None? || (domain == DOMAIN_VEHICLE_SECURITY && randomAddress.None?) {
        return null, Some(Plain("random source")), false, handed;
      }
      handed := message.(uuid := Some(uuid.value), from := ToAddress(KeyFor(domain, uuid, randomAddress).address));
      if !auth.AuthNone? {
        handed, error := AuthorizeFor(domain, handed, auth, lifetime, passes);
        if error.Some? {
          return null, error, false, handed;
        }
      }
      recv, error, crashed := Post(RequestFor(domain, uuid, randomAddress), handed, now, marshalFails, transmissions);
    }

    /** Send gets as far as the connector, with the message `handed`. */
    twostate predicate Authorises(message: RoutableMessage, auth: AuthMethod, lifetime: int, uuid: Option<Id>,
                                  randomAddress: Option<Id>, passes: seq<Pass>, handed: RoutableMessage)
      reads this, sessions.Values
    {
      var domain := message.to.GetDomain();
      var prepared := Prepared(message, uuid, randomAddress);
      && Drawn(listening, domain, uuid, randomAddress)
      && if auth.AuthNone? then handed == prepared
         else && domain in sessions && domain in old(sessions) && old(sessions[domain].ready)
              && AuthorizeLoop(key, vin, old(sessions[domain].ctx), prepared, auth, lifetime, passes)
                 == (sessions[domain].ctx, Authorized(handed))
    }

    /** The message with the UUID and the return address that the receiver's key has. */
    function Prepared(message: RoutableMessage, uuid: Option<Id>, randomAddress: Option<Id>): RoutableMessage {
      message.(uuid := uuid, from := ToAddress(KeyFor(message.to.GetDomain(), uuid, randomAddress).address))
    }

    /** A new receiver for the request with this identifier, sent at this time. */
    twostate predicate Sent(new recv: Receiver, k: ReceiverKey, id: Option<bytes>, now: Time)
      reads recv, recv.antireplay
    {
      && fresh(recv) && fresh(recv.antireplay) && recv.Valid()
      && recv.key == k && recv.requestID == id && recv.requestSentAt == now
      && recv.queue == [] && recv.history == [] && recv.antireplay.accepted == {}
    }

    /** The rest of Send, once the message is authorised. */
    method Post(r: Request, m: RoutableMessage, now: Time, marshalFails: bool,
                transmissions: seq<Retry.Transmission>)
      returns (recv: Receiver?, error: Option<GoError>, crashed: bool)
      requires Valid()
      modifies this`handlers, this`requests, this`closed
      ensures old(requests) <= requests && (recv != null ==> Opened(recv))
      ensures Valid() && (recv != null) == (error.None? && !crashed) && crashed == HasShortTag(m)
      ensures !HasShortTag(m) ==>
                error == if marshalFails then Some(MARSHAL_FAILED) else Retry.Transmit(transmissions).0
      ensures recv != null <==> !HasShortTag(m) && !marshalFails && Retry.Transmit(transmissions).0.None?
      ensures recv != null ==>
                Sent(recv, RequestKey(address, r), RequestID(m), now) && handlers == old(handlers)[recv.key := recv]
      ensures recv == null ==>
                var k := RequestKey(address, r);
                if HasShortTag(m) then handlers == old(handlers)
                else if marshalFails then k in handlers && fresh(handlers[k])
                    && handlers == old(handlers)[k := handlers[k]]
                else handlers == old(handlers) - {k}
    {
      if HasShortTag(m) {
        return null, None, true;
      }
      crashed := false;
      var resp := CreateHandler(r, RequestID(m), now);
      if marshalFails {
        return null, Some(MARSHAL_FAILED), false;
      }
      var sent, executions := Retry.TransmitLoop(transmissions);
      if sent.Some? {
        CloseHandler(resp);
        return null, sent, false;
      }
      recv, error := resp, None;
    }

    // ---- receiving ----

    /** The first part of process. */
    method Lookup(m: RoutableMessage) returns (handler: Receiver?)
      requires Valid()
      ensures handler != null <==> RoutingKey(m).Some? && RoutingKey(m).value in handlers
      ensures handler != null ==> handler == handlers[RoutingKey(m).value] && handler.key == RoutingKey(m).value
    {
      var k := RoutingKey(m);
      if k.None? || k.value !in handlers {
        return null;
      }
      handler := handlers[k.value];
    }

    /** Whether the session of the request's domain gets to see the message. */
    predicate ConsidersHello(m: RoutableMessage, handler: Receiver, now: Time)
      reads this
    {
      && m.payload.EncodedSessionInfo? && key.Some? && !handler.Expired(now, maxLatency)
      && m.signature.SessionInfoTag? && m.signature.infoTag.Some?
      && handler.key.domain in sessions
    }

    function HelloOf(m: RoutableMessage, generatedAt: Time, later: Time): Hello
      requires m.payload.EncodedSessionInfo? && m.signature.SessionInfoTag? && m.signature.infoTag.Some?
    {
      Hello(m.requestUuid, m.payload.info, m.signature.infoTag.value, generatedAt, later)
    }

    /** checkForSessionUpdate: only the session of the request's domain can change, and only
        while the request is recent enough. */
    method CheckForSessionUpdate(m: RoutableMessage, handler: Receiver, now: Time, generatedAt: Time, later: Time)
      requires Valid()
      modifies everSession
      ensures Valid()
      ensures forall s | s in everSession && old(s.ready) :: s.ready
      ensures !ConsidersHello(m, handler, now) ==> forall s | s in everSession :: unchanged(s)
      ensures ConsidersHello(m, handler, now) ==>
                forall s | s in everSession && s != sessions[handler.key.domain] :: unchanged(s)
      ensures ConsidersHello(m, handler, now) ==>
                sessions[handler.key.domain].ctx
                == Hear(key.value, vin, old(sessions[handler.key.domain].ctx), HelloOf(m, generatedAt, later)).0
    {
      if !m.payload.EncodedSessionInfo? || key.None? || handler.Expired(now, maxLatency) {
        return;
      }
      if !m.signature.SessionInfoTag? || m.signature.infoTag.None? || handler.key.domain !in sessions {
        return;
      }
      var error := sessions[handler.key.domain].ProcessHello(HelloOf(m, generatedAt, later));
    }

    /** decrypt. */
    method Decrypt(m: RoutableMessage, handler: Receiver) returns (r: ProcessResult, response: Response)
      requires Valid() && handler.Valid()
      modifies handler.antireplay
      ensures Valid() && handler.Valid()
      ensures !m.signature.GcmResponse? ==> r.Queued? && response == Response(m, None)
      ensures m.signature.GcmResponse? && handler.key.domain !in sessions ==> r.Undecryptable?
      ensures m.signature.GcmResponse? && handler.key.domain in sessions ==>
                if sessions[handler.key.domain].ctx.None? then r.Crash?
                else
                  match S.Decrypt(sessions[handler.key.domain].ctx.value, m, handler.requestID)
                  case (_, Err(_)) => r.Undecryptable?
                  case (plain, Ok(c)) =>
                    && r == (if Fresh(old(handler.antireplay.accepted), c) then Queued else Replay)
                    && (r.Queued? ==> response == Response(plain, Some(c)))
      ensures handler.antireplay.accepted
              == old(handler.antireplay.accepted)
                 + if r.Queued? && response.counter.Some? then {response.counter.value} else {}
      ensures response.counter.Some? && r.Queued? ==> response.counter !in handler.Counters()
    {
      r, response := Queued, Response(m, None);
      if !m.signature.GcmResponse? {
        return;
      }
      if handler.key.domain !in sessions {
        return Undecryptable, response;
      }
      var d := sessions[handler.key.domain].Decrypt(m, handler.requestID, handler.antireplay);
      match d {
        case NoSigner => return Crash, response;
        case Failed(_) => return Undecryptable, response;
        case Replayed => return Replay, response;
        case Decrypted(plain, c) => response := Response(plain, Some(c));
      }
    }

    /** The rest of process after the session update: decryption, replay check and delivery
        to the handler that was looked up, which may have been closed since. It ends in a
        nil dereference exactly for an encrypted response on a session without Signer. */
    method Deliver(m: RoutableMessage, handler: Receiver) returns (r: ProcessResult)
      requires Valid() && handler.Valid()
      modifies handler, handler.antireplay
      ensures Valid() && handler.Valid()
      ensures m.signature.GcmResponse? && handler.key.domain !in sessions ==> r.Undecryptable?
      ensures r.Crash?
              <==> && m.signature.GcmResponse? && handler.key.domain in sessions
                   && sessions[handler.key.domain].ctx.None?
      ensures !m.signature.GcmResponse? ==> 
                r == old(handler.Put()) && handler.Has(old(handler.queue), old(handler.history), r, Response(m, None))
      ensures m.signature.GcmResponse? && !r.Crash? && handler.key.domain in sessions ==>
                match S.Decrypt(sessions[handler.key.domain].ctx.value, m, handler.requestID)
                case (_, Err(_)) => r.Undecryptable?
                case (plain, Ok(c)) =>
                  && r == (if Fresh(old(handler.antireplay.accepted), c) then old(handler.Put()) else Replay)
                  && handler.Has(old(handler.queue), old(handler.history), r, Response(plain, Some(c)))
      ensures !r.Queued? ==> handler.queue == old(handler.queue) && handler.history == old(handler.history)
    {
      var response;
      r, response := Decrypt(m, handler);
      if r.Queued? {
        var queued := handler.Enqueue(response.message, response.counter);
        if !queued {
          r := QueueFull;
        }
      }
    }

    // ---- sessions ----

    /** The Signers of the sessions that have one. */
    ghost function Signers(): map<int, S.SignerState>
      reads this, sessions.Values
    {
      map d | d in sessions && sessions[d].ctx.Some? :: sessions[d].ctx.value
    }

    /** A range over the table: every domain once, in any order. */
    predicate Ranges(domains: seq<int>)
      reads this
    {
      && (forall d | d in domains :: d in sessions) && (forall d | d in sessions :: d in domains)
      && (forall i, j | 0 <= i < j < |domains| :: domains[i] != domains[j])
    }

    /** Cache, visiting the sessions in the order of `domains`. */
    method Cache(domains: seq<int>, times: seq<Readings>) returns (entries: seq<CacheEntry>)
      requires Valid() && |times| == |domains| && Ranges(domains)
      ensures entries == CacheOf(Signers(), domains, times)
    {
      entries := [];
      var i := 0;
      while i < |domains|
        invariant 0 <= i <= |domains|
        invariant entries == CacheOf(Signers(), domains[..i], times[..i])
      {
        var d := domains[i];
        assert d in domains;
        var info := sessions[d].Export(times[i].0);
        if info.Some? {
          entries := entries + [CacheEntry(times[i].1, d, info.value)];
        }
        assert domains[..i + 1][..i] == domains[..i] && times[..i + 1][..i] == times[..i];
        i := i + 1;
      }
      assert domains[..i] == domains && times[..i] == times;
    }

    /** What Cache returns can always be loaded again, from memory or after having been
        stored, and brings back every session that had a Signer and no other: with its
        counter, epoch and keys, and a clock taken from its entry. */
    lemma CacheRestoresEverySession(domains: seq<int>, times: seq<Readings>, stored: bool, now: Time)
      requires Valid() && key.Some? && key.value.Lawful()
      requires |times| == |domains| && Ranges(domains)
      ensures var entries := CacheOf(Signers(), domains, times);
              var loaded := LoadOf(key.value, vin, if stored then Store(entries) else entries, now);
              && loaded.Some? && loaded.value.Keys == Signers().Keys
              && Restored(loaded.value, Signers(), domains, if stored then StoredReadings(times) else times)
    {
      forall d | d in Signers() ensures Restorable(key.value, vin, Signers()[d]) {
        assert sessions[d] in everSession;
      }
      StoreIsCache(Signers(), domains, times);
      var readings := if stored then StoredReadings(times) else times;
      CacheRoundTrip(key.value, vin, Signers(), domains, readings, now);
      var loaded := LoadOf(key.value, vin, CacheOf(Signers(), domains, readings), now).value;
      assert forall d :: d in loaded.Keys <==> d in Signers().Keys;
    }

    /** Sessions that are ready and belong to this dispatcher. */
    ghost predicate Installable(loaded: map<int, Session>)
      reads loaded.Values
    {
      && (forall s | s in loaded.Values :: s.Valid() && !s.locked && s.ready && s.key == key && s.vin == vin)
      && (forall d, e | d in loaded && e in loaded && d != e :: loaded[d] != loaded[e])
    }

    static ghost predicate SignersOf(loaded: map<int, Session>, signers: Signers)
      reads loaded.Values
    {
      loaded.Keys == signers.Keys && forall d | d in loaded :: loaded[d].ctx == Some(signers[d])
    }

    /** The loop of LoadCache. */
    method Import(entries: seq<CacheEntry>, now: Time)
      returns (loaded: map<int, Session>, ok: bool, ghost signers: Signers)
      requires key.Some?
      ensures Installable(loaded) && SignersOf(loaded, signers) && fresh(loaded.Values)
      ensures LoadOf(key.value, vin, entries, now) == if ok then Some(signers) else None
    {
      loaded, signers := map[], map[];
      var i := 0;
      while i < |entries|
        invariant 0 <= i <= |entries|
        invariant Installable(loaded) && SignersOf(loaded, signers) && fresh(loaded.Values)
        invariant LoadOf(key.value, vin, entries[..i], now) == Some(signers)
      {
        var e := entries[i];
        var s := new Session.FromCache(key.value, vin, e.sessionInfo, e.createdAt, now);
        assert entries[..i + 1][..i] == entries[..i];
        if s.ctx.None? {
          OneBadEntrySpoilsAll(key.value, vin, entries, now);
          assert e in entries;
          return loaded, false, signers;
        }
        assert loaded[e.domain := s].Values <= loaded.Values + {s};
        loaded, signers := loaded[e.domain := s], signers[e.domain := s.ctx.value];
        i := i + 1;
      }
      assert entries[..i] == entries;
      ok := true;
    }

    /** LoadCache: either every entry can be imported, and then the table holds exactly
        their sessions, all of them ready, or it stays as it is. Without a private key an
        entry that decodes is imported with a nil key. */
    method LoadCache(entries: seq<CacheEntry>, now: Time) returns (r: LoadResult)
      requires Valid()
      modifies this`sessions, this`everSession
      ensures Valid() && old(everSession) <= everSession && fresh(everSession - old(everSession))
      ensures !r.Loaded? ==> sessions == old(sessions)
      ensures r.LoadCrash?
              <==> && key.None? && entries != [] && |vin| <= 255
                   && codec.unmarshal(entries[0].sessionInfo).Some?
      ensures r.Loaded? <==> if key.None? then entries == [] else LoadOf(key.value, vin, entries, now).Some?
      ensures r.Loaded? && key.Some? ==> SignersOf(sessions, LoadOf(key.value, vin, entries, now).value)
      ensures r.Loaded? ==> fresh(sessions.Values) && forall s | s in sessions.Values :: s.ready
    {
      if key.None? {
        if entries != [] {
          return if codec.unmarshal(entries[0].sessionInfo).None? || |vin| > 255 then InvalidCache else LoadCrash;
        }
        sessions := map[];
        return Loaded;
      }
      var loaded, ok, signers := Import(entries, now);
      if !ok {
        return InvalidCache;
      }
      sessions := loaded;
      everSession := everSession + loaded.Values;
      r := Loaded;
    }

    /** The first part of StartSession. */
    method OpenSession(domain: int) returns (s: Session, usable: bool)
      requires Valid()
      modifies this`sessions, this`everSession
      ensures Valid() && s in everSession && domain in sessions && sessions[domain] == s
      ensures sessions == old(sessions)[domain := s]
      ensures everSession == old(everSession) + {s} && fresh(everSession - old(everSession))
      ensures domain in old(sessions) ==> s == old(sessions)[domain]
      ensures domain !in old(sessions) ==> fresh(s) && !s.ready
      ensures usable == s.ready
    {
      if domain in sessions {
        s := sessions[domain];
      } else {
        s := new Session(key, vin);
        sessions := sessions[domain := s];
        everSession := everSession + {s};
      }
      usable := s.ctx.Some?;
    }

    /** What other goroutines do to the sessions meanwhile. */
    method Interfere(acts: seq<Act>)
      requires Valid() && key.Some?
      modifies this`sessions, this`everSession, everSession
      ensures Valid() && old(everSession) <= everSession && fresh(everSession - old(everSession))
      ensures forall s | s in old(everSession) && old(s.ready) :: s.ready
      ensures NoLoads(acts) ==>
                && sessions == old(sessions)
                && forall d | d in sessions :: sessions[d].ctx == HearAll(key.value, vin, old(sessions[d].ctx), d, acts)
    {
      var i := 0;
      while i < |acts|
        invariant 0 <= i <= |acts|
        invariant Valid() && old(everSession) <= everSession && fresh(everSession - old(everSession))
        invariant forall s | s in old(everSession) && old(s.ready) :: s.ready
        invariant NoLoads(acts) ==>
                    && sessions == old(sessions)
                    && forall d | d in sessions ::
                         sessions[d].ctx == HearAll(key.value, vin, old(sessions[d].ctx), d, acts[..i])
      {
        assert acts[..i + 1][..i] == acts[..i];
        match acts[i] {
          case Hears(domain, hello) =>
            if domain in sessions {
              var error := sessions[domain].ProcessHello(hello);
            }
          case Loads(entries, now) =>
            assert acts[i] in acts;
            var r := LoadCache(entries, now);
        }
        i := i + 1;
      }
      assert acts[..i] == acts;
    }

    /** tryStartSession. The select picks the ready signal only if it has been closed; a
        pick that is not possible stands for the timer. */
    method TryStartSession(s: Session, domain: int, h: Handshake) returns (retry: bool, error: Option<GoError>)
      requires Valid() && s in everSession
      modifies this`handlers, this`requests, this`closed, this`sessions, this`everSession, everSession
      ensures Valid() && old(everSession) <= everSession && fresh(everSession - old(everSession))
      ensures old(s.ready) ==> s.ready
      ensures NoLoads(h.acts) && NoLoads(h.acts2) ==> sessions == old(sessions)
      ensures Returned(listening, key.Some?, s.ready, domain, h, retry, error)
      ensures KeyFor(domain, h.uuid, h.randomAddress) !in old(handlers) ==> handlers == old(handlers)
    {
      ghost var before := handlers;
      var recv: Receiver?;
      recv, error := RequestSessionInfo(domain, h);
      retry := false;
      if recv != null {
        AddAndRemove(before, recv);
        retry, error := AwaitAndClose(s, domain, recv, h);
      }
    }

    /** tryStartSession after the request has been sent. */
    method AwaitAndClose(s: Session, domain: int, recv: Receiver, h: Handshake)
      returns (retry: bool, error: Option<GoError>)
      requires Valid() && Asks(listening, key.Some?, domain, h) && s in everSession && Opened(recv)
      modifies this`handlers, this`closed, this`sessions, this`everSession, everSession
      ensures Valid() && old(everSession) <= everSession && fresh(everSession - old(everSession))
      ensures old(s.ready) ==> s.ready
      ensures NoLoads(h.acts) && NoLoads(h.acts2) ==> sessions == old(sessions)
      ensures handlers == old(handlers) - {recv.key}
      ensures Returned(listening, key.Some?, s.ready, domain, h, retry, error)
    {
      retry, error := Await(s, domain, h);
      CloseHandler(recv);
    }

    /** RequestSessionInfo. */
    method RequestSessionInfo(domain: int, h: Handshake) returns (recv: Receiver?, error: Option<GoError>)
      requires Valid()
      modifies this`handlers, this`requests, this`closed
      ensures recv != null ==> Opened(recv)
      ensures Valid() && (recv != null) == error.None? && (recv != null <==> Asks(listening, key.Some?, domain, h))
      ensures var k := KeyFor(domain, h.uuid, h.randomAddress);
              if recv != null then recv.key == k && handlers == old(handlers)[k := recv]
              else handlers == old(handlers) || handlers == old(handlers) - {k}
    {
      if key.None? {
        return null, Some(Plain("private key required"));
      }
      var request := SessionInfoRequestTo(domain, publicKey);
      var crashed, handed;
      recv, error, crashed, handed := Send(request, AuthNone, 0, h.uuid, h.randomAddress, [], h.now, false,
                                           h.transmissions);
    }

    /** The two selects of tryStartSession. */
    method Await(s: Session, domain: int, h: Handshake) returns (retry: bool, error: Option<GoError>)
      requires Valid() && key.Some? && s in everSession
      modifies this`sessions, this`everSession, everSession
      ensures Valid() && old(everSession) <= everSession && fresh(everSession - old(everSession))
      ensures old(s.ready) ==> s.ready
      ensures NoLoads(h.acts) && NoLoads(h.acts2) ==> sessions == old(sessions)
      ensures match Decisive(h)
              case PickReady => error.None? && retry == !s.ready
              case PickContext => !retry && error == Some(CONTEXT_DONE)
              case PickTimer => retry && error.None?
              case PickReply(failure) => !retry && error == failure
      ensures NoLoads(h.acts) && NoLoads(h.acts2) && old(domain in sessions && sessions[domain] == s) ==>
                s.ctx == HearAll(key.value, vin, old(s.ctx), domain, ActsBefore(h))
    {
      Interfere(h.acts);
      var pick := h.pick;
      if pick.PickReply? && pick.failure.None? {
        Interfere(h.acts2);
        HearAllAppend(key.value, vin, old(s.ctx), domain, h.acts, h.acts2);
        pick := if h.pick2.PickReply? then PickTimer else h.pick2;
      }
      match pick
      case PickReady => return !s.signalled, None;
      case PickContext => return false, Some(CONTEXT_DONE);
      case PickTimer => return true, None;
      case PickReply(failure) => return false, failure;
    }

    /** No pass sees the session table replaced. */
    static predicate Undisturbed(passes: seq<Handshake>) {
      forall h | h in passes :: NoLoads(h.acts) && NoLoads(h.acts2)
    }

    /** The draws of the passes hit no pending request. */
    predicate NewRequests(domain: int, passes: seq<Handshake>)
      reads this
    {
      forall h | h in passes :: KeyFor(domain, h.uuid, h.randomAddress) !in handlers
    }

    /** The loop of StartSession. `made` is the number of passes. */
    method AwaitSession(s: Session, domain: int, passes: seq<Handshake>)
      returns (error: Option<GoError>, ghost made: nat)
      requires Valid() && s in everSession
      modifies this`handlers, this`requests, this`closed, this`sessions, this`everSession, everSession
      ensures Valid() && old(everSession) <= everSession && fresh(everSession - old(everSession))
      ensures error.None? ==> s.ready
      ensures Settled(listening, key.Some?, s.ready, domain, passes, made, error)
      ensures Undisturbed(passes) ==> sessions == old(sessions)
      ensures old(NewRequests(domain, passes)) ==> handlers == old(handlers)
    {
      made := 0;
      error := Some(CONTEXT_DONE);
      var i, retry := 0, true;
      ghost var ready := s.ready;
      while retry && i < |passes|
        invariant 0 <= i <= |passes| && made == i && ready == s.ready
        invariant Valid() && old(everSession) <= everSession && fresh(everSession - old(everSession))
        invariant Progress(listening, key.Some?, ready, domain, passes, made, retry, error)
        invariant Undisturbed(passes) ==> sessions == old(sessions)
        invariant old(NewRequests(domain, passes)) ==> handlers == old(handlers)
      {
        assert passes[i] in passes;
        var outcome;
        retry, outcome := TryStartSession(s, domain, passes[i]);
        PassMade(listening, key.Some?, ready, s.ready, domain, passes, made, error, retry, outcome);
        i, made, ready := i + 1, made + 1, s.ready;
        error := if retry then Some(CONTEXT_DONE) else outcome;
      }
      LoopEnds(listening, key.Some?, ready, domain, passes, made, retry, error);
    }

    /** StartSession: success means that its session has a usable Signer, however many
        hellos failed and whichever select won; and a pass succeeds exactly if its request
        went out and its last select picks the ready signal while the session is ready. No
        handler is left behind. The session is the one found or put in the table at the
        start, and still there unless LoadCache has replaced the table meanwhile. A script
        that runs out stands for the end of the context. */
    method StartSession(domain: int, passes: seq<Handshake>)
      returns (error: Option<GoError>, ghost s: Session, ghost made: nat)
      requires Valid()
      modifies this`handlers, this`requests, this`closed, this`sessions, this`everSession, everSession
      ensures Valid() && s in everSession
      ensures if domain in old(sessions) then s == old(sessions)[domain] else fresh(s)
      ensures error.None? ==> s.ready && s.ctx.Some?
      ensures Undisturbed(passes) ==> sessions == old(sessions)[domain := s]
      ensures if domain in old(sessions) && old(sessions[domain].ready) then error.None? && sessions == old(sessions)
              else Settled(listening, key.Some?, s.ready, domain, passes, made, error)
      ensures old(NewRequests(domain, passes)) ==> handlers == old(handlers)
    {
      var session, usable := OpenSession(domain);
      s := session;
      if usable {
        return None, s, 0;
      }
      error, made := AwaitSession(session, domain, passes);
    }
  }

  /** The nil dereference is reached: StartSession has put a session without Signer into the
      table and waits for its answer, and what comes is an encrypted response. */
  method ResponseBeforeHandshake(key: Option<ClientKey>, codec: Codec, vin: bytes, address: Id, r: Request,
                                 m: RoutableMessage, now: Time) returns (result: ProcessResult)
    requires r.uuid != ZERO_ID && Answers(m, address, r) && m.signature.GcmResponse?
    ensures result.Crash?
  {
    var d := new Dispatcher(key, codec, [], vin, address, 0);
    var s, usable := d.OpenSession(r.domain);
    var recv := d.CreateHandler(r, None, now);
    RoutedByRequest(m, address, r);
    var handler := d.Lookup(m);
    result := d.Deliver(m, handler);
  }

  /** The stuck session is reached: whatever the message, one call with an unknown method
      on a session loaded from the cache. */
  method UnknownMethodSticks(key: ClientKey, codec: Codec, vin: bytes, address: Id, e: CacheEntry, now: Time,
                             m: RoutableMessage, pass: Pass) returns (locked: bool)
    requires S.ImportSessionInfo(key, Some(vin), e.sessionInfo, e.createdAt, now).Ok? && pass.picked.Ready?
    ensures locked
  {
    var d := new Dispatcher(Some(key), codec, [], vin, address, 0);
    OneBadEntrySpoilsAll(key, vin, [e], now);
    var r := d.LoadCache([e], now);
    assert LoadOf(key, vin, [e][..0], now) == Some(map[]);
    var m', error := d.AuthorizeFor(e.domain, m, AuthUnknown, 0, [pass]);
    locked := d.sessions[e.domain].locked;
  }
}
