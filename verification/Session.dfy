/** internal/dispatcher/session.go: one session with a vehicle subsystem.

    The session owns its Signer; the model keeps the Signer's state in the session. Each
    method runs with the session's lock held, except that Authorize waits without it. */
module Session {
  import opened Primitives
  import opened Wire
  import opened GoTime
  import opened Peer
  import opened ReplayWindow
  import S = SignerSpec

  datatype AuthMethod = AuthNone | AuthGcm | AuthHmac | AuthUnknown

  /** Session info that reaches the session, with the readings of the clock. */
  datatype Hello = Hello(challenge: Option<bytes>, info: bytes, tag: bytes, generatedAt: Time, now: Time)

  /** One pass of the loop in authorize: either the ready signal or the end of the context
      is picked. Another goroutine may deliver session info before. */
  datatype Pass = Pass(hello: Option<Hello>, picked: Pick, now: Time, nonce: Option<bytes>)
  datatype Pick = Ready | ContextEnded

  datatype AuthorizeResult =
    | Authorized(message: RoutableMessage)
    | GaveUp(message: RoutableMessage)
    | UnknownMethod

  datatype DecryptResult =
    | Decrypted(message: RoutableMessage, counter: u32)
    | Replayed
    | Failed(error: AuthError)
    | NoSigner                     // the source dereferences a nil Signer

  /** What one pass does to the Signer and the message. */
  function AuthorizeOnce(s: S.SignerState, m: RoutableMessage, auth: AuthMethod, lifetime: int, now: Time,
                         nonce: Option<bytes>)
    : (S.SignerState, RoutableMessage, Option<AuthError>)
  {
    match auth
    case AuthGcm => S.Encrypt(s, m, lifetime, now, nonce)
    case AuthHmac => S.AuthorizeHmac(s, m, lifetime, now)
    case _ => (s, m, None)
  }

  /** What processHello does to the Signer, if there is one, and its error. */
  function Hear(key: ClientKey, vin: bytes, ctx: Option<S.SignerState>, h: Hello)
    : (Option<S.SignerState>, Option<AuthError>)
  {
    match ctx
    case None =>
      (match S.NewAuthenticatedSigner(key, Some(vin), h.challenge, h.info, h.tag, h.generatedAt, h.now)
       case Ok(s) => (Some(s), None)
       case Err(e) => (None, Some(e)))
    case Some(s) =>
      var (s', e) := S.UpdateSignedSessionInfo(s, h.challenge, h.info, h.tag, h.now);
      (Some(s'), e)
  }

  /** Without a private key, session info is discarded before it gets here. */
  function HearIfAny(key: Option<ClientKey>, vin: bytes, ctx: Option<S.SignerState>, hello: Option<Hello>)
    : Option<S.SignerState>
  {
    if key.None? || hello.None? then ctx else Hear(key.value, vin, ctx, hello.value).0
  }

  /** authorize: a failed attempt is repeated on the message it left behind. Without a
      Signer the signal cannot be picked, and the pass is spent waiting. A script that runs
      out stands for the end of the context. */
  function AuthorizeLoop(key: Option<ClientKey>, vin: bytes, ctx: Option<S.SignerState>, m: RoutableMessage,
                         auth: AuthMethod, lifetime: int, passes: seq<Pass>): (Option<S.SignerState>, AuthorizeResult)
    decreases |passes|
  {
    if passes == [] then (ctx, GaveUp(m))
    else
      var p := passes[0];
      var heard := HearIfAny(key, vin, ctx, p.hello);
      if p.picked.ContextEnded? then (heard, GaveUp(m))
      else if heard.None? then AuthorizeLoop(key, vin, heard, m, auth, lifetime, passes[1..])
      else if auth.AuthUnknown? then (heard, UnknownMethod)
      else
        var (s', m', e) := AuthorizeOnce(heard.value, m, auth, lifetime, p.now, p.nonce);
        if e.None? then (Some(s'), Authorized(m'))
        else AuthorizeLoop(key, vin, Some(s'), m', auth, lifetime, passes[1..])
  }

  /** Without authentication the message passes unchanged, and the Signer is not used. */
  lemma UnauthenticatedPasses(key: Option<ClientKey>, vin: bytes, s: S.SignerState, m: RoutableMessage, lifetime: int,
                              passes: seq<Pass>)
    requires passes != [] && passes[0].hello.None? && passes[0].picked.Ready?
    ensures AuthorizeLoop(key, vin, Some(s), m, AuthNone, lifetime, passes) == (Some(s), Authorized(m))
  {
  }

  /** Some pass picks the ready signal while there is a Signer, before one ends the context. */
  predicate PicksReady(key: Option<ClientKey>, vin: bytes, ctx: Option<S.SignerState>, passes: seq<Pass>)
    decreases |passes|
  {
    && passes != [] && passes[0].picked.Ready?
    && var heard := HearIfAny(key, vin, ctx, passes[0].hello);
       heard.Some? || PicksReady(key, vin, heard, passes[1..])
  }

  /** Exactly when authorize returns with the lock held: for an unknown method, as soon as
      the ready signal is picked. For a session with a Signer this is the first pass. */
  lemma {:induction false} UnknownMethodExactly(key: Option<ClientKey>, vin: bytes, ctx: Option<S.SignerState>,
                                                m: RoutableMessage, auth: AuthMethod, lifetime: int, passes: seq<Pass>)
    ensures AuthorizeLoop(key, vin, ctx, m, auth, lifetime, passes).1.UnknownMethod?
            <==> auth.AuthUnknown? && PicksReady(key, vin, ctx, passes)
    ensures ctx.Some? ==> (PicksReady(key, vin, ctx, passes) <==> passes != [] && passes[0].picked.Ready?)
    decreases |passes|
  {
    if passes != [] && passes[0].picked.Ready? {
      var heard := HearIfAny(key, vin, ctx, passes[0].hello);
      if heard.None? {
        UnknownMethodExactly(key, vin, heard, m, auth, lifetime, passes[1..]);
      } else if !auth.AuthUnknown? {
        var (s', m', e) := AuthorizeOnce(heard.value, m, auth, lifetime, passes[0].now, passes[0].nonce);
        if e.Some? {
          UnknownMethodExactly(key, vin, Some(s'), m', auth, lifetime, passes[1..]);
        }
      }
    }
  }

  /** No attempt of AuthorizeLoop finds the counter exhausted. */
  predicate NoneExhausted(key: Option<ClientKey>, vin: bytes, ctx: Option<S.SignerState>, m: RoutableMessage,
                          auth: AuthMethod, lifetime: int, passes: seq<Pass>)
    decreases |passes|
  {
    if passes == [] || passes[0].picked.ContextEnded? then true
    else
      var heard := HearIfAny(key, vin, ctx, passes[0].hello);
      if heard.None? then NoneExhausted(key, vin, heard, m, auth, lifetime, passes[1..])
      else
        var (s', m', e) := AuthorizeOnce(heard.value, m, auth, lifetime, passes[0].now, passes[0].nonce);
        && heard.value.counter != MAX_U32
        && (e.None? || NoneExhausted(key, vin, Some(s'), m', auth, lifetime, passes[1..]))
  }

  lemma HearingKeepsCounter(key: Option<ClientKey>, vin: bytes, s: S.SignerState, hello: Option<Hello>)
    ensures var heard := HearIfAny(key, vin, Some(s), hello); heard.Some? && s.counter <= heard.value.counter
  {
  }

  /** m carries the Signer's latest counter and its epoch. */
  predicate CarriesCounter(m: RoutableMessage, auth: AuthMethod, s: S.SignerState) {
    match m.signature
    case Gcm(e, _, c, _, _) => auth.AuthGcm? && c == s.counter && e == Some(s.epoch)
    case Hmac(e, c, _, _) => auth.AuthHmac? && c == s.counter && e == Some(s.epoch)
    case _ => false
  }

  lemma AttemptUsesNewCounter(s: S.SignerState, m: RoutableMessage, auth: AuthMethod, lifetime: int, now: Time,
                              nonce: Option<bytes>)
    requires auth.AuthGcm? || (auth.AuthHmac? && s.counter != MAX_U32)
    ensures var (s', m', e) := AuthorizeOnce(s, m, auth, lifetime, now, nonce);
            s.counter <= s'.counter && (e.None? ==> s.counter < s'.counter && CarriesCounter(m', auth, s'))
  {
  }

  /** However many attempts fail first, and whatever session info arrives in between, the
      counter never goes down, and an authorised message carries the Signer's latest
      counter, larger than any before, and its epoch. HMAC needs the guard that Encrypt
      has. */
  lemma {:induction false} AuthorizedCounterIsNew(
    key: Option<ClientKey>, vin: bytes, s: S.SignerState, m: RoutableMessage, auth: AuthMethod, lifetime: int,
    passes: seq<Pass>)
    requires auth.AuthGcm? || (auth.AuthHmac? && NoneExhausted(key, vin, Some(s), m, auth, lifetime, passes))
    ensures var (s', r) := AuthorizeLoop(key, vin, Some(s), m, auth, lifetime, passes);
            && s'.Some? && s.counter <= s'.value.counter
            && (r.Authorized? ==> s.counter < s'.value.counter && CarriesCounter(r.message, auth, s'.value))
    decreases |passes|
  {
    if passes != [] {
      var p := passes[0];
      HearingKeepsCounter(key, vin, s, p.hello);
      if p.picked.Ready? {
        var heard := HearIfAny(key, vin, Some(s), p.hello).value;
        AttemptUsesNewCounter(heard, m, auth, lifetime, p.now, p.nonce);
        var (s', m', e) := AuthorizeOnce(heard, m, auth, lifetime, p.now, p.nonce);
        if e.Some? {
          AuthorizedCounterIsNew(key, vin, s', m', auth, lifetime, passes[1..]);
        }
      }
    }
  }

  class Session {
    const key: Option<ClientKey>
    const vin: bytes
    var locked: bool
    var ctx: Option<S.SignerState>
    var ready: bool
    var signalled: bool               // readySignal has been closed
    ghost var closes: nat             // how often it has been closed

    /** The life cycle of a session: signer present, ready, and signal closed go together,
        and the signal is closed at most once. */
    ghost predicate Valid()
      reads this
    {
      && (ctx.Some? <==> ready) && (ready <==> signalled) && closes == (if signalled then 1 else 0)
      && (ctx.Some? ==> key.Some? && Belongs(ctx.value))
    }

    /** The Signer was made from this session's key and vehicle name. */
    ghost predicate Belongs(s: S.SignerState)
      requires key.Some?
    {
      s.name == Some(vin) && |vin| <= 255 && key.value.exchange(s.verifierPublic) == Some(s.suite)
    }

    constructor (key: Option<ClientKey>, vin: bytes)
      ensures Valid() && !ready && !locked && this.key == key && this.vin == vin
    {
      this.key, this.vin := key, vin;
      locked, ctx, ready, signalled := false, None, false, false;
      closes := 0;
    }

    /** A session for an entry of the cache. It becomes valid only if the import succeeds,
        and LoadCache discards it otherwise. */
    constructor FromCache(key: ClientKey, vin: bytes, encodedInfo: bytes, createdAt: Time, now: Time)
      ensures this.key == Some(key) && this.vin == vin && !locked
      ensures match S.ImportSessionInfo(key, Some(vin), encodedInfo, createdAt, now)
              case Ok(s) => Valid() && ctx == Some(s)
              case Err(_) => ctx.None? && ready
    {
      this.key, this.vin, locked := Some(key), vin, false;
      signalled, closes := true, 1;
      ready := true;
      var imported := S.ImportSessionInfo(key, Some(vin), encodedInfo, createdAt, now);
      ctx := if imported.Ok? then Some(imported.value) else None;
    }

    /** processHello: adopts session info, creating the Signer if there is none. A failed
        hello changes nothing; a session never becomes unready and keeps its Signer. */
    method ProcessHello(h: Hello) returns (error: Option<AuthError>)
      requires Valid() && !locked && key.Some?
      modifies this
      ensures Valid() && !locked
      ensures (ctx, error) == Hear(key.value, vin, old(ctx), h)
      ensures error.Some? ==> ctx == old(ctx) && ready == old(ready)
      ensures error.None? ==> ready
      ensures old(ready) ==> ready && closes == old(closes)
    {
      locked := true;
      error := None;
      if ctx.None? {
        var made := S.NewAuthenticatedSigner(key.value, Some(vin), h.challenge, h.info, h.tag, h.generatedAt, h.now);
        if made.Err? {
          locked := false;
          return Some(made.error);
        }
        ctx := Some(made.value);
      } else {
        var r := S.UpdateSignedSessionInfo(ctx.value, h.challenge, h.info, h.tag, h.now);
        ctx, error := Some(r.0), r.1;
      }
      if error.None? && !ready {
        ready := true;
        signalled := true;
        closes := closes + 1;
      }
      locked := false;
    }

    /** authorize, for a script of what each select picks and of the session info that
        arrives before. For an unknown method the source returns without releasing the
        lock. */
    method Authorize(message: RoutableMessage, auth: AuthMethod, lifetime: int, passes: seq<Pass>)
      returns (r: AuthorizeResult)
      requires Valid() && !locked
      modifies this
      ensures Valid() && (old(ready) ==> ready && closes == old(closes))
      ensures locked <==> auth.AuthUnknown? && PicksReady(key, vin, old(ctx), passes)
      ensures r.UnknownMethod? <==> locked
      ensures (ctx, r) == AuthorizeLoop(key, vin, old(ctx), message, auth, lifetime, passes)
    {
      UnknownMethodExactly(key, vin, ctx, message, auth, lifetime, passes);
      var m := message;
      var i := 0;
      while i < |passes|
        invariant 0 <= i <= |passes|
        invariant Valid() && !locked && (old(ready) ==> ready && closes == old(closes))
        invariant AuthorizeLoop(key, vin, ctx, m, auth, lifetime, passes[i..])
                  == AuthorizeLoop(key, vin, old(ctx), message, auth, lifetime, passes)
        decreases |passes| - i
      {
        var pass := passes[i];
        ghost var before := ctx;
        if key.Some? && pass.hello.Some? {
          var failure := ProcessHello(pass.hello.value);
        }
        assert ctx == HearIfAny(key, vin, before, pass.hello);
        i := i + 1;
        if pass.picked.ContextEnded? {
          return GaveUp(m);
        }
        if signalled {
          locked := true;
          var error: Option<AuthError> := None;
          var attempted := false;
          if ctx.Some? && ready {
            if auth.AuthUnknown? {
              return UnknownMethod;
            }
            m, error := Attempt(m, auth, lifetime, pass.now, pass.nonce);
            attempted := true;
          }
          locked := false;
          if error.None? && attempted {
            return Authorized(m);
          }
        }
      }
      r := GaveUp(m);
    }

    /** The switch in authorize. */
    method Attempt(message: RoutableMessage, auth: AuthMethod, lifetime: int, now: Time, nonce: Option<bytes>)
      returns (m: RoutableMessage, error: Option<AuthError>)
      requires Valid() && ctx.Some? && !auth.AuthUnknown?
      modifies this`ctx
      ensures Valid() && ctx.Some?
      ensures (ctx.value, m, error) == AuthorizeOnce(old(ctx).value, message, auth, lifetime, now, nonce)
    {
      var attempt := AuthorizeOnce(ctx.value, message, auth, lifetime, now, nonce);
      ctx, m, error := Some(attempt.0), attempt.1, attempt.2;
    }

    /** decrypt: the response counter has to be new to the request's sliding window. */
    method Decrypt(message: RoutableMessage, requestID: Option<bytes>, window: SlidingWindow) returns (r: DecryptResult)
      requires !locked && window.Valid()
      modifies window
      ensures window.Valid() && window.owner == old(window.owner)
      ensures ctx.None? ==> r.NoSigner?
      ensures ctx.Some? ==>
                match S.Decrypt(ctx.value, message, requestID)
                case (_, Err(e)) => r == Failed(e)
                case (m, Ok(c)) => r == if Fresh(old(window.accepted), c) then Decrypted(m, c) else Replayed
      ensures window.accepted == if r.Decrypted? then old(window.accepted) + {r.counter} else old(window.accepted)
    {
      if ctx.None? {
        return NoSigner;
      }
      var d := S.Decrypt(ctx.value, message, requestID);
      if d.1.Err? {
        return Failed(d.1.error);
      }
      var unseen := window.Update(d.1.value);
      r := if unseen then Decrypted(d.0, d.1.value) else Replayed;
    }

    method Export(now: Time) returns (info: Option<bytes>)
      requires !locked
      ensures info == if ctx.None? then None else Some(ctx.value.suite.codec.marshal(S.ExportedInfo(ctx.value, now)))
    {
      if ctx.None? {
        return None;
      }
      info := Some(ctx.value.suite.codec.marshal(S.ExportedInfo(ctx.value, now)));
    }
  }
}
