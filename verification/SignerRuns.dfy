/** What the Signer promises over whole runs: counters are never issued twice, the clock
    set by session info does not go back within an epoch, the peer's key never changes. */
module SignerRuns {
  import opened Primitives
  import opened Wire
  import opened GoTime
  import opened Peer
  import opened SignerSpec

  datatype Op = Seal(message: RoutableMessage, expiresIn: int, now: Time, nonce: Option<bytes>)
              | Mac(message: RoutableMessage, expiresIn: int, now: Time)
              | Sync(info: SessionInfo, now: Time)

  function Do(s: SignerState, op: Op): SignerState {
    match op
    case Seal(m, x, now, nonce) => Encrypt(s, m, x, now, nonce).0
    case Mac(m, x, now) => AuthorizeHmac(s, m, x, now).0
    case Sync(info, now) => UpdateSessionInfo(s, info, now).0
  }

  function Reach(s: SignerState, ops: seq<Op>): SignerState {
    if ops == [] then s else Do(Reach(s, ops[..|ops| - 1]), ops[|ops| - 1])
  }

  /** The message an operation produces, whether or not it also reports an error. */
  function Produced(s: SignerState, op: Op): Option<RoutableMessage> {
    match op
    case Seal(m, x, now, nonce) => if s.counter == MAX_U32 then None else Some(Encrypt(s, m, x, now, nonce).1)
    case Mac(m, x, now) => Some(AuthorizeHmac(s, m, x, now).1)
    case Sync(_, _) => None
  }

  /** The counter an operation puts into its message. */
  function Issued(s: SignerState, op: Op): Option<u32> {
    match Produced(s, op)
    case None => None
    case Some(m) =>
      match m.signature
      case Gcm(_, _, c, _, _) => Some(c)
      case Hmac(_, c, _, _) => Some(c)
      case _ => None
  }

  /** AuthorizeHmac is not called on an exhausted counter. */
  predicate NoRollover(s: SignerState, op: Op) {
    op.Mac? ==> s.counter != MAX_U32
  }

  /** One operation: the counter never decreases, and an issued counter is larger than
      every earlier one - if and only if there is no rollover. */
  lemma CounterStep(s: SignerState, op: Op)
    ensures Do(s, op).counter >= s.counter <==> NoRollover(s, op)
    ensures !op.Sync? ==> (Issued(s, op).Some? <==> op.Mac? || s.counter != MAX_U32)
    ensures Issued(s, op).Some? ==> Issued(s, op).value == Do(s, op).counter
    ensures Issued(s, op).Some? ==> (Issued(s, op).value > s.counter <==> NoRollover(s, op))
  {
  }

  ghost predicate RunWithoutRollover(s: SignerState, ops: seq<Op>) {
    forall k | 0 <= k < |ops| :: NoRollover(Reach(s, ops[..k]), ops[k])
  }

  lemma {:induction false} CounterGrows(s: SignerState, ops: seq<Op>, i: nat, j: nat)
    requires RunWithoutRollover(s, ops)
    requires i <= j <= |ops|
    ensures Reach(s, ops[..i]).counter <= Reach(s, ops[..j]).counter
  {
    if i < j {
      CounterGrows(s, ops, i, j - 1);
      assert ops[..j][..j - 1] == ops[..j - 1];
      CounterStep(Reach(s, ops[..j - 1]), ops[j - 1]);
    }
  }

  /** Over any interleaving of encryption, HMAC authorisation and resynchronisation, epoch
      changes included, issued counters strictly increase; so no (epoch, counter) pair is
      issued twice. */
  lemma IssuedCountersIncrease(s: SignerState, ops: seq<Op>, i: nat, j: nat)
    requires RunWithoutRollover(s, ops)
    requires i < j < |ops|
    requires Issued(Reach(s, ops[..i]), ops[i]).Some? && Issued(Reach(s, ops[..j]), ops[j]).Some?
    ensures Issued(Reach(s, ops[..i]), ops[i]).value < Issued(Reach(s, ops[..j]), ops[j]).value
  {
    CounterStep(Reach(s, ops[..i]), ops[i]);
    assert ops[..i + 1][..i] == ops[..i];
    CounterGrows(s, ops, i + 1, j);
    CounterStep(Reach(s, ops[..j]), ops[j]);
  }

  lemma MacStep(s: SignerState, m: RoutableMessage, now: Time)
    ensures Do(s, Mac(m, 0, now)) == s.(counter := ToU32(s.counter + 1))
    ensures Issued(s, Mac(m, 0, now)) == Some(ToU32(s.counter + 1))
  {
  }

  /** The guard is needed: a Signer pushed close to the last counter by session info that a
      vehicle can issue reaches the same pair again through AuthorizeHmac. */
  lemma RolloverRepeatsPair(s: SignerState, m: RoutableMessage, now: Time)
    requires s.counter == 0
    ensures var info := SessionInfo(MAX_U32 - 1, s.verifierPublic, s.epoch, s.setTime, 0, INFO_OK);
            var mac := Mac(m, 0, now);
            var s' := Do(Do(Do(Do(s, mac), Sync(info, now)), mac), mac);
            Issued(s, mac) == Issued(s', mac) == Some(1) && s'.epoch == s.epoch
  {
    var info := SessionInfo(MAX_U32 - 1, s.verifierPublic, s.epoch, s.setTime, 0, INFO_OK);
    var s1 := s.(counter := 1);
    var s2 := Do(s1, Sync(info, now));
    assert s.epoch[..EPOCH_ID_LENGTH] == s.epoch;
    MacStep(s, m, now);
    MacStep(s2, m, now);
    MacStep(s2.(counter := MAX_U32), m, now);
    MacStep(s2.(counter := 0), m, now);
  }

  // ---- session info ----

  lemma {:induction false} PeerKeyFixed(s: SignerState, ops: seq<Op>)
    ensures Reach(s, ops).verifierPublic == s.verifierPublic
    ensures Reach(s, ops).name == s.name && Reach(s, ops).suite == s.suite
  {
    if ops != [] {
      PeerKeyFixed(s, ops[..|ops| - 1]);
    }
  }

  /** While the epoch stays the same, setTime goes back only through session info whose
      epoch field does not have the length of an epoch identifier. */
  lemma SetTimeStep(s: SignerState, info: SessionInfo, now: Time)
    requires UpdateSessionInfo(s, info, now).0.epoch == s.epoch
    ensures UpdateSessionInfo(s, info, now).0.setTime >= s.setTime
            <==> |info.epoch| == EPOCH_ID_LENGTH || s.setTime <= info.clockTime || info.publicKey != s.verifierPublic
  {
    if |info.epoch| == EPOCH_ID_LENGTH {
      assert info.epoch[..EPOCH_ID_LENGTH] == info.epoch;
    }
  }

  /** A session info without an epoch leaves the epoch in place and moves setTime back. */
  lemma SetTimeCanGoBack(s: SignerState, now: Time)
    requires s.setTime > 0
    ensures var info := SessionInfo(0, s.verifierPublic, [], 0, 0, INFO_OK);
            var s' := UpdateSessionInfo(s, info, now).0;
            s'.epoch == s.epoch && s'.setTime < s.setTime
  {
    assert [] + s.epoch[0..] == s.epoch;
  }

  predicate WholeEpochs(ops: seq<Op>) {
    forall op | op in ops :: op.Sync? ==> |op.info.epoch| == EPOCH_ID_LENGTH
  }

  /** Over a run that stays in one epoch, setTime never decreases. */
  lemma {:induction false} SetTimeNondecreasing(s: SignerState, ops: seq<Op>)
    requires WholeEpochs(ops)
    requires forall k | 0 <= k <= |ops| :: Reach(s, ops[..k]).epoch == s.epoch
    ensures Reach(s, ops).setTime >= s.setTime
  {
    if ops != [] {
      var before, op := ops[..|ops| - 1], ops[|ops| - 1];
      forall k | 0 <= k <= |before| ensures Reach(s, before[..k]).epoch == s.epoch {
        assert before[..k] == ops[..k];
      }
      SetTimeNondecreasing(s, before);
      assert before[..|before|] == before && ops[..|ops|] == ops;
      if op.Sync? {
        assert op in ops;
        SetTimeStep(Reach(s, before), op.info, op.now);
      }
    }
  }
}
