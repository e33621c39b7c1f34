/** internal/schnorr/sign.go, DeterministicNonce: the generation of a nonce by section 3.2
    of RFC 6979, for a hash as long as the group order. */
module Nonce {
  import opened Primitives

  const SIZE := 32

  /** HMAC-SHA256: key and data to a 32-byte code. */
  type Mac = (bytes, bytes) -> bytes

  /** The pair (K, V) of section 3.2. */
  datatype KV = KV(k: bytes, v: bytes)

  /** bits2octets: the message hash reduced modulo the order. */
  function Octets(messageHash: bytes, q: nat): bytes
    requires q > 0
  {
    BigEndian(FromBigEndian(messageHash) % q, SIZE)
  }

  /** Steps b to g. */
  function Instantiate(mac: Mac, x: bytes, h1: bytes): KV {
    var v0 := seq(SIZE, i => 1);
    var k0 := seq(SIZE, i => 0);
    var k1 := mac(k0, v0 + [0x00] + x + h1);
    var v1 := mac(k1, v0);
    var k2 := mac(k1, v1 + [0x01] + x + h1);
    KV(k2, mac(k2, v1))
  }

  /** The state at the start of round i of step h. */
  function Round(mac: Mac, start: KV, i: nat): KV {
    if i == 0 then start
    else
      var previous := Round(mac, start, i - 1);
      var t := mac(previous.k, previous.v);
      var k := mac(previous.k, t + [0x00]);
      KV(k, mac(k, t))
  }

  /** The candidate T of round i. */
  function Candidate(mac: Mac, start: KV, i: nat): bytes {
    mac(Round(mac, start, i).k, Round(mac, start, i).v)
  }

  predicate InRange(candidate: bytes, q: nat) {
    1 <= FromBigEndian(candidate) <= q - 1
  }

  /** nonce is the first candidate in [1, q - 1]. */
  ghost predicate FirstInRange(mac: Mac, start: KV, q: nat, nonce: bytes) {
    exists i: nat :: nonce == Candidate(mac, start, i) && InRange(nonce, q)
                     && forall j: nat :: j < i ==> !InRange(Candidate(mac, start, j), q)
  }

  lemma FirstInRangeUnique(mac: Mac, start: KV, q: nat, a: bytes, b: bytes)
    requires FirstInRange(mac, start, q, a) && FirstInRange(mac, start, q, b)
    ensures a == b
  {
    var i: nat :| a == Candidate(mac, start, i) && InRange(a, q)
                  && forall j: nat :: j < i ==> !InRange(Candidate(mac, start, j), q);
    var k: nat :| b == Candidate(mac, start, k) && InRange(b, q)
                  && forall j: nat :: j < k ==> !InRange(Candidate(mac, start, j), q);
  }

  /** The source loops for as long as it takes. That it returns at all means that some
      candidate, here number `limit`, is in range; nothing else is assumed. An HMAC
      context is represented by its key. */
  method DeterministicNonce(mac: Mac, q: nat, scalar: bytes, messageHash: bytes, ghost limit: nat)
    returns (nonce: bytes)
    requires q > 0
    requires InRange(Candidate(mac, Instantiate(mac, scalar, Octets(messageHash, q)), limit), q)
    ensures FirstInRange(mac, Instantiate(mac, scalar, Octets(messageHash, q)), q, nonce)
  {
    var k: bytes := seq(SIZE, i => 0);
    var v: bytes := seq(SIZE, i => 1);
    var h1 := BigEndian(FromBigEndian(messageHash) % q, SIZE);
    var h := k;
    k := mac(h, v + [0x00] + scalar + h1);
    h := k;
    v := mac(h, v);
    h := k;
    k := mac(h, v + [0x01] + scalar + h1);
    h := k;
    v := mac(h, v);

    ghost var start := Instantiate(mac, scalar, Octets(messageHash, q));
    ghost var i: nat := 0;
    while true
      invariant h == k && KV(k, v) == Round(mac, start, i)
      invariant i <= limit
      invariant forall j: nat :: j < i ==> !InRange(Candidate(mac, start, j), q)
      decreases limit - i
    {
      v := mac(h, v);
      assert v == Candidate(mac, start, i);
      var candidate := FromBigEndian(v);
      if candidate < q && candidate != 0 {
        return v;
      }
      k := mac(h, v + [0x00]);
      h := k;
      v := mac(h, v);
      i := i + 1;
    }
  }

  // ---- the generator the standard derives this from ----

  /** HMAC_DRBG_Update (section 10.1.2.2 of NIST SP 800-90A). */
  function DrbgUpdate(mac: Mac, provided: bytes, s: KV): KV {
    var k := mac(s.k, s.v + [0] + provided);
    var v := mac(k, s.v);
    if provided == [] then KV(k, v)
    else
      var k' := mac(k, v + [1] + provided);
      KV(k', mac(k', v))
  }

  /** The nonce generator is HMAC_DRBG: seeded with the private key and the reduced hash,
      and updated without input after each rejected candidate. */
  lemma IsHmacDrbg(mac: Mac, x: bytes, h1: bytes, i: nat)
    requires x + h1 != []
    ensures var start := Instantiate(mac, x, h1);
            && start == DrbgUpdate(mac, x + h1, KV(seq(32, n => 0), seq(32, n => 1)))
            && Candidate(mac, start, i) == mac(Round(mac, start, i).k, Round(mac, start, i).v)
            && Round(mac, start, i + 1) == DrbgUpdate(mac, [], KV(Round(mac, start, i).k, Candidate(mac, start, i)))
  {
    var v0, k0 := seq(32, n => 1), seq(32, n => 0);
    assert v0 + [0] + x + h1 == v0 + [0] + (x + h1);
    var k1 := mac(k0, v0 + [0] + x + h1);
    var v1 := mac(k1, v0);
    assert v1 + [1] + x + h1 == v1 + [1] + (x + h1);
    var start := Instantiate(mac, x, h1);
    assert Candidate(mac, start, i) + [0] + [] == Candidate(mac, start, i) + [0];
  }

  /** bits2octets keeps the value of the hash modulo the order, in 32 bytes. */
  lemma OctetsReduce(messageHash: bytes, q: nat)
    requires 0 < q <= Pow256(SIZE)
    ensures |Octets(messageHash, q)| == 32 && FromBigEndian(Octets(messageHash, q)) == FromBigEndian(messageHash) % q
  {
    BigEndianRoundTrip(FromBigEndian(messageHash) % q, SIZE);
  }
}
