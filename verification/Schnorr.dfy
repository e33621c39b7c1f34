/** internal/schnorr: Schnorr signatures (section 3.3 of RFC 8235) over an arbitrary cyclic
    group with an affine point encoding, of which P-256 is the instance in use. */
module Schnorr {
  import opened Primitives
  import Nonce

  const SCALAR_LENGTH := 32

  /** Points are an abstract type. `decode` is the check that a pair of coordinates is on
      the curve; the point at infinity has no encoding and reads as (0, 0). */
  datatype Curve<!P> = Curve(
    infinity: P,
    generator: P,
    add: (P, P) -> P,
    order: nat,
    x: P -> nat,
    y: P -> nat,
    decode: (nat, nat) -> Option<P>)
  {
    /** The n-fold sum of p. */
    function Mul(n: nat, p: P): P {
      if n == 0 then infinity else add(Mul(n - 1, p), p)
    }
  }

  /** Marks the points for which a proof uses associativity. */
  ghost predicate Instance<P>(p: P, q: P, r: P) {
    true
  }

  ghost predicate Lawful<P(!new)>(g: Curve<P>) {
    && (forall p, q, r {:trigger Instance(p, q, r)} :: g.add(g.add(p, q), r) == g.add(p, g.add(q, r)))
    && (forall p :: g.add(g.infinity, p) == p)
    && (forall p :: g.add(p, g.infinity) == p)
    && 1 < g.order < Pow256(SCALAR_LENGTH)
    && g.Mul(g.order, g.generator) == g.infinity
    && (forall n: nat :: 0 < n < g.order ==> g.Mul(n, g.generator) != g.infinity)
    && (forall p :: g.x(p) < Pow256(SCALAR_LENGTH) && g.y(p) < Pow256(SCALAR_LENGTH))
    && (forall p :: p != g.infinity ==> g.decode(g.x(p), g.y(p)) == Some(p))
    && g.x(g.infinity) == 0 && g.y(g.infinity) == 0 && g.decode(0, 0) == None
  }

  /** An uncompressed point: 0x04 and both coordinates. */
  function Marshal<P>(g: Curve<P>, p: P): bytes {
    [0x04] + BigEndian(g.x(p), SCALAR_LENGTH) + BigEndian(g.y(p), SCALAR_LENGTH)
  }

  function Unmarshal<P>(g: Curve<P>, b: bytes): Option<P> {
    if |b| != 1 + 2 * SCALAR_LENGTH || b[0] != 0x04 then None
    else g.decode(FromBigEndian(b[1..1 + SCALAR_LENGTH]), FromBigEndian(b[1 + SCALAR_LENGTH..]))
  }

  // ---- challenge ----

  /** The length is converted to uint32 and written big-endian. */
  function LengthValue(b: bytes): bytes {
    BigEndian(ToU32(|b|), 4) + b
  }

  function Preimage(generator: bytes, publicNonce: bytes, publicKey: bytes, message: bytes): bytes {
    LengthValue(generator) + LengthValue(publicNonce) + LengthValue(publicKey) + LengthValue(message)
  }

  method Challenge<P>(g: Curve<P>, digest: bytes -> bytes, publicNonce: bytes, publicKey: bytes, message: bytes)
    returns (c: bytes)
    ensures c == digest(Preimage(Marshal(g, g.generator), publicNonce, publicKey, message))
  {
    var h: bytes := [];
    h := WriteLengthValue(h, Marshal(g, g.generator));
    assert h == LengthValue(Marshal(g, g.generator));
    h := WriteLengthValue(h, publicNonce);
    h := WriteLengthValue(h, publicKey);
    h := WriteLengthValue(h, message);
    c := digest(h);
  }

  method WriteLengthValue(h: bytes, b: bytes) returns (h': bytes)
    ensures h' == h + LengthValue(b)
  {
    h' := h + BigEndian(ToU32(|b|), 4);
    h' := h' + b;
  }

  lemma LengthValueInjective(a: bytes, s: bytes, b: bytes, t: bytes)
    requires |a| < 0x1_0000_0000 && |b| < 0x1_0000_0000
    requires LengthValue(a) + s == LengthValue(b) + t
    ensures a == b && s == t
  {
    Associative(BigEndian(ToU32(|a|), 4), a, s);
    Associative(BigEndian(ToU32(|b|), 4), b, t);
    PartsEqual(BigEndian(ToU32(|a|), 4), a + s, BigEndian(ToU32(|b|), 4), b + t);
    LengthInjective(|a|, |b|);
    PartsEqual(a, s, b, t);
  }

  lemma LengthInjective(m: nat, n: nat)
    requires m < 0x1_0000_0000 && n < 0x1_0000_0000
    requires BigEndian(ToU32(m), 4) == BigEndian(ToU32(n), 4)
    ensures m == n
  {
    BigEndianInjective(ToU32(m), ToU32(n), 4);
  }

  lemma Associative(a: bytes, b: bytes, c: bytes)
    ensures (a + b) + c == a + (b + c)
  {
  }

  lemma PartsEqual(a: bytes, s: bytes, b: bytes, t: bytes)
    requires |a| == |b| && a + s == b + t
    ensures a == b && s == t
  {
    assert a == (a + s)[..|a|] && b == (b + t)[..|a|];
    assert s == (a + s)[|a|..] && t == (b + t)[|a|..];
  }

  /** The four parts of the challenge can be read back from the hashed string, the message
      whatever its length: nothing follows it. */
  lemma PreimageInjective(a: bytes, b: bytes, c: bytes, d: bytes, a': bytes, b': bytes, c': bytes, d': bytes)
    requires |a| < 0x1_0000_0000 && |b| < 0x1_0000_0000 && |c| < 0x1_0000_0000
    requires |a'| < 0x1_0000_0000 && |b'| < 0x1_0000_0000 && |c'| < 0x1_0000_0000
    requires Preimage(a, b, c, d) == Preimage(a', b', c', d')
    ensures a == a' && b == b' && c == c' && d == d'
  {
    var s1, t1 := LengthValue(d), LengthValue(d');
    var s2, t2 := LengthValue(c) + s1, LengthValue(c') + t1;
    var s3, t3 := LengthValue(b) + s2, LengthValue(b') + t2;
    PreimageNested(a, b, c, d);
    PreimageNested(a', b', c', d');
    LengthValueInjective(a, s3, a', t3);
    LengthValueInjective(b, s2, b', t2);
    LengthValueInjective(c, s1, c', t1);
    PartsEqual(BigEndian(ToU32(|d|), 4), d, BigEndian(ToU32(|d'|), 4), d');
  }

  lemma PreimageNested(a: bytes, b: bytes, c: bytes, d: bytes)
    ensures Preimage(a, b, c, d) == LengthValue(a) + (LengthValue(b) + (LengthValue(c) + LengthValue(d)))
  {
    Associative(LengthValue(a) + LengthValue(b), LengthValue(c), LengthValue(d));
    Associative(LengthValue(a), LengthValue(b), LengthValue(c) + LengthValue(d));
  }

  // ---- signatures ----

  function ChallengeScalar<P>(g: Curve<P>, digest: bytes -> bytes, v: P, publicKey: bytes, message: bytes): nat {
    FromBigEndian(digest(Preimage(Marshal(g, g.generator), Marshal(g, v), publicKey, message)))
  }

  /** The 96-byte layout: both coordinates of V, then r. */
  function Layout<P>(g: Curve<P>, v: P, r: nat): bytes {
    BigEndian(g.x(v), SCALAR_LENGTH) + BigEndian(g.y(v), SCALAR_LENGTH) + BigEndian(r, SCALAR_LENGTH)
  }

  /** r = v - ac (mod q), the response to the challenge c. */
  function Response(nonce: nat, key: nat, challenge: nat, order: nat): nat
    requires order > 0
  {
    (nonce - (key * challenge) % order) % order
  }

  /** The signature of a message under a private key and a private nonce. */
  function SignatureFor<P>(g: Curve<P>, digest: bytes -> bytes, key: nat, nonce: nat, message: bytes): bytes
    requires g.order > 0
  {
    var v := g.Mul(nonce, g.generator);
    var c := ChallengeScalar(g, digest, v, Marshal(g, g.Mul(key, g.generator)), message);
    Layout(g, v, Response(nonce, key, c, g.order))
  }

  /** The start of the nonce sequence for a message. */
  function NonceStart(mac: Nonce.Mac, digest: bytes -> bytes, key: nat, message: bytes, q: nat): Nonce.KV
    requires q > 0
  {
    Nonce.Instantiate(mac, BigEndian(key, SCALAR_LENGTH), Nonce.Octets(digest(message), q))
  }

  /** `limit` is as in DeterministicNonce: some candidate nonce is in range. */
  method Sign<P(!new)>(g: Curve<P>, digest: bytes -> bytes, mac: Nonce.Mac, key: nat, message: bytes, ghost limit: nat)
    returns (signature: bytes)
    requires Lawful(g) && 0 < key < g.order
    requires Nonce.InRange(Nonce.Candidate(mac, NonceStart(mac, digest, key, message, g.order), limit), g.order)
    ensures exists nonce: bytes ::
              && Nonce.FirstInRange(mac, NonceStart(mac, digest, key, message, g.order), g.order, nonce)
              && signature == SignatureFor(g, digest, key, FromBigEndian(nonce), message)
    ensures Accepts(g, digest, Marshal(g, g.Mul(key, g.generator)), message, signature)
  {
    var nonce := Nonce.DeterministicNonce(mac, g.order, BigEndian(key, SCALAR_LENGTH), digest(message), limit);
    var v := FromBigEndian(nonce);
    signature := SignWith(g, digest, key, v, message);
    SignaturesVerify(g, digest, key, v, message);
  }

  /** Sign after the nonce has been chosen. */
  method SignWith<P>(g: Curve<P>, digest: bytes -> bytes, key: nat, nonce: nat, message: bytes)
    returns (signature: bytes)
    requires g.order > 0
    ensures signature == SignatureFor(g, digest, key, nonce, message)
  {
    var publicNonce := Marshal(g, g.Mul(nonce, g.generator));
    var publicKey := Marshal(g, g.Mul(key, g.generator));
    var challenge := Challenge(g, digest, publicNonce, publicKey, message);
    var r := (nonce - (key * FromBigEndian(challenge)) % g.order) % g.order;
    signature := Fill(publicNonce, BigEndian(r, SCALAR_LENGTH));
    var v := g.Mul(nonce, g.generator);
    assert publicNonce[1..] == BigEndian(g.x(v), SCALAR_LENGTH) + BigEndian(g.y(v), SCALAR_LENGTH);
  }

  /** Copies both parts into a fresh 96-byte buffer; the leading 0x04 is left out. */
  method Fill(publicNonce: bytes, scalar: bytes) returns (signature: bytes)
    requires |publicNonce| == 1 + 2 * SCALAR_LENGTH && |scalar| == SCALAR_LENGTH
    ensures signature == publicNonce[1..] + scalar
  {
    var buffer := new byte[3 * SCALAR_LENGTH](i => 0);
    forall i | 0 <= i < 2 * SCALAR_LENGTH {
      buffer[i] := publicNonce[1 + i];
    }
    forall i | 0 <= i < SCALAR_LENGTH {
      buffer[2 * SCALAR_LENGTH + i] := scalar[i];
    }
    signature := buffer[..];
  }

  /** Whether Verify returns nil. The challenge is not reduced modulo the order here. */
  predicate Accepts<P>(g: Curve<P>, digest: bytes -> bytes, publicKey: bytes, message: bytes, signature: bytes) {
    match Unmarshal(g, publicKey)
    case None => false
    case Some(a) =>
      if |signature| != 3 * SCALAR_LENGTH then false
      else
        var r := FromBigEndian(signature[2 * SCALAR_LENGTH..]);
        var c := FromBigEndian(digest(Preimage(Marshal(g, g.generator), [0x04] + signature[..2 * SCALAR_LENGTH],
                                               publicKey, message)));
        var p := g.add(g.Mul(r, g.generator), g.Mul(c, a));
        && g.x(p) == FromBigEndian(signature[..SCALAR_LENGTH])
        && g.y(p) == FromBigEndian(signature[SCALAR_LENGTH..2 * SCALAR_LENGTH])
  }

  method Verify<P>(g: Curve<P>, digest: bytes -> bytes, publicKey: bytes, message: bytes, signature: bytes)
    returns (valid: bool)
    ensures valid == Accepts(g, digest, publicKey, message, signature)
  {
    var a := Unmarshal(g, publicKey);
    if a.None? {
      return false;
    }
    if |signature| != 3 * SCALAR_LENGTH {
      return false;
    }
    var vX := FromBigEndian(signature[..SCALAR_LENGTH]);
    var vY := FromBigEndian(signature[SCALAR_LENGTH..2 * SCALAR_LENGTH]);
    var r := FromBigEndian(signature[2 * SCALAR_LENGTH..]);
    var c := Challenge(g, digest, [0x04] + signature[..2 * SCALAR_LENGTH], publicKey, message);
    var p := g.Mul(FromBigEndian(c), a.value);
    var temp := g.Mul(r, g.generator);
    p := g.add(temp, p);
    valid := g.x(p) == vX && g.y(p) == vY;
  }

  /** What Verify hashes for a well-formed public key and signature determines the
      commitment, the key and the message, of any length. */
  lemma ChallengeBinds<P>(g: Curve<P>, publicKey: bytes, message: bytes, signature: bytes,
                          publicKey': bytes, message': bytes, signature': bytes)
    requires Unmarshal(g, publicKey).Some? && |signature| == 3 * SCALAR_LENGTH
    requires Unmarshal(g, publicKey').Some? && |signature'| == 3 * SCALAR_LENGTH
    requires var generator, commitment, commitment' :=
               Marshal(g, g.generator), signature[..2 * SCALAR_LENGTH], signature'[..2 * SCALAR_LENGTH];
             Preimage(generator, [0x04] + commitment, publicKey, message)
             == Preimage(generator, [0x04] + commitment', publicKey', message')
    ensures signature[..2 * SCALAR_LENGTH] == signature'[..2 * SCALAR_LENGTH]
    ensures publicKey == publicKey' && message == message'
  {
    var generator, tag: bytes := Marshal(g, g.generator), [0x04];
    var commitment, commitment' := signature[..2 * SCALAR_LENGTH], signature'[..2 * SCALAR_LENGTH];
    PreimageInjective(generator, tag + commitment, publicKey, message,
                      generator, tag + commitment', publicKey', message');
    PartsEqual(tag, commitment, tag, commitment');
  }

  // ---- the group ----

  lemma {:induction false} MulAdd<P(!new)>(g: Curve<P>, m: nat, n: nat, p: P)
    requires Lawful(g)
    ensures g.Mul(m + n, p) == g.add(g.Mul(m, p), g.Mul(n, p))
  {
    if n > 0 {
      MulAdd(g, m, n - 1, p);
      assert m + n - 1 == m + (n - 1);
      assert Instance(g.Mul(m, p), g.Mul(n - 1, p), p);
    }
  }

  lemma {:induction false} MulMul<P(!new)>(g: Curve<P>, m: nat, n: nat, p: P)
    requires Lawful(g)
    ensures g.Mul(m * n, p) == g.Mul(m, g.Mul(n, p))
  {
    if m > 0 {
      MulMul(g, m - 1, n, p);
      assert m * n == (m - 1) * n + n;
      MulAdd(g, (m - 1) * n, n, p);
    }
  }

  lemma {:induction false} MulInfinity<P(!new)>(g: Curve<P>, n: nat)
    requires Lawful(g)
    ensures g.Mul(n, g.infinity) == g.infinity
  {
    if n > 0 {
      MulInfinity(g, n - 1);
    }
  }

  /** Scalars count modulo the order. */
  lemma MulMod<P(!new)>(g: Curve<P>, n: nat)
    requires Lawful(g)
    ensures g.Mul(n, g.generator) == g.Mul(n % g.order, g.generator)
  {
    var k := n / g.order;
    assert n == k * g.order + n % g.order;
    MulAdd(g, k * g.order, n % g.order, g.generator);
    MulMul(g, k, g.order, g.generator);
    MulInfinity(g, k);
  }

  lemma DistinctMultiples<P(!new)>(g: Curve<P>, m: nat, n: nat)
    requires Lawful(g) && m < n < g.order
    ensures g.Mul(m, g.generator) != g.Mul(n, g.generator)
  {
    MulAdd(g, m, g.order - n, g.generator);
    MulAdd(g, n, g.order - n, g.generator);
    assert n + (g.order - n) == g.order;
    assert 0 < m + (g.order - n) < g.order;
  }

  lemma EqualMultiples<P(!new)>(g: Curve<P>, m: nat, n: nat)
    requires Lawful(g)
    ensures g.Mul(m, g.generator) == g.Mul(n, g.generator) <==> m % g.order == n % g.order
  {
    MulMod(g, m);
    MulMod(g, n);
    if m % g.order < n % g.order {
      DistinctMultiples(g, m % g.order, n % g.order);
    } else if n % g.order < m % g.order {
      DistinctMultiples(g, n % g.order, m % g.order);
    }
  }

  lemma CoordinatesInjective<P(!new)>(g: Curve<P>, p: P, q: P)
    requires Lawful(g) && q != g.infinity
    ensures g.x(p) == g.x(q) && g.y(p) == g.y(q) <==> p == q
  {
    assert g.decode(g.x(q), g.y(q)) == Some(q);
    if p != g.infinity {
      assert g.decode(g.x(p), g.y(p)) == Some(p);
    }
  }

  lemma UnmarshalMarshal<P(!new)>(g: Curve<P>, p: P)
    requires Lawful(g) && p != g.infinity
    ensures Unmarshal(g, Marshal(g, p)) == Some(p)
  {
    var b := Marshal(g, p);
    assert b[1..1 + SCALAR_LENGTH] == BigEndian(g.x(p), SCALAR_LENGTH);
    assert b[1 + SCALAR_LENGTH..] == BigEndian(g.y(p), SCALAR_LENGTH);
    BigEndianRoundTrip(g.x(p), SCALAR_LENGTH);
    BigEndianRoundTrip(g.y(p), SCALAR_LENGTH);
  }

  lemma ResponseSolves(r: nat, key: nat, c: nat, nonce: nat, q: nat)
    requires q > 0
    ensures (r + c * key) % q == nonce % q <==> r % q == Response(nonce, key, c, q)
  {
    var product := key * c;
    assert c * key == product;
    var k, m := product / q, product % q;
    assert product == k * q + m;
    ModShift(r + m, k, q);
    assert (r + product) % q == (r + m) % q;
    ModDifference(r, m, nonce, q);
  }

  lemma ModShift(a: int, k: int, q: nat)
    requires q > 0
    ensures (a + k * q) % q == a % q
  {
    ModUnique(a + k * q, a % q, a / q + k, q);
  }

  /** The remainder is the only number in range that leaves a multiple of q. */
  lemma ModUnique(a: int, r: int, k: int, q: nat)
    requires q > 0 && 0 <= r < q && a == (k * q) + r
    ensures a % q == r
  {
    var d := a / q - k;
    assert a == (a / q) * q + a % q;
    assert d * q == r - a % q;
    MultipleBounds(d, q);
  }

  lemma MultipleBounds(d: int, q: nat)
    ensures d >= 1 ==> d * q >= q
    ensures d <= -1 ==> d * q + q <= 0
  {
    if d >= 1 {
      assert d * q == (d - 1) * q + q;
    } else if d <= -1 {
      assert d * q + q == -((-d - 1) * q);
    }
  }

  lemma ModDifference(r: int, m: int, n: int, q: nat)
    requires q > 0
    ensures (r + m) % q == n % q <==> r % q == (n - m) % q
  {
    if (r + m) % q == n % q {
      var k := n / q - (r + m) / q;
      assert n - m == r + k * q;
      ModShift(r, k, q);
    }
    if r % q == (n - m) % q {
      var k := (n - m) / q - r / q;
      assert n == (r + m) + k * q;
      ModShift(r + m, k, q);
    }
  }

  // ---- what signatures mean ----

  /** For a key pair (a, aG) and a commitment V = vG, the verifier accepts (V, r) exactly
      for r = v - ac modulo the order, c being the challenge of the message. */
  lemma AcceptsExactlyTheResponse<P(!new)>(g: Curve<P>, digest: bytes -> bytes, key: nat, nonce: nat, message: bytes,
                                           r: nat)
    requires Lawful(g) && 0 < key < g.order && 0 < nonce < g.order && r < Pow256(SCALAR_LENGTH)
    ensures var v := g.Mul(nonce, g.generator);
            var publicKey := Marshal(g, g.Mul(key, g.generator));
            Accepts(g, digest, publicKey, message, Layout(g, v, r))
            <==> r % g.order == Response(nonce, key, ChallengeScalar(g, digest, v, publicKey, message), g.order)
  {
    var v, a := g.Mul(nonce, g.generator), g.Mul(key, g.generator);
    var c := ChallengeScalar(g, digest, v, Marshal(g, a), message);
    AcceptsReadsLayout(g, digest, a, message, v, r);
    CoordinatesInjective(g, g.add(g.Mul(r, g.generator), g.Mul(c, a)), v);
    VerificationEquation(g, key, nonce, r, c);
  }

  /** Verify computes cA + rG and compares it with V. */
  lemma AcceptsReadsLayout<P(!new)>(g: Curve<P>, digest: bytes -> bytes, a: P, message: bytes, v: P, r: nat)
    requires Lawful(g) && a != g.infinity && r < Pow256(SCALAR_LENGTH)
    ensures var p := g.add(g.Mul(r, g.generator), g.Mul(ChallengeScalar(g, digest, v, Marshal(g, a), message), a));
            Accepts(g, digest, Marshal(g, a), message, Layout(g, v, r)) <==> g.x(p) == g.x(v) && g.y(p) == g.y(v)
  {
    UnmarshalMarshal(g, a);
    LayoutParts(g, v, r);
  }

  lemma LayoutParts<P(!new)>(g: Curve<P>, v: P, r: nat)
    requires g.x(v) < Pow256(SCALAR_LENGTH) && g.y(v) < Pow256(SCALAR_LENGTH) && r < Pow256(SCALAR_LENGTH)
    ensures var signature := Layout(g, v, r);
            && FromBigEndian(signature[..SCALAR_LENGTH]) == g.x(v)
            && FromBigEndian(signature[SCALAR_LENGTH..2 * SCALAR_LENGTH]) == g.y(v)
            && FromBigEndian(signature[2 * SCALAR_LENGTH..]) == r
            && [0x04] + signature[..2 * SCALAR_LENGTH] == Marshal(g, v)
  {
    var signature := Layout(g, v, r);
    assert signature[..SCALAR_LENGTH] == BigEndian(g.x(v), SCALAR_LENGTH);
    assert signature[SCALAR_LENGTH..2 * SCALAR_LENGTH] == BigEndian(g.y(v), SCALAR_LENGTH);
    assert signature[2 * SCALAR_LENGTH..] == BigEndian(r, SCALAR_LENGTH);
    BigEndianRoundTrip(g.x(v), SCALAR_LENGTH);
    BigEndianRoundTrip(g.y(v), SCALAR_LENGTH);
    BigEndianRoundTrip(r, SCALAR_LENGTH);
  }

  lemma VerificationEquation<P(!new)>(g: Curve<P>, key: nat, nonce: nat, r: nat, c: nat)
    requires Lawful(g) && nonce < g.order
    ensures g.add(g.Mul(r, g.generator), g.Mul(c, g.Mul(key, g.generator))) == g.Mul(nonce, g.generator)
            <==> r % g.order == Response(nonce, key, c, g.order)
  {
    MulMul(g, c, key, g.generator);
    MulAdd(g, r, c * key, g.generator);
    EqualMultiples(g, r + c * key, nonce);
    ResponseSolves(r, key, c, nonce, g.order);
  }

  /** Whatever is accepted, for any key and any bytes: the key is an encoded point A, the
      signature has 96 bytes, and its first two thirds are the encoding of rG + cA. */
  lemma AcceptedHasForm<P(!new)>(g: Curve<P>, digest: bytes -> bytes, publicKey: bytes, message: bytes,
                                 signature: bytes)
    requires Lawful(g) && Accepts(g, digest, publicKey, message, signature)
    ensures |signature| == 96 && |publicKey| == 65 && publicKey[0] == 4 && Unmarshal(g, publicKey).Some?
    ensures var c := FromBigEndian(digest(LengthValue(Marshal(g, g.generator)) + LengthValue([0x04] + signature[..64])
                                          + LengthValue(publicKey) + LengthValue(message)));
            var p := g.add(g.Mul(FromBigEndian(signature[64..]), g.generator), g.Mul(c, Unmarshal(g, publicKey).value));
            && g.x(p) == FromBigEndian(signature[..32]) && g.y(p) == FromBigEndian(signature[32..64])
            && (p != g.infinity ==> Unmarshal(g, Marshal(g, p)) == Some(p))
  {
    var c := FromBigEndian(digest(Preimage(Marshal(g, g.generator), [0x04] + signature[..64], publicKey, message)));
    var p := g.add(g.Mul(FromBigEndian(signature[64..]), g.generator), g.Mul(c, Unmarshal(g, publicKey).value));
    if p != g.infinity {
      UnmarshalMarshal(g, p);
    }
  }

  /** Completeness: every signature that Sign produces is accepted. */
  lemma SignaturesVerify<P(!new)>(g: Curve<P>, digest: bytes -> bytes, key: nat, nonce: nat, message: bytes)
    requires Lawful(g) && 0 < key < g.order && 0 < nonce < g.order
    ensures Accepts(g, digest, Marshal(g, g.Mul(key, g.generator)), message,
                    SignatureFor(g, digest, key, nonce, message))
  {
    var c := ChallengeScalar(g, digest, g.Mul(nonce, g.generator), Marshal(g, g.Mul(key, g.generator)), message);
    ResponseInRange(nonce, key, c, g.order);
    AcceptsExactlyTheResponse(g, digest, key, nonce, message, Response(nonce, key, c, g.order));
  }

  lemma ResponseInRange(nonce: nat, key: nat, c: nat, q: nat)
    requires q > 0
    ensures 0 <= Response(nonce, key, c, q) < q
    ensures Response(nonce, key, c, q) % q == Response(nonce, key, c, q)
  {
  }
}
