/** internal/authentication/peer.go and NativeSession.SessionInfoHMAC: which metadata each
    kind of message authenticates. */
module Peer {
  import opened Primitives
  import opened Wire
  import opened Tlv

  const EPOCH_SECONDS := 0x4000_0000      // epochLength is 1 << 30 seconds

  // ---- requests ----

  function NameField(name: Option<bytes>): seq<Field>
    requires name.Some? ==> |name.value| <= 255
  {
    if name.Some? then [AnyField(Personalization, name.value)] else []
  }

  /** The fields that open every message's metadata. */
  function Header(signatureType: byte, domain: byte, name: Option<bytes>): seq<Field>
    requires name.Some? ==> |name.value| <= 255
  {
    [AnyField(SignatureType, [signatureType]), AnyField(Domain, [domain])] + NameField(name)
  }

  method AddHeader(meta: Metadata, signatureType: byte, domain: byte, name: Option<bytes>) returns (tooLong: bool)
    requires meta.Valid() && meta.items == [] && meta.last == 0
    modifies meta
    ensures meta.Valid() && meta.last <= Personalization.Code()
    ensures tooLong == (name.Some? && |name.value| > 255)
    ensures !tooLong ==> meta.items == Header(signatureType, domain, name)
  {
    var discarded := meta.Add(SignatureType, Some([signatureType]));
    assert discarded.None?;
    discarded := meta.Add(Domain, Some([domain]));
    assert discarded.None?;
    var error := meta.Add(Personalization, name);
    tooLong := error.Some?;
  }

  /** Flags are written only when at least one of them is set. */
  function SessionFields(epoch: EpochId, expiresAt: u32, counter: u32, flags: u32): seq<Field> {
    [AnyField(Epoch, epoch), U32Field(ExpiresAt, expiresAt), U32Field(Counter, counter)]
    + (if flags > 0 then [U32Field(Flags, flags)] else [])
  }

  function RequestFields(signatureType: byte, domain: byte, name: Option<bytes>, epoch: EpochId,
                         expiresAt: u32, counter: u32, flags: u32): seq<Field>
    requires name.Some? ==> |name.value| <= 255
  {
    Header(signatureType, domain, name) + SessionFields(epoch, expiresAt, counter, flags)
  }

  /** What extractMetadata adds to an empty metadata object, or the error it returns. */
  function ExtractedFields(name: Option<bytes>, epoch: EpochId, message: RoutableMessage,
                           expiresAt: u32, counter: u32, signatureType: byte): Result<seq<Field>>
  {
    if !message.to.ToDomain? || !(0 <= message.to.domain <= 255) then Err(ProtocolFault(FAULT_INVALID_DOMAINS))
    else if name.Some? && |name.value| > 255 then Err(ProtocolFault(FAULT_WRONG_PERSONALIZATION))
    else if expiresAt > EPOCH_SECONDS then Err(ProtocolFault(FAULT_BAD_PARAMETER))
    else Ok(RequestFields(signatureType, message.to.domain, name, epoch, expiresAt, counter, message.flags))
  }

  /** The additional data of a GCM request: the digest of the terminated metadata. */
  function GcmData(suite: Suite, name: Option<bytes>, epoch: EpochId, message: RoutableMessage,
                   expiresAt: u32, counter: u32): Result<bytes>
  {
    match ExtractedFields(name, epoch, message, expiresAt, counter, TYPE_GCM_PERSONALIZED)
    case Err(e) => Err(e)
    case Ok(fields) => Ok(suite.digest(Terminated(fields, [])))
  }

  function HmacTag(suite: Suite, name: Option<bytes>, epoch: EpochId, message: RoutableMessage,
                   expiresAt: u32, counter: u32): Result<bytes>
  {
    match ExtractedFields(name, epoch, message, expiresAt, counter, TYPE_HMAC_PERSONALIZED)
    case Err(e) => Err(e)
    case Ok(fields) => Ok(suite.mac(LABEL_MESSAGE_AUTH, Terminated(fields, message.ProtobufBytes())))
  }

  /** The errors of Add that the source discards cannot occur here: the fields come in
      increasing tag order and the unchecked ones have at most 16 bytes. */
  method ExtractMetadata(meta: Metadata, name: Option<bytes>, epoch: EpochId, message: RoutableMessage,
                         expiresAt: u32, counter: u32, signatureType: byte)
    returns (error: Option<AuthError>)
    requires meta.Valid() && meta.items == [] && meta.last == 0
    modifies meta
    ensures meta.Valid()
    ensures match ExtractedFields(name, epoch, message, expiresAt, counter, signatureType)
            case Ok(fields) => error.None? && meta.items == fields
            case Err(e) => error == Some(e)
  {
    if !message.to.ToDomain? || !(0 <= message.to.domain <= 255) {
      return Some(ProtocolFault(FAULT_INVALID_DOMAINS));
    }
    var tooLong := AddHeader(meta, signatureType, message.to.domain, name);
    if tooLong {
      return Some(ProtocolFault(FAULT_WRONG_PERSONALIZATION));
    }
    if expiresAt > EPOCH_SECONDS {
      return Some(ProtocolFault(FAULT_BAD_PARAMETER));
    }
    ghost var named := meta.items;
    var discarded := meta.Add(Epoch, Some(epoch));
    assert discarded.None?;
    discarded := meta.AddUint32(ExpiresAt, expiresAt);
    assert discarded.None?;
    discarded := meta.AddUint32(Counter, counter);
    assert discarded.None?;
    assert meta.items == named + SessionFields(epoch, expiresAt, counter, 0);
    if message.flags > 0 {
      discarded := meta.AddUint32(Flags, message.flags);
      assert discarded.None?;
    }
    error := None;
  }

  method ComputeHmacTag(suite: Suite, name: Option<bytes>, epoch: EpochId, message: RoutableMessage,
                        expiresAt: u32, counter: u32)
    returns (r: Result<bytes>)
    ensures r == HmacTag(suite, name, epoch, message, expiresAt, counter)
  {
    var meta := new Metadata();
    var error := ExtractMetadata(meta, name, epoch, message, expiresAt, counter, TYPE_HMAC_PERSONALIZED);
    if error.Some? {
      return Err(error.value);
    }
    var preimage := meta.Checksum(message.ProtobufBytes());
    r := Ok(suite.mac(LABEL_MESSAGE_AUTH, preimage));
  }

  lemma U32FieldInjective(tag: Tag, a: u32, b: u32)
    requires U32Field(tag, a) == U32Field(tag, b)
    ensures a == b
  {
    BigEndianInjective(a, b, 4);
  }

  lemma NameFieldTail(name: Option<bytes>, rest: seq<Field>)
    requires name.Some? ==> |name.value| <= 255
    requires rest != [] && rest[0].tag != Personalization
    ensures var s := NameField(name) + rest;
            && (name.Some? <==> s[0].tag == Personalization)
            && (name.Some? ==> s[0].value == name.value && s[1..] == rest)
            && (name.None? ==> s == rest)
  {
  }

  lemma HeaderInjective(t: byte, d: byte, n: Option<bytes>, rest: seq<Field>, t': byte, d': byte, n': Option<bytes>,
                        rest': seq<Field>)
    requires (n.Some? ==> |n.value| <= 255) && (n'.Some? ==> |n'.value| <= 255)
    requires rest != [] && rest[0].tag != Personalization && rest' != [] && rest'[0].tag != Personalization
    requires Header(t, d, n) + rest == Header(t', d', n') + rest'
    ensures t == t' && d == d' && n == n' && rest == rest'
  {
    var a, a' := Header(t, d, n) + rest, Header(t', d', n') + rest';
    assert a[0].value[0] == t && a'[0].value[0] == t' && a[1].value[0] == d && a'[1].value[0] == d';
    assert a[2..] == NameField(n) + rest && a'[2..] == NameField(n') + rest';
    NameFieldTail(n, rest);
    NameFieldTail(n', rest');
  }

  lemma SessionFieldsInjective(e: EpochId, x: u32, c: u32, f: u32, e': EpochId, x': u32, c': u32, f': u32)
    requires SessionFields(e, x, c, f) == SessionFields(e', x', c', f')
    ensures e == e' && x == x' && c == c' && f == f'
  {
    var a, a' := SessionFields(e, x, c, f), SessionFields(e', x', c', f');
    assert a[0] == a'[0] && a[1] == a'[1] && a[2] == a'[2];
    U32FieldInjective(ExpiresAt, x, x');
    U32FieldInjective(Counter, c, c');
    if f > 0 && f' > 0 {
      assert a[3] == a'[3];
      U32FieldInjective(Flags, f, f');
    }
  }

  /** Equal field lists authenticate equal requests, although flags are left out when
      they are zero and the name is left out when it is absent. */
  lemma RequestFieldsInjective(t: byte, d: byte, n: Option<bytes>, e: EpochId, x: u32, c: u32, f: u32,
                               t': byte, d': byte, n': Option<bytes>, e': EpochId, x': u32, c': u32, f': u32)
    requires n.Some? ==> |n.value| <= 255
    requires n'.Some? ==> |n'.value| <= 255
    requires RequestFields(t, d, n, e, x, c, f) == RequestFields(t', d', n', e', x', c', f')
    ensures t == t' && d == d' && n == n' && e == e' && x == x' && c == c' && f == f'
  {
    HeaderInjective(t, d, n, SessionFields(e, x, c, f), t', d', n', SessionFields(e', x', c', f'));
    SessionFieldsInjective(e, x, c, f, e', x', c', f');
  }

  /** The string that is hashed for a request determines everything the request
      authenticates: signature type, domain, verifier name, epoch, expiration time,
      counter, flags and, for HMAC, the payload. */
  lemma RequestPreimageInjective(n: Option<bytes>, e: EpochId, m: RoutableMessage, x: u32, c: u32, t: byte, p: bytes,
                                 n': Option<bytes>, e': EpochId, m': RoutableMessage, x': u32, c': u32, t': byte,
                                 p': bytes)
    requires ExtractedFields(n, e, m, x, c, t).Ok? && ExtractedFields(n', e', m', x', c', t').Ok?
    requires Terminated(ExtractedFields(n, e, m, x, c, t).value, p)
          == Terminated(ExtractedFields(n', e', m', x', c', t').value, p')
    ensures t == t' && m.to == m'.to && n == n' && e == e' && x == x' && c == c' && m.flags == m'.flags && p == p'
  {
    EncodingInjective(ExtractedFields(n, e, m, x, c, t).value, p, ExtractedFields(n', e', m', x', c', t').value, p');
    RequestFieldsInjective(t, m.to.domain, n, e, x, c, m.flags, t', m'.to.domain, n', e', x', c', m'.flags);
  }

  // ---- session info ----

  function ChallengeField(challenge: Option<bytes>): seq<Field>
    requires challenge.Some? ==> |challenge.value| <= 255
  {
    if challenge.Some? then [AnyField(Challenge, challenge.value)] else []
  }

  function SessionInfoFields(id: Option<bytes>, challenge: Option<bytes>): seq<Field>
    requires (id.Some? ==> |id.value| <= 255) && (challenge.Some? ==> |challenge.value| <= 255)
  {
    [AnyField(SignatureType, [TYPE_HMAC])] + NameField(id) + ChallengeField(challenge)
  }

  function SessionInfoHmac(suite: Suite, id: Option<bytes>, challenge: Option<bytes>, encodedInfo: bytes)
    : Result<bytes>
  {
    if (id.Some? && |id.value| > 255) || (challenge.Some? && |challenge.value| > 255) then Err(FieldTooLong)
    else Ok(suite.mac(LABEL_SESSION_INFO, Terminated(SessionInfoFields(id, challenge), encodedInfo)))
  }

  /** SessionInfoHMAC as it is written. */
  method ComputeSessionInfoHmac(suite: Suite, id: Option<bytes>, challenge: Option<bytes>, encodedInfo: bytes)
    returns (r: Result<bytes>)
    ensures r == SessionInfoHmac(suite, id, challenge, encodedInfo)
  {
    var meta := new Metadata();
    var error := meta.Add(SignatureType, Some([TYPE_HMAC]));
    assert error.None?;
    error := meta.Add(Personalization, id);
    if error.Some? {
      return Err(FieldTooLong);
    }
    error := meta.Add(Challenge, challenge);
    if error.Some? {
      return Err(FieldTooLong);
    }
    assert meta.items == SessionInfoFields(id, challenge);
    var preimage := meta.Checksum(encodedInfo);
    r := Ok(suite.mac(LABEL_SESSION_INFO, preimage));
  }

  /** The string that is hashed for session info determines the vehicle's name and the
      challenge, both of which may be absent, and the encoded info. */
  lemma SessionInfoPreimageInjective(n: Option<bytes>, c: Option<bytes>, i: bytes,
                                     n': Option<bytes>, c': Option<bytes>, i': bytes)
    requires (n.Some? ==> |n.value| <= 255) && (c.Some? ==> |c.value| <= 255)
    requires (n'.Some? ==> |n'.value| <= 255) && (c'.Some? ==> |c'.value| <= 255)
    requires Terminated(SessionInfoFields(n, c), i) == Terminated(SessionInfoFields(n', c'), i')
    ensures n == n' && c == c' && i == i'
  {
    EncodingInjective(SessionInfoFields(n, c), i, SessionInfoFields(n', c'), i');
    var a, a' := SessionInfoFields(n, c), SessionInfoFields(n', c');
    assert |a| > 1 ==> a[1] == a'[1];
    assert |a| > 2 ==> a[2] == a'[2];
  }

  // ---- responses ----

  /** The source discards the error of adding the request hash, so an identifier of more
      than 255 bytes is left out of the metadata. */
  function RequestHashField(id: Option<bytes>): seq<Field> {
    if id.Some? && |id.value| <= 255 then [AnyField(RequestHash, id.value)] else []
  }

  function OutcomeFields(counter: u32, flags: u32, id: Option<bytes>, fault: u32): seq<Field> {
    [U32Field(Counter, counter), U32Field(Flags, flags)] + RequestHashField(id) + [U32Field(Fault, fault)]
  }

  function ResponseFields(domain: byte, name: Option<bytes>, counter: u32, flags: u32, id: Option<bytes>, fault: u32)
    : seq<Field>
    requires name.Some? ==> |name.value| <= 255
  {
    Header(TYPE_GCM_RESPONSE, domain, name) + OutcomeFields(counter, flags, id, fault)
  }

  /** responseMetadata: the additional data of an encrypted response. */
  function ResponseData(suite: Suite, name: Option<bytes>, message: RoutableMessage, id: Option<bytes>, counter: u32)
    : Result<bytes>
  {
    if name.Some? && |name.value| > 255 then Err(FieldTooLong)
    else Ok(suite.digest(Terminated(
              ResponseFields(ToByte(message.from.GetDomain()), name, counter, message.flags, id, ToU32(message.fault)),
              [])))
  }

  method AddOutcome(meta: Metadata, counter: u32, flags: u32, id: Option<bytes>, fault: u32)
    requires meta.Valid() && meta.last <= Personalization.Code()
    modifies meta
    ensures meta.Valid() && meta.items == old(meta.items) + OutcomeFields(counter, flags, id, fault)
  {
    ghost var before := meta.items;
    var discarded := meta.AddUint32(Counter, counter);
    discarded := meta.AddUint32(Flags, flags);
    ghost var counted: seq<Field> := [U32Field(Counter, counter), U32Field(Flags, flags)];
    assert meta.items == before + counted;
    discarded := meta.Add(RequestHash, id);
    assert meta.items == before + (counted + RequestHashField(id));
    discarded := meta.AddUint32(Fault, fault);
    ghost var last: seq<Field> := [U32Field(Fault, fault)];
    assert meta.items == before + (counted + RequestHashField(id) + last);
  }

  method ComputeResponseData(suite: Suite, name: Option<bytes>, message: RoutableMessage, id: Option<bytes>,
                             counter: u32)
    returns (r: Result<bytes>)
    ensures r == ResponseData(suite, name, message, id, counter)
  {
    var meta := new Metadata();
    var domain := ToByte(message.from.GetDomain());
    var tooLong := AddHeader(meta, TYPE_GCM_RESPONSE, domain, name);
    if tooLong {
      return Err(FieldTooLong);
    }
    AddOutcome(meta, counter, message.flags, id, ToU32(message.fault));
    var preimage := meta.Checksum([]);
    r := Ok(suite.digest(preimage));
  }

  /** A response is bound to its request exactly as far as the identifier fits: two
      identifiers give the same metadata if and only if they are equal or neither is
      encoded. */
  lemma ResponseBindsRequest(d: byte, n: Option<bytes>, c: u32, f: u32, id: Option<bytes>, x: u32, id': Option<bytes>)
    requires n.Some? ==> |n.value| <= 255
    ensures Terminated(ResponseFields(d, n, c, f, id, x), []) == Terminated(ResponseFields(d, n, c, f, id', x), [])
            <==> id == id' || (RequestHashField(id) == [] && RequestHashField(id') == [])
  {
    if Terminated(ResponseFields(d, n, c, f, id, x), []) == Terminated(ResponseFields(d, n, c, f, id', x), []) {
      var a, a' := OutcomeFields(c, f, id, x), OutcomeFields(c, f, id', x);
      EncodingInjective(ResponseFields(d, n, c, f, id, x), [], ResponseFields(d, n, c, f, id', x), []);
      HeaderInjective(TYPE_GCM_RESPONSE, d, n, a, TYPE_GCM_RESPONSE, d, n, a');
      assert a[2] == a'[2];
    }
  }

  /** The authenticated parts of a response are determined by its metadata, the request
      identifier as far as it is encoded. */
  lemma ResponsePreimageInjective(d: byte, n: Option<bytes>, c: u32, f: u32, id: Option<bytes>, x: u32,
                                  d': byte, n': Option<bytes>, c': u32, f': u32, id': Option<bytes>, x': u32)
    requires n.Some? ==> |n.value| <= 255
    requires n'.Some? ==> |n'.value| <= 255
    requires Terminated(ResponseFields(d, n, c, f, id, x), [])
             == Terminated(ResponseFields(d', n', c', f', id', x'), [])
    ensures d == d' && n == n' && c == c' && f == f' && x == x' && RequestHashField(id) == RequestHashField(id')
  {
    EncodingInjective(ResponseFields(d, n, c, f, id, x), [], ResponseFields(d', n', c', f', id', x'), []);
    var a, a' := OutcomeFields(c, f, id, x), OutcomeFields(c', f', id', x');
    HeaderInjective(TYPE_GCM_RESPONSE, d, n, a, TYPE_GCM_RESPONSE, d', n', a');
    assert a[0] == a'[0] && a[1] == a'[1] && a[|a| - 1] == a'[|a'| - 1];
    assert a[2..|a| - 1] == RequestHashField(id) && a'[2..|a'| - 1] == RequestHashField(id');
    U32FieldInjective(Counter, c, c');
    U32FieldInjective(Flags, f, f');
    U32FieldInjective(Fault, x, x');
  }

  /** RequestID: the identifier that ties a response to an authorised request. A VCSEC
      HMAC tag is cut to 16 bytes, so it has to have that many. */
  function RequestID(message: RoutableMessage): Option<bytes>
    requires message.signature.Hmac? && message.to.GetDomain() == DOMAIN_VEHICLE_SECURITY
             ==> |message.signature.hmacTag| >= 16
  {
    match message.signature
    case Gcm(_, _, _, _, tag) => Some([TYPE_GCM_PERSONALIZED] + tag)
    case Hmac(_, _, _, tag) =>
      Some([TYPE_HMAC_PERSONALIZED] + (if message.to.GetDomain() == DOMAIN_VEHICLE_SECURITY then tag[..16] else tag))
    case _ => None
  }

  /** The bytes of the tag that go into the identifier. */
  function TagOf(message: RoutableMessage): bytes
    requires message.signature.Gcm? || message.signature.Hmac?
  {
    if message.signature.Gcm? then message.signature.gcmTag else message.signature.hmacTag
  }

  /** What the identifier says: the method in its first byte, then the tag, which for a
      VCSEC HMAC is cut to 16 bytes. Unauthenticated requests have none. */
  lemma RequestIDParts(message: RoutableMessage)
    requires message.signature.Hmac? && message.to.GetDomain() == DOMAIN_VEHICLE_SECURITY ==> |TagOf(message)| >= 16
    ensures RequestID(message).Some? <==> message.signature.Gcm? || message.signature.Hmac?
    ensures message.signature.Gcm? ==>
              var id := RequestID(message).value;
              |id| == 1 + |message.signature.gcmTag| && id[0] == 5 && id[1..] == message.signature.gcmTag
    ensures message.signature.Hmac? ==>
              var id, tag := RequestID(message).value, message.signature.hmacTag;
              && id[0] == 8 && id[1..] <= tag
              && |id| == if message.to.GetDomain() == 2 then 17 else 1 + |tag|
  {
  }

  /** Identifiers of authorised requests are never left out of the response metadata: the
      tags of AES-GCM and HMAC-SHA256 have 16 and 32 bytes, and 254 would do. */
  lemma RequestIDFits(message: RoutableMessage)
    requires message.signature.Gcm? || message.signature.Hmac?
    requires message.to.GetDomain() == DOMAIN_VEHICLE_SECURITY && message.signature.Hmac? ==> |TagOf(message)| >= 16
    ensures RequestHashField(RequestID(message)) != []
            <==> |TagOf(message)| <= 254
                 || (message.signature.Hmac? && message.to.GetDomain() == DOMAIN_VEHICLE_SECURITY)
  {
  }
}
