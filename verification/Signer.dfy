/** internal/authentication/signer.go: the Signer object. Each method changes the fields in
    place and is proved to do what SignerSpec says. Messages are values: a method that
    rewrites its message in the source returns the rewritten message here. */
module Signer {
  import opened Primitives
  import opened Wire
  import opened GoTime
  import opened Peer
  import Tlv
  import Spec = SignerSpec
  import opened SignerSpec

  class Signer {
    const name: Option<bytes>
    const suite: Suite
    const verifierPublic: bytes
    var counter: u32
    var epoch: EpochId
    var timeZero: Time
    var setTime: u32

    ghost function State(): SignerState
      reads this
    {
      SignerState(name, suite, counter, epoch, timeZero, verifierPublic, setTime)
    }

    constructor (s: SignerState)
      ensures State() == s
    {
      name, suite, verifierPublic := s.name, s.suite, s.verifierPublic;
      counter, epoch, timeZero, setTime := s.counter, s.epoch, s.timeZero, s.setTime;
    }

    static method NewSigner(key: ClientKey, name: Option<bytes>, info: SessionInfo, now: Time)
      returns (s: Signer?, error: Option<AuthError>)
      ensures match Spec.NewSigner(key, name, info, now)
              case Ok(state) => s != null && fresh(s) && s.State() == state && error.None?
              case Err(e) => s == null && error == Some(e)
    {
      if name.Some? && |name.value| > 255 {
        return null, Some(FieldTooLong);
      }
      var session := key.exchange(info.publicKey);
      if session.None? {
        return null, Some(ProtocolFault(FAULT_BAD_PARAMETER));
      }
      s := new Signer(SignerState(name, session.value, info.counter, seq(EPOCH_ID_LENGTH, _ => 0),
                                  EpochStartTime(now, info.clockTime), info.publicKey, info.clockTime));
      s.epoch := CopyInto(s.epoch, info.epoch);
      error := None;
    }

    static method ImportSessionInfo(key: ClientKey, name: Option<bytes>, encodedInfo: bytes, generatedAt: Time,
                                    now: Time)
      returns (s: Signer?, error: Option<AuthError>)
      ensures match Spec.ImportSessionInfo(key, name, encodedInfo, generatedAt, now)
              case Ok(state) => s != null && fresh(s) && s.State() == state && error.None?
              case Err(e) => s == null && error == Some(e)
    {
      var info := key.codec.unmarshal(encodedInfo);
      if info.None? {
        return null, Some(ProtocolFault(FAULT_DECODING));
      }
      s, error := NewSigner(key, name, info.value, now);
      if error.Some? {
        return;
      }
      s.timeZero := Add(generatedAt, -(info.value.clockTime * SECOND));
    }

    static method NewAuthenticatedSigner(key: ClientKey, name: Option<bytes>, challenge: Option<bytes>,
                                         encodedInfo: bytes, tag: bytes, generatedAt: Time, now: Time)
      returns (s: Signer?, error: Option<AuthError>)
      ensures match Spec.NewAuthenticatedSigner(key, name, challenge, encodedInfo, tag, generatedAt, now)
              case Ok(state) => s != null && fresh(s) && s.State() == state && error.None?
              case Err(e) => s == null && error == Some(e)
    {
      s, error := ImportSessionInfo(key, name, encodedInfo, generatedAt, now);
      if error.Some? {
        return;
      }
      var validTag := ComputeSessionInfoHmac(s.suite, name, challenge, encodedInfo);
      if validTag.Err? {
        return null, Some(validTag.error);
      }
      if validTag.value != tag {
        return null, Some(ProtocolFault(FAULT_INVALID_SIGNATURE));
      }
    }

    method ExportSessionInfo(now: Time) returns (encodedInfo: bytes)
      ensures encodedInfo == suite.codec.marshal(ExportedInfo(State(), now))
    {
      encodedInfo := suite.codec.marshal(SessionInfo(counter, verifierPublic, epoch, Timestamp(timeZero, now), 0,
                                                     INFO_OK));
    }

    method UpdateSessionInfo(info: SessionInfo, now: Time) returns (error: Option<AuthError>)
      modifies this
      ensures (State(), error) == Spec.UpdateSessionInfo(old(State()), info, now)
    {
      if info.publicKey != verifierPublic {
        return Some(ProtocolFault(FAULT_UNKNOWN_KEY_ID));
      }
      if epoch != info.epoch || setTime <= info.clockTime {
        if counter < info.counter {
          counter := info.counter;
        }
        epoch := CopyInto(epoch, info.epoch);
        setTime := info.clockTime;
        timeZero := EpochStartTime(now, info.clockTime);
      }
      error := None;
    }

    method UpdateSignedSessionInfo(challenge: Option<bytes>, encodedInfo: bytes, tag: bytes, now: Time)
      returns (error: Option<AuthError>)
      modifies this
      ensures (State(), error) == Spec.UpdateSignedSessionInfo(old(State()), challenge, encodedInfo, tag, now)
    {
      var validTag := ComputeSessionInfoHmac(suite, name, challenge, encodedInfo);
      if validTag.Err? {
        return Some(validTag.error);
      }
      if validTag.value != tag {
        return Some(ProtocolFault(FAULT_INVALID_SIGNATURE));
      }
      var info := suite.codec.unmarshal(encodedInfo);
      if info.None? {
        return Some(ProtocolFault(FAULT_DECODING));
      }
      error := UpdateSessionInfo(info.value, now);
    }

    method EncryptWithCounter(message: RoutableMessage, expiresIn: int, messageCounter: u32, now: Time,
                              nonce: Option<bytes>)
      returns (message': RoutableMessage, error: Option<AuthError>)
      ensures (message', error) == Spec.EncryptWithCounter(State(), message, expiresIn, messageCounter, now, nonce)
    {
      var expiresAt := ExpiresAt(timeZero, now, expiresIn);
      message' := message.(signature := Gcm(Some(epoch), [], messageCounter, expiresAt, []));
      var meta := new Tlv.Metadata();
      error := ExtractMetadata(meta, name, epoch, message', expiresAt, messageCounter, TYPE_GCM_PERSONALIZED);
      if error.Some? {
        return;
      }
      if !message'.payload.ProtobufMessage? {
        return message', Some(ProtocolFault(FAULT_BAD_PARAMETER));
      }
      var preimage := meta.Checksum([]);
      if nonce.None? {
        return message'.(payload := ProtobufMessage([])), Some(ProtocolFault(FAULT_INTERNAL));
      }
      var sealed := suite.seal(nonce.value, message'.payload.data, suite.digest(preimage));
      message' := message'.(signature := Gcm(Some(epoch), nonce.value, messageCounter, expiresAt, sealed.1),
                            payload := ProtobufMessage(sealed.0));
      error := None;
    }

    method Encrypt(message: RoutableMessage, expiresIn: int, now: Time, nonce: Option<bytes>)
      returns (message': RoutableMessage, error: Option<AuthError>)
      modifies this`counter
      ensures (State(), message', error) == Spec.Encrypt(old(State()), message, expiresIn, now, nonce)
    {
      if counter == MAX_U32 {
        return message, Some(ProtocolFault(FAULT_INVALID_TOKEN_OR_COUNTER));
      }
      counter := counter + 1;
      message', error := EncryptWithCounter(message, expiresIn, counter, now, nonce);
    }

    method AuthorizeHmac(message: RoutableMessage, expiresIn: int, now: Time)
      returns (message': RoutableMessage, error: Option<AuthError>)
      modifies this`counter
      ensures (State(), message', error) == Spec.AuthorizeHmac(old(State()), message, expiresIn, now)
    {
      counter := ToU32(counter + 1);
      var expiresAt := ExpiresAt(timeZero, now, expiresIn);
      var tag := ComputeHmacTag(suite, name, epoch, message, expiresAt, counter);
      if tag.Ok? {
        return message.(signature := Hmac(Some(epoch), counter, expiresAt, tag.value)), None;
      }
      return message.(signature := Hmac(Some(epoch), counter, expiresAt, [])), Some(tag.error);
    }

    method Decrypt(message: RoutableMessage, id: Option<bytes>) returns (message': RoutableMessage, r: Result<u32>)
      ensures (message', r) == Spec.Decrypt(State(), message, id)
    {
      if !message.signature.GcmResponse? {
        return message, Err(ProtocolFault(FAULT_BAD_PARAMETER));
      }
      var g := message.signature;
      var data := ComputeResponseData(suite, name, message, id, g.responseCounter);
      if data.Err? {
        return message, Ok(0);
      }
      var plaintext := suite.open(g.responseNonce, message.ProtobufBytes(), data.value, g.responseTag);
      if plaintext.None? {
        return message, Err(DecryptionFailed);
      }
      return message.(payload := ProtobufMessage(plaintext.value), signature := NoSignature), Ok(g.responseCounter);
    }
  }
}
