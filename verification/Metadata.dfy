/** internal/authentication/metadata.go: the tag-length-value encoding of authenticated
    metadata. The file header promises that the encoding is injective. */
module Tlv {
  import opened Primitives

  /** signatures.Tag without TAG_END, which only Checksum writes. */
  datatype Tag = SignatureType | Domain | Personalization | Epoch | ExpiresAt
               | Counter | Challenge | Flags | RequestHash | Fault
  {
    function Code(): byte {
      match this
      case SignatureType => 0
      case Domain => 1
      case Personalization => 2
      case Epoch => 3
      case ExpiresAt => 4
      case Counter => 5
      case Challenge => 6
      case Flags => 7
      case RequestHash => 8
      case Fault => 9
    }
  }

  const TAG_END: byte := 255

  datatype AnyField = AnyField(tag: Tag, value: bytes)
  type Field = f: AnyField | |f.value| <= 255 witness AnyField(SignatureType, [])

  datatype AddError = OutOfOrder | TooLong

  function EncodeField(f: Field): bytes {
    [f.tag.Code(), |f.value|] + f.value
  }

  function Encode(fields: seq<Field>): bytes {
    if fields == [] then [] else EncodeField(fields[0]) + Encode(fields[1..])
  }

  /** The byte string that is hashed: the fields, the end marker and the message. */
  function Terminated(fields: seq<Field>, message: bytes): bytes {
    Encode(fields) + [TAG_END] + message
  }

  /** A big-endian uint32 field. */
  function U32Field(tag: Tag, value: u32): Field {
    AnyField(tag, BigEndian(value, 4))
  }

  lemma {:induction false} EncodeAppend(a: seq<Field>, b: seq<Field>)
    ensures Encode(a + b) == Encode(a) + Encode(b)
  {
    if a == [] {
      assert a + b == b;
    } else {
      EncodeAppend(a[1..], b);
      assert (a + b)[1..] == a[1..] + b;
    }
  }

  lemma EncodeOne(f: Field)
    ensures Encode([f]) == EncodeField(f)
  {
    assert Encode([f][1..]) == [];
  }

  lemma TerminatedStep(fields: seq<Field>, message: bytes)
    requires fields != []
    ensures var t := Terminated(fields, message);
            && |t| >= 2 + |fields[0].value|
            && t[0] == fields[0].tag.Code()
            && t[1] == |fields[0].value|
            && t[2..2 + |fields[0].value|] == fields[0].value
            && t[2 + |fields[0].value|..] == Terminated(fields[1..], message)
  {
    var t := Terminated(fields, message);
    assert t == EncodeField(fields[0]) + Terminated(fields[1..], message);
  }

  function TagsOf(items: seq<Field>): set<Tag> {
    set i | 0 <= i < |items| :: items[i].tag
  }

  lemma TagsOfAppend(items: seq<Field>, f: Field)
    ensures TagsOf(items + [f]) == TagsOf(items) + {f.tag}
  {
    forall t | t in TagsOf(items) + {f.tag} ensures t in TagsOf(items + [f]) {
      if t in TagsOf(items) {
        var i :| 0 <= i < |items| && items[i].tag == t;
        assert (items + [f])[i].tag == t;
      } else {
        assert (items + [f])[|items|].tag == t;
      }
    }
  }

  lemma CodeInjective(a: Tag, b: Tag)
    ensures a.Code() == b.Code() ==> a == b
  {
  }

  /** The promise in the file header: equal byte strings come from equal field lists and
      equal messages. */
  lemma {:induction false} EncodingInjective(a: seq<Field>, m: bytes, b: seq<Field>, n: bytes)
    requires Terminated(a, m) == Terminated(b, n)
    ensures a == b && m == n
    decreases |a| + |b|
  {
    if a == [] && b == [] {
      assert Terminated(a, m)[1..] == m;
      assert Terminated(b, n)[1..] == n;
    } else if a == [] {
      assert Terminated(a, m)[0] == TAG_END;
      TerminatedStep(b, n);
    } else if b == [] {
      assert Terminated(b, n)[0] == TAG_END;
      TerminatedStep(a, m);
    } else {
      TerminatedStep(a, m);
      TerminatedStep(b, n);
      CodeInjective(a[0].tag, b[0].tag);
      EncodingInjective(a[1..], m, b[1..], n);
      assert a == [a[0]] + a[1..] && b == [b[0]] + b[1..];
    }
  }

  /** The running hash is represented by the bytes written to it so far. `items` is the
      list of fields those bytes encode. */
  class Metadata {
    var context: bytes
    var fields: set<Tag>
    var last: byte
    ghost var items: seq<Field>

    ghost predicate Valid()
      reads this
    {
      && context == Encode(items)
      && fields == TagsOf(items)
    }

    constructor ()
      ensures Valid() && items == [] && last == 0
    {
      context, fields, last := [], {}, 0;
      items := [];
    }

    method Add(tag: Tag, value: Option<bytes>) returns (error: Option<AddError>)
      requires Valid()
      modifies this
      ensures Valid()
      ensures error == if tag.Code() < old(last) then Some(OutOfOrder)
                       else if value.Some? && |value.value| > 255 then Some(TooLong)
                       else None
      ensures error.Some? || value.None? ==> items == old(items) && last == old(last) && context == old(context)
      ensures error.None? && value.Some? ==>
                items == old(items) + [AnyField(tag, value.value)] && last == tag.Code()
    {
      if tag.Code() < last {
        return Some(OutOfOrder);
      }
      if value.None? {
        return None;
      }
      if |value.value| > 255 {
        return Some(TooLong);
      }
      last := tag.Code();
      context := context + [tag.Code()];
      context := context + [|value.value|];
      context := context + value.value;
      fields := fields + {tag};
      ghost var f: Field := AnyField(tag, value.value);
      EncodeAppend(items, [f]);
      EncodeOne(f);
      TagsOfAppend(items, f);
      items := items + [f];
      error := None;
    }

    method AddUint32(tag: Tag, value: u32) returns (error: Option<AddError>)
      requires Valid()
      modifies this
      ensures Valid()
      ensures error == if tag.Code() < old(last) then Some(OutOfOrder) else None
      ensures error.Some? ==> items == old(items) && last == old(last)
      ensures error.None? ==> items == old(items) + [U32Field(tag, value)] && last == tag.Code()
    {
      error := Add(tag, Some(BigEndian(value, 4)));
    }

    /** Writes the end marker and the message; the result is what the hash is taken of. */
    method Checksum(message: bytes) returns (preimage: bytes)
      requires Valid()
      modifies this`context
      ensures preimage == Terminated(old(items), message)
    {
      context := context + [TAG_END];
      context := context + message;
      preimage := context;
    }
  }
}
