/** Decoding of signed signer messages (signer/src/ecdsa.rs). The framing is protobuf: a
    varint key with field number and wire type, then the field. What the three embedded
    messages look like inside, and the hash, are parameters. */
module SignedMessage {
  import opened Basics
  import opened Leb128

  type Signature = int
  type PublicKey = int
  type SignerMessage = int
  type Digest = int

  /** proto::Signed */
  datatype Proto = Proto(
    signature: Option<Signature>,
    signerPublicKey: Option<PublicKey>,
    signerMessage: Option<SignerMessage>)

  datatype Signed = Signed(inner: SignerMessage, signature: Signature, signerPublicKey: PublicKey)

  datatype Failure = DecodeProtobuf | ProtobufTagCodec | Conversion

  /** The merge functions read a payload into the value of their own field, if it already has
      one; `group` is the length of a group that is skipped; `convert` says whether the
      parts convert to the local types. */
  datatype Codec = Codec(
    mergeSignature: (Option<Signature>, Bytes) -> Option<Signature>,
    mergeKey: (Option<PublicKey>, Bytes) -> Option<PublicKey>,
    mergeMessage: (Option<SignerMessage>, Bytes) -> Option<SignerMessage>,
    group: (nat, Bytes) -> Option<nat>,
    putSignature: Signature -> Bytes,
    putKey: PublicKey -> Bytes,
    putMessage: SignerMessage -> Bytes,
    convert: Signed -> bool,
    typeTag: SignerMessage -> Bytes,
    hash: (Bytes, Bytes) -> Digest)
  {
    /** The parts of `signed` are read back from what they are written as. */
    ghost predicate Encodes(signed: Signed) {
      && mergeSignature(None, putSignature(signed.signature)) == Some(signed.signature)
      && mergeKey(None, putKey(signed.signerPublicKey)) == Some(signed.signerPublicKey)
      && mergeMessage(None, putMessage(signed.inner)) == Some(signed.inner)
      && |putSignature(signed.signature)| < MAX_PAYLOAD
      && |putKey(signed.signerPublicKey)| < MAX_PAYLOAD
      && |putMessage(signed.inner)| < MAX_PAYLOAD
    }
  }

  const MAX_PAYLOAD: nat := 0x8000_0000

  const EMPTY: Proto := Proto(None, None, None)

  // ---------------------------------------------------------------------
  // Fields
  // ---------------------------------------------------------------------

  datatype Key = Key(tag: nat, wireType: nat, size: nat)

  /** `decode_key` */
  function KeyAt(b: Bytes): (r: Option<Key>)
    ensures r.Some? ==> 0 < r.value.size <= |b| && r.value.tag > 0
  {
    match Decoded(b)
    case Err(_) => None
    case Ok((key, k)) =>
      if key >= 0x1_0000_0000 || key % 8 > 5 || key / 8 == 0 then None else Some(Key(key / 8, key % 8, k))
  }

  datatype Body = Body(payload: Bytes, size: nat)

  /** The rest of a field after its key. The three known fields are length-delimited; any other
      is skipped by its wire type. */
  function BodyAt(codec: Codec, key: Key, b: Bytes): (r: Option<Body>)
    ensures r.Some? ==> r.value.size <= |b|
  {
    if key.tag <= 3 && key.wireType != 2 then None
    else if key.wireType == 0 then (match Decoded(b) case Ok((_, k)) => Some(Body([], k)) case Err(_) => None)
    else if key.wireType == 1 then if |b| < 8 then None else Some(Body([], 8))
    else if key.wireType == 5 then if |b| < 4 then None else Some(Body([], 4))
    else if key.wireType == 2 then
      (match Decoded(b)
       case Ok((n, k)) => if k + n > |b| then None else Some(Body(b[k..k + n], k + n))
       case Err(_) => None)
    else if key.wireType == 3 then
      var n := codec.group(key.tag, b);
      if n.Some? && n.value <= |b| then Some(Body([], n.value)) else None
    else None
  }

  /** `merge_field` into the message. */
  function Merge(codec: Codec, msg: Proto, tag: nat, payload: Bytes): Option<Proto> {
    if tag == 1 then
      var s := codec.mergeSignature(msg.signature, payload);
      if s.None? then None else Some(msg.(signature := s))
    else if tag == 2 then
      var k := codec.mergeKey(msg.signerPublicKey, payload);
      if k.None? then None else Some(msg.(signerPublicKey := k))
    else if tag == 3 then
      var m := codec.mergeMessage(msg.signerMessage, payload);
      if m.None? then None else Some(msg.(signerMessage := m))
    else Some(msg)
  }

  /** One field from the front of `b` merged into `msg`: its number, size and the result. */
  datatype Taken = Taken(tag: nat, size: nat, msg: Proto)

  function Take(codec: Codec, b: Bytes, msg: Proto): (r: Option<Taken>)
    ensures r.Some? ==> 0 < r.value.size <= |b| && r.value.tag > 0
  {
    var key := KeyAt(b);
    if key.None? then None
    else
      var body := BodyAt(codec, key.value, b[key.value.size..]);
      if body.None? then None
      else
        var merged := Merge(codec, msg, key.value.tag, body.value.payload);
        if merged.None? then None else Some(Taken(key.value.tag, key.value.size + body.value.size, merged.value))
  }

  // ---------------------------------------------------------------------
  // The decoder
  // ---------------------------------------------------------------------

  /** The loop of `decode_with_digest` from any point: the message, and the data to hash. */
  function Decode(codec: Codec, b: Bytes, hashed: Bytes, lastTag: nat, msg: Proto): Result<(Proto, Bytes), Failure>
    decreases |b|
  {
    if b == [] then Ok((msg, hashed))
    else if KeyAt(b).None? then Err(DecodeProtobuf)
    else if KeyAt(b).value.tag < lastTag then Err(ProtobufTagCodec)
    else match Take(codec, b, msg)
      case None => Err(DecodeProtobuf)
      case Some(f) => Decode(codec, b[f.size..], if f.tag == 1 then b[f.size..] else hashed, f.tag, f.msg)
  }

  function Convert(codec: Codec, msg: Proto): Option<Signed> {
    if msg.signature.None? || msg.signerPublicKey.None? || msg.signerMessage.None? then None
    else
      var signed := Signed(msg.signerMessage.value, msg.signature.value, msg.signerPublicKey.value);
      if codec.convert(signed) then Some(signed) else None
  }

  function WithDigest(codec: Codec, data: Bytes): Result<(Signed, Digest), Failure> {
    match Decode(codec, data, data, 0, EMPTY)
    case Err(e) => Err(e)
    case Ok((msg, hashed)) =>
      match Convert(codec, msg)
      case None => Err(Conversion)
      case Some(signed) => Ok((signed, codec.hash(codec.typeTag(signed.inner), hashed)))
  }

  /** `decode_with_digest` */
  method DecodeWithDigest(codec: Codec, data: Bytes) returns (r: Result<(Signed, Digest), Failure>)
    ensures r == WithDigest(codec, data)
  {
    var buf, hashed, lastTag, msg := data, data, 0, EMPTY;
    while buf != []
      invariant Decode(codec, data, data, 0, EMPTY) == Decode(codec, buf, hashed, lastTag, msg)
      decreases |buf|
    {
      var key := KeyAt(buf);
      if key.None? {
        return Err(DecodeProtobuf);
      }
      if key.value.tag < lastTag {
        return Err(ProtobufTagCodec);
      }
      lastTag := key.value.tag;
      var body := BodyAt(codec, key.value, buf[key.value.size..]);
      if body.None? {
        return Err(DecodeProtobuf);
      }
      var merged := Merge(codec, msg, lastTag, body.value.payload);
      if merged.None? {
        return Err(DecodeProtobuf);
      }
      msg := merged.value;
      buf := buf[key.value.size + body.value.size..];
      if lastTag == 1 {
        hashed := buf;
      }
    }
    var signed := Convert(codec, msg);
    if signed.None? {
      return Err(Conversion);
    }
    return Ok((signed.value, codec.hash(codec.typeTag(signed.value.inner), hashed)));
  }

  // ---------------------------------------------------------------------
  // What is hashed, and what it decides
  // ---------------------------------------------------------------------

  /** Bytes of the leading fields with number 1. */
  function Lead(codec: Codec, b: Bytes, msg: Proto): (n: nat)
    ensures n <= |b|
    decreases |b|
  {
    var f := Take(codec, b, msg);
    if f.Some? && f.value.tag == 1 then f.value.size + Lead(codec, b[f.value.size..], f.value.msg) else 0
  }

  /** Plain protobuf decoding: fields in any order, nothing hashed. */
  function Fields(codec: Codec, b: Bytes, msg: Proto): Option<Proto>
    decreases |b|
  {
    if b == [] then Some(msg)
    else match Take(codec, b, msg)
      case None => None
      case Some(f) => Fields(codec, b[f.size..], f.msg)
  }

  /** A field with another number neither reads nor changes the signature. */
  lemma TakeOther(codec: Codec, b: Bytes, msg: Proto, s: Option<Signature>)
    requires Take(codec, b, msg).Some? && Take(codec, b, msg).value.tag != 1
    ensures var f := Take(codec, b, msg).value;
            && f.msg.signature == msg.signature
            && Take(codec, b, msg.(signature := s)) == Some(f.(msg := f.msg.(signature := s)))
  {
    hide KeyAt, BodyAt;
  }

  /** A field with number 1 changes nothing but the signature. */
  lemma TakeSignature(codec: Codec, b: Bytes, msg: Proto)
    requires Take(codec, b, msg).Some? && Take(codec, b, msg).value.tag == 1
    ensures var f := Take(codec, b, msg).value; f.msg == msg.(signature := f.msg.signature)
  {
    hide KeyAt, BodyAt;
  }

  lemma TakeKey(codec: Codec, b: Bytes, msg: Proto)
    requires Take(codec, b, msg).Some?
    ensures KeyAt(b).Some? && KeyAt(b).value.tag == Take(codec, b, msg).value.tag
  {
    hide KeyAt, BodyAt;
  }

  /** Once a field above 1 has been seen the hashed data stays and no signature is read. */
  lemma {:induction false} AfterLead(codec: Codec, b: Bytes, hashed: Bytes, lastTag: nat, msg: Proto,
                                     s: Option<Signature>)
    requires lastTag >= 2 && Decode(codec, b, hashed, lastTag, msg).Ok?
    ensures var (out, suffix) := Decode(codec, b, hashed, lastTag, msg).value;
            && suffix == hashed && out.signature == msg.signature
            && Fields(codec, b, msg.(signature := s)) == Some(out.(signature := s))
    decreases |b|
  {
    hide Take, KeyAt;
    if b != [] {
      var f := Take(codec, b, msg).value;
      TakeKey(codec, b, msg);
      TakeOther(codec, b, msg, s);
      AfterLead(codec, b[f.size..], hashed, f.tag, f.msg, s);
    }
  }

  lemma LeadOfNothing(codec: Codec, b: Bytes, msg: Proto)
    requires b == []
    ensures Lead(codec, b, msg) == 0 && b[0..] == b && Take(codec, b, msg).None? && KeyAt(b).None?
  {}

  /** From the start: the leading run of number-1 fields is read into the signature, and what
      follows it is hashed and decides the rest. */
  lemma {:induction false} FromLead(codec: Codec, b: Bytes, hashed: Bytes, lastTag: nat, msg: Proto)
    requires lastTag <= 1 && Decode(codec, b, hashed, lastTag, msg).Ok?
    requires msg.signerPublicKey.None? && msg.signerMessage.None?
    ensures var (out, suffix) := Decode(codec, b, hashed, lastTag, msg).value;
            var n := Lead(codec, b, msg);
            && suffix == (if n == 0 then hashed else b[n..])
            && Fields(codec, b[n..], EMPTY) == Some(out.(signature := None))
    decreases |b|
  {
    hide KeyAt, Take;
    if b == [] {
      LeadOfNothing(codec, b, msg);
    } else {
      var f := Take(codec, b, msg).value;
      TakeKey(codec, b, msg);
      var rest := b[f.size..];
      if f.tag == 1 {
        TakeSignature(codec, b, msg);
        FromLead(codec, rest, rest, 1, f.msg);
        var m := Lead(codec, rest, f.msg);
        assert b[f.size + m..] == rest[m..];
        assert m == 0 ==> rest[m..] == rest;
      } else {
        assert b[0..] == b;
        TakeOther(codec, b, msg, None);
        AfterLead(codec, rest, hashed, f.tag, f.msg, None);
      }
    }
  }

  /** An accepted input: what is hashed is what follows the leading run of signature fields,
      and decoding that alone, by plain protobuf rules, gives the same public key and message
      and no signature. */
  lemma HashedSuffix(codec: Codec, data: Bytes) returns (suffix: Bytes)
    requires WithDigest(codec, data).Ok?
    ensures var (signed, digest) := WithDigest(codec, data).value;
            && suffix == data[Lead(codec, data, EMPTY)..]
            && digest == codec.hash(codec.typeTag(signed.inner), suffix)
            && Fields(codec, suffix, EMPTY) == Some(Proto(None, Some(signed.signerPublicKey), Some(signed.inner)))
  {
    hide Decode, Lead, Fields;
    FromLead(codec, data, data, 0, EMPTY);
    suffix := data[Lead(codec, data, EMPTY)..];
    assert data[0..] == data;
  }

  /** Two accepted inputs that agree after their signatures agree in public key, message and
      digest. */
  lemma SuffixDecides(codec: Codec, a: Bytes, b: Bytes)
    requires WithDigest(codec, a).Ok? && WithDigest(codec, b).Ok?
    requires a[Lead(codec, a, EMPTY)..] == b[Lead(codec, b, EMPTY)..]
    ensures var (x, dx) := WithDigest(codec, a).value;
            var (y, dy) := WithDigest(codec, b).value;
            x.inner == y.inner && x.signerPublicKey == y.signerPublicKey && dx == dy
  {
    hide WithDigest, Lead, Fields;
    var _ := HashedSuffix(codec, a);
    var _ := HashedSuffix(codec, b);
  }

  // ---------------------------------------------------------------------
  // Exactly what is accepted
  // ---------------------------------------------------------------------

  /** The field numbers in the order of the fields, as far as these can be read. */
  function Tags(codec: Codec, b: Bytes, msg: Proto): seq<nat>
    decreases |b|
  {
    match Take(codec, b, msg)
    case None => []
    case Some(f) => [f.tag] + Tags(codec, b[f.size..], f.msg)
  }

  predicate Rising(tags: seq<nat>) {
    forall i, j :: 0 <= i < j < |tags| ==> tags[i] <= tags[j]
  }

  lemma RisingFrom(first: nat, second: nat, rest: seq<nat>)
    ensures Rising([first] + ([second] + rest)) <==> first <= second && Rising([second] + rest)
  {
    var short, long := [second] + rest, [first] + ([second] + rest);
    assert long[0] == first && long[1] == second;
    assert forall i :: 0 <= i < |short| ==> long[i + 1] == short[i];
    if first <= second && Rising(short) {
      forall i, j | 0 <= i < j < |long| ensures long[i] <= long[j] {
        assert i > 0 ==> long[i] == short[i - 1];
        assert long[j] == short[j - 1] && short[0] <= short[j - 1];
      }
    }
    if Rising(long) {
      forall i, j | 0 <= i < j < |short| ensures short[i] <= short[j] {
        assert long[i + 1] <= long[j + 1];
      }
    }
  }

  /** The loop succeeds exactly when plain decoding does and the numbers never fall; then the
      message is the same. It complains about the order exactly when a number falls no later than
      at the first field that cannot be read. */
  lemma {:induction false} DecodeExactly(codec: Codec, b: Bytes, hashed: Bytes, lastTag: nat, msg: Proto)
    ensures var r := Decode(codec, b, hashed, lastTag, msg);
            && (r.Ok? <==> Fields(codec, b, msg).Some? && Rising([lastTag] + Tags(codec, b, msg)))
            && (r.Ok? ==> Fields(codec, b, msg) == Some(r.value.0))
            && (r == Err(ProtobufTagCodec) <==> !Rising([lastTag] + TagsAndNext(codec, b, msg)))
    decreases |b|
  {
    hide KeyAt, Take, Rising;
    OneRises(lastTag);
    assert [lastTag] + [] == [lastTag];
    if b == [] {
      LeadOfNothing(codec, b, msg);
    } else {
      var f := Take(codec, b, msg);
      if f.Some? {
        TakeKey(codec, b, msg);
        var rest := b[f.value.size..];
        DecodeExactly(codec, rest, if f.value.tag == 1 then rest else hashed, f.value.tag, f.value.msg);
        RisingFrom(lastTag, f.value.tag, Tags(codec, rest, f.value.msg));
        RisingFrom(lastTag, f.value.tag, TagsAndNext(codec, rest, f.value.msg));
      } else if KeyAt(b).Some? {
        OneRises(KeyAt(b).value.tag);
        RisingFrom(lastTag, KeyAt(b).value.tag, []);
        assert [KeyAt(b).value.tag] + [] == [KeyAt(b).value.tag];
      }
    }
  }

  lemma OneRises(tag: nat)
    ensures Rising([tag])
  {}

  /** The numbers of the fields that can be read, and of the next one if at least its key can. */
  function TagsAndNext(codec: Codec, b: Bytes, msg: Proto): seq<nat>
    decreases |b|
  {
    match Take(codec, b, msg)
    case None => if KeyAt(b).Some? then [KeyAt(b).value.tag] else []
    case Some(f) => [f.tag] + TagsAndNext(codec, b[f.size..], f.msg)
  }

  /** An input is accepted as `signed` exactly when plain decoding gives all three parts of it, the
      field numbers never fall and the parts convert; the digest is over what follows the leading
      signature fields. */
  lemma AcceptedExactly(codec: Codec, data: Bytes, signed: Signed, digest: Digest)
    ensures WithDigest(codec, data) == Ok((signed, digest)) <==>
            && Fields(codec, data, EMPTY) == Some(Proto(Some(signed.signature), Some(signed.signerPublicKey),
                                                        Some(signed.inner)))
            && Rising(Tags(codec, data, EMPTY)) && codec.convert(signed)
            && digest == codec.hash(codec.typeTag(signed.inner), data[Lead(codec, data, EMPTY)..])
  {
    hide Decode, Fields, Tags, Lead, Rising;
    DecodeExactly(codec, data, data, 0, EMPTY);
    FromZero(Tags(codec, data, EMPTY));
    var r := Decode(codec, data, data, 0, EMPTY);
    if r.Ok? {
      FromLead(codec, data, data, 0, EMPTY);
      assert data[0..] == data;
    }
  }

  lemma FromZero(tags: seq<nat>)
    ensures Rising([0] + tags) <==> Rising(tags)
  {
    if tags == [] {
      OneRises(0);
      assert [0] + tags == [0];
    } else {
      RisingFrom(0, tags[0], tags[1..]);
      assert [tags[0]] + tags[1..] == tags;
    }
  }

  // ---------------------------------------------------------------------
  // Encoding
  // ---------------------------------------------------------------------

  /** A length-delimited field. */
  function PutField(tag: nat, payload: Bytes): Bytes {
    Encode(8 * tag + 2) + Encode(|payload|) + payload
  }

  /** `encode_to_vec`: the fields that are there, in order. */
  function EncodeProto(codec: Codec, msg: Proto): Bytes {
    (if msg.signature.Some? then PutField(1, codec.putSignature(msg.signature.value)) else [])
    + (if msg.signerPublicKey.Some? then PutField(2, codec.putKey(msg.signerPublicKey.value)) else [])
    + (if msg.signerMessage.Some? then PutField(3, codec.putMessage(msg.signerMessage.value)) else [])
  }

  function ToProto(signed: Signed): Proto {
    Proto(Some(signed.signature), Some(signed.signerPublicKey), Some(signed.inner))
  }

  /** `to_digest` */
  function ToDigest(codec: Codec, inner: SignerMessage, key: PublicKey): Digest {
    codec.hash(codec.typeTag(inner), EncodeProto(codec, Proto(None, Some(key), Some(inner))))
  }

  lemma KeyOfField(tag: nat, payload: Bytes, tail: Bytes)
    requires 1 <= tag <= 3
    ensures KeyAt(PutField(tag, payload) + tail) == Some(Key(tag, 2, |Encode(8 * tag + 2)|))
  {
    var rest := Encode(|payload|) + payload + tail;
    RoundTrip(8 * tag + 2, rest);
    hide Encode, Decoded;
    assert PutField(tag, payload) + tail == Encode(8 * tag + 2) + rest;
  }

  lemma BodyOfField(codec: Codec, tag: nat, payload: Bytes, tail: Bytes)
    requires 1 <= tag <= 3 && |payload| < MAX_PAYLOAD
    ensures var b := Encode(|payload|) + payload + tail;
            BodyAt(codec, Key(tag, 2, |Encode(8 * tag + 2)|), b) == Some(Body(payload, |Encode(|payload|)| + |payload|))
  {
    var b := Encode(|payload|) + payload + tail;
    RoundTrip(|payload|, payload + tail);
    hide Encode, Decoded;
    assert b == Encode(|payload|) + (payload + tail);
    var k := |Encode(|payload|)|;
    assert b[k..k + |payload|] == payload;
  }

  lemma TakeField(codec: Codec, tag: nat, payload: Bytes, tail: Bytes, msg: Proto)
    requires 1 <= tag <= 3 && |payload| < MAX_PAYLOAD && Merge(codec, msg, tag, payload).Some?
    ensures var b := PutField(tag, payload) + tail;
            var n := |PutField(tag, payload)|;
            Take(codec, b, msg) == Some(Taken(tag, n, Merge(codec, msg, tag, payload).value)) && b[n..] == tail
  {
    hide Encode, Decoded, KeyAt, BodyAt, Merge;
    KeyOfField(tag, payload, tail);
    BodyOfField(codec, tag, payload, tail);
    var b := PutField(tag, payload) + tail;
    assert b[|Encode(8 * tag + 2)|..] == Encode(|payload|) + payload + tail;
  }

  lemma DecodeField(codec: Codec, tag: nat, payload: Bytes, tail: Bytes, hashed: Bytes, lastTag: nat, msg: Proto,
                    merged: Proto)
    requires 1 <= tag <= 3 && lastTag <= tag && |payload| < MAX_PAYLOAD
    requires Merge(codec, msg, tag, payload) == Some(merged)
    ensures Decode(codec, PutField(tag, payload) + tail, hashed, lastTag, msg)
         == Decode(codec, tail, if tag == 1 then tail else hashed, tag, merged)
  {
    hide PutField, Take, KeyAt, Merge;
    var b := PutField(tag, payload) + tail;
    TakeField(codec, tag, payload, tail, msg);
    TakeKey(codec, b, msg);
    assert b != [] by { TakeSome(codec, b, msg); }
  }

  lemma TakeSome(codec: Codec, b: Bytes, msg: Proto)
    requires Take(codec, b, msg).Some?
    ensures b != []
  {}

  /** After the three parts of an encoded message, what follows is still to be decoded. */
  lemma DecodeThree(codec: Codec, signed: Signed, tail: Bytes)
    requires codec.Encodes(signed)
    ensures var data := EncodeProto(codec, ToProto(signed)) + tail;
            var suffix := EncodeProto(codec, Proto(None, Some(signed.signerPublicKey), Some(signed.inner))) + tail;
            Decode(codec, data, data, 0, EMPTY) == Decode(codec, tail, suffix, 3, ToProto(signed))
  {
    hide PutField, Decode;
    var sig, key := codec.putSignature(signed.signature), codec.putKey(signed.signerPublicKey);
    var inner := codec.putMessage(signed.inner);
    var f1, f2, f3 := PutField(1, sig), PutField(2, key), PutField(3, inner);
    var data := EncodeProto(codec, ToProto(signed)) + tail;
    var m1 := Proto(Some(signed.signature), None, None);
    var m2 := m1.(signerPublicKey := Some(signed.signerPublicKey));
    DecodeField(codec, 1, sig, f2 + (f3 + tail), data, 0, EMPTY, m1);
    DecodeField(codec, 2, key, f3 + tail, f2 + (f3 + tail), 1, m1, m2);
    DecodeField(codec, 3, inner, tail, f2 + (f3 + tail), 2, m2, ToProto(signed));
    assert data == f1 + (f2 + (f3 + tail));
    assert EncodeProto(codec, Proto(None, Some(signed.signerPublicKey), Some(signed.inner))) + tail == f2 + (f3 + tail);
  }

  /** Decoding an encoded message gives the message back, with the digest its sender signed. */
  lemma SignedRoundTrip(codec: Codec, signed: Signed)
    requires codec.Encodes(signed) && codec.convert(signed)
    ensures WithDigest(codec, EncodeProto(codec, ToProto(signed))) ==
            Ok((signed, ToDigest(codec, signed.inner, signed.signerPublicKey)))
  {
    hide EncodeProto, Decode;
    var data := EncodeProto(codec, ToProto(signed));
    var suffix := EncodeProto(codec, Proto(None, Some(signed.signerPublicKey), Some(signed.inner)));
    DecodeThree(codec, signed, []);
    assert data + [] == data && suffix + [] == suffix;
    DecodeNothing(codec, suffix, 3, ToProto(signed));
  }

  lemma DecodeNothing(codec: Codec, hashed: Bytes, lastTag: nat, msg: Proto)
    ensures Decode(codec, [], hashed, lastTag, msg) == Ok((msg, hashed))
  {}

  /** The three parts by their key bytes. */
  lemma EncodedLayout(codec: Codec, signed: Signed)
    ensures var (sig, key) := (codec.putSignature(signed.signature), codec.putKey(signed.signerPublicKey));
            var inner := codec.putMessage(signed.inner);
            EncodeProto(codec, ToProto(signed)) ==
            ([0x0a] + Encode(|sig|) + sig) + ([0x12] + Encode(|key|) + key) + ([0x1a] + Encode(|inner|) + inner)
  {
    assert Encode(0x0a) == [0x0a] && Encode(0x12) == [0x12] && Encode(0x1a) == [0x1a];
  }

  // ---------------------------------------------------------------------
  // Fields the signer does not know
  // ---------------------------------------------------------------------

  /** A field with a number above 3, in each wire type but groups. */
  datatype Extra =
    | Varint(tag: nat, v: u64)
    | Fixed64(tag: nat, data: Bytes)
    | Delimited(tag: nat, data: Bytes)
    | Fixed32(tag: nat, data: Bytes)
  {
    predicate Valid() {
      && 4 <= tag < 0x2000_0000
      && match this
         case Varint(_, _) => true
         case Fixed64(_, data) => |data| == 8
         case Delimited(_, data) => |data| < MAX_PAYLOAD
         case Fixed32(_, data) => |data| == 4
    }

    function WireType(): nat {
      match this case Varint(_, _) => 0 case Fixed64(_, _) => 1 case Delimited(_, _) => 2 case Fixed32(_, _) => 5
    }

    function Content(): Bytes
      requires Valid()
    {
      match this
      case Varint(_, v) => Encode(v)
      case Fixed64(_, data) => data
      case Delimited(_, data) => Encode(|data|) + data
      case Fixed32(_, data) => data
    }

    function Print(): Bytes
      requires Valid()
    {
      Encode(8 * tag + WireType()) + Content()
    }
  }

  /** Valid, and with numbers that never fall from `lastTag` on. */
  predicate InOrder(extras: seq<Extra>, lastTag: nat) {
    extras != [] ==> extras[0].Valid() && lastTag <= extras[0].tag && InOrder(extras[1..], extras[0].tag)
  }

  function PrintExtras(extras: seq<Extra>, lastTag: nat): Bytes
    requires InOrder(extras, lastTag)
  {
    if extras == [] then [] else extras[0].Print() + PrintExtras(extras[1..], extras[0].tag)
  }

  lemma ExtraKey(x: Extra, tail: Bytes)
    requires x.Valid()
    ensures var k := |Encode(8 * x.tag + x.WireType())|;
            && KeyAt(x.Print() + tail) == Some(Key(x.tag, x.WireType(), k))
            && (x.Print() + tail)[k..] == x.Content() + tail
  {
    hide Encode, Decoded, KeyAt;
    KeyRead(x.tag, x.WireType(), x.Content() + tail);
    assert x.Print() + tail == Encode(8 * x.tag + x.WireType()) + (x.Content() + tail);
  }

  lemma KeyRead(tag: nat, wireType: nat, rest: Bytes)
    requires 1 <= tag < 0x2000_0000 && wireType <= 5
    ensures KeyAt(Encode(8 * tag + wireType) + rest) == Some(Key(tag, wireType, |Encode(8 * tag + wireType)|))
  {
    RoundTrip(8 * tag + wireType, rest);
    hide Encode, Decoded;
    assert (8 * tag + wireType) / 8 == tag && (8 * tag + wireType) % 8 == wireType;
  }

  lemma ExtraBody(codec: Codec, x: Extra, size: nat, tail: Bytes)
    requires x.Valid()
    ensures BodyAt(codec, Key(x.tag, x.WireType(), size), x.Content() + tail).Some?
    ensures BodyAt(codec, Key(x.tag, x.WireType(), size), x.Content() + tail).value.size == |x.Content()|
  {
    match x
    case Varint(_, v) => RoundTrip(v, tail);
    case Delimited(_, data) =>
      RoundTrip(|data|, data + tail);
      assert x.Content() + tail == Encode(|data|) + (data + tail);
    case _ =>
  }

  /** A field with another number is skipped, whatever it holds. */
  lemma TakeExtra(codec: Codec, x: Extra, tail: Bytes, msg: Proto)
    requires x.Valid()
    ensures Take(codec, x.Print() + tail, msg) == Some(Taken(x.tag, |x.Print()|, msg))
    ensures (x.Print() + tail)[|x.Print()|..] == tail
  {
    hide KeyAt, BodyAt, Encode, Extra.Content;
    ExtraKey(x, tail);
    ExtraBody(codec, x, |Encode(8 * x.tag + x.WireType())|, tail);
  }

  lemma {:induction false} DecodeExtras(codec: Codec, extras: seq<Extra>, hashed: Bytes, lastTag: nat, msg: Proto)
    requires InOrder(extras, lastTag)
    ensures Decode(codec, PrintExtras(extras, lastTag), hashed, lastTag, msg) == Ok((msg, hashed))
    decreases |extras|
  {
    hide Take, KeyAt, Extra.Print;
    if extras != [] {
      var x, rest := extras[0], PrintExtras(extras[1..], extras[0].tag);
      TakeExtra(codec, x, rest, msg);
      TakeKey(codec, x.Print() + rest, msg);
      TakeSome(codec, x.Print() + rest, msg);
      DecodeExtras(codec, extras[1..], hashed, x.tag, msg);
    }
  }

  /** Fields with numbers above 3 after an encoded message change nothing in it, and are part of
      what is hashed. */
  lemma UnknownFieldsHashed(codec: Codec, signed: Signed, extras: seq<Extra>)
    requires codec.Encodes(signed) && codec.convert(signed) && InOrder(extras, 3)
    ensures WithDigest(codec, EncodeProto(codec, ToProto(signed)) + PrintExtras(extras, 3)) ==
            Ok((signed, codec.hash(codec.typeTag(signed.inner),
                                   EncodeProto(codec, Proto(None, Some(signed.signerPublicKey), Some(signed.inner)))
                                   + PrintExtras(extras, 3))))
  {
    hide PutField, Decode, PrintExtras, InOrder;
    DecodeThree(codec, signed, PrintExtras(extras, 3));
    DecodeExtras(codec, extras, EncodeProto(codec, Proto(None, Some(signed.signerPublicKey), Some(signed.inner)))
                                + PrintExtras(extras, 3), 3, ToProto(signed));
  }

  // ---------------------------------------------------------------------
  // A codec that meets the assumptions
  // ---------------------------------------------------------------------

  function PutNumber(v: int): Bytes {
    if 0 <= v < 0x1_0000_0000_0000_0000 then Encode(v) else []
  }

  function MergeNumber(before: Option<int>, payload: Bytes): Option<int> {
    match Decoded(payload)
    case Ok((v, k)) => if k == |payload| then Some(v) else None
    case Err(_) => None
  }

  /** Numbers as varints: every signed message of 64-bit parts is encoded. */
  function NumberCodec(): Codec {
    Codec(MergeNumber, MergeNumber, MergeNumber, (_, _) => None, PutNumber, PutNumber, PutNumber, _ => true, _ => [],
          (prefix, data) => |prefix + data|)
  }

  lemma NumberCodecEncodes(inner: u64, signature: u64, key: u64)
    ensures NumberCodec().Encodes(Signed(inner, signature, key))
  {
    NumberRoundTrip(inner);
    NumberRoundTrip(signature);
    NumberRoundTrip(key);
  }

  lemma NumberRoundTrip(v: u64)
    ensures MergeNumber(None, PutNumber(v)) == Some(v) && |PutNumber(v)| < MAX_PAYLOAD
  {
    RoundTrip(v, []);
    assert Encode(v) + [] == Encode(v);
  }
}
