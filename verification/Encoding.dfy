/** Checksummed, tagged text encodings of keys. */
module Encoding {
  import opened Basics
  import opened Fields
  import opened Scopes
  import opened Primitives
  import opened Keys

  const TAG_SPEND_PUBLIC: byte := 0x01
  const TAG_READ_PUBLIC: byte := 0x02
  const TAG_READ_SECRET: byte := 0x03

  function Checksum(c: Crypto, data: seq<byte>): (cs: seq<byte>)
    ensures |cs| == 4
  {
    c.sha256(c.sha256(data))[..4]
  }

  function EncodeWithTag(c: Crypto, tag: byte, payload: seq<byte>): Str {
    var data := [tag] + payload;
    c.base58Encode(data + Checksum(c, data))
  }

  function DecodeWithTag(c: Crypto, encoded: Str, expectedTag: byte): Result<seq<byte>> {
    match c.base58Decode(encoded)
    case None => Err(EncodingError)
    case Some(data) =>
      if |data| < 5 then Err(EncodingError)
      else if data[0] != expectedTag then Err(InvalidTypeTag(expectedTag, data[0]))
      else
        var content, cs := data[..|data| - 4], data[|data| - 4..];
        if cs != Checksum(c, content) then Err(InvalidChecksum)
        else Ok(content[1..])
  }

  function EncodeSpendPublic(c: Crypto, key: Bytes32): Str {
    EncodeWithTag(c, TAG_SPEND_PUBLIC, key)
  }

  function DecodeSpendPublic(c: Crypto, encoded: Str): Result<Bytes32> {
    var bytes :- DecodeWithTag(c, encoded, TAG_SPEND_PUBLIC);
    if |bytes| != 32 then Err(EncodingError)
    else if !c.ed25519IsKey(bytes) then Err(InvalidKeyMaterial)
    else Ok(bytes)
  }

  function EncodeReadPublic(c: Crypto, key: Bytes32, scope: Scope): Str {
    EncodeWithTag(c, TAG_READ_PUBLIC, key + scope)
  }

  function DecodeReadPublic(c: Crypto, encoded: Str): Result<(Bytes32, Scope)> {
    var bytes :- DecodeWithTag(c, encoded, TAG_READ_PUBLIC);
    if |bytes| < 33 then Err(EncodingError)
    else if !ValidUtf8(bytes[32..]) then Err(EncodingError)
    else
      var scope :- New(bytes[32..]);
      Ok((bytes[..32], scope))
  }

  function EncodeExportedReadKey(c: Crypto, k: ExportedReadKey): Str {
    EncodeWithTag(c, TAG_READ_SECRET, ExportedPayload(k))
  }

  function ExportedPayload(k: ExportedReadKey): seq<byte> {
    k.secretBytes + (k.publicBytes + ((if k.parentKeyId.Some? then [1] + k.parentKeyId.value else [0]) + k.scope))
  }

  function DecodeExportedReadKey(c: Crypto, encoded: Str): Result<ExportedReadKey> {
    var bytes :- DecodeWithTag(c, encoded, TAG_READ_SECRET);
    if |bytes| < 65 then Err(EncodingError)
    else if bytes[64] == 1 && |bytes| < 73 then Err(EncodingError)
    else
      var (parent, start) := if bytes[64] == 1 then (Some(bytes[65..73]), 73) else (None, 65);
      if !ValidUtf8(bytes[start..]) then Err(EncodingError)
      else
        var scope :- New(bytes[start..]);
        Ok(ExportedReadKey(bytes[..32], bytes[32..64], scope, parent))
  }

  /** A tagged payload comes back under its own tag and under no other. */
  lemma TaggedRoundTrip(c: Crypto, tag: byte, payload: seq<byte>, expected: byte)
    ensures DecodeWithTag(c, EncodeWithTag(c, tag, payload), expected)
         == if tag == expected then Ok(payload) else Err(InvalidTypeTag(expected, tag))
  {
  }

  /** A spend public key comes back exactly when it is a valid point; every derived one is. */
  lemma SpendPublicRoundTrip(c: Crypto, key: Bytes32, seed: Bytes32)
    ensures DecodeSpendPublic(c, EncodeSpendPublic(c, key)) == Ok(key) <==> c.ed25519IsKey(key)
    ensures DecodeSpendPublic(c, EncodeSpendPublic(c, VerifyingKey(c, seed))) == Ok(VerifyingKey(c, seed))
  {
  }

  lemma ReadPublicRoundTrip(c: Crypto, key: Bytes32, scope: Scope)
    ensures DecodeReadPublic(c, EncodeReadPublic(c, key, scope)) == Ok((key, scope))
  {
    TaggedRoundTrip(c, TAG_READ_PUBLIC, key + scope, TAG_READ_PUBLIC);
    assert (key + scope)[..32] == key && (key + scope)[32..] == scope;
    ScopeIsUtf8(scope);
  }

  /** Exported keys, with or without a parent, survive encoding; under any other tag they are refused. */
  lemma ExportedKeyRoundTrip(c: Crypto, k: ExportedReadKey)
    ensures DecodeExportedReadKey(c, EncodeExportedReadKey(c, k)) == Ok(k)
    ensures DecodeReadPublic(c, EncodeExportedReadKey(c, k)) == Err(InvalidTypeTag(TAG_READ_PUBLIC, TAG_READ_SECRET))
    ensures DecodeSpendPublic(c, EncodeExportedReadKey(c, k)) == Err(InvalidTypeTag(TAG_SPEND_PUBLIC, TAG_READ_SECRET))
    ensures forall tag: byte | tag != TAG_READ_SECRET ::
              DecodeWithTag(c, EncodeExportedReadKey(c, k), tag) == Err(InvalidTypeTag(tag, TAG_READ_SECRET))
  {
    var bytes := ExportedPayload(k);
    forall tag: byte
      ensures DecodeWithTag(c, EncodeExportedReadKey(c, k), tag)
           == if tag == TAG_READ_SECRET then Ok(bytes) else Err(InvalidTypeTag(tag, TAG_READ_SECRET))
    {
      TaggedRoundTrip(c, TAG_READ_SECRET, bytes, tag);
    }
    assert bytes[..32] == k.secretBytes && bytes[32..64] == k.publicBytes;
    if k.parentKeyId.Some? {
      assert bytes[64] == 1 && bytes[65..73] == k.parentKeyId.value && bytes[73..] == k.scope;
    } else {
      assert bytes[64] == 0 && bytes[65..] == k.scope;
    }
    ScopeIsUtf8(k.scope);
  }

  // ---- What the decoders accept

  /** The first four bytes of the double hash. */
  function DoubleHash(c: Crypto, data: seq<byte>): seq<byte> {
    c.sha256(c.sha256(data))[..4]
  }

  /**
    Any string: decoding accepts exactly those whose bytes are the expected tag, the payload and the
    checksum of both; otherwise the error is of the first thing wrong, in that order.
   */
  lemma TaggedExactly(c: Crypto, encoded: Str, tag: byte)
    ensures forall payload: seq<byte> ::
              DecodeWithTag(c, encoded, tag) == Ok(payload) <==>
                c.base58Decode(encoded) == Some([tag] + payload + DoubleHash(c, [tag] + payload))
    ensures DecodeWithTag(c, encoded, tag).Err? ==>
              DecodeWithTag(c, encoded, tag).error ==
              match c.base58Decode(encoded)
              case None => EncodingError
              case Some(data) =>
                if |data| < 5 then EncodingError
                else if data[0] != tag then InvalidTypeTag(tag, data[0])
                else InvalidChecksum
  {
    forall payload: seq<byte> |
      c.base58Decode(encoded) == Some([tag] + payload + DoubleHash(c, [tag] + payload))
      ensures DecodeWithTag(c, encoded, tag) == Ok(payload)
    {
      CutChecksum([tag] + payload, DoubleHash(c, [tag] + payload));
      assert ([tag] + payload)[1..] == payload;
    }
    if DecodeWithTag(c, encoded, tag).Ok? {
      var data := c.base58Decode(encoded).value;
      var content, cs := data[..|data| - 4], data[|data| - 4..];
      assert data == content + cs && content == [tag] + content[1..];
    }
  }

  lemma CutChecksum(content: seq<byte>, cs: seq<byte>)
    requires |cs| == 4
    ensures var data := content + cs;
            data[..|data| - 4] == content && data[|data| - 4..] == cs && (content != [] ==> data[0] == content[0])
  {
  }

  /** A checksum that is not that of tag and payload is refused. */
  lemma WrongChecksumRefused(c: Crypto, tag: byte, payload: seq<byte>, cs: seq<byte>)
    requires |cs| == 4
    ensures DecodeWithTag(c, c.base58Encode([tag] + payload + cs), tag) ==
            if cs == DoubleHash(c, [tag] + payload) then Ok(payload) else Err(InvalidChecksum)
  {
    CutChecksum([tag] + payload, cs);
    assert ([tag] + payload)[1..] == payload;
  }

  /** A spend public key is read exactly from its own tagged bytes, if it is a valid point. */
  lemma SpendPublicExactly(c: Crypto, encoded: Str, key: Bytes32)
    ensures DecodeSpendPublic(c, encoded) == Ok(key) <==>
              DecodeWithTag(c, encoded, 0x01) == Ok(key) && c.ed25519IsKey(key)
  {
    hide DecodeWithTag;
  }

  /** A read public key and scope are read exactly from the key followed by the scope. */
  lemma ReadPublicExactly(c: Crypto, encoded: Str, key: Bytes32, scope: Scope)
    ensures DecodeReadPublic(c, encoded) == Ok((key, scope)) <==> DecodeWithTag(c, encoded, 0x02) == Ok(key + scope)
  {
    hide DecodeWithTag, ValidUtf8;
    ScopeIsUtf8(scope);
    assert (key + scope)[..32] == key && (key + scope)[32..] == scope;
    if DecodeReadPublic(c, encoded) == Ok((key, scope)) {
      var bytes := DecodeWithTag(c, encoded, 0x02).value;
      assert bytes == bytes[..32] + bytes[32..];
    }
  }

  /** Secret, public half, a flag with the parent's id behind it if it is 1, and the scope. */
  function ExportedBytes(k: ExportedReadKey, flag: byte): seq<byte> {
    k.secretBytes + k.publicBytes + [flag] + (if k.parentKeyId.Some? then k.parentKeyId.value else []) + k.scope
  }

  lemma ExportedCut(k: ExportedReadKey, flag: byte)
    ensures var bytes := ExportedBytes(k, flag);
            && |bytes| >= 65
            && bytes[..32] == k.secretBytes && bytes[32..64] == k.publicBytes && bytes[64] == flag
            && (k.parentKeyId.Some? ==> |bytes| >= 73 && bytes[65..73] == k.parentKeyId.value && bytes[73..] == k.scope)
            && (k.parentKeyId.None? ==> bytes[65..] == k.scope)
  {
    hide IsScope;
  }

  /** What is written is the parts in order, with a flag of 1 or 0. */
  lemma ExportedWritten(c: Crypto, k: ExportedReadKey)
    ensures DecodeWithTag(c, EncodeExportedReadKey(c, k), 0x03)
         == Ok(ExportedBytes(k, if k.parentKeyId.Some? then 1 else 0))
  {
    hide IsScope;
    TaggedRoundTrip(c, 0x03, ExportedPayload(k), 0x03);
    assert ExportedPayload(k) == ExportedBytes(k, if k.parentKeyId.Some? then 1 else 0);
  }

  lemma ExportedRead(c: Crypto, encoded: Str, k: ExportedReadKey, flag: byte)
    requires k.parentKeyId.Some? <==> flag == 1
    requires DecodeWithTag(c, encoded, 0x03) == Ok(ExportedBytes(k, flag))
    ensures DecodeExportedReadKey(c, encoded) == Ok(k)
  {
    hide DecodeWithTag, ValidUtf8, IsScope, ExportedBytes;
    ScopeIsUtf8(k.scope);
    ExportedCut(k, flag);
  }

  /**
    An exported key is read exactly from its parts in order. A flag of 1 announces a parent; every
    other flag, not only the 0 that is written, is read as none.
   */
  lemma ExportedKeyExactly(c: Crypto, encoded: Str, k: ExportedReadKey)
    ensures DecodeExportedReadKey(c, encoded) == Ok(k) <==>
              exists flag: byte | k.parentKeyId.Some? <==> flag == 1 ::
                DecodeWithTag(c, encoded, 0x03) == Ok(ExportedBytes(k, flag))
  {
    hide DecodeWithTag, ValidUtf8, IsScope;
    if DecodeExportedReadKey(c, encoded) == Ok(k) {
      var bytes := DecodeWithTag(c, encoded, 0x03).value;
      assert bytes == ExportedBytes(k, bytes[64]);
    }
    if flag: byte :| (k.parentKeyId.Some? <==> flag == 1)
                     && DecodeWithTag(c, encoded, 0x03) == Ok(ExportedBytes(k, flag)) {
      ExportedRead(c, encoded, k, flag);
    }
  }
}
