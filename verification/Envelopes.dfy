/**
  The encrypted envelope, its binary printer and cursor parser, and the bytes that are signed.
  `Wire` and `Signable` are the specifications of the two printers, `Parse` of the parser.
 */
module Envelopes {
  import opened Basics
  import opened Fields
  import opened Scopes

  type u32 = n: nat | n < 0x1_0000_0000

  datatype Algorithm = EciesX25519ChaCha20 | HybridX25519MlKemChaCha20 {
    function AsU8(): byte {
      match this
      case EciesX25519ChaCha20 => 1
      case HybridX25519MlKemChaCha20 => 2
    }

    static function FromU8(v: byte): Result<Algorithm> {
      match v
      case 1 => Ok(EciesX25519ChaCha20)
      case 2 => Ok(HybridX25519MlKemChaCha20)
      case _ => Err(SerializationError)
    }
  }

  datatype AccessMode = PerRecipient | ScopeBased {
    function AsU8(): byte {
      match this
      case PerRecipient => 0
      case ScopeBased => 1
    }

    static function FromU8(v: byte): Result<AccessMode> {
      match v
      case 0 => Ok(PerRecipient)
      case 1 => Ok(ScopeBased)
      case _ => Err(SerializationError)
    }
  }

  datatype AccessEntry = AccessEntry(readKeyId: KeyId, wrappedDataKey: seq<byte>, wrapNonce: Bytes12)

  datatype Envelope = Envelope(
    version: u32,
    algorithm: Algorithm,
    scope: Scope,
    ephemeralPublic: Bytes32,
    mlkemCiphertext: Option<seq<byte>>,
    accessEntries: seq<AccessEntry>,
    nonce: Bytes12,
    ciphertext: seq<byte>,
    tag: Bytes16,
    signature: Bytes64,
    spendPublicKey: Bytes32,
    accessMode: AccessMode)

  const MAGIC: seq<byte> := [0x52, 0x4F, 0x4B, 0x01]
  const CURRENT_VERSION: u32 := 2

  // ---- Specification of the printers

  function MlkemBytes(e: Envelope): seq<byte> {
    if e.mlkemCiphertext.Some? then e.mlkemCiphertext.value else []
  }

  /** An access entry, with its key length written in `w` bytes. */
  function PutAccess(w: nat): (AccessEntry, seq<byte>) -> seq<byte> {
    (entry: AccessEntry, tail: seq<byte>) =>
      entry.readKeyId + PutBlock(entry.wrappedDataKey, w, entry.wrapNonce + tail)
  }

  function PutEntries(entries: seq<AccessEntry>, w: nat, tail: seq<byte>): seq<byte> {
    PutMany(PutAccess(w), entries, tail)
  }

  /** Ephemeral key, ML-KEM ciphertext and access entries, with counts in `w` bytes. */
  function PutKeys(e: Envelope, w: nat, tail: seq<byte>): seq<byte> {
    e.ephemeralPublic + PutBlock(MlkemBytes(e), 4,
    LE(|e.accessEntries|, w) + PutEntries(e.accessEntries, w, tail))
  }

  function PutTrailer(e: Envelope, tail: seq<byte>): seq<byte> {
    e.nonce + PutBlock(e.ciphertext, 8, e.tag + (e.spendPublicKey + tail))
  }

  /** The layout with the given bytes in the place of the access mode. */
  function LayoutWith(e: Envelope, mode: seq<byte>, tail: seq<byte>): seq<byte> {
    MAGIC + (LE(e.version, 4) + ([e.algorithm.AsU8()] + (mode + PutBlock(e.scope, 2,
    PutKeys(e, 2, PutTrailer(e, e.signature + tail))))))
  }

  /** What `to_bytes` writes: the mode byte is always there. */
  function Wire(e: Envelope): seq<byte> {
    LayoutWith(e, [e.accessMode.AsU8()], [])
  }

  /** What `from_bytes` reads: the mode byte is there from version 2 on. */
  function Layout(e: Envelope, tail: seq<byte>): seq<byte> {
    LayoutWith(e, if e.version >= 2 then [e.accessMode.AsU8()] else [], tail)
  }

  /** What is signed. The scope has no length prefix here; the counts are u32 and u64. */
  function Signable(e: Envelope): seq<byte> {
    LE(e.version, 4) + ([e.algorithm.AsU8()] + ([e.accessMode.AsU8()] + (e.scope
    + PutKeys(e, 4, PutTrailer(e, [])))))
  }

  // ---- Specification of the parser

  function ParseEntry(s: seq<byte>): Result<(AccessEntry, seq<byte>)> {
    var (id, s1) :- Take(s, 8);
    var (wrapped, s2) :- TakeBlock(s1, 2);
    var (nonce, s3) :- Take(s2, 12);
    Ok((AccessEntry(id, wrapped, nonce), s3))
  }

  function ParseEntries(s: seq<byte>, count: nat): Result<(seq<AccessEntry>, seq<byte>)> {
    ParseMany(ParseEntry, s, count)
  }

  function ParseMode(version: u32, s: seq<byte>): Result<(AccessMode, seq<byte>)> {
    if version >= 2 then
      var (b, rest) :- Take(s, 1);
      var mode :- AccessMode.FromU8(b[0]);
      Ok((mode, rest))
    else
      Ok((PerRecipient, s))
  }

  function ParseScope(s: seq<byte>): Result<(Scope, seq<byte>)> {
    var (path, rest) :- TakeBlock(s, 2);
    if !ValidUtf8(path) then Err(SerializationError)
    else
      var scope :- New(path);
      Ok((scope, rest))
  }

  function TakeU32(s: seq<byte>): (r: Result<(u32, seq<byte>)>)
    ensures r == TakeLE(s, 4)
  {
    Widths();
    TakeLE(s, 4)
  }

  function ParseHeader(s: seq<byte>): Result<((u32, Algorithm, AccessMode, Scope), seq<byte>)> {
    var (magic, s1) :- Take(s, 4);
    if magic != MAGIC then Err(SerializationError)
    else
      var (version, s2) :- TakeU32(s1);
      var (algo, s3) :- Take(s2, 1);
      var algorithm :- Algorithm.FromU8(algo[0]);
      var (mode, s4) :- ParseMode(version, s3);
      var (scope, s5) :- ParseScope(s4);
      Ok(((version, algorithm, mode, scope), s5))
  }

  function ParseKeys(s: seq<byte>): Result<((Bytes32, Option<seq<byte>>, seq<AccessEntry>), seq<byte>)> {
    var (ephemeral, s1) :- Take(s, 32);
    var (mlkem, s2) :- TakeBlock(s1, 4);
    var (count, s3) :- TakeLE(s2, 2);
    var (entries, s4) :- ParseEntries(s3, count);
    Ok(((ephemeral, if mlkem == [] then None else Some(mlkem), entries), s4))
  }

  function ParseTrailer(s: seq<byte>): Result<((Bytes12, seq<byte>, Bytes16, Bytes32, Bytes64), seq<byte>)> {
    var (nonce, s1) :- Take(s, 12);
    var (ciphertext, s2) :- TakeBlock(s1, 8);
    var (tag, s3) :- Take(s2, 16);
    var (spend, s4) :- Take(s3, 32);
    var (signature, s5) :- Take(s4, 64);
    Ok(((nonce, ciphertext, tag, spend, signature), s5))
  }

  /** The envelope at the front of `s`, and the bytes behind it. */
  function Parse(s: seq<byte>): Result<(Envelope, seq<byte>)> {
    var ((version, algorithm, mode, scope), s1) :- ParseHeader(s);
    var ((ephemeral, mlkem, entries), s2) :- ParseKeys(s1);
    var ((nonce, ciphertext, tag, spend, signature), s3) :- ParseTrailer(s2);
    Ok((Envelope(version, algorithm, scope, ephemeral, mlkem, entries, nonce, ciphertext, tag,
                 signature, spend, mode), s3))
  }

  function Parsed(data: seq<byte>): Result<Envelope> {
    match Parse(data)
    case Ok((e, _)) => Ok(e)
    case Err(error) => Err(error)
  }

  // ---- Which envelopes the format carries

  /** Every length fits the field it is written in. */
  predicate Fits(e: Envelope) {
    && |e.scope| < 0x1_0000
    && |MlkemBytes(e)| < 0x1_0000_0000
    && |e.accessEntries| < 0x1_0000
    && (forall i | 0 <= i < |e.accessEntries| :: |e.accessEntries[i].wrappedDataKey| < 0x1_0000)
    && |e.ciphertext| < 0x1_0000_0000_0000_0000
  }

  /** An empty ML-KEM ciphertext is written like an absent one. */
  function Normalize(e: Envelope): Envelope {
    if e.mlkemCiphertext == Some([]) then e.(mlkemCiphertext := None) else e
  }

  /** What a parser can return. */
  predicate Canonical(e: Envelope) {
    Fits(e) && Normalize(e) == e && (e.version < 2 ==> e.accessMode == PerRecipient)
  }

  // ---- The imperative codec

  /** `extend_from_slice`. `todo` is what remains to be written, beginning with `field`. */
  method Extend(buf: seq<byte>, field: seq<byte>, ghost todo: seq<byte>)
    returns (next: seq<byte>, ghost rest: seq<byte>)
    requires |field| <= |todo| && todo[..|field|] == field
    ensures next == buf + field
    ensures rest == todo[|field|..]
    ensures next + rest == buf + todo
  {
    next, rest := buf + field, todo[|field|..];
    assert field + rest == todo;
  }

  method ExtendKeys(buf: seq<byte>, e: Envelope, w: nat, ghost tail: seq<byte>) returns (next: seq<byte>)
    ensures next + tail == buf + PutKeys(e, w, tail)
  {
    hide PutEntries;
    ghost var todo := PutKeys(e, w, tail);
    next, todo := Extend(buf, e.ephemeralPublic, todo);
    next := ExtendMlkem(next, e, LE(|e.accessEntries|, w) + PutEntries(e.accessEntries, w, tail));
    todo := LE(|e.accessEntries|, w) + PutEntries(e.accessEntries, w, tail);
    next, todo := Extend(next, LE(|e.accessEntries|, w), todo);
    next := ExtendEntries(next, e.accessEntries, w, tail);
  }

  method ExtendMlkem(buf: seq<byte>, e: Envelope, ghost tail: seq<byte>) returns (next: seq<byte>)
    ensures next + tail == buf + PutBlock(MlkemBytes(e), 4, tail)
  {
    if e.mlkemCiphertext.Some? {
      next := buf + LE(|e.mlkemCiphertext.value|, 4);
      next := next + e.mlkemCiphertext.value;
    } else {
      next := buf + LE(0, 4);
      assert next == next + [];
    }
    BlockBehind(buf, LE(|MlkemBytes(e)|, 4), MlkemBytes(e), tail);
  }

  lemma BlockBehind(buf: seq<byte>, len: seq<byte>, b: seq<byte>, tail: seq<byte>)
    ensures buf + len + b + tail == buf + (len + (b + tail))
  {
  }

  method ExtendEntries(buf: seq<byte>, entries: seq<AccessEntry>, w: nat, ghost tail: seq<byte>)
    returns (next: seq<byte>)
    ensures next + tail == buf + PutEntries(entries, w, tail)
  {
    hide PutAccess;
    next := buf;
    for i := 0 to |entries|
      invariant next + PutEntries(entries[i..], w, tail) == buf + PutEntries(entries, w, tail)
    {
      assert entries[i..][0] == entries[i] && entries[i..][1..] == entries[i + 1..];
      next := ExtendEntry(next, entries[i], w, PutEntries(entries[i + 1..], w, tail));
    }
  }

  method ExtendEntry(buf: seq<byte>, entry: AccessEntry, w: nat, ghost tail: seq<byte>) returns (next: seq<byte>)
    ensures next + tail == buf + PutAccess(w)(entry, tail)
  {
    ghost var todo := PutAccess(w)(entry, tail);
    next, todo := Extend(buf, entry.readKeyId, todo);
    next, todo := Extend(next, LE(|entry.wrappedDataKey|, w), todo);
    next, todo := Extend(next, entry.wrappedDataKey, todo);
    next, todo := Extend(next, entry.wrapNonce, todo);
  }

  method ExtendTrailer(buf: seq<byte>, e: Envelope, ghost tail: seq<byte>) returns (next: seq<byte>)
    ensures next + tail == buf + PutTrailer(e, tail)
  {
    ghost var todo := PutTrailer(e, tail);
    next, todo := Extend(buf, e.nonce, todo);
    next, todo := Extend(next, LE(|e.ciphertext|, 8), todo);
    next, todo := Extend(next, e.ciphertext, todo);
    next, todo := Extend(next, e.tag, todo);
    next, todo := Extend(next, e.spendPublicKey, todo);
  }

  /** `signable_bytes`. */
  method SignableBytes(e: Envelope) returns (buf: seq<byte>)
    ensures buf == Signable(e)
  {
    ghost var todo := Signable(e);
    buf, todo := Extend([], LE(e.version, 4), todo);
    buf, todo := Extend(buf, [e.algorithm.AsU8()], todo);
    buf, todo := Extend(buf, [e.accessMode.AsU8()], todo);
    buf, todo := Extend(buf, e.scope, todo);
    buf := ExtendKeys(buf, e, 4, PutTrailer(e, []));
    buf := ExtendTrailer(buf, e, []);
    assert buf + [] == buf;
  }

  /** `to_bytes`. */
  method ToBytes(e: Envelope) returns (buf: seq<byte>)
    ensures buf == Wire(e)
  {
    ghost var todo := Wire(e);
    buf, todo := Extend([], MAGIC, todo);
    buf, todo := Extend(buf, LE(e.version, 4), todo);
    buf, todo := Extend(buf, [e.algorithm.AsU8()], todo);
    buf, todo := Extend(buf, [e.accessMode.AsU8()], todo);
    buf, todo := Extend(buf, LE(|e.scope|, 2), todo);
    buf, todo := Extend(buf, e.scope, todo);
    buf := ExtendKeys(buf, e, 2, PutTrailer(e, e.signature + []));
    buf := ExtendTrailer(buf, e, e.signature + []);
    buf := buf + e.signature;
    assert e.signature + [] == e.signature;
  }

  /** The cursor: bytes `pos .. pos + n`, and the advanced position. */
  method ReadBytes(data: seq<byte>, pos: nat, n: nat) returns (r: Result<seq<byte>>, next: nat)
    requires pos <= |data|
    ensures next <= |data|
    ensures match Take(data[pos..], n)
            case Ok((b, rest)) => r == Ok(b) && next == pos + n && data[next..] == rest
            case Err(error) => r == Err(error) && next == pos
  {
    if pos + n > |data| {
      return Err(SerializationError), pos;
    }
    assert data[pos..][..n] == data[pos..pos + n];
    assert data[pos..][n..] == data[pos + n..];
    return Ok(data[pos..pos + n]), pos + n;
  }

  method ReadHeader(data: seq<byte>, start: nat)
    returns (r: Result<(u32, Algorithm, AccessMode, Scope)>, pos: nat)
    requires start <= |data|
    ensures pos <= |data|
    ensures match ParseHeader(data[start..])
            case Ok((h, rest)) => r == Ok(h) && data[pos..] == rest
            case Err(error) => r == Err(error)
  {
    Widths();
    pos := start;
    var magic, algo, bytes;
    magic, pos :- ReadBytes(data, pos, 4);
    if magic != MAGIC {
      return Err(SerializationError), pos;
    }
    bytes, pos :- ReadBytes(data, pos, 4);
    var version: u32 := FromLE(bytes);
    algo, pos :- ReadBytes(data, pos, 1);
    var algorithm :- Algorithm.FromU8(algo[0]);
    var mode := PerRecipient;
    if version >= 2 {
      bytes, pos :- ReadBytes(data, pos, 1);
      mode :- AccessMode.FromU8(bytes[0]);
    }
    bytes, pos :- ReadBytes(data, pos, 2);
    bytes, pos :- ReadBytes(data, pos, FromLE(bytes));
    if !ValidUtf8(bytes) {
      return Err(SerializationError), pos;
    }
    var scope :- New(bytes);
    r := Ok((version, algorithm, mode, scope));
  }

  method ReadKeys(data: seq<byte>, start: nat)
    returns (r: Result<(Bytes32, Option<seq<byte>>, seq<AccessEntry>)>, pos: nat)
    requires start <= |data|
    ensures pos <= |data|
    ensures match ParseKeys(data[start..])
            case Ok((k, rest)) => r == Ok(k) && data[pos..] == rest
            case Err(error) => r == Err(error)
  {
    pos := start;
    var ephemeral, bytes;
    ephemeral, pos :- ReadBytes(data, pos, 32);
    bytes, pos :- ReadBytes(data, pos, 4);
    var mlkemLen := FromLE(bytes);
    var mlkem := None;
    if mlkemLen > 0 {
      bytes, pos :- ReadBytes(data, pos, mlkemLen);
      mlkem := Some(bytes);
    }
    bytes, pos :- ReadBytes(data, pos, 2);
    var count := FromLE(bytes);
    var entries;
    entries, pos :- ReadEntries(data, pos, count);
    r := Ok((ephemeral, mlkem, entries));
  }

  method ReadEntries(data: seq<byte>, start: nat, count: nat) returns (r: Result<seq<AccessEntry>>, pos: nat)
    requires start <= |data|
    ensures pos <= |data|
    ensures match ParseEntries(data[start..], count)
            case Ok((entries, rest)) => r == Ok(entries) && data[pos..] == rest
            case Err(error) => r == Err(error)
  {
    hide ParseEntry;
    pos := start;
    var entries := [];
    BehindBoth([], [], ParseEntries(data[start..], count));
    for i := 0 to count
      invariant pos <= |data|
      invariant ParseEntries(data[start..], count) == Behind(entries, ParseEntries(data[pos..], count - i))
    {
      ParseManyStep(ParseEntry, entries, data[pos..], count - i);
      var entry;
      entry, pos :- ReadEntry(data, pos);
      entries := entries + [entry];
    }
    assert entries + [] == entries;
    r := Ok(entries);
  }

  method ReadEntry(data: seq<byte>, start: nat) returns (r: Result<AccessEntry>, pos: nat)
    requires start <= |data|
    ensures pos <= |data|
    ensures match ParseEntry(data[start..])
            case Ok((entry, rest)) => r == Ok(entry) && data[pos..] == rest
            case Err(error) => r == Err(error)
  {
    pos := start;
    var id, bytes, wrapped, nonce;
    id, pos :- ReadBytes(data, pos, 8);
    bytes, pos :- ReadBytes(data, pos, 2);
    wrapped, pos :- ReadBytes(data, pos, FromLE(bytes));
    nonce, pos :- ReadBytes(data, pos, 12);
    r := Ok(AccessEntry(id, wrapped, nonce));
  }

  /** `from_bytes`. */
  method FromBytes(data: seq<byte>) returns (r: Result<Envelope>)
    ensures r == Parsed(data)
  {
    var pos := 0;
    assert data[0..] == data;
    var header, keys, bytes, nonce, ciphertext, tag, spend, signature;
    header, pos :- ReadHeader(data, pos);
    keys, pos :- ReadKeys(data, pos);
    nonce, pos :- ReadBytes(data, pos, 12);
    bytes, pos :- ReadBytes(data, pos, 8);
    ciphertext, pos :- ReadBytes(data, pos, FromLE(bytes));
    tag, pos :- ReadBytes(data, pos, 16);
    spend, pos :- ReadBytes(data, pos, 32);
    signature, pos :- ReadBytes(data, pos, 64);
    r := Ok(Envelope(header.0, header.1, header.3, keys.0, keys.1, keys.2, nonce, ciphertext, tag,
                     signature, spend, header.2));
  }
}
