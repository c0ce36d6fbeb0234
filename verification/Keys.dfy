/** Read key pairs bound to a scope, their delegation, and the owner's spend key. */
module Keys {
  import opened Basics
  import opened Scopes
  import opened Primitives
  import opened Derivation

  datatype ReadKeyPair = ReadKeyPair(secret: Bytes32, public: Bytes32, scope: Scope, parentKeyId: Option<KeyId>)

  datatype ExportedReadKey =
    ExportedReadKey(secretBytes: Bytes32, publicBytes: Bytes32, scope: Scope, parentKeyId: Option<KeyId>)

  /** The first 8 bytes of the hash of a public key. */
  function KeyIdOf(c: Crypto, public: Bytes32): (id: KeyId)
    ensures id <= c.sha256(public)
  {
    c.sha256(public)[..8]
  }

  function FromSecretBytes(c: Crypto, secret: Bytes32, scope: Scope, parentKeyId: Option<KeyId>): ReadKeyPair {
    ReadKeyPair(secret, c.x25519Public(secret), scope, parentKeyId)
  }

  predicate CanAccess(k: ReadKeyPair, target: Scope) {
    IsAncestorOf(k.scope, target)
  }

  function DeriveChild(c: Crypto, k: ReadKeyPair, child: Scope): Result<ReadKeyPair> {
    if !IsAncestorOf(k.scope, child) || k.scope == child then Err(DerivationError)
    else
      var secret :- ChildReadSecret(c, k.secret, k.scope, child);
      Ok(FromSecretBytes(c, secret, child, Some(KeyIdOf(c, k.public))))
  }

  function DeriveChildSegment(c: Crypto, k: ReadKeyPair, segment: Str): Result<ReadKeyPair> {
    var child :- Child(k.scope, segment);
    DeriveChild(c, k, child)
  }

  function Export(k: ReadKeyPair): ExportedReadKey {
    ExportedReadKey(k.secret, k.public, k.scope, k.parentKeyId)
  }

  function Import(c: Crypto, exported: ExportedReadKey): Result<ReadKeyPair> {
    var public := c.x25519Public(exported.secretBytes);
    if public != exported.publicBytes then Err(InvalidKeyMaterial)
    else Ok(ReadKeyPair(exported.secretBytes, public, exported.scope, exported.parentKeyId))
  }

  // ---- The spend key: a 32-byte seed

  function VerifyingKey(c: Crypto, seed: Bytes32): Bytes32 {
    c.ed25519Public(seed)
  }

  function SignBytes(c: Crypto, seed: Bytes32, data: seq<byte>): Bytes64 {
    c.ed25519Sign(seed, data)
  }

  function DeriveRootReadKey(c: Crypto, seed: Bytes32): ReadKeyPair {
    FromSecretBytes(c, DeriveRootReadSecret(c, seed), ROOT, None)
  }

  /** The owner's key at a scope, as `encrypt` and `grant_access` obtain it. */
  function ScopeKey(c: Crypto, seed: Bytes32, scope: Scope): Result<ReadKeyPair> {
    var root := DeriveRootReadKey(c, seed);
    if scope == ROOT then Ok(root) else DeriveChild(c, root, scope)
  }
}
