/**
  Encrypting, decrypting and re-keying envelopes. Randomness is an argument: `Coins` is what
  the generator hands out during one call, in the order the call draws it.
 */
module Encryption {
  import opened Basics
  import opened Scopes
  import opened Primitives
  import opened Derivation
  import opened Keys
  import opened Envelopes

  datatype Recipient = Recipient(readPublicKey: Bytes32, keyId: KeyId)

  datatype Coins = Coins(dataKey: Bytes32, ephemeral: Bytes32, nonce: Bytes12, wrapNonces: nat -> Bytes12)

  function EncryptPayload(c: Crypto, dataKey: Bytes32, plaintext: seq<byte>, nonce: Bytes12):
    (seq<byte>, Bytes16)
  {
    var encrypted := c.chachaSeal(dataKey, nonce, plaintext);
    (encrypted[..|encrypted| - 16], encrypted[|encrypted| - 16..])
  }

  function DecryptPayload(c: Crypto, dataKey: seq<byte>, ciphertext: seq<byte>, nonce: Bytes12, tag: Bytes16):
    Result<seq<byte>>
  {
    if |dataKey| != 32 then Err(DecryptionError)
    else
      match c.chachaOpen(dataKey, nonce, ciphertext + tag)
      case Some(plaintext) => Ok(plaintext)
      case None => Err(DecryptionError)
  }

  function WrapDataKey(c: Crypto, dataKey: Bytes32, shared: Bytes32, keyId: KeyId, nonce: Bytes12): AccessEntry {
    AccessEntry(keyId, c.sivSeal(DeriveWrappingKey(c, shared, keyId), nonce, dataKey), nonce)
  }

  function UnwrapDataKey(c: Crypto, entry: AccessEntry, shared: Bytes32, keyId: KeyId): Result<seq<byte>> {
    match c.sivOpen(DeriveWrappingKey(c, shared, keyId), entry.wrapNonce, entry.wrappedDataKey)
    case Some(dataKey) => Ok(dataKey)
    case None => Err(DecryptionError)
  }

  function WrapFor(c: Crypto, dataKey: Bytes32, ephemeral: Bytes32, r: Recipient, nonce: Bytes12): AccessEntry {
    WrapDataKey(c, dataKey, c.x25519(ephemeral, r.readPublicKey), r.keyId, nonce)
  }

  /** One access entry for each recipient, in order. */
  function WrapAll(c: Crypto, dataKey: Bytes32, ephemeral: Bytes32, recipients: seq<Recipient>, nonces: nat -> Bytes12):
    (entries: seq<AccessEntry>)
    ensures |entries| == |recipients|
  {
    seq(|recipients|, i requires 0 <= i < |recipients| => WrapFor(c, dataKey, ephemeral, recipients[i], nonces(i)))
  }

  method WrapEach(c: Crypto, dataKey: Bytes32, ephemeral: Bytes32, recipients: seq<Recipient>, nonces: nat -> Bytes12)
    returns (entries: seq<AccessEntry>)
    ensures entries == WrapAll(c, dataKey, ephemeral, recipients, nonces)
  {
    entries := [];
    for i := 0 to |recipients|
      invariant |entries| == i
      invariant forall j | 0 <= j < i :: entries[j] == WrapFor(c, dataKey, ephemeral, recipients[j], nonces(j))
    {
      var shared := c.x25519(ephemeral, recipients[i].readPublicKey);
      entries := entries + [WrapDataKey(c, dataKey, shared, recipients[i].keyId, nonces(i))];
    }
  }

  /** The signature covers everything but itself. */
  function Signed(c: Crypto, seed: Bytes32, e: Envelope): Envelope {
    e.(signature := SignBytes(c, seed, Signable(e)))
  }

  function RecipientFor(c: Crypto, k: ReadKeyPair): Recipient {
    Recipient(k.public, KeyIdOf(c, k.public))
  }

  /** The recipients `encrypt` wraps for, and the access mode. */
  function Audience(c: Crypto, seed: Bytes32, scope: Scope, scopeBased: bool, recipients: seq<Recipient>):
    Result<(AccessMode, seq<Recipient>)>
  {
    if scopeBased then
      match ScopeKey(c, seed, scope)
      case Ok(key) => Ok((ScopeBased, [RecipientFor(c, key)]))
      case Err(error) => Err(error)
    else if recipients == [] then Err(EncryptionError)
    else Ok((PerRecipient, recipients))
  }

  function Assemble(c: Crypto, algorithm: Algorithm, scope: Scope, mode: AccessMode, recipients: seq<Recipient>,
                    seed: Bytes32, plaintext: seq<byte>, coins: Coins): Envelope
  {
    var (ciphertext, tag) := EncryptPayload(c, coins.dataKey, plaintext, coins.nonce);
    Signed(c, seed, Envelope(CURRENT_VERSION, algorithm, scope, c.x25519Public(coins.ephemeral), None,
      WrapAll(c, coins.dataKey, coins.ephemeral, recipients, coins.wrapNonces),
      coins.nonce, ciphertext, tag, Zeros(64), VerifyingKey(c, seed), mode))
  }

  /** What `EncryptBuilder::encrypt` computes. */
  function Encrypted(c: Crypto, algorithm: Algorithm, scope: Scope, recipients: seq<Recipient>,
                     spendKey: Option<Bytes32>, scopeBased: bool, plaintext: seq<byte>, coins: Coins): Result<Envelope>
  {
    match spendKey
    case None => Err(EncryptionError)
    case Some(seed) =>
      match Audience(c, seed, scope, scopeBased, recipients)
      case Ok((mode, audience)) => Ok(Assemble(c, algorithm, scope, mode, audience, seed, plaintext, coins))
      case Err(error) => Err(error)
  }

  class EncryptBuilder {
    var algorithm: Algorithm
    var scope: Scope
    var recipients: seq<Recipient>
    var spendKey: Option<Bytes32>
    var scopeBased: bool

    constructor (algorithm: Algorithm, scope: Scope)
      ensures this.algorithm == algorithm && this.scope == scope
      ensures recipients == [] && spendKey == None && !scopeBased
    {
      this.algorithm, this.scope := algorithm, scope;
      recipients, spendKey, scopeBased := [], None, false;
    }

    method AddRecipient(r: Recipient)
      modifies this`recipients
      ensures recipients == old(recipients) + [r]
    {
      recipients := recipients + [r];
    }

    method AddRecipients(rs: seq<Recipient>)
      modifies this`recipients
      ensures recipients == old(recipients) + rs
    {
      recipients := recipients + rs;
    }

    method SetSpendKey(seed: Bytes32)
      modifies this`spendKey
      ensures spendKey == Some(seed)
    {
      spendKey := Some(seed);
    }

    method SetScopeBased()
      modifies this`scopeBased
      ensures scopeBased
    {
      scopeBased := true;
    }

    method Encrypt(c: Crypto, plaintext: seq<byte>, coins: Coins) returns (r: Result<Envelope>)
      ensures r == Encrypted(c, algorithm, scope, recipients, spendKey, scopeBased, plaintext, coins)
    {
      if spendKey.None? {
        return Err(EncryptionError);
      }
      var seed := spendKey.value;
      var audience: seq<Recipient>;
      var mode: AccessMode;
      if scopeBased {
        mode := ScopeBased;
        var scopeKey := DeriveRootReadKey(c, seed);
        if scope != ROOT {
          scopeKey :- DeriveChild(c, scopeKey, scope);
        }
        audience := [RecipientFor(c, scopeKey)];
      } else {
        mode := PerRecipient;
        if recipients == [] {
          return Err(EncryptionError);
        }
        audience := recipients;
      }
      var (ciphertext, tag) := EncryptPayload(c, coins.dataKey, plaintext, coins.nonce);
      var entries := WrapEach(c, coins.dataKey, coins.ephemeral, audience, coins.wrapNonces);
      var envelope := Envelope(CURRENT_VERSION, algorithm, scope, c.x25519Public(coins.ephemeral), None, entries,
                               coins.nonce, ciphertext, tag, Zeros(64), VerifyingKey(c, seed), mode);
      var signable := SignableBytes(envelope);
      r := Ok(envelope.(signature := SignBytes(c, seed, signable)));
    }
  }

  /** The builder calls by which documents and attributes are encrypted for recipients. */
  method EncryptFor(c: Crypto, seed: Bytes32, scope: Scope, plaintext: seq<byte>, recipients: seq<Recipient>,
                    coins: Coins)
    returns (r: Result<Envelope>)
    ensures r == Encrypted(c, EciesX25519ChaCha20, scope, recipients, Some(seed), false, plaintext, coins)
  {
    hide Encrypted;
    var builder := new EncryptBuilder(EciesX25519ChaCha20, scope);
    builder.AddRecipients(recipients);
    builder.SetSpendKey(seed);
    assert [] + recipients == recipients;
    r := builder.Encrypt(c, plaintext, coins);
  }

  /** The first access entry with the id. */
  function FindEntry(entries: seq<AccessEntry>, id: KeyId): Option<AccessEntry> {
    if entries == [] then None
    else if entries[0].readKeyId == id then Some(entries[0])
    else FindEntry(entries[1..], id)
  }

  /** The data key as the key holder recovers it. */
  function RecoverDataKey(c: Crypto, e: Envelope, k: ReadKeyPair): Result<seq<byte>> {
    var id := KeyIdOf(c, k.public);
    match FindEntry(e.accessEntries, id)
    case None => Err(NoMatchingAccessEntry(id))
    case Some(entry) => UnwrapDataKey(c, entry, c.x25519(k.secret, e.ephemeralPublic), id)
  }

  /** `decrypt`. */
  function Decrypt(c: Crypto, e: Envelope, k: ReadKeyPair, spendVerifyingKey: Bytes32): Result<seq<byte>> {
    if !c.ed25519Verify(spendVerifyingKey, Signable(e), e.signature) then Err(SignatureVerificationFailed)
    else if e.accessMode.ScopeBased? && !CanAccess(k, e.scope) then Err(ScopeMismatch(k.scope, e.scope))
    else
      var key :- if e.accessMode.ScopeBased? && k.scope != e.scope then DeriveChild(c, k, e.scope) else Ok(k);
      var dataKey :- RecoverDataKey(c, e, key);
      DecryptPayload(c, dataKey, e.ciphertext, e.nonce, e.tag)
  }

  /** What `rekey_recipients` computes. */
  function Rekeyed(c: Crypto, e: Envelope, authorized: ReadKeyPair, recipients: seq<Recipient>, seed: Bytes32,
                   coins: Coins): Result<Envelope>
  {
    if e.accessMode.ScopeBased? then Err(EncryptionError)
    else if recipients == [] then Err(EncryptionError)
    else if !c.ed25519IsKey(e.spendPublicKey) then Err(InvalidKeyMaterial)
    else if !c.ed25519Verify(e.spendPublicKey, Signable(e), e.signature) then Err(SignatureVerificationFailed)
    else
      var dataKey :- RecoverDataKey(c, e, authorized);
      if |dataKey| != 32 then Err(Panic)
      else Ok(Readdressed(c, e, dataKey, recipients, seed, coins))
  }

  function Readdressed(c: Crypto, e: Envelope, dataKey: Bytes32, recipients: seq<Recipient>, seed: Bytes32,
                       coins: Coins): Envelope
  {
    Signed(c, seed, Envelope(e.version, e.algorithm, e.scope, c.x25519Public(coins.ephemeral), None,
      WrapAll(c, dataKey, coins.ephemeral, recipients, coins.wrapNonces),
      e.nonce, e.ciphertext, e.tag, Zeros(64), VerifyingKey(c, seed), PerRecipient))
  }

  /** `rekey_recipients`. */
  method RekeyRecipients(c: Crypto, e: Envelope, authorized: ReadKeyPair, recipients: seq<Recipient>, seed: Bytes32,
                         coins: Coins) returns (r: Result<Envelope>)
    ensures r == Rekeyed(c, e, authorized, recipients, seed, coins)
  {
    if e.accessMode.ScopeBased? {
      return Err(EncryptionError);
    }
    if recipients == [] {
      return Err(EncryptionError);
    }
    var signable := SignableBytes(e);
    if !c.ed25519IsKey(e.spendPublicKey) {
      return Err(InvalidKeyMaterial);
    }
    if !c.ed25519Verify(e.spendPublicKey, signable, e.signature) {
      return Err(SignatureVerificationFailed);
    }
    var dataKey :- RecoverDataKey(c, e, authorized);
    if |dataKey| != 32 {
      return Err(Panic);
    }
    var entries := WrapEach(c, dataKey, coins.ephemeral, recipients, coins.wrapNonces);
    var updated := Envelope(e.version, e.algorithm, e.scope, c.x25519Public(coins.ephemeral), None, entries,
                            e.nonce, e.ciphertext, e.tag, Zeros(64), VerifyingKey(c, seed), PerRecipient);
    var newSignable := SignableBytes(updated);
    r := Ok(updated.(signature := SignBytes(c, seed, newSignable)));
  }
}
