/** Hybrid X25519 and ML-KEM encryption: both sides derive the same pair and combine the same secrets. */
module Hybrid {
  import opened Basics
  import opened Scopes
  import opened Primitives
  import opened Derivation
  import opened Keys
  import opened Delegation
  import opened Envelopes
  import opened EnvelopeCodec
  import opened Encryption
  import opened Access
  import opened Proto
  import opened SignedBytes

  datatype PqKeyPair = PqKeyPair(decapsulationKey: seq<byte>, encapsulationKey: seq<byte>)

  /** The ML-KEM pair of a read secret at a scope, from a seeded generator. */
  function DerivePqKeypair(c: Crypto, readSecret: Bytes32, scope: Scope): PqKeyPair {
    var seed := DerivePqKeySeed(c, readSecret, scope);
    PqKeyPair(c.kemPrivate(seed), c.kemPublic(seed))
  }

  /** The combined shared secret and the ML-KEM ciphertext. */
  function HybridEncapsulate(c: Crypto, x25519Public: Bytes32, encapsulationKey: seq<byte>, ephemeral: Bytes32,
                             kemCoins: Bytes32): (Bytes32, seq<byte>)
  {
    var x25519Shared := c.x25519(ephemeral, x25519Public);
    (CombineHybridSecrets(c, x25519Shared, c.kemShared(encapsulationKey, kemCoins)),
     c.kemCiphertext(encapsulationKey, kemCoins))
  }

  function HybridDecapsulate(c: Crypto, x25519Secret: Bytes32, ephemeralPublic: Bytes32, decapsulationKey: seq<byte>,
                             ciphertext: seq<byte>): Result<Bytes32>
  {
    match c.kemDecapsulate(decapsulationKey, ciphertext)
    case Some(shared) => Ok(CombineHybridSecrets(c, c.x25519(x25519Secret, ephemeralPublic), shared))
    case None => Err(DecryptionError)
  }

  /** `hybrid_encrypt`; the single wrapping nonce is `coins.wrapNonces(0)`. */
  function HybridEncrypt(c: Crypto, plaintext: seq<byte>, scope: Scope, seed: Bytes32, coins: Coins, kemCoins: Bytes32):
    Result<Envelope>
  {
    match ScopeKey(c, seed, scope)
    case Err(error) => Err(error)
    case Ok(key) =>
      var pq := DerivePqKeypair(c, key.secret, scope);
      var (combined, mlkem) := HybridEncapsulate(c, key.public, pq.encapsulationKey, coins.ephemeral, kemCoins);
      var (ciphertext, tag) := EncryptPayload(c, coins.dataKey, plaintext, coins.nonce);
      var entry := WrapDataKey(c, coins.dataKey, combined, KeyIdOf(c, key.public), coins.wrapNonces(0));
      Ok(Signed(c, seed, Envelope(CURRENT_VERSION, HybridX25519MlKemChaCha20, scope, c.x25519Public(coins.ephemeral),
        Some(mlkem), [entry], coins.nonce, ciphertext, tag, Zeros(64), VerifyingKey(c, seed), ScopeBased)))
  }

  /** The steps after the key for the envelope's scope is at hand. */
  function HybridOpen(c: Crypto, e: Envelope, k: ReadKeyPair): Result<seq<byte>> {
    var id := KeyIdOf(c, k.public);
    match FindEntry(e.accessEntries, id)
    case None => Err(NoMatchingAccessEntry(id))
    case Some(entry) =>
      match e.mlkemCiphertext
      case None => Err(DecryptionError)
      case Some(mlkem) =>
        var pq := DerivePqKeypair(c, k.secret, e.scope);
        var combined :- HybridDecapsulate(c, k.secret, e.ephemeralPublic, pq.decapsulationKey, mlkem);
        var dataKey :- UnwrapDataKey(c, entry, combined, id);
        DecryptPayload(c, dataKey, e.ciphertext, e.nonce, e.tag)
  }

  /** `hybrid_decrypt`. */
  function HybridDecrypt(c: Crypto, e: Envelope, k: ReadKeyPair, spendVerifyingKey: Bytes32): Result<seq<byte>> {
    if e.algorithm != HybridX25519MlKemChaCha20 then Err(DecryptionError)
    else if !c.ed25519Verify(spendVerifyingKey, Signable(e), e.signature) then Err(SignatureVerificationFailed)
    else if !CanAccess(k, e.scope) then Err(ScopeMismatch(k.scope, e.scope))
    else
      var key :- if k.scope != e.scope then DeriveChild(c, k, e.scope) else Ok(k);
      HybridOpen(c, e, key)
  }

  /** Encapsulator and decapsulator, starting from the two halves of the same pairs, agree. */
  lemma HybridAgreement(c: Crypto, readSecret: Bytes32, scope: Scope, ephemeral: Bytes32, kemCoins: Bytes32)
    ensures var pq := DerivePqKeypair(c, readSecret, scope);
            var (combined, mlkem) :=
              HybridEncapsulate(c, c.x25519Public(readSecret), pq.encapsulationKey, ephemeral, kemCoins);
            && HybridDecapsulate(c, readSecret, c.x25519Public(ephemeral), pq.decapsulationKey, mlkem) == Ok(combined)
            && |mlkem| == 1088
  {
  }

  /** The owner's key at the envelope's own scope opens it. */
  lemma HybridOpens(c: Crypto, plaintext: seq<byte>, scope: Scope, seed: Bytes32, coins: Coins, kemCoins: Bytes32,
                    k: ReadKeyPair)
    requires Owned(c, seed, k) && k.scope == scope
    ensures HybridEncrypt(c, plaintext, scope, seed, coins, kemCoins).Ok?
    ensures HybridOpen(c, HybridEncrypt(c, plaintext, scope, seed, coins, kemCoins).value, k) == Ok(plaintext)
  {
    ScopeKeyIsOwned(c, seed, scope);
    var e := HybridEncrypt(c, plaintext, scope, seed, coins, kemCoins).value;
    HybridAgreement(c, k.secret, scope, coins.ephemeral, kemCoins);
    PayloadOpens(c, coins.dataKey, plaintext, coins.nonce);
    var pq := DerivePqKeypair(c, k.secret, scope);
    var (combined, mlkem) := HybridEncapsulate(c, k.public, pq.encapsulationKey, coins.ephemeral, kemCoins);
    var entry := WrapDataKey(c, coins.dataKey, combined, KeyIdOf(c, k.public), coins.wrapNonces(0));
    assert e.accessEntries == [entry];
    assert FindEntry(e.accessEntries, KeyIdOf(c, k.public)) == Some(entry);
    assert UnwrapDataKey(c, entry, combined, KeyIdOf(c, k.public)) == Ok(coins.dataKey);
  }

  lemma HybridEncryptSigns(c: Crypto, plaintext: seq<byte>, scope: Scope, seed: Bytes32, coins: Coins,
                           kemCoins: Bytes32)
    ensures var r := HybridEncrypt(c, plaintext, scope, seed, coins, kemCoins);
            && r.Ok? && r.value.scope == scope && r.value.algorithm == HybridX25519MlKemChaCha20
            && c.ed25519Verify(VerifyingKey(c, seed), Signable(r.value), r.value.signature)
  {
  }

  /**
    Hybrid encryption at T, for any plaintext and randomness: a key delegated along any chain
    decrypts it if its scope is at or above T, and is refused otherwise.
   */
  lemma HybridOpensAbove(c: Crypto, plaintext: seq<byte>, scope: Scope, seed: Bytes32, coins: Coins, kemCoins: Bytes32,
                         steps: seq<Step>)
    ensures HybridEncrypt(c, plaintext, scope, seed, coins, kemCoins).Ok?
    ensures var e := HybridEncrypt(c, plaintext, scope, seed, coins, kemCoins).value;
            var key := Run(c, DeriveRootReadKey(c, seed), steps);
            key.Ok? ==>
              HybridDecrypt(c, e, key.value, VerifyingKey(c, seed)) ==
              if IsAncestorOf(key.value.scope, scope) then Ok(plaintext)
              else Err(ScopeMismatch(key.value.scope, scope))
  {
    hide HybridOpen, HybridEncrypt, HybridDecrypt, Run;
    RootIsOwned(c, seed);
    DelegatedKeysAreOwned(c, seed, DeriveRootReadKey(c, seed), steps);
    HybridEncryptSigns(c, plaintext, scope, seed, coins, kemCoins);
    var key := Run(c, DeriveRootReadKey(c, seed), steps);
    if key.Ok? {
      OwnedOpensHybrid(c, plaintext, scope, seed, coins, kemCoins, key.value);
    }
  }

  lemma OwnedOpensHybrid(c: Crypto, plaintext: seq<byte>, scope: Scope, seed: Bytes32, coins: Coins, kemCoins: Bytes32,
                         k: ReadKeyPair)
    requires Owned(c, seed, k)
    ensures HybridEncrypt(c, plaintext, scope, seed, coins, kemCoins).Ok?
    ensures var e := HybridEncrypt(c, plaintext, scope, seed, coins, kemCoins).value;
            HybridDecrypt(c, e, k, VerifyingKey(c, seed)) ==
            if IsAncestorOf(k.scope, scope) then Ok(plaintext) else Err(ScopeMismatch(k.scope, scope))
  {
    hide HybridOpen, HybridEncrypt;
    HybridEncryptSigns(c, plaintext, scope, seed, coins, kemCoins);
    if IsAncestorOf(k.scope, scope) {
      if k.scope != scope {
        DeriveChildIsOwned(c, seed, k, scope);
      }
      var key := if k.scope != scope then DeriveChild(c, k, scope).value else k;
      HybridOpens(c, plaintext, scope, seed, coins, kemCoins, key);
    }
  }

  /**
    Anyone's key: outside the order it is a scope mismatch. Above the scope it finds no entry if the
    key derived from it is not the owner's, and opens the envelope if its secret is the owner's.
   */
  lemma HybridForAnyKey(c: Crypto, plaintext: seq<byte>, scope: Scope, seed: Bytes32, coins: Coins, kemCoins: Bytes32,
                        k: ReadKeyPair)
    requires WellFormed(c, k)
    requires KeyAt(c, k, scope).Ok? ==>
               NotShadowed(c, [Recipient(OwnerPublic(c, seed, scope), OwnerId(c, seed, scope))],
                           KeyAt(c, k, scope).value)
    ensures HybridEncrypt(c, plaintext, scope, seed, coins, kemCoins).Ok?
    ensures KeyAt(c, k, scope).Ok? <==> IsAncestorOf(k.scope, scope)
    ensures var e := HybridEncrypt(c, plaintext, scope, seed, coins, kemCoins).value;
            var r := HybridDecrypt(c, e, k, VerifyingKey(c, seed));
            if !IsAncestorOf(k.scope, scope) then r == Err(ScopeMismatch(k.scope, scope))
            else
              var key := KeyAt(c, k, scope).value;
              && (key.public != OwnerPublic(c, seed, scope) ==> r == Err(NoMatchingAccessEntry(KeyIdOf(c, key.public))))
              && (key.secret == OwnerSecret(c, seed, scope) ==> r == Ok(plaintext))
  {
    hide HybridOpen, HybridEncrypt, DeriveChild;
    HybridEncryptSigns(c, plaintext, scope, seed, coins, kemCoins);
    KeyAtExists(c, k, scope);
    if IsAncestorOf(k.scope, scope) {
      var key := KeyAt(c, k, scope).value;
      KeyAtScope(c, k, scope);
      if key.public != OwnerPublic(c, seed, scope) {
        StrangerFindsNoEntry(c, plaintext, scope, seed, coins, kemCoins, key);
      } else if key.secret == OwnerSecret(c, seed, scope) {
        HybridOpens(c, plaintext, scope, seed, coins, kemCoins, key);
      }
    }
  }

  lemma KeyAtScope(c: Crypto, k: ReadKeyPair, scope: Scope)
    ensures KeyAt(c, k, scope).Ok? ==> KeyAt(c, k, scope).value.scope == scope
  {
  }

  lemma StrangerFindsNoEntry(c: Crypto, plaintext: seq<byte>, scope: Scope, seed: Bytes32, coins: Coins,
                             kemCoins: Bytes32, key: ReadKeyPair)
    requires key.public != OwnerPublic(c, seed, scope)
    requires NotShadowed(c, [Recipient(OwnerPublic(c, seed, scope), OwnerId(c, seed, scope))], key)
    ensures HybridEncrypt(c, plaintext, scope, seed, coins, kemCoins).Ok?
    ensures HybridOpen(c, HybridEncrypt(c, plaintext, scope, seed, coins, kemCoins).value, key)
         == Err(NoMatchingAccessEntry(KeyIdOf(c, key.public)))
  {
    ScopeKeyIsOwned(c, seed, scope);
    var rs := [Recipient(OwnerPublic(c, seed, scope), OwnerId(c, seed, scope))];
    assert rs[0].keyId != KeyIdOf(c, key.public);
    var e := HybridEncrypt(c, plaintext, scope, seed, coins, kemCoins).value;
    assert |e.accessEntries| == 1 && e.accessEntries[0].readKeyId == OwnerId(c, seed, scope);
    assert FindEntry(e.accessEntries[1..], KeyIdOf(c, key.public)) == None;
  }

  // ---- What a successful call has done

  /** The seed of a read secret's ML-KEM pair at a scope. */
  function PqSeedOf(c: Crypto, secret: Bytes32, scope: Scope): Bytes32 {
    c.hkdf(Ascii("rok-v1-pq-key-derive"), secret, scope)
  }

  /** The key that wraps a data key, out of both exchanges. */
  function HybridExchangeKey(c: Crypto, x25519Shared: Bytes32, mlkemShared: seq<byte>, id: KeyId): Bytes32 {
    ExchangeKey(c, c.hkdf(Ascii("rok-v1-hybrid-combine"), x25519Shared + mlkemShared, []), id)
  }

  /** What `hybrid_encrypt` draws is what it uses, on both exchanges and for the payload; no field is left over. */
  lemma HybridUsesItsCoins(c: Crypto, plaintext: seq<byte>, scope: Scope, seed: Bytes32, coins: Coins,
                           kemCoins: Bytes32)
    ensures HybridEncrypt(c, plaintext, scope, seed, coins, kemCoins).Ok?
    ensures var e := HybridEncrypt(c, plaintext, scope, seed, coins, kemCoins).value;
            var mlkemPublic := c.kemPublic(PqSeedOf(c, OwnerSecret(c, seed, scope), scope));
            var id := OwnerId(c, seed, scope);
            && e.nonce == coins.nonce && e.ciphertext + e.tag == c.chachaSeal(coins.dataKey, coins.nonce, plaintext)
            && e.ephemeralPublic == c.x25519Public(coins.ephemeral)
            && e.mlkemCiphertext == Some(c.kemCiphertext(mlkemPublic, kemCoins))
            && e.accessEntries == [AccessEntry(id,
                 c.sivSeal(HybridExchangeKey(c, c.x25519(coins.ephemeral, OwnerPublic(c, seed, scope)),
                                             c.kemShared(mlkemPublic, kemCoins), id),
                           coins.wrapNonces(0), coins.dataKey), coins.wrapNonces(0))]
            && SignedBy(c, seed, e) && e.version == 2 && e.algorithm == HybridX25519MlKemChaCha20 && e.scope == scope
            && e.accessMode == ScopeBased
  {
    ScopeKeyIsOwned(c, seed, scope);
    var e := HybridEncrypt(c, plaintext, scope, seed, coins, kemCoins).value;
    PayloadOpens(c, coins.dataKey, plaintext, coins.nonce);
    SignedIsSigned(c, seed, e.(signature := Zeros(64)));
    assert e == Signed(c, seed, e.(signature := Zeros(64)));
  }

  /** The data key that a key unwraps from the first entry with its id, by both exchanges. */
  ghost predicate HybridRecovers(c: Crypto, e: Envelope, k: ReadKeyPair, dataKey: seq<byte>) {
    var id := KeyIdOf(c, k.public);
    && e.mlkemCiphertext.Some?
    && var shared := c.kemDecapsulate(c.kemPrivate(PqSeedOf(c, k.secret, e.scope)), e.mlkemCiphertext.value);
    && shared.Some?
    && exists i: nat :: FirstFor(e.accessEntries, id, i)
         && c.sivOpen(HybridExchangeKey(c, c.x25519(k.secret, e.ephemeralPublic), shared.value, id),
                      e.accessEntries[i].wrapNonce, e.accessEntries[i].wrappedDataKey) == Some(dataKey)
  }

  /** A signed hybrid envelope, a key at or above its scope, a data key unwrapped, a payload opened. */
  ghost predicate HybridOpensTo(c: Crypto, e: Envelope, k: ReadKeyPair, vk: Bytes32, plaintext: seq<byte>) {
    && e.algorithm == HybridX25519MlKemChaCha20
    && c.ed25519Verify(vk, Signable(e), e.signature)
    && IsAncestorOf(k.scope, e.scope) && KeyAt(c, k, e.scope).Ok?
    && exists dataKey: Bytes32 ::
         && HybridRecovers(c, e, KeyAt(c, k, e.scope).value, dataKey)
         && c.chachaOpen(dataKey, e.nonce, e.ciphertext + e.tag) == Some(plaintext)
  }

  lemma HybridOpenExactly(c: Crypto, e: Envelope, key: ReadKeyPair)
    ensures forall plaintext :: HybridOpen(c, e, key) == Ok(plaintext) <==>
              exists dataKey: Bytes32 ::
                && HybridRecovers(c, e, key, dataKey)
                && c.chachaOpen(dataKey, e.nonce, e.ciphertext + e.tag) == Some(plaintext)
    ensures HybridOpen(c, e, key).Err? ==>
              HybridOpen(c, e, key) ==
              if HasEntry(e, KeyIdOf(c, key.public)) then Err(DecryptionError)
              else Err(NoMatchingAccessEntry(KeyIdOf(c, key.public)))
  {
    var id := KeyIdOf(c, key.public);
    FoundIsFirst(e.accessEntries, id);
    forall plaintext, dataKey: Bytes32 |
      && HybridRecovers(c, e, key, dataKey)
      && c.chachaOpen(dataKey, e.nonce, e.ciphertext + e.tag) == Some(plaintext)
      ensures HybridOpen(c, e, key) == Ok(plaintext)
    {
      var shared := c.kemDecapsulate(c.kemPrivate(PqSeedOf(c, key.secret, e.scope)), e.mlkemCiphertext.value);
      var i: nat :| FirstFor(e.accessEntries, id, i)
        && c.sivOpen(HybridExchangeKey(c, c.x25519(key.secret, e.ephemeralPublic), shared.value, id),
                     e.accessEntries[i].wrapNonce, e.accessEntries[i].wrappedDataKey) == Some(dataKey);
      FirstIsUnique(e.accessEntries, id, i);
    }
    if HybridOpen(c, e, key).Ok? {
      RecoveredByHybrid(c, e, key);
    }
  }

  lemma RecoveredByHybrid(c: Crypto, e: Envelope, key: ReadKeyPair)
    requires HybridOpen(c, e, key).Ok?
    ensures exists dataKey: Bytes32 ::
              && HybridRecovers(c, e, key, dataKey)
              && c.chachaOpen(dataKey, e.nonce, e.ciphertext + e.tag) == Some(HybridOpen(c, e, key).value)
  {
    var id := KeyIdOf(c, key.public);
    FoundIsFirst(e.accessEntries, id);
    var entry := FindEntry(e.accessEntries, id).value;
    var pq := DerivePqKeypair(c, key.secret, e.scope);
    var combined :=
      HybridDecapsulate(c, key.secret, e.ephemeralPublic, pq.decapsulationKey, e.mlkemCiphertext.value).value;
    var dataKey: Bytes32 := UnwrapDataKey(c, entry, combined, id).value;
    assert HybridRecovers(c, e, key, dataKey);
  }

  /**
    For any envelope whatsoever, hybrid decryption gives exactly the plaintexts it opens to. When
    there is none, the error names the first thing missing: the hybrid algorithm, a valid signature,
    a scope at or above, an entry, or exchanges, an entry and a payload that open.
   */
  lemma HybridDecryptsExactly(c: Crypto, e: Envelope, k: ReadKeyPair, vk: Bytes32)
    ensures forall plaintext :: HybridDecrypt(c, e, k, vk) == Ok(plaintext) <==> HybridOpensTo(c, e, k, vk, plaintext)
    ensures HybridDecrypt(c, e, k, vk).Err? ==>
              HybridDecrypt(c, e, k, vk).error ==
              if e.algorithm != HybridX25519MlKemChaCha20 then DecryptionError
              else if !c.ed25519Verify(vk, Signable(e), e.signature) then SignatureVerificationFailed
              else if !IsAncestorOf(k.scope, e.scope) then ScopeMismatch(k.scope, e.scope)
              else if KeyAt(c, k, e.scope).Ok? && !HasEntry(e, KeyIdOf(c, KeyAt(c, k, e.scope).value.public)) then
                NoMatchingAccessEntry(KeyIdOf(c, KeyAt(c, k, e.scope).value.public))
              else DecryptionError
  {
    hide Signable, HybridOpen, HybridRecovers, HasEntry, DeriveChild, IsAncestorOf;
    KeyAtExists(c, k, e.scope);
    if KeyAt(c, k, e.scope).Ok? {
      HybridOpenExactly(c, e, KeyAt(c, k, e.scope).value);
    }
  }

  /**
    A hybrid envelope that carries another one's signature, which vouches for no other bytes, fails
    the signature check for every key exactly when its signed bytes differ; with the same signed
    bytes and a scope of the same length it decrypts like the other.
   */
  lemma AlteredHybridStaysClosed(c: Crypto, a: Envelope, b: Envelope, k: ReadKeyPair, vk: Bytes32)
    requires b.algorithm == HybridX25519MlKemChaCha20
    requires VouchesForNoOther(c, vk, a) && b.signature == a.signature
    ensures HybridDecrypt(c, b, k, vk) == Err(SignatureVerificationFailed) <==>
              Signable(b) != Signable(a) || !c.ed25519Verify(vk, Signable(a), a.signature)
    ensures FitsSigned(a) && FitsSigned(b) && |a.scope| == |b.scope| && Signable(b) == Signable(a) ==>
              HybridDecrypt(c, b, k, vk) == HybridDecrypt(c, a, k, vk)
  {
    hide Signable, HybridOpen, HybridRecovers, HasEntry, DeriveChild, FitsSigned, IsAncestorOf;
    HybridDecryptsExactly(c, b, k, vk);
    if FitsSigned(a) && FitsSigned(b) && |a.scope| == |b.scope| && Signable(b) == Signable(a) {
      SignedExactly(a, b);
      assert Normalize(a) == Normalize(b);
      HybridNormalFormAlike(c, a, k, vk);
      HybridNormalFormAlike(c, b, k, vk);
    }
  }

  /** Hybrid decryption cannot tell an envelope from its restored copy, either. */
  lemma HybridNormalFormAlike(c: Crypto, e: Envelope, k: ReadKeyPair, vk: Bytes32)
    ensures HybridDecrypt(c, Normalize(e), k, vk) == HybridDecrypt(c, e, k, vk)
  {
  }

  /**
    Copies of any envelope the formats carry, restored from bytes or through the protobuf structs,
    decrypt like the original, value or error, for every key.
   */
  lemma HybridCopiesAlike(c: Crypto, e: Envelope, k: ReadKeyPair, vk: Bytes32)
    ensures Fits(e) && e.version >= 2 ==>
              Parsed(Wire(e)).Ok? && HybridDecrypt(c, Parsed(Wire(e)).value, k, vk) == HybridDecrypt(c, e, k, vk)
    ensures FromProto(ToProto(e)).Ok?
    ensures HybridDecrypt(c, FromProto(ToProto(e)).value, k, vk) == HybridDecrypt(c, e, k, vk)
  {
    hide HybridDecrypt, Wire, Parsed, Fits, FromProto, ToProto;
    RoundTrip(e, []);
    assert Wire(e) + [] == Wire(e);
    ProtoRoundTrip(e, ToProto(e));
    HybridNormalFormAlike(c, e, k, vk);
  }

  /** What `hybrid_encrypt` makes is carried by the binary format exactly when scope and plaintext fit. */
  lemma HybridEnvelopeSurvives(c: Crypto, plaintext: seq<byte>, scope: Scope, seed: Bytes32, coins: Coins,
                               kemCoins: Bytes32)
    ensures HybridEncrypt(c, plaintext, scope, seed, coins, kemCoins).Ok?
    ensures var e := HybridEncrypt(c, plaintext, scope, seed, coins, kemCoins).value;
            Parsed(Wire(e)) == Ok(e) <==> |scope| < 0x1_0000 && |plaintext| < 0x1_0000_0000_0000_0000
  {
    hide HybridEncrypt, Wire, Parsed, Fits;
    HybridEncryptFits(c, plaintext, scope, seed, coins, kemCoins);
    var e := HybridEncrypt(c, plaintext, scope, seed, coins, kemCoins).value;
    RoundTrip(e, []);
    assert Wire(e) + [] == Wire(e);
  }

  lemma HybridEncryptFits(c: Crypto, plaintext: seq<byte>, scope: Scope, seed: Bytes32, coins: Coins, kemCoins: Bytes32)
    ensures var r := HybridEncrypt(c, plaintext, scope, seed, coins, kemCoins);
            && r.Ok? && r.value.version == 2 && Normalize(r.value) == r.value
            && (Fits(r.value) <==> |scope| < 0x1_0000 && |plaintext| < 0x1_0000_0000_0000_0000)
  {
    ScopeKeyIsOwned(c, seed, scope);
    PayloadOpens(c, coins.dataKey, plaintext, coins.nonce);
    HybridAgreement(c, ScopeKey(c, seed, scope).value.secret, scope, coins.ephemeral, kemCoins);
    var e := HybridEncrypt(c, plaintext, scope, seed, coins, kemCoins).value;
    assert |e.accessEntries| == 1 && |e.accessEntries[0].wrappedDataKey| == 48;
  }
}
