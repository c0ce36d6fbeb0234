/**
  Who can open what: scope-based envelopes open for the owner's keys at or above their scope and
  for those whose derived key is the owner's, recipient envelopes for exactly the listed keys,
  through any chain of re-keyings.
 */
module Access {
  import opened Basics
  import opened Scopes
  import opened Primitives
  import opened Derivation
  import opened Keys
  import opened Delegation
  import opened Envelopes
  import opened EnvelopeCodec
  import opened SignedBytes
  import opened Encryption

  /** A key pair whose public half belongs to its secret half. */
  predicate WellFormed(c: Crypto, k: ReadKeyPair) {
    k.public == c.x25519Public(k.secret)
  }

  predicate Listed(rs: seq<Recipient>, id: KeyId) {
    exists i | 0 <= i < |rs| :: rs[i].keyId == id
  }

  predicate FirstRecipient(rs: seq<Recipient>, id: KeyId, i: nat) {
    i < |rs| && rs[i].keyId == id && forall j | 0 <= j < i :: rs[j].keyId != id
  }

  /** The first recipient with this key's id, the one that lookup finds, has this key. */
  predicate NotShadowed(c: Crypto, rs: seq<Recipient>, k: ReadKeyPair) {
    forall i | 0 <= i < |rs| && FirstRecipient(rs, KeyIdOf(c, k.public), i) :: rs[i].readPublicKey == k.public
  }

  /** The key that wraps a data key for a recipient, out of the exchange with the recipient. */
  function ExchangeKey(c: Crypto, shared: Bytes32, id: KeyId): Bytes32 {
    c.hkdf(Ascii("rok-v1-key-wrap"), shared, id)
  }

  /** One entry for each recipient, in order, that the exchange between sender and recipient unwraps to the data key. */
  predicate Wrapped(c: Crypto, es: seq<AccessEntry>, rs: seq<Recipient>, dataKey: Bytes32, ephemeral: Bytes32) {
    && |es| == |rs|
    && (forall i | 0 <= i < |rs| ::
          && es[i].readKeyId == rs[i].keyId
          && c.sivSeal(ExchangeKey(c, c.x25519(ephemeral, rs[i].readPublicKey), rs[i].keyId), es[i].wrapNonce, dataKey)
             == es[i].wrappedDataKey)
  }

  lemma WrapAllWraps(c: Crypto, dataKey: Bytes32, ephemeral: Bytes32, rs: seq<Recipient>, nonces: nat -> Bytes12)
    ensures Wrapped(c, WrapAll(c, dataKey, ephemeral, rs, nonces), rs, dataKey, ephemeral)
    ensures forall i | 0 <= i < |rs| :: WrapAll(c, dataKey, ephemeral, rs, nonces)[i].wrapNonce == nonces(i)
  {
    var es := WrapAll(c, dataKey, ephemeral, rs, nonces);
    forall i | 0 <= i < |rs|
      ensures es[i] == WrapFor(c, dataKey, ephemeral, rs[i], nonces(i))
    {
    }
  }

  /** An envelope whose payload is sealed under a data key, and that wrapped for the recipients. */
  ghost predicate SealedWith(c: Crypto, e: Envelope, rs: seq<Recipient>, plaintext: seq<byte>, dataKey: Bytes32,
                             ephemeral: Bytes32)
  {
    && Wrapped(c, e.accessEntries, rs, dataKey, ephemeral)
    && e.ephemeralPublic == c.x25519Public(ephemeral)
    && e.ciphertext + e.tag == c.chachaSeal(dataKey, e.nonce, plaintext)
  }

  ghost predicate SignedBy(c: Crypto, seed: Bytes32, e: Envelope) {
    e.signature == SignBytes(c, seed, Signable(e)) && e.spendPublicKey == VerifyingKey(c, seed)
  }

  /** Sealed for the recipients and signed by the owner. */
  ghost predicate Sealed(c: Crypto, seed: Bytes32, e: Envelope, rs: seq<Recipient>, plaintext: seq<byte>) {
    SignedBy(c, seed, e) && exists dataKey, ephemeral :: SealedWith(c, e, rs, plaintext, dataKey, ephemeral)
  }

  lemma SignedIsSigned(c: Crypto, seed: Bytes32, e: Envelope)
    requires e.spendPublicKey == VerifyingKey(c, seed)
    ensures SignedBy(c, seed, Signed(c, seed, e))
    ensures c.ed25519Verify(VerifyingKey(c, seed), Signable(Signed(c, seed, e)), Signed(c, seed, e).signature)
  {
  }

  lemma SignatureVerifies(c: Crypto, seed: Bytes32, e: Envelope)
    requires SignedBy(c, seed, e)
    ensures c.ed25519Verify(VerifyingKey(c, seed), Signable(e), e.signature)
    ensures c.ed25519IsKey(e.spendPublicKey)
  {
  }

  lemma PayloadOpens(c: Crypto, dataKey: Bytes32, plaintext: seq<byte>, nonce: Bytes12)
    ensures var (ciphertext, tag) := EncryptPayload(c, dataKey, plaintext, nonce);
            && ciphertext + tag == c.chachaSeal(dataKey, nonce, plaintext)
            && c.chachaOpen(dataKey, nonce, ciphertext + tag) == Some(plaintext)
            && |ciphertext| == |plaintext|
  {
    var encrypted := c.chachaSeal(dataKey, nonce, plaintext);
    var (ciphertext, tag) := EncryptPayload(c, dataKey, plaintext, nonce);
    assert ciphertext + tag == encrypted;
  }

  /** What `encrypt` assembles is sealed for its audience and signed by the owner. */
  lemma AssembledIsSealed(c: Crypto, algorithm: Algorithm, scope: Scope, mode: AccessMode, rs: seq<Recipient>,
                          seed: Bytes32, plaintext: seq<byte>, coins: Coins)
    ensures var e := Assemble(c, algorithm, scope, mode, rs, seed, plaintext, coins);
            && Sealed(c, seed, e, rs, plaintext)
            && e.algorithm == algorithm && e.scope == scope && e.accessMode == mode
  {
    var e := Assemble(c, algorithm, scope, mode, rs, seed, plaintext, coins);
    PayloadOpens(c, coins.dataKey, plaintext, coins.nonce);
    SignedIsSigned(c, seed, e.(signature := Zeros(64)));
    assert e == Signed(c, seed, e.(signature := Zeros(64)));
    WrapAllWraps(c, coins.dataKey, coins.ephemeral, rs, coins.wrapNonces);
    assert SealedWith(c, e, rs, plaintext, coins.dataKey, coins.ephemeral);
  }

  /** The position of the first entry with the id, as lookup finds it. */
  predicate FirstFor(es: seq<AccessEntry>, id: KeyId, i: nat) {
    i < |es| && es[i].readKeyId == id && forall j | 0 <= j < i :: es[j].readKeyId != id
  }

  /** Lookup finds the first entry with the id, if there is one. */
  lemma {:induction false} FoundIsFirst(es: seq<AccessEntry>, id: KeyId)
    ensures match FindEntry(es, id)
            case Some(entry) => exists i: nat :: FirstFor(es, id, i) && entry == es[i]
            case None => forall i | 0 <= i < |es| :: es[i].readKeyId != id
  {
    if es != [] && es[0].readKeyId != id {
      FoundIsFirst(es[1..], id);
      if FindEntry(es, id).Some? {
        var i: nat :| FirstFor(es[1..], id, i) && FindEntry(es, id).value == es[1..][i];
        assert FirstFor(es, id, i + 1);
      }
    } else if es != [] {
      assert FirstFor(es, id, 0);
    }
  }

  lemma FirstIsUnique(es: seq<AccessEntry>, id: KeyId, i: nat)
    requires FirstFor(es, id, i)
    ensures FindEntry(es, id) == Some(es[i])
  {
    FoundIsFirst(es, id);
    var j: nat :| FirstFor(es, id, j) && FindEntry(es, id) == Some(es[j]);
    assert i == j;
  }

  /** The data key that a key unwraps from the first entry with its id. */
  ghost predicate Recovers(c: Crypto, e: Envelope, k: ReadKeyPair, dataKey: seq<byte>) {
    var id := KeyIdOf(c, k.public);
    exists i: nat :: FirstFor(e.accessEntries, id, i)
      && c.sivOpen(ExchangeKey(c, c.x25519(k.secret, e.ephemeralPublic), id), e.accessEntries[i].wrapNonce,
                   e.accessEntries[i].wrappedDataKey) == Some(dataKey)
  }

  predicate HasEntry(e: Envelope, id: KeyId) {
    exists i | 0 <= i < |e.accessEntries| :: e.accessEntries[i].readKeyId == id
  }

  /** Unwrapping gives exactly that key; without an entry, or one that does not open, its error. */
  lemma RecoversExactly(c: Crypto, e: Envelope, k: ReadKeyPair)
    ensures forall dataKey :: RecoverDataKey(c, e, k) == Ok(dataKey) <==> Recovers(c, e, k, dataKey)
    ensures RecoverDataKey(c, e, k).Err? ==>
              RecoverDataKey(c, e, k) ==
              if HasEntry(e, KeyIdOf(c, k.public)) then Err(DecryptionError)
              else Err(NoMatchingAccessEntry(KeyIdOf(c, k.public)))
  {
    var id := KeyIdOf(c, k.public);
    FoundIsFirst(e.accessEntries, id);
    forall dataKey
      ensures RecoverDataKey(c, e, k) == Ok(dataKey) <==> Recovers(c, e, k, dataKey)
    {
      if Recovers(c, e, k, dataKey) {
        var i: nat :| FirstFor(e.accessEntries, id, i)
          && c.sivOpen(ExchangeKey(c, c.x25519(k.secret, e.ephemeralPublic), id), e.accessEntries[i].wrapNonce,
                       e.accessEntries[i].wrappedDataKey) == Some(dataKey);
        FirstIsUnique(e.accessEntries, id, i);
      }
    }
  }

  /** A listed key recovers the data key; an unlisted one finds no entry. */
  lemma DataKeyRecovered(c: Crypto, e: Envelope, rs: seq<Recipient>, plaintext: seq<byte>, dataKey: Bytes32,
                         ephemeral: Bytes32, k: ReadKeyPair)
    requires SealedWith(c, e, rs, plaintext, dataKey, ephemeral)
    requires WellFormed(c, k) && NotShadowed(c, rs, k)
    ensures RecoverDataKey(c, e, k) ==
            if Listed(rs, KeyIdOf(c, k.public)) then Ok(dataKey) else Err(NoMatchingAccessEntry(KeyIdOf(c, k.public)))
  {
    var id := KeyIdOf(c, k.public);
    FoundIsFirst(e.accessEntries, id);
    if FindEntry(e.accessEntries, id).Some? {
      var i: nat :| FirstFor(e.accessEntries, id, i) && FindEntry(e.accessEntries, id) == Some(e.accessEntries[i]);
      assert FirstRecipient(rs, id, i) by {
        assert forall j | 0 <= j < i :: rs[j].keyId == e.accessEntries[j].readKeyId;
      }
      assert c.x25519(ephemeral, k.public) == c.x25519(k.secret, e.ephemeralPublic);
    }
  }

  /** Recipient mode: the listed keys, and no others, open the envelope. */
  lemma RecipientsOpen(c: Crypto, seed: Bytes32, e: Envelope, rs: seq<Recipient>, plaintext: seq<byte>, k: ReadKeyPair)
    requires Sealed(c, seed, e, rs, plaintext) && e.accessMode == PerRecipient
    requires WellFormed(c, k) && NotShadowed(c, rs, k)
    ensures Decrypt(c, e, k, VerifyingKey(c, seed)) ==
            if Listed(rs, KeyIdOf(c, k.public)) then Ok(plaintext)
            else Err(NoMatchingAccessEntry(KeyIdOf(c, k.public)))
  {
    SignatureVerifies(c, seed, e);
    var dataKey, ephemeral :| SealedWith(c, e, rs, plaintext, dataKey, ephemeral);
    DataKeyRecovered(c, e, rs, plaintext, dataKey, ephemeral, k);
  }

  /** Scope mode: sealed for the owner's key at the envelope's scope. */
  ghost predicate ScopeSealed(c: Crypto, seed: Bytes32, e: Envelope, plaintext: seq<byte>) {
    && e.accessMode == ScopeBased
    && Sealed(c, seed, e, [Recipient(OwnerPublic(c, seed, e.scope), OwnerId(c, seed, e.scope))], plaintext)
  }

  lemma EncryptedIsScopeSealed(c: Crypto, algorithm: Algorithm, scope: Scope, recipients: seq<Recipient>, seed: Bytes32,
                               plaintext: seq<byte>, coins: Coins)
    ensures var r := Encrypted(c, algorithm, scope, recipients, Some(seed), true, plaintext, coins);
            && r.Ok? && r.value.scope == scope && r.value.version == CURRENT_VERSION
            && ScopeSealed(c, seed, r.value, plaintext)
  {
    ScopeKeyIsOwned(c, seed, scope);
    var key := ScopeKey(c, seed, scope).value;
    AssembledIsSealed(c, algorithm, scope, ScopeBased, [RecipientFor(c, key)], seed, plaintext, coins);
  }

  /** Every key of the owner opens a scope-sealed envelope exactly when its scope is at or above the envelope's. */
  lemma ScopeSealedOpens(c: Crypto, seed: Bytes32, e: Envelope, plaintext: seq<byte>, k: ReadKeyPair)
    requires ScopeSealed(c, seed, e, plaintext) && Owned(c, seed, k)
    ensures Decrypt(c, e, k, VerifyingKey(c, seed)) ==
            if IsAncestorOf(k.scope, e.scope) then Ok(plaintext) else Err(ScopeMismatch(k.scope, e.scope))
  {
    SignatureVerifies(c, seed, e);
    if IsAncestorOf(k.scope, e.scope) {
      if k.scope != e.scope {
        DeriveChildIsOwned(c, seed, k, e.scope);
      }
      var key := if k.scope != e.scope then DeriveChild(c, k, e.scope).value else k;
      var rs := [Recipient(OwnerPublic(c, seed, e.scope), OwnerId(c, seed, e.scope))];
      assert rs[0].keyId == KeyIdOf(c, key.public);
      var dataKey, ephemeral :| SealedWith(c, e, rs, plaintext, dataKey, ephemeral);
      DataKeyRecovered(c, e, rs, plaintext, dataKey, ephemeral, key);
    }
  }

  /** The key `decrypt` tries on a scope envelope: the one derived for its scope. */
  function KeyAt(c: Crypto, k: ReadKeyPair, scope: Scope): Result<ReadKeyPair> {
    if k.scope == scope then Ok(k) else DeriveChild(c, k, scope)
  }

  lemma KeyAtExists(c: Crypto, k: ReadKeyPair, scope: Scope)
    ensures KeyAt(c, k, scope).Ok? <==> IsAncestorOf(k.scope, scope)
    ensures WellFormed(c, k) && KeyAt(c, k, scope).Ok? ==> WellFormed(c, KeyAt(c, k, scope).value)
  {
  }

  /**
    Anyone's key: above the scope it opens a scope-sealed envelope exactly when the key derived
    from it is the owner's, and otherwise finds no entry; elsewhere it is a scope mismatch.
   */
  lemma ScopeSealedForAnyKey(c: Crypto, seed: Bytes32, e: Envelope, plaintext: seq<byte>, k: ReadKeyPair)
    requires ScopeSealed(c, seed, e, plaintext) && WellFormed(c, k)
    requires KeyAt(c, k, e.scope).Ok? ==>
               NotShadowed(c, [Recipient(OwnerPublic(c, seed, e.scope), OwnerId(c, seed, e.scope))],
                           KeyAt(c, k, e.scope).value)
    ensures KeyAt(c, k, e.scope).Ok? <==> IsAncestorOf(k.scope, e.scope)
    ensures Decrypt(c, e, k, VerifyingKey(c, seed)) ==
            if !IsAncestorOf(k.scope, e.scope) then Err(ScopeMismatch(k.scope, e.scope))
            else if KeyAt(c, k, e.scope).value.public == OwnerPublic(c, seed, e.scope) then Ok(plaintext)
            else Err(NoMatchingAccessEntry(KeyIdOf(c, KeyAt(c, k, e.scope).value.public)))
  {
    hide DeriveChild, Signable;
    SignatureVerifies(c, seed, e);
    KeyAtExists(c, k, e.scope);
    if IsAncestorOf(k.scope, e.scope) {
      var key := KeyAt(c, k, e.scope).value;
      var rs := [Recipient(OwnerPublic(c, seed, e.scope), OwnerId(c, seed, e.scope))];
      assert rs[0].keyId == OwnerId(c, seed, e.scope);
      var dataKey, ephemeral :| SealedWith(c, e, rs, plaintext, dataKey, ephemeral);
      DataKeyRecovered(c, e, rs, plaintext, dataKey, ephemeral, key);
      assert RecoverDataKey(c, e, key).Ok? <==> key.public == OwnerPublic(c, seed, e.scope);
    }
  }

  /**
    Scope-based encryption at T, for any algorithm, plaintext and randomness: a key delegated
    along any chain decrypts it if its scope is at or above T, and is refused otherwise.
   */
  lemma ScopeEncryptionOpensAbove(c: Crypto, algorithm: Algorithm, scope: Scope, recipients: seq<Recipient>,
                                  seed: Bytes32, plaintext: seq<byte>, coins: Coins, steps: seq<Step>)
    ensures Encrypted(c, algorithm, scope, recipients, Some(seed), true, plaintext, coins).Ok?
    ensures var e := Encrypted(c, algorithm, scope, recipients, Some(seed), true, plaintext, coins).value;
            var key := Run(c, DeriveRootReadKey(c, seed), steps);
            key.Ok? ==>
              Decrypt(c, e, key.value, VerifyingKey(c, seed)) ==
              if IsAncestorOf(key.value.scope, scope) then Ok(plaintext)
              else Err(ScopeMismatch(key.value.scope, scope))
  {
    hide Run, Encrypted, Decrypt, ScopeSealed;
    EncryptedIsScopeSealed(c, algorithm, scope, recipients, seed, plaintext, coins);
    RootIsOwned(c, seed);
    DelegatedKeysAreOwned(c, seed, DeriveRootReadKey(c, seed), steps);
    var key := Run(c, DeriveRootReadKey(c, seed), steps);
    if key.Ok? {
      ScopeSealedOpens(c, seed, Encrypted(c, algorithm, scope, recipients, Some(seed), true, plaintext, coins).value,
                       plaintext, key.value);
    }
  }

  // ---- What a successful call has done

  /**
    What `encrypt` draws is what it uses: the payload is sealed under the data key and nonce drawn,
    each recipient's entry, in order, wraps that key under its own nonce, and no field is left over.
   */
  lemma EncryptUsesItsCoins(c: Crypto, algorithm: Algorithm, scope: Scope, recipients: seq<Recipient>, seed: Bytes32,
                            scopeBased: bool, plaintext: seq<byte>, coins: Coins)
    requires scopeBased || recipients != []
    ensures Encrypted(c, algorithm, scope, recipients, Some(seed), scopeBased, plaintext, coins).Ok?
    ensures var e := Encrypted(c, algorithm, scope, recipients, Some(seed), scopeBased, plaintext, coins).value;
            var owner := Recipient(OwnerPublic(c, seed, scope), OwnerId(c, seed, scope));
            var rs := if scopeBased then [owner] else recipients;
            && SealedWith(c, e, rs, plaintext, coins.dataKey, coins.ephemeral) && e.nonce == coins.nonce
            && (forall i | 0 <= i < |rs| :: e.accessEntries[i].wrapNonce == coins.wrapNonces(i))
            && SignedBy(c, seed, e) && e.version == 2 && e.algorithm == algorithm && e.scope == scope
            && e.mlkemCiphertext == None && e.accessMode == (if scopeBased then ScopeBased else PerRecipient)
  {
    ScopeKeyIsOwned(c, seed, scope);
    var e := Encrypted(c, algorithm, scope, recipients, Some(seed), scopeBased, plaintext, coins).value;
    var rs := if scopeBased then [Recipient(OwnerPublic(c, seed, scope), OwnerId(c, seed, scope))] else recipients;
    PayloadOpens(c, coins.dataKey, plaintext, coins.nonce);
    WrapAllWraps(c, coins.dataKey, coins.ephemeral, rs, coins.wrapNonces);
    SignedIsSigned(c, seed, e.(signature := Zeros(64)));
    assert e == Signed(c, seed, e.(signature := Zeros(64)));
  }

  /** Encryption fails exactly without a spend key, or outside scope mode without recipients. */
  lemma EncryptFailsExactly(c: Crypto, algorithm: Algorithm, scope: Scope, recipients: seq<Recipient>,
                            spendKey: Option<Bytes32>, scopeBased: bool, plaintext: seq<byte>, coins: Coins)
    ensures var r := Encrypted(c, algorithm, scope, recipients, spendKey, scopeBased, plaintext, coins);
            && (r.Err? <==> spendKey == None || (!scopeBased && recipients == []))
            && (r.Err? ==> r == Err(EncryptionError))
  {
    if spendKey.Some? {
      ScopeKeyIsOwned(c, spendKey.value, scope);
    }
  }

  /** The key that decryption looks up: in scope mode the one derived for the envelope's scope. */
  function KeyFor(c: Crypto, e: Envelope, k: ReadKeyPair): Result<ReadKeyPair> {
    if e.accessMode.ScopeBased? then KeyAt(c, k, e.scope) else Ok(k)
  }

  /** A signed envelope, a key that may open it, a data key unwrapped by it, a payload opened by that. */
  ghost predicate OpensTo(c: Crypto, e: Envelope, k: ReadKeyPair, vk: Bytes32, plaintext: seq<byte>) {
    && c.ed25519Verify(vk, Signable(e), e.signature)
    && (e.accessMode == ScopeBased ==> IsAncestorOf(k.scope, e.scope))
    && KeyFor(c, e, k).Ok?
    && exists dataKey: Bytes32 ::
         && Recovers(c, e, KeyFor(c, e, k).value, dataKey)
         && c.chachaOpen(dataKey, e.nonce, e.ciphertext + e.tag) == Some(plaintext)
  }

  /**
    For any envelope whatsoever, decryption gives exactly the plaintexts it opens to. When there is
    none, the error names the first thing missing: a valid signature, a scope at or above, an entry,
    or an entry and payload that open.
   */
  lemma DecryptsExactly(c: Crypto, e: Envelope, k: ReadKeyPair, vk: Bytes32)
    ensures forall plaintext :: Decrypt(c, e, k, vk) == Ok(plaintext) <==> OpensTo(c, e, k, vk, plaintext)
    ensures Decrypt(c, e, k, vk).Err? ==>
              Decrypt(c, e, k, vk).error ==
              if !c.ed25519Verify(vk, Signable(e), e.signature) then SignatureVerificationFailed
              else if e.accessMode == ScopeBased && !IsAncestorOf(k.scope, e.scope) then ScopeMismatch(k.scope, e.scope)
              else if KeyFor(c, e, k).Ok? && !HasEntry(e, KeyIdOf(c, KeyFor(c, e, k).value.public)) then
                NoMatchingAccessEntry(KeyIdOf(c, KeyFor(c, e, k).value.public))
              else DecryptionError
  {
    hide Signable, RecoverDataKey, Recovers, HasEntry, DeriveChild, IsAncestorOf;
    KeyAtExists(c, k, e.scope);
    if KeyFor(c, e, k).Ok? {
      var key := KeyFor(c, e, k).value;
      RecoversExactly(c, e, key);
      EntryFirst(c, e, key);
      if RecoverDataKey(c, e, key).Ok? {
        assert Recovers(c, e, key, RecoverDataKey(c, e, key).value);
      }
    }
  }

  // ---- Re-keying

  predicate SamePayload(a: Envelope, b: Envelope) {
    && a.version == b.version && a.algorithm == b.algorithm && a.scope == b.scope
    && a.nonce == b.nonce && a.ciphertext == b.ciphertext && a.tag == b.tag && a.accessMode == b.accessMode
  }

  /**
    Re-keying a recipient envelope succeeds exactly for a listed key and a non-empty new list;
    it then leaves the payload alone and seals it for the new list.
   */
  lemma RekeyMovesAccess(c: Crypto, e: Envelope, signer: Bytes32, rs: seq<Recipient>, plaintext: seq<byte>,
                         authorized: ReadKeyPair, recipients: seq<Recipient>, seed: Bytes32, coins: Coins)
    requires Sealed(c, signer, e, rs, plaintext) && e.accessMode == PerRecipient
    requires WellFormed(c, authorized) && NotShadowed(c, rs, authorized)
    ensures var r := Rekeyed(c, e, authorized, recipients, seed, coins);
            && (r.Ok? <==> Listed(rs, KeyIdOf(c, authorized.public)) && recipients != [])
            && (r.Ok? ==> SamePayload(r.value, e) && Sealed(c, seed, r.value, recipients, plaintext))
  {
    SignatureVerifies(c, signer, e);
    var dataKey, ephemeral :| SealedWith(c, e, rs, plaintext, dataKey, ephemeral);
    DataKeyRecovered(c, e, rs, plaintext, dataKey, ephemeral, authorized);
    ReaddressedIsSealed(c, e, plaintext, dataKey, recipients, seed, coins);
  }

  lemma ReaddressedIsSealed(c: Crypto, e: Envelope, plaintext: seq<byte>, dataKey: Bytes32, recipients: seq<Recipient>,
                            seed: Bytes32, coins: Coins)
    requires e.ciphertext + e.tag == c.chachaSeal(dataKey, e.nonce, plaintext)
    ensures Sealed(c, seed, Readdressed(c, e, dataKey, recipients, seed, coins), recipients, plaintext)
  {
    var r := Readdressed(c, e, dataKey, recipients, seed, coins);
    SignedIsSigned(c, seed, r.(signature := Zeros(64)));
    assert r == Signed(c, seed, r.(signature := Zeros(64)));
    WrapAllWraps(c, dataKey, coins.ephemeral, recipients, coins.wrapNonces);
    assert SealedWith(c, r, recipients, plaintext, dataKey, coins.ephemeral);
  }

  /** What allows any envelope, however it was made, to be re-keyed: its data key is the witness. */
  ghost predicate MayRekey(c: Crypto, e: Envelope, authorized: ReadKeyPair, recipients: seq<Recipient>,
                           dataKey: Bytes32)
  {
    && e.accessMode == PerRecipient && recipients != []
    && c.ed25519IsKey(e.spendPublicKey) && c.ed25519Verify(e.spendPublicKey, Signable(e), e.signature)
    && Recovers(c, e, authorized, dataKey)
  }

  /** The envelope wraps the data key for the recipients with what was drawn, and is signed by the owner. */
  ghost predicate ReaddressedWith(c: Crypto, r: Envelope, recipients: seq<Recipient>, seed: Bytes32, coins: Coins,
                                  dataKey: Bytes32)
  {
    && Wrapped(c, r.accessEntries, recipients, dataKey, coins.ephemeral)
    && r.ephemeralPublic == c.x25519Public(coins.ephemeral) && r.mlkemCiphertext == None
    && (forall i | 0 <= i < |r.accessEntries| :: r.accessEntries[i].wrapNonce == coins.wrapNonces(i))
    && SignedBy(c, seed, r)
  }

  /**
    Any envelope, sealed or not, is re-keyed exactly when it is a recipient envelope with a valid
    signature of its own, there are new recipients, and the key unwraps a data key. Then the payload
    and the mode stay, and the entries are fresh for that same data key.
   */
  lemma RekeysExactly(c: Crypto, e: Envelope, authorized: ReadKeyPair, recipients: seq<Recipient>, seed: Bytes32,
                      coins: Coins)
    ensures var r := Rekeyed(c, e, authorized, recipients, seed, coins);
            && (r.Ok? <==> exists dataKey :: MayRekey(c, e, authorized, recipients, dataKey))
            && (r.Ok? ==> SamePayload(r.value, e))
            && (r.Ok? ==> forall dataKey | MayRekey(c, e, authorized, recipients, dataKey) ::
                  ReaddressedWith(c, r.value, recipients, seed, coins, dataKey))
  {
    hide Signable, RecoverDataKey, Recovers, Wrapped, SignedBy, Readdressed;
    RecoversExactly(c, e, authorized);
    var r := Rekeyed(c, e, authorized, recipients, seed, coins);
    if r.Ok? {
      var dataKey: Bytes32 := RecoverDataKey(c, e, authorized).value;
      assert MayRekey(c, e, authorized, recipients, dataKey);
      ReaddressedKeeps(c, e, dataKey, recipients, seed, coins);
    }
    forall dataKey | MayRekey(c, e, authorized, recipients, dataKey)
      ensures r.Ok?
    {
      assert RecoverDataKey(c, e, authorized) == Ok(dataKey);
    }
  }

  lemma ReaddressedKeeps(c: Crypto, e: Envelope, dataKey: Bytes32, recipients: seq<Recipient>, seed: Bytes32,
                         coins: Coins)
    ensures var r := Readdressed(c, e, dataKey, recipients, seed, coins);
            && ReaddressedWith(c, r, recipients, seed, coins, dataKey)
            && (e.accessMode == PerRecipient ==> SamePayload(r, e))
  {
    var r := Readdressed(c, e, dataKey, recipients, seed, coins);
    SignedIsSigned(c, seed, r.(signature := Zeros(64)));
    assert r == Signed(c, seed, r.(signature := Zeros(64)));
    WrapAllWraps(c, dataKey, coins.ephemeral, recipients, coins.wrapNonces);
  }

  /** Which error a refused re-keying gives: scope envelopes and empty lists first, then the signature, then the key. */
  lemma RekeyErrors(c: Crypto, e: Envelope, authorized: ReadKeyPair, recipients: seq<Recipient>, seed: Bytes32,
                    coins: Coins)
    ensures var r := Rekeyed(c, e, authorized, recipients, seed, coins);
            r.Err? ==>
              r.error ==
              if e.accessMode == ScopeBased || recipients == [] then EncryptionError
              else if !c.ed25519IsKey(e.spendPublicKey) then InvalidKeyMaterial
              else if !c.ed25519Verify(e.spendPublicKey, Signable(e), e.signature) then SignatureVerificationFailed
              else if !HasEntry(e, KeyIdOf(c, authorized.public)) then
                NoMatchingAccessEntry(KeyIdOf(c, authorized.public))
              else if exists dataKey :: Recovers(c, e, authorized, dataKey) then Panic
              else DecryptionError
  {
    hide Signable, RecoverDataKey, HasEntry, Recovers, Readdressed;
    RecoversExactly(c, e, authorized);
    EntryFirst(c, e, authorized);
    if RecoverDataKey(c, e, authorized).Ok? {
      assert Recovers(c, e, authorized, RecoverDataKey(c, e, authorized).value);
    }
  }

  lemma EntryFirst(c: Crypto, e: Envelope, k: ReadKeyPair)
    ensures forall dataKey :: Recovers(c, e, k, dataKey) ==> HasEntry(e, KeyIdOf(c, k.public))
  {
  }

  /** An envelope that carries another one's signature is never signed anew, if that vouches for no other bytes. */
  lemma AlteredNeverRekeyed(c: Crypto, a: Envelope, b: Envelope, authorized: ReadKeyPair, recipients: seq<Recipient>,
                            seed: Bytes32, coins: Coins)
    requires VouchesForNoOther(c, b.spendPublicKey, a) && b.signature == a.signature && Signable(b) != Signable(a)
    ensures Rekeyed(c, b, authorized, recipients, seed, coins).Err?
    ensures b.accessMode == PerRecipient && recipients != [] && c.ed25519IsKey(b.spendPublicKey) ==>
              Rekeyed(c, b, authorized, recipients, seed, coins) == Err(SignatureVerificationFailed)
  {
    hide Signable, RecoverDataKey, Readdressed;
  }

  datatype RekeyCall = RekeyCall(authorized: ReadKeyPair, recipients: seq<Recipient>, seed: Bytes32, coins: Coins)

  function RunRekeys(c: Crypto, e: Envelope, calls: seq<RekeyCall>): Result<Envelope>
    decreases |calls|
  {
    if calls == [] then Ok(e)
    else
      match Rekeyed(c, e, calls[0].authorized, calls[0].recipients, calls[0].seed, calls[0].coins)
      case Ok(next) => RunRekeys(c, next, calls[1..])
      case Err(error) => Err(error)
  }

  /** Genuine keys throughout, and none whose id collides with that of a recipient it meets. */
  predicate Genuine(c: Crypto, rs: seq<Recipient>, calls: seq<RekeyCall>)
    decreases |calls|
  {
    calls == [] ||
    (WellFormed(c, calls[0].authorized) && NotShadowed(c, rs, calls[0].authorized)
     && Genuine(c, calls[0].recipients, calls[1..]))
  }

  /** Each call is made by a key on the list the call before left behind, for a non-empty new list. */
  predicate Permitted(c: Crypto, rs: seq<Recipient>, calls: seq<RekeyCall>)
    decreases |calls|
  {
    calls == [] ||
    (Listed(rs, KeyIdOf(c, calls[0].authorized.public)) && calls[0].recipients != []
     && Permitted(c, calls[0].recipients, calls[1..]))
  }

  function LastRecipients(rs: seq<Recipient>, calls: seq<RekeyCall>): seq<Recipient> {
    if calls == [] then rs else calls[|calls| - 1].recipients
  }

  function LastSeed(seed: Bytes32, calls: seq<RekeyCall>): Bytes32 {
    if calls == [] then seed else calls[|calls| - 1].seed
  }

  /**
    Any chain of re-keyings runs through exactly when every call is permitted. The payload is
    then the original one, and the envelope is sealed for the last list under the last spend key.
   */
  lemma {:induction false} RekeyChain(c: Crypto, e: Envelope, seed: Bytes32, rs: seq<Recipient>, plaintext: seq<byte>,
                                      calls: seq<RekeyCall>)
    requires Sealed(c, seed, e, rs, plaintext) && e.accessMode == PerRecipient
    requires Genuine(c, rs, calls)
    ensures RunRekeys(c, e, calls).Ok? <==> Permitted(c, rs, calls)
    ensures RunRekeys(c, e, calls).Ok? ==>
              && SamePayload(RunRekeys(c, e, calls).value, e)
              && Sealed(c, LastSeed(seed, calls), RunRekeys(c, e, calls).value, LastRecipients(rs, calls), plaintext)
    decreases |calls|
  {
    if calls != [] {
      var call := calls[0];
      RekeyMovesAccess(c, e, seed, rs, plaintext, call.authorized, call.recipients, call.seed, call.coins);
      var r := Rekeyed(c, e, call.authorized, call.recipients, call.seed, call.coins);
      if r.Ok? {
        assert RunRekeys(c, e, calls) == RunRekeys(c, r.value, calls[1..]);
        LastIsLater(seed, rs, calls);
        RekeyChain(c, r.value, call.seed, call.recipients, plaintext, calls[1..]);
      }
    }
  }

  lemma LastIsLater(seed: Bytes32, rs: seq<Recipient>, calls: seq<RekeyCall>)
    requires calls != []
    ensures LastSeed(seed, calls) == LastSeed(calls[0].seed, calls[1..])
    ensures LastRecipients(rs, calls) == LastRecipients(calls[0].recipients, calls[1..])
  {
  }

  /** After any chain the last list decides: its keys read the original plaintext, all others find no entry. */
  lemma LastListDecides(c: Crypto, e: Envelope, seed: Bytes32, rs: seq<Recipient>, plaintext: seq<byte>,
                        calls: seq<RekeyCall>, k: ReadKeyPair)
    requires Sealed(c, seed, e, rs, plaintext) && e.accessMode == PerRecipient
    requires Genuine(c, rs, calls) && Permitted(c, rs, calls)
    requires WellFormed(c, k) && NotShadowed(c, LastRecipients(rs, calls), k)
    ensures RunRekeys(c, e, calls).Ok?
    ensures Decrypt(c, RunRekeys(c, e, calls).value, k, VerifyingKey(c, LastSeed(seed, calls))) ==
            if Listed(LastRecipients(rs, calls), KeyIdOf(c, k.public)) then Ok(plaintext)
            else Err(NoMatchingAccessEntry(KeyIdOf(c, k.public)))
  {
    RekeyChain(c, e, seed, rs, plaintext, calls);
    RecipientsOpen(c, LastSeed(seed, calls), RunRekeys(c, e, calls).value, LastRecipients(rs, calls), plaintext, k);
  }

  // ---- Decryption depends on nothing but what is signed

  /** Envelopes with one signed form, scopes of one length and one signature decrypt alike. */
  lemma SignedBytesDetermineDecryption(c: Crypto, a: Envelope, b: Envelope, k: ReadKeyPair, vk: Bytes32)
    requires FitsSigned(a) && FitsSigned(b) && Signable(a) == Signable(b)
    requires |a.scope| == |b.scope| && a.signature == b.signature
    ensures Decrypt(c, a, k, vk) == Decrypt(c, b, k, vk)
  {
    hide Decrypt, Signable;
    SignedBytesDetermineEnvelope(a, b);
    assert Normalize(a) == Normalize(b);
    NormalFormDecryptsAlike(c, a, k, vk);
    NormalFormDecryptsAlike(c, b, k, vk);
  }

  /** The signature of an envelope verifies for no other bytes than its own signed bytes. */
  ghost predicate VouchesForNoOther(c: Crypto, vk: Bytes32, a: Envelope) {
    forall m: seq<byte> | c.ed25519Verify(vk, m, a.signature) :: m == Signable(a)
  }

  /**
    An envelope that carries such a signature, valid for another one, fails the signature check, for
    every key, exactly when its signed bytes differ. At one scope length they differ exactly when more
    does than the signature and the way of writing an empty ML-KEM ciphertext.
   */
  lemma AlteredStaysClosed(c: Crypto, a: Envelope, b: Envelope, k: ReadKeyPair, vk: Bytes32)
    requires VouchesForNoOther(c, vk, a) && b.signature == a.signature
    ensures Decrypt(c, b, k, vk) == Err(SignatureVerificationFailed) <==>
              Signable(b) != Signable(a) || !c.ed25519Verify(vk, Signable(a), a.signature)
    ensures FitsSigned(a) && FitsSigned(b) && |a.scope| == |b.scope| ==>
              Decrypt(c, b, k, vk) ==
              if SameButSignature(a, b) then Decrypt(c, a, k, vk) else Err(SignatureVerificationFailed)
  {
    hide Signable;
    if FitsSigned(a) && FitsSigned(b) && |a.scope| == |b.scope| {
      SignedExactly(a, b);
      if SameButSignature(a, b) {
        SignedBytesDetermineDecryption(c, a, b, k, vk);
      }
    }
  }

  /**
    An alteration that passes: the owner's signature on the envelope at `/a` also verifies for its
    twin at `/aa`, which is another envelope; no key is told that the signature fails.
   */
  lemma AlteredScopePasses(c: Crypto, seed: Bytes32, k: ReadKeyPair)
    ensures var a := Signed(c, seed, ShortTwin());
            var b := LongTwin().(signature := a.signature);
            && a.scope != b.scope && !SameButSignature(a, b)
            && c.ed25519Verify(VerifyingKey(c, seed), Signable(b), b.signature)
            && Decrypt(c, b, k, VerifyingKey(c, seed)) != Err(SignatureVerificationFailed)
  {
    hide Signable, ShortTwin, LongTwin, FitsSigned, Decrypt;
    ScopeLengthMatters();
    SignedWithoutSignature(LongTwin(), Signed(c, seed, ShortTwin()).signature);
    assert Normalize(LongTwin()) == LongTwin() by { TwinsAreNormal(); }
    VerifiedPasses(c, LongTwin().(signature := Signed(c, seed, ShortTwin()).signature), k, VerifyingKey(c, seed));
  }

  lemma VerifiedPasses(c: Crypto, e: Envelope, k: ReadKeyPair, vk: Bytes32)
    ensures Decrypt(c, e, k, vk) == Err(SignatureVerificationFailed) <==>
              !c.ed25519Verify(vk, Signable(e), e.signature)
  {
    hide Signable;
  }

  lemma TwinsAreNormal()
    ensures Normalize(LongTwin()) == LongTwin()
  {
  }

  // ---- Serialising is invisible to decryption

  /** An envelope and its normal form, what both formats restore, decrypt alike for every key. */
  lemma NormalFormDecryptsAlike(c: Crypto, e: Envelope, k: ReadKeyPair, vk: Bytes32)
    ensures Signable(Normalize(e)) == Signable(e)
    ensures Decrypt(c, Normalize(e), k, vk) == Decrypt(c, e, k, vk)
  {
  }

  /** The binary-restored copy decrypts like the original, value or error, for every key. */
  lemma BinaryCopyDecryptsAlike(c: Crypto, e: Envelope, k: ReadKeyPair, vk: Bytes32)
    requires Fits(e) && e.version >= 2
    ensures Parsed(Wire(e)).Ok?
    ensures Signable(Parsed(Wire(e)).value) == Signable(e)
    ensures Decrypt(c, Parsed(Wire(e)).value, k, vk) == Decrypt(c, e, k, vk)
  {
    RoundTrip(e, []);
    assert Wire(e) + [] == Wire(e);
    NormalFormDecryptsAlike(c, e, k, vk);
  }

  lemma AssembledFits(c: Crypto, algorithm: Algorithm, scope: Scope, mode: AccessMode, rs: seq<Recipient>,
                      seed: Bytes32, plaintext: seq<byte>, coins: Coins)
    ensures var e := Assemble(c, algorithm, scope, mode, rs, seed, plaintext, coins);
            && Normalize(e) == e && e.version == CURRENT_VERSION
            && (Fits(e) <==> |scope| < 0x1_0000 && |rs| < 0x1_0000 && |plaintext| < 0x1_0000_0000_0000_0000)
  {
    var e := Assemble(c, algorithm, scope, mode, rs, seed, plaintext, coins);
    PayloadOpens(c, coins.dataKey, plaintext, coins.nonce);
    assert |e.ciphertext| == |plaintext|;
    forall i | 0 <= i < |rs|
      ensures |e.accessEntries[i].wrappedDataKey| == 48
    {
      assert e.accessEntries[i] == WrapFor(c, coins.dataKey, coins.ephemeral, rs[i], coins.wrapNonces(i));
    }
  }

  /** What `encrypt` makes in scope mode fits the binary format exactly when scope and plaintext do. */
  lemma ScopeEnvelopeFits(c: Crypto, algorithm: Algorithm, scope: Scope, recipients: seq<Recipient>, seed: Bytes32,
                          plaintext: seq<byte>, coins: Coins)
    ensures var r := Encrypted(c, algorithm, scope, recipients, Some(seed), true, plaintext, coins);
            && r.Ok? && Normalize(r.value) == r.value
            && (Fits(r.value) <==> |scope| < 0x1_0000 && |plaintext| < 0x1_0000_0000_0000_0000)
  {
    hide Assemble, Fits;
    ScopeKeyIsOwned(c, seed, scope);
    var rs := [RecipientFor(c, ScopeKey(c, seed, scope).value)];
    AssembledFits(c, algorithm, scope, ScopeBased, rs, seed, plaintext, coins);
  }
}
