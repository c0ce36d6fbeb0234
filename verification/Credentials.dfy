/** Credentials: attributes encrypted one by one, disclosed by scope. */
module Credentials {
  import opened Basics
  import opened Scopes
  import opened Primitives
  import opened Keys
  import opened Envelopes
  import opened Encryption
  import opened Access
  import opened Vaults

  datatype Attribute = Attribute(name: Str, scope: Scope, value: seq<byte>)

  datatype EncryptedAttribute = EncryptedAttribute(name: Str, scope: Scope, envelope: Envelope)

  datatype Credential = Credential(issuerVk: Bytes32, subjectId: Str, attributes: seq<EncryptedAttribute>)

  /** `Credential::issue`: attribute `i` draws `coins(i)`; the first failure ends it. */
  method Issue(c: Crypto, seed: Bytes32, subjectId: Str, attributes: seq<Attribute>, recipients: seq<Recipient>,
               coins: nat -> Coins) returns (r: Result<Credential>)
    ensures r.Ok? <==> attributes == [] || recipients != []
    ensures r.Err? ==> r.error == EncryptionError
    ensures r.Ok? ==> r.value.issuerVk == VerifyingKey(c, seed) && r.value.subjectId == subjectId
    ensures r.Ok? ==> IssuedWith(c, seed, r.value.attributes, attributes, recipients, coins)
  {
    hide Encrypted;
    var encrypted := [];
    for i := 0 to |attributes|
      invariant IssuedWith(c, seed, encrypted, attributes[..i], recipients, coins)
      invariant i > 0 ==> recipients != []
    {
      EncryptFailsExactly(c, EciesX25519ChaCha20, attributes[i].scope, recipients, Some(seed), false,
                          attributes[i].value, coins(i));
      var e := EncryptFor(c, seed, attributes[i].scope, attributes[i].value, recipients, coins(i));
      if e.Err? {
        return Err(e.error);
      }
      encrypted := encrypted + [EncryptedAttribute(attributes[i].name, attributes[i].scope, e.value)];
    }
    assert attributes[..|attributes|] == attributes;
    return Ok(Credential(VerifyingKey(c, seed), subjectId, encrypted));
  }

  /** Attribute by attribute, encrypted for the recipients with randomness of its own. */
  ghost predicate IssuedWith(c: Crypto, seed: Bytes32, es: seq<EncryptedAttribute>, attributes: seq<Attribute>,
                             recipients: seq<Recipient>, coins: nat -> Coins)
  {
    && |es| == |attributes|
    && forall i | 0 <= i < |es| ::
         && es[i].name == attributes[i].name && es[i].scope == attributes[i].scope
         && Encrypted(c, EciesX25519ChaCha20, es[i].scope, recipients, Some(seed), false, attributes[i].value, coins(i))
            == Ok(es[i].envelope)
  }

  /** Attribute by attribute, a document under the attribute's name and scope, sealed for the recipients. */
  ghost predicate IssuedFor(c: Crypto, seed: Bytes32, es: seq<EncryptedAttribute>, attributes: seq<Attribute>,
                            recipients: seq<Recipient>)
  {
    && |es| == |attributes|
    && forall i | 0 <= i < |es| ::
         && es[i].name == attributes[i].name && es[i].scope == attributes[i].scope
         && Document(c, seed, es[i].envelope, recipients, attributes[i].value)
  }

  /** What is issued are documents sealed for the recipients. */
  lemma IssuedAreDocuments(c: Crypto, seed: Bytes32, es: seq<EncryptedAttribute>, attributes: seq<Attribute>,
                           recipients: seq<Recipient>, coins: nat -> Coins)
    requires IssuedWith(c, seed, es, attributes, recipients, coins)
    ensures IssuedFor(c, seed, es, attributes, recipients)
  {
    hide Encrypted, Document;
    forall i | 0 <= i < |es|
      ensures Document(c, seed, es[i].envelope, recipients, attributes[i].value)
    {
      StoredIsDocument(c, seed, EciesX25519ChaCha20, es[i].scope, recipients, attributes[i].value, coins(i));
    }
  }

  /** `disclose`, from the attributes disclosed so far. */
  function Disclosed(c: Crypto, done: seq<(Str, seq<byte>)>, es: seq<EncryptedAttribute>, k: ReadKeyPair, vk: Bytes32):
    Result<seq<(Str, seq<byte>)>>
    decreases es
  {
    if es == [] then Ok(done)
    else if !CanAccess(k, es[0].scope) then Disclosed(c, done, es[1..], k, vk)
    else
      match Decrypt(c, es[0].envelope, k, vk)
      case Ok(plaintext) => Disclosed(c, done + [(es[0].name, plaintext)], es[1..], k, vk)
      case Err(NoMatchingAccessEntry(_)) => Disclosed(c, done, es[1..], k, vk)
      case Err(error) => Err(error)
  }

  method Disclose(c: Crypto, cred: Credential, k: ReadKeyPair) returns (r: Result<seq<(Str, seq<byte>)>>)
    ensures r == Disclosed(c, [], cred.attributes, k, cred.issuerVk)
  {
    hide Decrypt;
    var disclosed := [];
    var es := cred.attributes;
    assert es[0..] == es;
    for i := 0 to |es|
      invariant Disclosed(c, [], es, k, cred.issuerVk) == Disclosed(c, disclosed, es[i..], k, cred.issuerVk)
    {
      assert es[i..][0] == es[i] && es[i..][1..] == es[i + 1..];
      if !CanAccess(k, es[i].scope) {
        continue;
      }
      match Decrypt(c, es[i].envelope, k, cred.issuerVk)
      case Ok(plaintext) => disclosed := disclosed + [(es[i].name, plaintext)];
      case Err(NoMatchingAccessEntry(_)) => continue;
      case Err(error) => return Err(error);
    }
    r := Ok(disclosed);
  }

  /** The attributes a scope may see, in order. */
  function Visible(attributes: seq<Attribute>, scope: Scope): seq<(Str, seq<byte>)> {
    if attributes == [] then []
    else
      (if IsAncestorOf(scope, attributes[0].scope) then [(attributes[0].name, attributes[0].value)] else [])
      + Visible(attributes[1..], scope)
  }

  /**
    Selective disclosure never fails on an issued credential: a listed key sees exactly the
    attributes at or below its scope, in order and with their values; an unlisted key sees none.
   */
  lemma {:induction false} DisclosureIsSelective(c: Crypto, seed: Bytes32, es: seq<EncryptedAttribute>,
                                                 attributes: seq<Attribute>, recipients: seq<Recipient>, k: ReadKeyPair,
                                                 done: seq<(Str, seq<byte>)>)
    requires IssuedFor(c, seed, es, attributes, recipients)
    requires WellFormed(c, k) && NotShadowed(c, recipients, k)
    ensures Disclosed(c, done, es, k, VerifyingKey(c, seed)) ==
            Ok(done + if Listed(recipients, KeyIdOf(c, k.public)) then Visible(attributes, k.scope) else [])
    decreases es
  {
    hide Decrypt, Document, WellFormed, NotShadowed, Listed;
    if es == [] {
      assert done + [] == done;
    } else {
      var item := (attributes[0].name, attributes[0].value);
      var listed := Listed(recipients, KeyIdOf(c, k.public));
      var next := if IsAncestorOf(k.scope, attributes[0].scope) && listed then done + [item] else done;
      DiscloseOne(c, seed, es, attributes[0], recipients, k, done);
      DisclosureIsSelective(c, seed, es[1..], attributes[1..], recipients, k, next);
      var later := Visible(attributes[1..], k.scope);
      assert done + [item] + later == done + ([item] + later);
      assert done + later == done + ([] + later);
    }
  }

  /** One issued attribute is appended or passed over. */
  lemma DiscloseOne(c: Crypto, seed: Bytes32, es: seq<EncryptedAttribute>, a: Attribute, recipients: seq<Recipient>,
                    k: ReadKeyPair, done: seq<(Str, seq<byte>)>)
    requires es != [] && es[0].name == a.name && es[0].scope == a.scope
    requires Document(c, seed, es[0].envelope, recipients, a.value)
    requires WellFormed(c, k) && NotShadowed(c, recipients, k)
    ensures Disclosed(c, done, es, k, VerifyingKey(c, seed)) ==
            Disclosed(c, if IsAncestorOf(k.scope, a.scope) && Listed(recipients, KeyIdOf(c, k.public))
                         then done + [(a.name, a.value)] else done,
                      es[1..], k, VerifyingKey(c, seed))
  {
    hide Decrypt, Document, WellFormed, NotShadowed, Listed, IsAncestorOf;
    DocumentOpens(c, seed, es[0].envelope, recipients, a.value, k);
  }

  // ---- Disclosure of any attributes

  /** An attribute that does not end the disclosure: out of reach, opened, or without an entry for the key. */
  predicate Passes(c: Crypto, a: EncryptedAttribute, k: ReadKeyPair, vk: Bytes32) {
    || !IsAncestorOf(k.scope, a.scope)
    || Decrypt(c, a.envelope, k, vk).Ok?
    || Decrypt(c, a.envelope, k, vk).error.NoMatchingAccessEntry?
  }

  /** The attributes in reach that open, in order. */
  function Revealed(c: Crypto, es: seq<EncryptedAttribute>, k: ReadKeyPair, vk: Bytes32): seq<(Str, seq<byte>)> {
    if es == [] then []
    else
      (if IsAncestorOf(k.scope, es[0].scope) && Decrypt(c, es[0].envelope, k, vk).Ok?
       then [(es[0].name, Decrypt(c, es[0].envelope, k, vk).value)] else [])
      + Revealed(c, es[1..], k, vk)
  }

  /** The first attribute that ends the disclosure. */
  predicate EndsAt(c: Crypto, es: seq<EncryptedAttribute>, k: ReadKeyPair, vk: Bytes32, i: nat) {
    && i < |es| && !Passes(c, es[i], k, vk) && Decrypt(c, es[i].envelope, k, vk).Err?
    && forall j | 0 <= j < i :: Passes(c, es[j], k, vk)
  }

  /**
    Whatever the attributes, issued or forged: disclosure fails exactly when one in reach fails for
    another reason than a missing entry, with the error of the first such; otherwise it gives
    exactly the attributes in reach that open.
   */
  lemma {:induction false} DisclosesWhatOpens(c: Crypto, done: seq<(Str, seq<byte>)>, es: seq<EncryptedAttribute>,
                                              k: ReadKeyPair, vk: Bytes32)
    ensures Disclosed(c, done, es, k, vk).Ok? <==> forall i | 0 <= i < |es| :: Passes(c, es[i], k, vk)
    ensures Disclosed(c, done, es, k, vk).Ok? ==>
              Disclosed(c, done, es, k, vk) == Ok(done + Revealed(c, es, k, vk))
    ensures Disclosed(c, done, es, k, vk).Err? ==>
              exists i: nat ::
                && EndsAt(c, es, k, vk, i)
                && Disclosed(c, done, es, k, vk).error == Decrypt(c, es[i].envelope, k, vk).error
    decreases es
  {
    hide Decrypt, Passes, IsAncestorOf, IsScope;
    if es == [] {
      assert done + [] == done;
    } else {
      assert es == [es[0]] + es[1..];
      DisclosureStep(c, done, es, k, vk);
      if Passes(c, es[0], k, vk) {
        var item, later := Revealed(c, [es[0]], k, vk), Revealed(c, es[1..], k, vk);
        DisclosesWhatOpens(c, done + item, es[1..], k, vk);
        assert done + item + later == done + (item + later);
        if i: nat :| EndsAt(c, es[1..], k, vk, i)
                     && Disclosed(c, done + item, es[1..], k, vk) == Err(Decrypt(c, es[1..][i].envelope, k, vk).error) {
          EndsLater(c, es, k, vk, i);
        }
      } else {
        assert EndsAt(c, es, k, vk, 0);
      }
    }
  }

  lemma DisclosureStep(c: Crypto, done: seq<(Str, seq<byte>)>, es: seq<EncryptedAttribute>, k: ReadKeyPair,
                       vk: Bytes32)
    requires es != []
    ensures Passes(c, es[0], k, vk) ==>
              Disclosed(c, done, es, k, vk) == Disclosed(c, done + Revealed(c, [es[0]], k, vk), es[1..], k, vk)
    ensures !Passes(c, es[0], k, vk) ==>
              Decrypt(c, es[0].envelope, k, vk).Err?
              && Disclosed(c, done, es, k, vk) == Err(Decrypt(c, es[0].envelope, k, vk).error)
    ensures Revealed(c, es, k, vk) == Revealed(c, [es[0]], k, vk) + Revealed(c, es[1..], k, vk)
  {
    hide Decrypt, IsAncestorOf, IsScope;
    var one, content := [es[0]], Decrypt(c, es[0].envelope, k, vk);
    assert one[1..] == [];
    var item :=
      if IsAncestorOf(k.scope, es[0].scope) && content.Ok? then [(es[0].name, content.value)] else [];
    assert Revealed(c, one, k, vk) == item + [] == item;
    assert done + [] == done;
  }

  lemma EndsLater(c: Crypto, es: seq<EncryptedAttribute>, k: ReadKeyPair, vk: Bytes32, i: nat)
    requires es != [] && Passes(c, es[0], k, vk) && EndsAt(c, es[1..], k, vk, i)
    ensures EndsAt(c, es, k, vk, i + 1) && es[i + 1] == es[1..][i]
  {
    hide Passes;
    forall j | 0 < j < i + 1
      ensures Passes(c, es[j], k, vk)
    {
      assert es[j] == es[1..][j - 1];
    }
  }
}
