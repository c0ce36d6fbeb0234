/** The document vault, and what its re-keying does when it runs through and when it stops midway. */
module Vaults {
  import opened Basics
  import opened Scopes
  import opened Primitives
  import opened Keys
  import opened Envelopes
  import opened Encryption
  import opened Access

  datatype VaultEntry = VaultEntry(name: Str, scope: Scope, size: nat, recipientCount: nat)

  type Documents = map<Str, Envelope>

  function EntryOf(name: Str, e: Envelope): VaultEntry {
    VaultEntry(name, e.scope, |e.ciphertext|, |e.accessEntries|)
  }

  predicate Matches(filter: Option<Scope>, e: Envelope) {
    filter.None? || IsAncestorOf(filter.value, e.scope)
  }

  predicate ListsDocuments(es: seq<VaultEntry>, docs: Documents, filter: Option<Scope>) {
    && (forall i | 0 <= i < |es| ::
          && es[i].name in docs && es[i] == EntryOf(es[i].name, docs[es[i].name])
          && Matches(filter, docs[es[i].name]))
    && (forall i, j | 0 <= i < j < |es| :: es[i].name != es[j].name)
    && (forall n | n in docs && Matches(filter, docs[n]) :: EntryOf(n, docs[n]) in es)
  }

  function NamesUnder(docs: Documents, scope: Scope): set<Str> {
    set n | n in docs && IsAncestorOf(scope, docs[n].scope)
  }

  /** One turn of the `rekey` loop: decrypt, then encrypt again for the new recipients. */
  function Reencrypted(c: Crypto, seed: Bytes32, e: Envelope, k: ReadKeyPair, recipients: seq<Recipient>, coins: Coins):
    Result<Envelope>
  {
    match Decrypt(c, e, k, VerifyingKey(c, seed))
    case Err(error) => Err(error)
    case Ok(plaintext) => Encrypted(c, EciesX25519ChaCha20, e.scope, recipients, Some(seed), false, plaintext, coins)
  }

  /** A turn fails exactly when the document does not decrypt or nobody is to receive it. */
  lemma ReencryptedOk(c: Crypto, seed: Bytes32, e: Envelope, k: ReadKeyPair, recipients: seq<Recipient>, coins: Coins)
    ensures Reencrypted(c, seed, e, k, recipients, coins).Ok? <==>
              Decrypt(c, e, k, VerifyingKey(c, seed)).Ok? && recipients != []
  {
  }

  /** The second envelope is a re-encryption of the first, under some of the randomness drawn. */
  ghost predicate FreshCopy(c: Crypto, seed: Bytes32, before: Envelope, after: Envelope, k: ReadKeyPair,
                            recipients: seq<Recipient>, coins: nat -> Coins)
  {
    exists j: nat :: Reencrypted(c, seed, before, k, recipients, coins(j)) == Ok(after)
  }

  /** The documents re-encrypted, each with the randomness of a turn of its own. */
  ghost predicate EachInItsTurn(c: Crypto, seed: Bytes32, before: Documents, after: Documents, k: ReadKeyPair,
                                recipients: seq<Recipient>, coins: nat -> Coins, turns: map<Str, nat>)
  {
    && (forall n | n in turns ::
          && n in before && n in after
          && Reencrypted(c, seed, before[n], k, recipients, coins(turns[n])) == Ok(after[n]))
    && (forall n, o | n in turns && o in turns && turns[n] == turns[o] :: n == o)
  }

  /**
    What a call of `rekey` may leave behind. Whatever happens, every document is untouched or wholly
    re-encrypted, and those outside the scope are untouched. It runs through exactly when every
    document under the scope decrypts and there is somebody to receive it; with no document
    under the scope it always does.
   */
  ghost predicate RekeyOutcome(c: Crypto, seed: Bytes32, before: Documents, after: Documents, scope: Scope,
                               k: ReadKeyPair, recipients: seq<Recipient>, coins: nat -> Coins, r: Result<nat>)
  {
    && after.Keys == before.Keys
    && (forall n | n in after && n !in NamesUnder(before, scope) :: after[n] == before[n])
    && (forall n | n in after ::
          after[n] == before[n] || FreshCopy(c, seed, before[n], after[n], k, recipients, coins))
    && (exists turns: map<Str, nat> ::
          && turns.Keys <= NamesUnder(before, scope)
          && EachInItsTurn(c, seed, before, after, k, recipients, coins, turns)
          && forall n | n in after && n !in turns :: after[n] == before[n])
    && (r.Ok? ==> r.value == |NamesUnder(before, scope)|)
    && (r.Ok? ==> forall n | n in NamesUnder(before, scope) ::
          FreshCopy(c, seed, before[n], after[n], k, recipients, coins))
    && (r.Err? ==> exists n, j: nat ::
          n in NamesUnder(before, scope) && after[n] == before[n]
          && Reencrypted(c, seed, before[n], k, recipients, coins(j)) == Err(r.error))
    && (r.Ok? <==> forall n | n in NamesUnder(before, scope) ::
          Decrypt(c, before[n], k, VerifyingKey(c, seed)).Ok? && recipients != [])
  }

  class Vault {
    const c: Crypto
    const seed: Bytes32
    var documents: Documents

    constructor (c: Crypto, seed: Bytes32)
      ensures this.c == c && this.seed == seed && documents == map[]
    {
      this.c, this.seed, documents := c, seed, map[];
    }

    method Store(name: Str, scope: Scope, data: seq<byte>, recipients: seq<Recipient>, coins: Coins)
      returns (r: Result<()>)
      modifies this`documents
      ensures match Encrypted(c, EciesX25519ChaCha20, scope, recipients, Some(seed), false, data, coins)
              case Ok(e) => r == Ok(()) && documents == old(documents)[name := e]
              case Err(error) => r == Err(error) && documents == old(documents)
    {
      var e :- EncryptFor(c, seed, scope, data, recipients, coins);
      documents := documents[name := e];
      return Ok(());
    }

    method Retrieve(name: Str, k: ReadKeyPair) returns (r: Result<seq<byte>>)
      ensures r == if name in documents then Decrypt(c, documents[name], k, VerifyingKey(c, seed)) else Err(KeyNotFound)
    {
      if name !in documents {
        return Err(KeyNotFound);
      }
      return Decrypt(c, documents[name], k, VerifyingKey(c, seed));
    }

    /** The matching documents, each once, in any order. */
    method List(filter: Option<Scope>) returns (es: seq<VaultEntry>)
      ensures ListsDocuments(es, documents, filter)
    {
      es := [];
      var remaining := documents.Keys;
      while remaining != {}
        invariant remaining <= documents.Keys
        invariant forall i | 0 <= i < |es| ::
                    && es[i].name in documents && es[i].name !in remaining
                    && es[i] == EntryOf(es[i].name, documents[es[i].name]) && Matches(filter, documents[es[i].name])
        invariant forall i, j | 0 <= i < j < |es| :: es[i].name != es[j].name
        invariant forall n | n in documents && n !in remaining && Matches(filter, documents[n]) ::
                    EntryOf(n, documents[n]) in es
        decreases remaining
      {
        var n :| n in remaining;
        remaining := remaining - {n};
        if Matches(filter, documents[n]) {
          es := es + [EntryOf(n, documents[n])];
        }
      }
    }

    /** `rekey`. */
    method Rekey(scope: Scope, k: ReadKeyPair, recipients: seq<Recipient>, coins: nat -> Coins) returns (r: Result<nat>)
      modifies this`documents
      ensures RekeyOutcome(c, seed, old(documents), documents, scope, k, recipients, coins, r)
    {
      hide Decrypt, Encrypted, RekeyOutcome, Progress;
      ghost var before := documents;
      var names := NamesUnder(documents, scope);
      var count := |names|;
      var remaining := names;
      var turn := 0;
      ghost var turns: map<Str, nat> := map[];
      NoTurnYet(c, seed, before, scope, k, recipients, coins);
      while remaining != {}
        invariant Progress(c, seed, before, documents, scope, remaining, k, recipients, coins, turns, turn)
        decreases remaining
      {
        var name :| name in remaining;
        InDocuments(c, seed, before, documents, scope, remaining, k, recipients, coins, turns, turn, name);
        var envelope := documents[name];
        StopOrTurn(c, seed, before, documents, scope, remaining, k, recipients, coins, turns, turn, name);
        var plaintext :- Decrypt(c, envelope, k, VerifyingKey(c, seed));
        var replacement :- EncryptFor(c, seed, envelope.scope, plaintext, recipients, coins(turn));
        documents := documents[name := replacement];
        remaining, turns := remaining - {name}, turns[name := turn];
        turn := turn + 1;
      }
      AllTurned(c, seed, before, documents, scope, k, recipients, coins, turns, turn);
      return Ok(count);
    }
  }

  /** The documents while the loop runs: those not `remaining` are re-encrypted, everything else is as before. */
  ghost predicate Progress(c: Crypto, seed: Bytes32, before: Documents, now: Documents, scope: Scope,
                           remaining: set<Str>, k: ReadKeyPair, recipients: seq<Recipient>, coins: nat -> Coins,
                           turns: map<Str, nat>, turn: nat)
  {
    && now.Keys == before.Keys && remaining <= NamesUnder(before, scope)
    && turns.Keys == NamesUnder(before, scope) - remaining && (forall n | n in turns :: turns[n] < turn)
    && EachInItsTurn(c, seed, before, now, k, recipients, coins, turns)
    && (forall n | n in now && n !in turns :: now[n] == before[n])
  }

  lemma NoTurnYet(c: Crypto, seed: Bytes32, before: Documents, scope: Scope, k: ReadKeyPair,
                  recipients: seq<Recipient>, coins: nat -> Coins)
    ensures Progress(c, seed, before, before, scope, NamesUnder(before, scope), k, recipients, coins, map[], 0)
  {
  }

  lemma InDocuments(c: Crypto, seed: Bytes32, before: Documents, now: Documents, scope: Scope, remaining: set<Str>,
                    k: ReadKeyPair, recipients: seq<Recipient>, coins: nat -> Coins, turns: map<Str, nat>, turn: nat,
                    name: Str)
    requires Progress(c, seed, before, now, scope, remaining, k, recipients, coins, turns, turn) && name in remaining
    ensures name in now && name in before && now[name] == before[name]
  {
  }

  /** Documents that were re-encrypted in their turns did decrypt, and there was somebody to receive them. */
  lemma TurnedDecrypted(c: Crypto, seed: Bytes32, before: Documents, now: Documents, k: ReadKeyPair,
                        recipients: seq<Recipient>, coins: nat -> Coins, turns: map<Str, nat>)
    requires EachInItsTurn(c, seed, before, now, k, recipients, coins, turns)
    ensures forall n | n in turns ::
              && FreshCopy(c, seed, before[n], now[n], k, recipients, coins)
              && Decrypt(c, before[n], k, VerifyingKey(c, seed)).Ok? && recipients != []
  {
    hide Decrypt, Encrypted, Reencrypted;
    forall n | n in turns
      ensures FreshCopy(c, seed, before[n], now[n], k, recipients, coins)
      ensures Decrypt(c, before[n], k, VerifyingKey(c, seed)).Ok? && recipients != []
    {
      ReencryptedOk(c, seed, before[n], k, recipients, coins(turns[n]));
    }
  }

  /** One turn of the loop stops it, or goes on with one document less. */
  lemma StopOrTurn(c: Crypto, seed: Bytes32, before: Documents, now: Documents, scope: Scope, remaining: set<Str>,
                   k: ReadKeyPair, recipients: seq<Recipient>, coins: nat -> Coins, turns: map<Str, nat>, turn: nat,
                   name: Str)
    requires Progress(c, seed, before, now, scope, remaining, k, recipients, coins, turns, turn)
    requires name in remaining && name in now
    ensures match Reencrypted(c, seed, now[name], k, recipients, coins(turn))
            case Ok(e) =>
              Progress(c, seed, before, now[name := e], scope, remaining - {name}, k, recipients, coins,
                       turns[name := turn], turn + 1)
            case Err(error) => RekeyOutcome(c, seed, before, now, scope, k, recipients, coins, Err(error))
  {
    hide RekeyOutcome, Progress, Reencrypted;
    match Reencrypted(c, seed, now[name], k, recipients, coins(turn))
    case Ok(e) => OneTurnMore(c, seed, before, now, scope, remaining, k, recipients, coins, turns, turn, name, e);
    case Err(error) =>
      StopsHere(c, seed, before, now, scope, remaining, k, recipients, coins, turns, turn, name, error);
  }

  lemma OneTurnMore(c: Crypto, seed: Bytes32, before: Documents, now: Documents, scope: Scope, remaining: set<Str>,
                    k: ReadKeyPair, recipients: seq<Recipient>, coins: nat -> Coins, turns: map<Str, nat>, turn: nat,
                    name: Str, e: Envelope)
    requires Progress(c, seed, before, now, scope, remaining, k, recipients, coins, turns, turn)
    requires name in remaining && name in now
    requires Reencrypted(c, seed, now[name], k, recipients, coins(turn)) == Ok(e)
    ensures Progress(c, seed, before, now[name := e], scope, remaining - {name}, k, recipients, coins,
                     turns[name := turn], turn + 1)
  {
    hide Reencrypted, NamesUnder, EachInItsTurn;
    TurnAdded(c, seed, before, now, k, recipients, coins, turns, turn, name, e);
  }

  lemma TurnAdded(c: Crypto, seed: Bytes32, before: Documents, now: Documents, k: ReadKeyPair,
                  recipients: seq<Recipient>, coins: nat -> Coins, turns: map<Str, nat>, turn: nat, name: Str,
                  e: Envelope)
    requires EachInItsTurn(c, seed, before, now, k, recipients, coins, turns)
    requires name in before && name in now && now[name] == before[name] && name !in turns
    requires forall n | n in turns :: turns[n] < turn
    requires Reencrypted(c, seed, before[name], k, recipients, coins(turn)) == Ok(e)
    ensures EachInItsTurn(c, seed, before, now[name := e], k, recipients, coins, turns[name := turn])
  {
    hide Reencrypted;
  }

  lemma StopsHere(c: Crypto, seed: Bytes32, before: Documents, now: Documents, scope: Scope, remaining: set<Str>,
                  k: ReadKeyPair, recipients: seq<Recipient>, coins: nat -> Coins, turns: map<Str, nat>, turn: nat,
                  name: Str, error: RokError)
    requires Progress(c, seed, before, now, scope, remaining, k, recipients, coins, turns, turn)
    requires name in remaining && name in now
    requires Reencrypted(c, seed, now[name], k, recipients, coins(turn)) == Err(error)
    ensures RekeyOutcome(c, seed, before, now, scope, k, recipients, coins, Err(error))
  {
    hide Decrypt, Encrypted, Reencrypted, FreshCopy, IsAncestorOf;
    TurnedDecrypted(c, seed, before, now, k, recipients, coins, turns);
    ReencryptedOk(c, seed, now[name], k, recipients, coins(turn));
  }

  lemma AllTurned(c: Crypto, seed: Bytes32, before: Documents, now: Documents, scope: Scope, k: ReadKeyPair,
                  recipients: seq<Recipient>, coins: nat -> Coins, turns: map<Str, nat>, turn: nat)
    requires Progress(c, seed, before, now, scope, {}, k, recipients, coins, turns, turn)
    ensures RekeyOutcome(c, seed, before, now, scope, k, recipients, coins, Ok(|NamesUnder(before, scope)|))
  {
    hide Decrypt, FreshCopy, Reencrypted, IsAncestorOf;
    TurnedDecrypted(c, seed, before, now, k, recipients, coins, turns);
  }

  /** A document sealed for its recipients. */
  ghost predicate Document(c: Crypto, seed: Bytes32, e: Envelope, rs: seq<Recipient>, plaintext: seq<byte>) {
    e.accessMode == PerRecipient && Sealed(c, seed, e, rs, plaintext)
  }

  /** Recipient encryption succeeds exactly with recipients, and gives a document sealed for them. */
  lemma StoredIsDocument(c: Crypto, seed: Bytes32, algorithm: Algorithm, scope: Scope, recipients: seq<Recipient>,
                         plaintext: seq<byte>, coins: Coins)
    ensures var r := Encrypted(c, algorithm, scope, recipients, Some(seed), false, plaintext, coins);
            && (r.Ok? <==> recipients != [])
            && (r.Ok? ==> r.value.scope == scope && Document(c, seed, r.value, recipients, plaintext))
  {
    AssembledIsSealed(c, algorithm, scope, PerRecipient, recipients, seed, plaintext, coins);
  }

  /** Storing a document for a list: the listed keys read it, all others find no entry. */
  lemma DocumentOpens(c: Crypto, seed: Bytes32, e: Envelope, rs: seq<Recipient>, plaintext: seq<byte>, k: ReadKeyPair)
    requires Document(c, seed, e, rs, plaintext) && WellFormed(c, k) && NotShadowed(c, rs, k)
    ensures Decrypt(c, e, k, VerifyingKey(c, seed)) ==
            if Listed(rs, KeyIdOf(c, k.public)) then Ok(plaintext) else Err(NoMatchingAccessEntry(KeyIdOf(c, k.public)))
  {
    RecipientsOpen(c, seed, e, rs, plaintext, k);
  }

  /** A re-encrypted document keeps scope and plaintext, and is sealed for the new list. */
  lemma FreshCopyKeeps(c: Crypto, seed: Bytes32, before: Envelope, after: Envelope, rs: seq<Recipient>,
                       plaintext: seq<byte>, k: ReadKeyPair, recipients: seq<Recipient>, coins: nat -> Coins)
    requires Document(c, seed, before, rs, plaintext) && WellFormed(c, k) && NotShadowed(c, rs, k)
    requires FreshCopy(c, seed, before, after, k, recipients, coins)
    ensures after.scope == before.scope
    ensures Document(c, seed, after, recipients, plaintext)
    ensures Listed(rs, KeyIdOf(c, k.public)) && recipients != []
  {
    hide Decrypt, Encrypted, Document, Listed;
    DocumentOpens(c, seed, before, rs, plaintext, k);
    var j: nat :| Reencrypted(c, seed, before, k, recipients, coins(j)) == Ok(after);
    StoredIsDocument(c, seed, EciesX25519ChaCha20, before.scope, recipients, plaintext, coins(j));
  }

  // ---- The vault on its contents

  datatype Held = Held(scope: Scope, recipients: seq<Recipient>, plaintext: seq<byte>)

  /** What a vault holds: for every name the scope, recipients and plaintext of its document. */
  type Contents = map<Str, Held>

  ghost predicate Holds(c: Crypto, seed: Bytes32, docs: Documents, contents: Contents) {
    && docs.Keys == contents.Keys
    && forall n | n in docs ::
         && docs[n].scope == contents[n].scope
         && Document(c, seed, docs[n], contents[n].recipients, contents[n].plaintext)
  }

  function Under(contents: Contents, scope: Scope): set<Str> {
    set n | n in contents && IsAncestorOf(scope, contents[n].scope)
  }

  /**
    What a listing shows, seen on the contents: for each document at or below the filter, and for no
    other, one entry with its scope, the length of its plaintext and the number of its recipients.
   */
  lemma ListShowsContents(c: Crypto, seed: Bytes32, docs: Documents, contents: Contents, filter: Option<Scope>,
                          es: seq<VaultEntry>)
    requires Holds(c, seed, docs, contents) && ListsDocuments(es, docs, filter)
    ensures forall i, j | 0 <= i < j < |es| :: es[i].name != es[j].name
    ensures forall x :: x in es <==>
              && x.name in contents
              && (filter == None || IsAncestorOf(filter.value, contents[x.name].scope))
              && x == VaultEntry(x.name, contents[x.name].scope, |contents[x.name].plaintext|,
                                 |contents[x.name].recipients|)
  {
    hide Document, IsAncestorOf;
    forall n | n in docs
      ensures EntryOf(n, docs[n])
           == VaultEntry(n, contents[n].scope, |contents[n].plaintext|, |contents[n].recipients|)
    {
      DocumentSizes(c, seed, docs[n], contents[n].recipients, contents[n].plaintext);
    }
    assert forall x | x in es :: exists i | 0 <= i < |es| :: es[i] == x;
  }

  lemma DocumentSizes(c: Crypto, seed: Bytes32, e: Envelope, rs: seq<Recipient>, plaintext: seq<byte>)
    requires Document(c, seed, e, rs, plaintext)
    ensures |e.ciphertext| == |plaintext| && |e.accessEntries| == |rs|
  {
    var dataKey, ephemeral :| SealedWith(c, e, rs, plaintext, dataKey, ephemeral);
  }

  function Stored(contents: Contents, name: Str, scope: Scope, data: seq<byte>, recipients: seq<Recipient>): Contents {
    if recipients == [] then contents else contents[name := Held(scope, recipients, data)]
  }

  /** Storing a document is an update of the contents, unless nobody is to receive it. */
  lemma StoreUpdates(c: Crypto, seed: Bytes32, docs: Documents, contents: Contents, name: Str, scope: Scope,
                     data: seq<byte>, recipients: seq<Recipient>, coins: Coins)
    requires Holds(c, seed, docs, contents)
    ensures var r := Encrypted(c, EciesX25519ChaCha20, scope, recipients, Some(seed), false, data, coins);
            && (r.Ok? <==> recipients != [])
            && Holds(c, seed, if r.Ok? then docs[name := r.value] else docs,
                     Stored(contents, name, scope, data, recipients))
  {
    hide Encrypted, Document;
    StoredIsDocument(c, seed, EciesX25519ChaCha20, scope, recipients, data, coins);
  }

  /** The new recipients, for the named documents. */
  function Readdress(contents: Contents, names: set<Str>, recipients: seq<Recipient>): Contents {
    map n | n in contents :: if n in names then contents[n].(recipients := recipients) else contents[n]
  }

  /** The key and the new list allow a document to be re-keyed. */
  predicate Turnable(c: Crypto, held: Held, k: ReadKeyPair, recipients: seq<Recipient>) {
    recipients != [] && Listed(held.recipients, KeyIdOf(c, k.public))
  }

  predicate CanRekey(c: Crypto, contents: Contents, scope: Scope, k: ReadKeyPair, recipients: seq<Recipient>) {
    forall n | n in Under(contents, scope) :: Turnable(c, contents[n], k, recipients)
  }

  /** A well-formed key that collides with no recipient of the documents. */
  predicate GenuineFor(c: Crypto, contents: Contents, k: ReadKeyPair) {
    WellFormed(c, k) && forall n | n in contents :: NotShadowed(c, contents[n].recipients, k)
  }

  /**
    Re-keying runs through exactly when there is no document under the scope, or the new list is
    not empty and the key is on the list of every document under the scope.
   */
  lemma RekeySucceedsExactly(c: Crypto, seed: Bytes32, before: Documents, after: Documents, contents: Contents,
                             scope: Scope, k: ReadKeyPair, recipients: seq<Recipient>, coins: nat -> Coins,
                             r: Result<nat>)
    requires Holds(c, seed, before, contents) && GenuineFor(c, contents, k)
    requires RekeyOutcome(c, seed, before, after, scope, k, recipients, coins, r)
    ensures NamesUnder(before, scope) == Under(contents, scope)
    ensures r.Ok? <==> CanRekey(c, contents, scope, k, recipients)
    ensures r.Ok? ==> r.value == |Under(contents, scope)|
  {
    hide Document, Decrypt, RekeyOutcome, IsAncestorOf, Listed, NotShadowed;
    OutcomeSucceeds(c, seed, before, after, scope, k, recipients, coins, r);
    forall n | n in contents
      ensures Decrypt(c, before[n], k, VerifyingKey(c, seed)).Ok? <==>
                Listed(contents[n].recipients, KeyIdOf(c, k.public))
    {
      DocumentOpens(c, seed, before[n], contents[n].recipients, contents[n].plaintext, k);
    }
    assert NamesUnder(before, scope) == Under(contents, scope);
  }

  lemma OutcomeSucceeds(c: Crypto, seed: Bytes32, before: Documents, after: Documents, scope: Scope, k: ReadKeyPair,
                        recipients: seq<Recipient>, coins: nat -> Coins, r: Result<nat>)
    requires RekeyOutcome(c, seed, before, after, scope, k, recipients, coins, r)
    ensures r.Ok? ==> r.value == |NamesUnder(before, scope)|
    ensures r.Ok? <==> forall n | n in NamesUnder(before, scope) ::
                         Decrypt(c, before[n], k, VerifyingKey(c, seed)).Ok? && recipients != []
  {
    hide FreshCopy, EachInItsTurn, Reencrypted, Decrypt, NamesUnder;
  }

  /** The owner's root key is no exception: unlisted on one document under the scope, it stops the re-keying. */
  lemma UnlistedOwnerCannotRekey(c: Crypto, seed: Bytes32, before: Documents, after: Documents, contents: Contents,
                                 scope: Scope, recipients: seq<Recipient>, coins: nat -> Coins, r: Result<nat>, n: Str)
    requires Holds(c, seed, before, contents) && GenuineFor(c, contents, DeriveRootReadKey(c, seed))
    requires RekeyOutcome(c, seed, before, after, scope, DeriveRootReadKey(c, seed), recipients, coins, r)
    requires n in Under(contents, scope)
    requires !Listed(contents[n].recipients, KeyIdOf(c, DeriveRootReadKey(c, seed).public))
    ensures r.Err?
    ensures Decrypt(c, before[n], DeriveRootReadKey(c, seed), VerifyingKey(c, seed))
         == Err(NoMatchingAccessEntry(KeyIdOf(c, DeriveRootReadKey(c, seed).public)))
  {
    hide Document, Decrypt, RekeyOutcome, Listed, NotShadowed;
    RekeySucceedsExactly(c, seed, before, after, contents, scope, DeriveRootReadKey(c, seed), recipients, coins, r);
    DocumentOpens(c, seed, before[n], contents[n].recipients, contents[n].plaintext, DeriveRootReadKey(c, seed));
  }

  /** Some documents under the scope, all of them if that is possible, have the new recipients; nothing else changed. */
  predicate Readdressed(c: Crypto, contents: Contents, scope: Scope, k: ReadKeyPair, recipients: seq<Recipient>,
                        names: set<Str>, next: Contents)
  {
    && names <= Under(contents, scope)
    && (forall n | n in names :: Turnable(c, contents[n], k, recipients))
    && (CanRekey(c, contents, scope, k, recipients) ==> names == Under(contents, scope))
    && next == Readdress(contents, names, recipients)
  }

  lemma CopyIsReaddressed(c: Crypto, seed: Bytes32, before: Envelope, after: Envelope, held: Held, k: ReadKeyPair,
                          recipients: seq<Recipient>, coins: nat -> Coins)
    requires before.scope == held.scope && Document(c, seed, before, held.recipients, held.plaintext)
    requires WellFormed(c, k) && NotShadowed(c, held.recipients, k)
    requires FreshCopy(c, seed, before, after, k, recipients, coins)
    ensures after.scope == held.scope && Document(c, seed, after, recipients, held.plaintext)
    ensures Turnable(c, held, k, recipients)
  {
    hide Document, FreshCopy;
    FreshCopyKeeps(c, seed, before, after, held.recipients, held.plaintext, k, recipients, coins);
  }

  /**
    Re-keying, completed or interrupted, seen on the contents: only recipients change, only under
    the scope, and there to the new list; no name, scope or plaintext does.
   */
  lemma RekeyReaddresses(c: Crypto, seed: Bytes32, before: Documents, after: Documents, contents: Contents,
                         scope: Scope, k: ReadKeyPair, recipients: seq<Recipient>, coins: nat -> Coins, r: Result<nat>)
    requires Holds(c, seed, before, contents) && GenuineFor(c, contents, k)
    requires RekeyOutcome(c, seed, before, after, scope, k, recipients, coins, r)
    ensures exists names, next ::
              Readdressed(c, contents, scope, k, recipients, names, next) && Holds(c, seed, after, next)
  {
    hide Document, RekeyOutcome, Turned, CanRekey, Under, GenuineFor, Holds, Turnable, Readdress, NamesUnder, IsScope;
    RekeySucceedsExactly(c, seed, before, after, contents, scope, k, recipients, coins, r);
    TurnedCopies(c, seed, before, after, contents, scope, k, recipients, coins, r);
    var names := Turned(before, after, contents, scope, r.Ok?);
    CopiesAreReaddressed(c, seed, before, after, contents, k, recipients, coins, names);
    assert Readdressed(c, contents, scope, k, recipients, names, Readdress(contents, names, recipients));
  }

  /** The documents that were re-keyed: all under the scope, or those that changed. */
  function Turned(before: Documents, after: Documents, contents: Contents, scope: Scope, completed: bool): set<Str>
  {
    if completed then Under(contents, scope)
    else set n | n in Under(contents, scope) && n in before && n in after && after[n] != before[n]
  }

  lemma TurnedCopies(c: Crypto, seed: Bytes32, before: Documents, after: Documents, contents: Contents,
                     scope: Scope, k: ReadKeyPair, recipients: seq<Recipient>, coins: nat -> Coins, r: Result<nat>)
    requires Holds(c, seed, before, contents) && NamesUnder(before, scope) == Under(contents, scope)
    requires RekeyOutcome(c, seed, before, after, scope, k, recipients, coins, r)
    ensures after.Keys == contents.Keys
    ensures var names := Turned(before, after, contents, scope, r.Ok?);
            && names <= Under(contents, scope) <= contents.Keys
            && (r.Ok? ==> names == Under(contents, scope))
            && (forall n | n in names :: FreshCopy(c, seed, before[n], after[n], k, recipients, coins))
            && (forall n | n in contents && n !in names :: after[n] == before[n])
  {
    hide Document, FreshCopy, Decrypt, Reencrypted, IsAncestorOf;
  }

  lemma CopiesAreReaddressed(c: Crypto, seed: Bytes32, before: Documents, after: Documents, contents: Contents,
                             k: ReadKeyPair, recipients: seq<Recipient>, coins: nat -> Coins, names: set<Str>)
    requires Holds(c, seed, before, contents) && GenuineFor(c, contents, k)
    requires after.Keys == contents.Keys && names <= contents.Keys
    requires forall n | n in names :: FreshCopy(c, seed, before[n], after[n], k, recipients, coins)
    requires forall n | n in contents && n !in names :: after[n] == before[n]
    ensures forall n | n in names :: Turnable(c, contents[n], k, recipients)
    ensures Holds(c, seed, after, Readdress(contents, names, recipients))
  {
    hide Document, FreshCopy, Turnable, WellFormed, NotShadowed, IsScope;
    var next := Readdress(contents, names, recipients);
    forall n | n in contents
      ensures n in names ==> Turnable(c, contents[n], k, recipients)
      ensures after[n].scope == next[n].scope
      ensures Document(c, seed, after[n], next[n].recipients, next[n].plaintext)
    {
      if n in names {
        CopyIsReaddressed(c, seed, before[n], after[n], contents[n], k, recipients, coins);
      }
    }
  }

  // ---- Runs

  datatype Call =
    | Store(name: Str, scope: Scope, data: seq<byte>, recipients: seq<Recipient>)
    | Rekey(scope: Scope, key: ReadKeyPair, recipients: seq<Recipient>)

  /** What a call may leave behind, whatever randomness it draws and wherever it stops. */
  ghost predicate CallOutcome(c: Crypto, seed: Bytes32, before: Documents, call: Call, after: Documents) {
    match call
    case Store(name, scope, data, recipients) =>
      exists coins: Coins ::
        var r := Encrypted(c, EciesX25519ChaCha20, scope, recipients, Some(seed), false, data, coins);
        after == if r.Ok? then before[name := r.value] else before
    case Rekey(scope, key, recipients) =>
      exists coins: nat -> Coins, r :: RekeyOutcome(c, seed, before, after, scope, key, recipients, coins, r)
  }

  ghost predicate RunsTo(c: Crypto, seed: Bytes32, before: Documents, calls: seq<Call>, after: Documents)
    decreases |calls|
  {
    if calls == [] then after == before
    else exists mid :: CallOutcome(c, seed, before, calls[0], mid) && RunsTo(c, seed, mid, calls[1..], after)
  }

  /** A call on the contents; only where a re-keying stops is left open. */
  ghost predicate Follows(c: Crypto, contents: Contents, call: Call, next: Contents) {
    match call
    case Store(name, scope, data, recipients) => next == Stored(contents, name, scope, data, recipients)
    case Rekey(scope, key, recipients) =>
      exists names :: Readdressed(c, contents, scope, key, recipients, names, next)
  }

  ghost predicate Reaches(c: Crypto, contents: Contents, calls: seq<Call>, final: Contents)
    decreases |calls|
  {
    if calls == [] then final == contents
    else exists next :: Follows(c, contents, calls[0], next) && Reaches(c, next, calls[1..], final)
  }

  /** The keys that re-key are well-formed and collide with no recipient of any call or of the contents. */
  predicate GenuineCalls(c: Crypto, contents: Contents, calls: seq<Call>) {
    forall i | 0 <= i < |calls| && calls[i].Rekey? ::
      && GenuineFor(c, contents, calls[i].key)
      && forall j | 0 <= j < |calls| :: NotShadowed(c, calls[j].recipients, calls[i].key)
  }

  lemma CallRefines(c: Crypto, seed: Bytes32, before: Documents, contents: Contents, call: Call, after: Documents)
    requires Holds(c, seed, before, contents) && CallOutcome(c, seed, before, call, after)
    requires call.Rekey? ==> GenuineFor(c, contents, call.key)
    ensures exists next :: Follows(c, contents, call, next) && Holds(c, seed, after, next)
  {
    hide Holds, RekeyOutcome, GenuineFor, Readdressed;
    match call
    case Store(name, scope, data, recipients) =>
      var coins: Coins :|
        var r := Encrypted(c, EciesX25519ChaCha20, scope, recipients, Some(seed), false, data, coins);
        after == if r.Ok? then before[name := r.value] else before;
      StoreUpdates(c, seed, before, contents, name, scope, data, recipients, coins);
      assert Follows(c, contents, call, Stored(contents, name, scope, data, recipients));
    case Rekey(scope, key, recipients) =>
      var coins: nat -> Coins, r :| RekeyOutcome(c, seed, before, after, scope, key, recipients, coins, r);
      RekeyReaddresses(c, seed, before, after, contents, scope, key, recipients, coins, r);
      var names, next :| Readdressed(c, contents, scope, key, recipients, names, next) && Holds(c, seed, after, next);
      assert Follows(c, contents, call, next);
  }

  lemma FollowsGenuine(c: Crypto, contents: Contents, calls: seq<Call>, next: Contents)
    requires calls != [] && GenuineCalls(c, contents, calls) && Follows(c, contents, calls[0], next)
    ensures GenuineCalls(c, next, calls[1..])
  {
    hide WellFormed, NotShadowed, Turnable, CanRekey;
    var rest := calls[1..];
    assert forall i | 0 <= i < |rest| :: rest[i] == calls[i + 1];
    assert forall n | n in next ::
        (n in contents && next[n].recipients == contents[n].recipients) || next[n].recipients == calls[0].recipients;
  }

  /** Every run of the vault is a run on its contents. */
  lemma {:induction false} RunRefines(c: Crypto, seed: Bytes32, before: Documents, contents: Contents,
                                      calls: seq<Call>, after: Documents)
    requires Holds(c, seed, before, contents) && GenuineCalls(c, contents, calls)
    requires RunsTo(c, seed, before, calls, after)
    ensures exists final :: Reaches(c, contents, calls, final) && Holds(c, seed, after, final)
    decreases |calls|
  {
    hide Holds, CallOutcome, Follows;
    if calls == [] {
      assert Reaches(c, contents, calls, contents);
    } else {
      var mid :| CallOutcome(c, seed, before, calls[0], mid) && RunsTo(c, seed, mid, calls[1..], after);
      CallRefines(c, seed, before, contents, calls[0], mid);
      var next :| Follows(c, contents, calls[0], next) && Holds(c, seed, mid, next);
      FollowsGenuine(c, contents, calls, next);
      RunRefines(c, seed, mid, next, calls[1..], after);
      var final :| Reaches(c, next, calls[1..], final) && Holds(c, seed, after, final);
      assert Reaches(c, contents, calls, final);
    }
  }

  function Payloads(contents: Contents): map<Str, (Scope, seq<byte>)> {
    map n | n in contents :: (contents[n].scope, contents[n].plaintext)
  }

  /** The payloads after the stores among the calls; re-keying is not looked at. */
  function AfterStores(payloads: map<Str, (Scope, seq<byte>)>, calls: seq<Call>): map<Str, (Scope, seq<byte>)>
    decreases |calls|
  {
    if calls == [] then payloads
    else
      match calls[0]
      case Store(name, scope, data, recipients) =>
        AfterStores(if recipients == [] then payloads else payloads[name := (scope, data)], calls[1..])
      case Rekey(_, _, _) => AfterStores(payloads, calls[1..])
  }

  lemma {:induction false} OnlyStoresChangePayloads(c: Crypto, contents: Contents, calls: seq<Call>, final: Contents)
    requires Reaches(c, contents, calls, final)
    ensures Payloads(final) == AfterStores(Payloads(contents), calls)
    decreases |calls|
  {
    hide Follows;
    if calls != [] {
      var next :| Follows(c, contents, calls[0], next) && Reaches(c, next, calls[1..], final);
      CallPayloads(c, contents, calls[0], next);
      OnlyStoresChangePayloads(c, next, calls[1..], final);
    }
  }

  lemma CallPayloads(c: Crypto, contents: Contents, call: Call, next: Contents)
    requires Follows(c, contents, call, next)
    ensures Payloads(next) ==
            match call
            case Store(name, scope, data, recipients) =>
              if recipients == [] then Payloads(contents) else Payloads(contents)[name := (scope, data)]
            case Rekey(_, _, _) => Payloads(contents)
  {
    hide Turnable, CanRekey, IsAncestorOf;
  }

  /**
    After any run of stores and re-keyings on an empty vault, completed or interrupted, the documents
    are those last stored, at their scopes; each is sealed for one list, which exactly its keys open.
   */
  lemma VaultRun(c: Crypto, seed: Bytes32, calls: seq<Call>, docs: Documents)
    requires RunsTo(c, seed, map[], calls, docs) && GenuineCalls(c, map[], calls)
    ensures exists final ::
              && Reaches(c, map[], calls, final) && Holds(c, seed, docs, final)
              && Payloads(final) == AfterStores(map[], calls)
  {
    hide RunsTo, GenuineCalls, Reaches, Holds, Payloads, AfterStores;
    EmptyVault(c, seed);
    RunRefines(c, seed, map[], map[], calls, docs);
    var final :| Reaches(c, map[], calls, final) && Holds(c, seed, docs, final);
    OnlyStoresChangePayloads(c, map[], calls, final);
  }

  lemma EmptyVault(c: Crypto, seed: Bytes32)
    ensures Holds(c, seed, map[], map[]) && Payloads(map[]) == map[]
  {
    hide Document;
  }

  /** What a key reads after any such run: the last stored data, or no matching entry. */
  lemma VaultRunReads(c: Crypto, seed: Bytes32, calls: seq<Call>, docs: Documents, final: Contents, n: Str,
                      k: ReadKeyPair)
    requires Holds(c, seed, docs, final) && Payloads(final) == AfterStores(map[], calls)
    requires n in docs && WellFormed(c, k) && NotShadowed(c, final[n].recipients, k)
    ensures n in AfterStores(map[], calls) && docs[n].scope == AfterStores(map[], calls)[n].0
    ensures Decrypt(c, docs[n], k, VerifyingKey(c, seed)) ==
            if Listed(final[n].recipients, KeyIdOf(c, k.public)) then Ok(AfterStores(map[], calls)[n].1)
            else Err(NoMatchingAccessEntry(KeyIdOf(c, k.public)))
  {
    hide Document, Decrypt, AfterStores, Listed, NotShadowed;
    assert n in Payloads(final);
    DocumentOpens(c, seed, docs[n], final[n].recipients, final[n].plaintext, k);
  }
}
