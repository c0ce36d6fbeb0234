/**
  One backend, many owners. Each owner's key sees exactly that owner's memories: entries of others
  fail the signature check, which a list passes over and a read reports.
 */
module SharedMemory {
  import opened Basics
  import opened Scopes
  import opened Primitives
  import opened Keys
  import opened Delegation
  import opened Envelopes
  import opened Encryption
  import opened Access
  import opened Names
  import opened Storage
  import opened Memory

  /** A memory and the spend seed of the owner who wrote it. */
  datatype OwnedMemory = OwnedMemory(seed: Bytes32, memory: MemoryEntry)

  type SharedMemories = map<Str, OwnedMemory>

  ghost predicate RepresentsAll(c: Crypto, m: Entries, all: SharedMemories) {
    && WellKeyed(m) && m.Keys == all.Keys
    && forall id | id in m ::
         && m[id].scope == all[id].memory.scope && m[id].key == all[id].memory.key
         && Carries(c, all[id].seed, m[id], all[id].memory)
  }

  /** The memories of one owner. */
  function View(all: SharedMemories, seed: Bytes32): Memories {
    map id | id in all && all[id].seed == seed :: all[id].memory
  }

  /** No signature of the other verifies under this owner's verification key. */
  ghost predicate SignsApart(c: Crypto, seed: Bytes32, other: Bytes32) {
    forall message: seq<byte> :: !c.ed25519Verify(VerifyingKey(c, seed), message, SignBytes(c, other, message))
  }

  ghost predicate ApartFromOthers(c: Crypto, seed: Bytes32, all: SharedMemories) {
    forall id | id in all && all[id].seed != seed :: SignsApart(c, seed, all[id].seed)
  }

  /** What a key makes of one stored entry: its own owner's by the ancestor order, others' never. */
  lemma EntryOpens(c: Crypto, seed: Bytes32, m: Entries, all: SharedMemories, k: ReadKeyPair, id: Str)
    requires RepresentsAll(c, m, all) && ApartFromOthers(c, seed, all) && Owned(c, seed, k) && id in m
    ensures Parsed(m[id].data).Ok?
    ensures Decrypt(c, Parsed(m[id].data).value, k, VerifyingKey(c, seed)) ==
            if all[id].seed != seed then Err(SignatureVerificationFailed)
            else if IsAncestorOf(k.scope, all[id].memory.scope) then Ok(all[id].memory.data)
            else Err(ScopeMismatch(k.scope, all[id].memory.scope))
  {
    hide Parse, Signable, KeyFor, HasEntry, IsAncestorOf;
    var e := Parsed(m[id].data).value;
    if all[id].seed == seed {
      ScopeSealedOpens(c, seed, e, all[id].memory.data, k);
    } else {
      assert !c.ed25519Verify(VerifyingKey(c, seed), Signable(e), e.signature);
      DecryptsExactly(c, e, k, VerifyingKey(c, seed));
    }
  }

  /** A read of another owner's entry is a signature failure; of one's own it follows the map. */
  lemma ReadSeesOwn(c: Crypto, seed: Bytes32, m: Entries, all: SharedMemories, k: ReadKeyPair, scope: Scope, key: Str)
    requires RepresentsAll(c, m, all) && ApartFromOthers(c, seed, all) && Owned(c, seed, k)
    ensures var id := CompositeKey(scope, key);
            ReadFrom(c, m, k, VerifyingKey(c, seed), scope, key) ==
            if id in all && all[id].seed != seed then Err(SignatureVerificationFailed)
            else Recalled(View(all, seed), k.scope, scope, key)
  {
    hide Decrypt, Parse, IsAncestorOf, Carries, IsScope;
    var id := CompositeKey(scope, key);
    if id in m {
      EntryOpens(c, seed, m, all, k, id);
    }
  }

  /** An opened memory comes from an entry. */
  predicate ComesFrom(c: Crypto, x: MemoryEntry, entry: StorageEntry, k: ReadKeyPair, vk: Bytes32) {
    x.scope == entry.scope && x.key == entry.key && OpenedBy(c, entry, k, vk) == Some(x.data)
  }

  lemma {:induction false} OpenedMembers(c: Crypto, es: seq<StorageEntry>, k: ReadKeyPair, vk: Bytes32)
    requires forall i | 0 <= i < |es| :: es[i].id == CompositeKey(es[i].scope, es[i].key)
    requires forall i, j | 0 <= i < j < |es| :: es[i].id != es[j].id
    ensures forall x :: x in Opened(c, es, k, vk) <==> exists i | 0 <= i < |es| :: ComesFrom(c, x, es[i], k, vk)
    ensures var ms := Opened(c, es, k, vk);
            forall i, j | 0 <= i < j < |ms| :: IdOf(ms[i]) != IdOf(ms[j])
    decreases es
  {
    hide OpenedBy, IsScope, CompositeKey;
    if es != [] {
      OpenedMembers(c, es[1..], k, vk);
      var later := Opened(c, es[1..], k, vk);
      forall j | 0 <= j < |later|
        ensures IdOf(later[j]) != es[0].id
      {
        assert later[j] in later;
        var i :| 0 <= i < |es[1..]| && ComesFrom(c, later[j], es[1..][i], k, vk);
        assert es[1..][i] == es[i + 1];
      }
      MembersCons(c, es, k, vk);
    }
  }

  lemma MembersCons(c: Crypto, es: seq<StorageEntry>, k: ReadKeyPair, vk: Bytes32)
    requires es != []
    requires forall x :: x in Opened(c, es[1..], k, vk) <==>
               exists i | 0 <= i < |es[1..]| :: ComesFrom(c, x, es[1..][i], k, vk)
    ensures forall x :: x in Opened(c, es, k, vk) <==> exists i | 0 <= i < |es| :: ComesFrom(c, x, es[i], k, vk)
  {
    hide OpenedBy, IsScope;
    forall x
      ensures x in Opened(c, es, k, vk) <==> exists i | 0 <= i < |es| :: ComesFrom(c, x, es[i], k, vk)
    {
      if i :| 0 <= i < |es[1..]| && ComesFrom(c, x, es[1..][i], k, vk) {
        assert ComesFrom(c, x, es[i + 1], k, vk);
      }
      if i :| 0 < i < |es| && ComesFrom(c, x, es[i], k, vk) {
        assert ComesFrom(c, x, es[1..][i - 1], k, vk);
      }
    }
  }

  /** A list shows exactly the owner's own memories at or below the key's scope. */
  lemma ListSeesOwn(c: Crypto, seed: Bytes32, m: Entries, all: SharedMemories, k: ReadKeyPair, es: seq<StorageEntry>)
    requires RepresentsAll(c, m, all) && ApartFromOthers(c, seed, all) && Owned(c, seed, k)
    requires IsListing(m, k.scope, es)
    ensures ShowAll(c, [], es, k, VerifyingKey(c, seed)).Ok?
    ensures Exactly(ShowAll(c, [], es, k, VerifyingKey(c, seed)).value, View(all, seed), k.scope)
  {
    hide Decrypt, Parsed, OpenedBy, CompositeKey, Carries, ShowAll, ApartFromOthers, ListedUnder, Owned, IsAncestorOf;
    var vk := VerifyingKey(c, seed);
    forall i | 0 <= i < |es|
      ensures es[i].id in all && Legible(c, es[i], k, vk) && IsScope(es[i].scope)
      ensures IsAncestorOf(k.scope, all[es[i].id].memory.scope)
      ensures OpenedBy(c, es[i], k, vk) == if all[es[i].id].seed == seed then Some(all[es[i].id].memory.data) else None
    {
      ListedEntryOpens(c, seed, m, all, k, es[i]);
    }
    ShowsWhatOpens(c, [], es, k, vk);
    OpenedMembers(c, es, k, vk);
    var ms := Opened(c, es, k, vk);
    assert [] + ms == ms;
    OpenedIsView(c, seed, m, all, k, es, ms);
  }

  lemma ListedEntryOpens(c: Crypto, seed: Bytes32, m: Entries, all: SharedMemories, k: ReadKeyPair,
                         entry: StorageEntry)
    requires RepresentsAll(c, m, all) && ApartFromOthers(c, seed, all) && Owned(c, seed, k)
    requires entry.id in m && m[entry.id] == entry && ListedUnder(entry.scope, k.scope)
    ensures entry.id in all && Legible(c, entry, k, VerifyingKey(c, seed)) && IsScope(entry.scope)
    ensures IsAncestorOf(k.scope, all[entry.id].memory.scope)
    ensures OpenedBy(c, entry, k, VerifyingKey(c, seed)) ==
            if all[entry.id].seed == seed then Some(all[entry.id].memory.data) else None
  {
    hide Decrypt, Parse, Carries, ApartFromOthers, Owned;
    EntryOpens(c, seed, m, all, k, entry.id);
    FilterIsAncestor(entry.scope, k.scope);
  }

  lemma OpenedIsView(c: Crypto, seed: Bytes32, m: Entries, all: SharedMemories, k: ReadKeyPair, es: seq<StorageEntry>,
                     ms: seq<MemoryEntry>)
    requires RepresentsAll(c, m, all) && IsListing(m, k.scope, es)
    requires forall i | 0 <= i < |es| ::
               && es[i].id in all && IsAncestorOf(k.scope, all[es[i].id].memory.scope)
               && OpenedBy(c, es[i], k, VerifyingKey(c, seed)) ==
                  if all[es[i].id].seed == seed then Some(all[es[i].id].memory.data) else None
    requires forall x :: x in ms <==>
               exists i | 0 <= i < |es| :: ComesFrom(c, x, es[i], k, VerifyingKey(c, seed))
    requires forall i, j | 0 <= i < j < |ms| :: IdOf(ms[i]) != IdOf(ms[j])
    ensures Exactly(ms, View(all, seed), k.scope)
  {
    hide OpenedBy, CompositeKey, Carries, ListedUnder, IsAncestorOf, IsScope;
    var view := View(all, seed);
    forall i | 0 <= i < |ms|
      ensures IdOf(ms[i]) in view && view[IdOf(ms[i])] == ms[i] && IsAncestorOf(k.scope, ms[i].scope)
    {
      assert ms[i] in ms;
      var j :| 0 <= j < |es| && ComesFrom(c, ms[i], es[j], k, VerifyingKey(c, seed));
    }
    forall id | id in view && IsAncestorOf(k.scope, view[id].scope)
      ensures view[id] in ms
    {
      FilterIsAncestor(all[id].memory.scope, k.scope);
      var i :| 0 <= i < |es| && es[i] == m[id];
      assert ComesFrom(c, view[id], es[i], k, VerifyingKey(c, seed));
    }
  }

  // ---- Runs of many owners

  datatype SharedOp = SharedOp(seed: Bytes32, op: Op)

  function RunShared(c: Crypto, m: Entries, ops: seq<SharedOp>): Result<Entries>
    decreases |ops|
  {
    if ops == [] then Ok(m)
    else
      match Written(c, ops[0].seed, m, ops[0].op.scope, ops[0].op.key, ops[0].op.content, ops[0].op.coins)
      case Ok(next) => RunShared(c, next, ops[1..])
      case Err(error) => Err(error)
  }

  /** The last memory under each composite key, whoever wrote it. */
  function LastShared(all: SharedMemories, ops: seq<SharedOp>): SharedMemories
    decreases |ops|
  {
    if ops == [] then all
    else
      var op := ops[0].op;
      LastShared(all[CompositeKey(op.scope, op.key) :=
                       OwnedMemory(ops[0].seed, MemoryEntry(op.scope, op.key, op.content))], ops[1..])
  }

  lemma WriteUpdatesShared(c: Crypto, seed: Bytes32, m: Entries, all: SharedMemories, op: Op)
    requires RepresentsAll(c, m, all) && Storable(op.scope, op.content)
    ensures Written(c, seed, m, op.scope, op.key, op.content, op.coins).Ok?
    ensures RepresentsAll(c, Written(c, seed, m, op.scope, op.key, op.content, op.coins).value,
                          all[CompositeKey(op.scope, op.key) :=
                                OwnedMemory(seed, MemoryEntry(op.scope, op.key, op.content))])
  {
    hide Carries, SealedBytes, IsScope, CompositeKey;
    SealedBytesCarry(c, seed, op.scope, op.key, op.content, op.coins);
  }

  lemma {:induction false} SharedRunUpdates(c: Crypto, m: Entries, all: SharedMemories, ops: seq<SharedOp>)
    requires RepresentsAll(c, m, all)
    requires forall i | 0 <= i < |ops| :: Storable(ops[i].op.scope, ops[i].op.content)
    ensures RunShared(c, m, ops).Ok?
    ensures RepresentsAll(c, RunShared(c, m, ops).value, LastShared(all, ops))
    decreases |ops|
  {
    hide RepresentsAll, Written, CompositeKey;
    if ops != [] {
      var op := ops[0].op;
      WriteUpdatesShared(c, ops[0].seed, m, all, op);
      SharedRunUpdates(c, Written(c, ops[0].seed, m, op.scope, op.key, op.content, op.coins).value,
                       all[CompositeKey(op.scope, op.key) :=
                             OwnedMemory(ops[0].seed, MemoryEntry(op.scope, op.key, op.content))], ops[1..]);
    }
  }

  /**
    Any run of writes by any owners on one empty backend, and any key delegated from one of them whose
    verification key rejects the others' signatures: `list` shows exactly that owner's last memories
    at or below the key's scope, and `read` gives one's own by the map and a signature failure for
    another's.
   */
  lemma EachOwnerSeesOwn(c: Crypto, ops: seq<SharedOp>, seed: Bytes32, steps: seq<Step>, es: seq<StorageEntry>,
                         scope: Scope, key: Str)
    requires forall i | 0 <= i < |ops| :: Storable(ops[i].op.scope, ops[i].op.content)
    requires ApartFromOthers(c, seed, LastShared(map[], ops))
    ensures RunShared(c, map[], ops).Ok?
    ensures var m, all := RunShared(c, map[], ops).value, LastShared(map[], ops);
            Run(c, DeriveRootReadKey(c, seed), steps).Ok? ==>
              var k := Run(c, DeriveRootReadKey(c, seed), steps).value;
              && (IsListing(m, k.scope, es) ==>
                    && ShowAll(c, [], es, k, VerifyingKey(c, seed)).Ok?
                    && Exactly(ShowAll(c, [], es, k, VerifyingKey(c, seed)).value, View(all, seed), k.scope))
              && ReadFrom(c, m, k, VerifyingKey(c, seed), scope, key) ==
                 if CompositeKey(scope, key) in all && all[CompositeKey(scope, key)].seed != seed then
                   Err(SignatureVerificationFailed)
                 else Recalled(View(all, seed), k.scope, scope, key)
  {
    hide ShowAll, ReadFrom, Exactly, IsListing, RunShared, LastShared, Run, Recalled, CompositeKey, ApartFromOthers;
    assert RepresentsAll(c, map[], map[]);
    SharedRunUpdates(c, map[], map[], ops);
    RootIsOwned(c, seed);
    DelegatedKeysAreOwned(c, seed, DeriveRootReadKey(c, seed), steps);
    var m, all := RunShared(c, map[], ops).value, LastShared(map[], ops);
    if Run(c, DeriveRootReadKey(c, seed), steps).Ok? {
      var k := Run(c, DeriveRootReadKey(c, seed), steps).value;
      if IsListing(m, k.scope, es) {
        ListSeesOwn(c, seed, m, all, k, es);
      }
      ReadSeesOwn(c, seed, m, all, k, scope, key);
    }
  }
}
