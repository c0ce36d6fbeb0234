/** The batch upsert of a memory session: dedup by reading first, then write or propose. */
module Syncing {
  import opened Basics
  import opened Scopes
  import opened Primitives
  import opened Keys
  import opened Encoding
  import opened Delegation
  import opened Encryption
  import opened Storage
  import opened Names
  import opened Memory

  /** An owner holds the spend seed, an agent an encoded read key and an encoded spend public key. */
  datatype Session = Owner(seed: Bytes32, scope: Scope) | Agent(readKeyEncoded: Str, spendPublicEncoded: Str)

  datatype SyncEntry = SyncEntry(scope: Str, key: Str, content: seq<byte>)

  datatype Tally = Tally(written: nat, skipped: nat, proposed: nat, errors: nat) {
    function Total(): nat {
      written + skipped + proposed + errors
    }
  }

  function SessionReadKey(c: Crypto, s: Session): Result<ReadKeyPair> {
    match s
    case Owner(seed, scope) => ScopeKey(c, seed, scope)
    case Agent(encoded, _) =>
      match DecodeExportedReadKey(c, encoded)
      case Ok(exported) => Import(c, exported)
      case Err(error) => Err(error)
  }

  function SessionVk(c: Crypto, s: Session): Result<Bytes32> {
    match s
    case Owner(seed, _) => Ok(VerifyingKey(c, seed))
    case Agent(_, encoded) => DecodeSpendPublic(c, encoded)
  }

  /** What a session reads with: the verification key is loaded first. */
  function SessionKeys(c: Crypto, s: Session): Result<(Bytes32, ReadKeyPair)> {
    var vk :- SessionVk(c, s);
    var k :- SessionReadKey(c, s);
    Ok((vk, k))
  }

  /** The treatment of one entry: the stored entries and the tally after it. */
  function SyncOne(c: Crypto, s: Session, k: ReadKeyPair, vk: Bytes32, m: Entries, t: Tally, entry: SyncEntry,
                   coins: Coins): (Entries, Tally)
  {
    match New(entry.scope)
    case Err(_) => (m, t.(errors := t.errors + 1))
    case Ok(scope) =>
      if ReadFrom(c, m, k, vk, scope, entry.key) == Ok(entry.content) then (m, t.(skipped := t.skipped + 1))
      else
        match s
        case Agent(_, _) => (m, t.(proposed := t.proposed + 1))
        case Owner(seed, _) =>
          match Written(c, seed, m, scope, entry.key, entry.content, coins)
          case Ok(next) => (next, t.(written := t.written + 1))
          case Err(_) => (m, t.(errors := t.errors + 1))
  }

  /** The entries from position `i` on; the write at position `i` draws `coins(i)`. */
  function SyncFrom(c: Crypto, s: Session, k: ReadKeyPair, vk: Bytes32, m: Entries, t: Tally, entries: seq<SyncEntry>,
                    i: nat, coins: nat -> Coins): (Entries, Tally)
    requires i <= |entries|
    decreases |entries| - i
  {
    if i == |entries| then (m, t)
    else
      var (next, tally) := SyncOne(c, s, k, vk, m, t, entries[i], coins(i));
      SyncFrom(c, s, k, vk, next, tally, entries, i + 1, coins)
  }

  const NOTHING: Tally := Tally(0, 0, 0, 0)

  /** `sync` on the in-memory backend. */
  method Sync(c: Crypto, s: Session, backend: MemoryStorage, entries: seq<SyncEntry>, coins: nat -> Coins)
    returns (r: Result<Tally>)
    requires backend.Valid()
    modifies backend
    ensures backend.Valid()
    ensures entries == [] ==> r == Ok(NOTHING) && backend.entries == old(backend.entries)
    ensures entries != [] ==>
              match SessionKeys(c, s)
              case Err(error) => r == Err(error) && backend.entries == old(backend.entries)
              case Ok((vk, k)) =>
                var (m, t) := SyncFrom(c, s, k, vk, old(backend.entries), NOTHING, entries, 0, coins);
                r == Ok(t) && backend.entries == m
  {
    hide ReadFrom, Written;
    if entries == [] {
      return Ok(NOTHING);
    }
    var vk :- SessionVk(c, s);
    var reader := new MemoryReader(c, vk, backend);
    var k :- SessionReadKey(c, s);
    var t := NOTHING;
    for i := 0 to |entries|
      invariant backend.Valid()
      invariant SyncFrom(c, s, k, vk, old(backend.entries), NOTHING, entries, 0, coins)
             == SyncFrom(c, s, k, vk, backend.entries, t, entries, i, coins)
    {
      var entry := entries[i];
      var scope := New(entry.scope);
      if scope.Err? {
        t := t.(errors := t.errors + 1);
        continue;
      }
      var existing := reader.Read(k, scope.value, entry.key);
      if existing == Ok(entry.content) {
        t := t.(skipped := t.skipped + 1);
        continue;
      }
      match s
      case Owner(seed, _) =>
        var store := new MemoryStore(c, seed, backend);
        var w := store.Write(scope.value, entry.key, entry.content, coins(i));
        if w.Ok? {
          t := t.(written := t.written + 1);
        } else {
          t := t.(errors := t.errors + 1);
        }
      case Agent(_, _) =>
        t := t.(proposed := t.proposed + 1);
    }
    return Ok(t);
  }

  /** Every entry is counted once, under exactly one heading; only owners write and only agents propose. */
  lemma {:induction false} EveryEntryCounted(c: Crypto, s: Session, k: ReadKeyPair, vk: Bytes32, m: Entries,
                                             t: Tally, entries: seq<SyncEntry>, i: nat, coins: nat -> Coins)
    requires i <= |entries|
    ensures var (n, u) := SyncFrom(c, s, k, vk, m, t, entries, i, coins);
            && u.Total() == t.Total() + |entries| - i
            && (s.Agent? ==> n == m && u.written == t.written)
            && (s.Owner? ==> u.proposed == t.proposed)
            && u.written >= t.written
    decreases |entries| - i
  {
    hide ReadFrom, Written;
    if i < |entries| {
      var (next, tally) := SyncOne(c, s, k, vk, m, t, entries[i], coins(i));
      EveryEntryCounted(c, s, k, vk, next, tally, entries, i + 1, coins);
    }
  }

  // ---- The owner's sync on the abstract store

  predicate ValidEntry(e: SyncEntry) {
    IsScope(e.scope)
  }

  function InvalidFrom(entries: seq<SyncEntry>, i: nat): nat
    requires i <= |entries|
    decreases |entries| - i
  {
    if i == |entries| then 0 else (if ValidEntry(entries[i]) then 0 else 1) + InvalidFrom(entries, i + 1)
  }

  /** One valid entry: nothing if its content reads back already, a write otherwise. */
  function Upsert(mem: Memories, viewer: Scope, e: SyncEntry): Memories
    requires ValidEntry(e)
  {
    if Recalled(mem, viewer, e.scope, e.key) == Ok(e.content) then mem else Recorded(mem, e.scope, e.key, e.content)
  }

  /** The memories after the valid entries from position `i` on. */
  function Upserted(mem: Memories, viewer: Scope, entries: seq<SyncEntry>, i: nat): Memories
    requires i <= |entries|
    decreases |entries| - i
  {
    if i == |entries| then mem
    else if ValidEntry(entries[i]) then Upserted(Upsert(mem, viewer, entries[i]), viewer, entries, i + 1)
    else Upserted(mem, viewer, entries, i + 1)
  }

  predicate AllStorable(entries: seq<SyncEntry>) {
    forall j | 0 <= j < |entries| && ValidEntry(entries[j]) :: Storable(entries[j].scope, entries[j].content)
  }

  /** Valid entries that share a composite key have one content. */
  predicate TargetsAgree(entries: seq<SyncEntry>) {
    forall i, j | 0 <= i < |entries| && 0 <= j < |entries| && ValidEntry(entries[i]) && ValidEntry(entries[j])
                  && CompositeKey(entries[i].scope, entries[i].key) == CompositeKey(entries[j].scope, entries[j].key) ::
      entries[i].content == entries[j].content
  }

  /** Entries with slash-free keys agree when no two of them have the same scope and key. */
  lemma DistinctSlashFreeAgree(entries: seq<SyncEntry>)
    requires forall j | 0 <= j < |entries| && ValidEntry(entries[j]) :: SLASH !in entries[j].key
    requires forall i, j | 0 <= i < j < |entries| && ValidEntry(entries[i]) && ValidEntry(entries[j]) ::
               (entries[i].scope, entries[i].key) != (entries[j].scope, entries[j].key)
    ensures TargetsAgree(entries)
  {
    forall i, j | 0 <= i < |entries| && 0 <= j < |entries| && ValidEntry(entries[i]) && ValidEntry(entries[j])
                  && CompositeKey(entries[i].scope, entries[i].key) == CompositeKey(entries[j].scope, entries[j].key)
      ensures entries[i].content == entries[j].content
    {
      SharedExactly(entries[i].scope, entries[i].key, entries[j].scope, entries[j].key);
      assert i == j;
    }
  }

  /** A valid entry at or after position `i` that writes where this one does, and that the viewer may read. */
  predicate CoveredFrom(viewer: Scope, entries: seq<SyncEntry>, i: nat, e: SyncEntry)
    requires i <= |entries|
  {
    exists j | i <= j < |entries| ::
      && ValidEntry(entries[j]) && IsAncestorOf(viewer, entries[j].scope)
      && CompositeKey(entries[j].scope, entries[j].key) == CompositeKey(e.scope, e.key)
  }

  /** One valid entry: an upsert, counted as written or skipped. */
  lemma OwnerStep(c: Crypto, seed: Bytes32, scope: Scope, k: ReadKeyPair, m: Entries, mem: Memories, t: Tally,
                  entry: SyncEntry, coins: Coins)
    requires Represents(c, seed, m, mem) && Owned(c, seed, k)
    requires ValidEntry(entry) && Storable(entry.scope, entry.content)
    ensures var (n, u) := SyncOne(c, Owner(seed, scope), k, VerifyingKey(c, seed), m, t, entry, coins);
            && Represents(c, seed, n, Upsert(mem, k.scope, entry))
            && u.errors == t.errors && u.written + u.skipped == t.written + t.skipped + 1
  {
    hide ReadFrom, Written, Represents, Recalled;
    ReadSees(c, seed, m, mem, k, entry.scope, entry.key);
    WriteUpdates(c, seed, m, mem, entry.scope, entry.key, entry.content, coins);
  }

  lemma InvalidStep(c: Crypto, s: Session, k: ReadKeyPair, vk: Bytes32, m: Entries, t: Tally, entry: SyncEntry,
                    coins: Coins)
    requires !ValidEntry(entry)
    ensures SyncOne(c, s, k, vk, m, t, entry, coins) == (m, t.(errors := t.errors + 1))
  {
  }

  /** An owner's sync upserts every valid entry, in order; only invalid scopes are errors. */
  lemma {:induction false} OwnerSyncUpserts(c: Crypto, seed: Bytes32, scope: Scope, k: ReadKeyPair, m: Entries,
                                            mem: Memories, t: Tally, entries: seq<SyncEntry>, i: nat,
                                            coins: nat -> Coins)
    requires i <= |entries| && Represents(c, seed, m, mem) && Owned(c, seed, k) && AllStorable(entries)
    ensures var (n, u) := SyncFrom(c, Owner(seed, scope), k, VerifyingKey(c, seed), m, t, entries, i, coins);
            && Represents(c, seed, n, Upserted(mem, k.scope, entries, i))
            && u.errors == t.errors + InvalidFrom(entries, i)
    decreases |entries| - i
  {
    hide Represents, SyncOne, Storable, Upsert;
    if i < |entries| {
      var (next, tally) := SyncOne(c, Owner(seed, scope), k, VerifyingKey(c, seed), m, t, entries[i], coins(i));
      if ValidEntry(entries[i]) {
        OwnerStep(c, seed, scope, k, m, mem, t, entries[i], coins(i));
        OwnerSyncUpserts(c, seed, scope, k, next, Upsert(mem, k.scope, entries[i]), tally, entries, i + 1, coins);
      } else {
        InvalidStep(c, Owner(seed, scope), k, VerifyingKey(c, seed), m, t, entries[i], coins(i));
        OwnerSyncUpserts(c, seed, scope, k, next, mem, tally, entries, i + 1, coins);
      }
    }
  }

  predicate ReadsBack(mem: Memories, viewer: Scope, e: SyncEntry)
    requires ValidEntry(e)
  {
    Recalled(mem, viewer, e.scope, e.key) == Ok(e.content)
  }

  predicate AllReadBack(mem: Memories, viewer: Scope, entries: seq<SyncEntry>) {
    forall j | 0 <= j < |entries| && ValidEntry(entries[j]) :: ReadsBack(mem, viewer, entries[j])
  }

  /** One upsert, for an entry that agrees with it where they meet. */
  lemma UpsertReadsBack(mem: Memories, viewer: Scope, e: SyncEntry, other: SyncEntry)
    requires ValidEntry(e) && ValidEntry(other)
    requires CompositeKey(e.scope, e.key) == CompositeKey(other.scope, other.key) ==> e.content == other.content
    ensures ReadsBack(Upsert(mem, viewer, e), viewer, other) <==>
              || ReadsBack(mem, viewer, other)
              || (CompositeKey(e.scope, e.key) == CompositeKey(other.scope, other.key) && IsAncestorOf(viewer, e.scope))
  {
    hide IsAncestorOf, IsScope, CompositeKey;
  }

  /** After the entries from `i` on, one reads back if it did before or a covered entry writes there. */
  lemma {:induction false} UpsertedExactly(mem: Memories, viewer: Scope, entries: seq<SyncEntry>, i: nat, j: nat)
    requires i <= |entries| && j < |entries| && ValidEntry(entries[j]) && TargetsAgree(entries)
    ensures ReadsBack(Upserted(mem, viewer, entries, i), viewer, entries[j]) <==>
              ReadsBack(mem, viewer, entries[j]) || CoveredFrom(viewer, entries, i, entries[j])
    decreases |entries| - i
  {
    hide IsAncestorOf, IsScope, CompositeKey, ReadsBack, Upsert, CoveredFrom;
    CoveredStep(viewer, entries, i, entries[j]);
    if i < |entries| {
      if ValidEntry(entries[i]) {
        UpsertReadsBack(mem, viewer, entries[i], entries[j]);
      }
      var next := if ValidEntry(entries[i]) then Upsert(mem, viewer, entries[i]) else mem;
      UpsertedExactly(next, viewer, entries, i + 1, j);
    }
  }

  lemma CoveredStep(viewer: Scope, entries: seq<SyncEntry>, i: nat, e: SyncEntry)
    requires i <= |entries|
    ensures CoveredFrom(viewer, entries, i, e) <==>
              i < |entries|
              && (|| CoveredFrom(viewer, entries, i + 1, e)
                  || (ValidEntry(entries[i]) && IsAncestorOf(viewer, entries[i].scope)
                      && CompositeKey(entries[i].scope, entries[i].key) == CompositeKey(e.scope, e.key)))
  {
    hide IsAncestorOf, CompositeKey;
  }

  /** Entries that meet agree, and each reads back already or meets one that the viewer may read. */
  predicate Readable(mem: Memories, viewer: Scope, entries: seq<SyncEntry>) {
    && TargetsAgree(entries)
    && forall j | 0 <= j < |entries| && ValidEntry(entries[j]) ::
         ReadsBack(mem, viewer, entries[j]) || CoveredFrom(viewer, entries, 0, entries[j])
  }

  /** What an owner's sync leaves behind, seen on the memories. */
  lemma UpsertedReadsBack(mem: Memories, viewer: Scope, entries: seq<SyncEntry>)
    ensures AllReadBack(Upserted(mem, viewer, entries, 0), viewer, entries) <==> Readable(mem, viewer, entries)
  {
    hide IsAncestorOf, CompositeKey, CoveredFrom, Upserted;
    if TargetsAgree(entries) {
      forall j | 0 <= j < |entries| && ValidEntry(entries[j])
        ensures ReadsBack(Upserted(mem, viewer, entries, 0), viewer, entries[j]) <==>
                  ReadsBack(mem, viewer, entries[j]) || CoveredFrom(viewer, entries, 0, entries[j])
      {
        UpsertedExactly(mem, viewer, entries, 0, j);
      }
    }
  }

  /** Entries that the viewer may read are readable exactly when those that meet agree. */
  lemma CoveredReadable(mem: Memories, viewer: Scope, entries: seq<SyncEntry>)
    requires forall j | 0 <= j < |entries| && ValidEntry(entries[j]) :: IsAncestorOf(viewer, entries[j].scope)
    ensures Readable(mem, viewer, entries) <==> TargetsAgree(entries)
  {
    hide IsAncestorOf, CompositeKey;
  }

  /** A sync writes nothing, and then changes nothing, exactly when every valid entry reads back before it. */
  lemma {:induction false} WritesNothingExactly(c: Crypto, seed: Bytes32, scope: Scope, k: ReadKeyPair, m: Entries,
                                                mem: Memories, t: Tally, entries: seq<SyncEntry>, i: nat,
                                                coins: nat -> Coins)
    requires i <= |entries| && Represents(c, seed, m, mem) && Owned(c, seed, k)
    ensures var (n, u) := SyncFrom(c, Owner(seed, scope), k, VerifyingKey(c, seed), m, t, entries, i, coins);
            && (u.written == t.written <==>
                  forall j | i <= j < |entries| && ValidEntry(entries[j]) :: ReadsBack(mem, k.scope, entries[j]))
            && (u.written == t.written ==> n == m)
    decreases |entries| - i
  {
    hide Represents, ReadFrom, Written, Recalled, ReadsBack, SyncOne, ValidEntry;
    if i < |entries| {
      var vk := VerifyingKey(c, seed);
      var (next, tally) := SyncOne(c, Owner(seed, scope), k, vk, m, t, entries[i], coins(i));
      OwnerStepWrites(c, seed, scope, k, m, mem, t, entries[i], coins(i));
      EveryEntryCounted(c, Owner(seed, scope), k, vk, next, tally, entries, i + 1, coins);
      if tally.written == t.written {
        WritesNothingExactly(c, seed, scope, k, m, mem, tally, entries, i + 1, coins);
      }
    }
  }

  lemma OwnerStepWrites(c: Crypto, seed: Bytes32, scope: Scope, k: ReadKeyPair, m: Entries, mem: Memories, t: Tally,
                        entry: SyncEntry, coins: Coins)
    requires Represents(c, seed, m, mem) && Owned(c, seed, k)
    ensures var (n, u) := SyncOne(c, Owner(seed, scope), k, VerifyingKey(c, seed), m, t, entry, coins);
            if ValidEntry(entry) && !ReadsBack(mem, k.scope, entry) then u.written == t.written + 1
            else u.written == t.written && n == m
  {
    hide ReadFrom, Written, Represents, Recalled;
    if ValidEntry(entry) {
      ReadSees(c, seed, m, mem, k, entry.scope, entry.key);
      WriteUpdates(c, seed, m, mem, entry.scope, entry.key, entry.content, coins);
    }
  }

  /** Every valid entry reads back from the store. */
  predicate AllRead(c: Crypto, m: Entries, k: ReadKeyPair, vk: Bytes32, entries: seq<SyncEntry>) {
    forall j | 0 <= j < |entries| && ValidEntry(entries[j]) ::
      ReadFrom(c, m, k, vk, entries[j].scope, entries[j].key) == Ok(entries[j].content)
  }

  lemma AllReadExactly(c: Crypto, seed: Bytes32, m: Entries, mem: Memories, k: ReadKeyPair, entries: seq<SyncEntry>)
    requires Represents(c, seed, m, mem) && Owned(c, seed, k)
    ensures AllRead(c, m, k, VerifyingKey(c, seed), entries) <==> AllReadBack(mem, k.scope, entries)
  {
    hide Represents, ReadFrom, Recalled;
    forall j | 0 <= j < |entries| && ValidEntry(entries[j])
      ensures ReadFrom(c, m, k, VerifyingKey(c, seed), entries[j].scope, entries[j].key)
           == Recalled(mem, k.scope, entries[j].scope, entries[j].key)
    {
      ReadSees(c, seed, m, mem, k, entries[j].scope, entries[j].key);
    }
  }

  /**
    An owner's sync: afterwards every valid entry reads back exactly when the entries are readable,
    the errors are the invalid scopes, and syncing again writes nothing in exactly the same case.
   */
  lemma SyncReadsBackAndIsIdempotent(c: Crypto, seed: Bytes32, scope: Scope, m: Entries, mem: Memories,
                                     entries: seq<SyncEntry>, coins: nat -> Coins, again: nat -> Coins)
    requires Represents(c, seed, m, mem) && AllStorable(entries)
    ensures SessionKeys(c, Owner(seed, scope)).Ok?
    ensures var s := Owner(seed, scope);
            var (vk, k) := SessionKeys(c, s).value;
            var (n, u) := SyncFrom(c, s, k, vk, m, NOTHING, entries, 0, coins);
            var (n', u') := SyncFrom(c, s, k, vk, n, NOTHING, entries, 0, again);
            && u.errors == InvalidFrom(entries, 0)
            && (AllRead(c, n, k, vk, entries) <==> Readable(mem, scope, entries))
            && (u'.written == 0 <==> Readable(mem, scope, entries))
            && (u'.written == 0 ==> n' == n)
  {
    hide Represents, SyncFrom, Upserted, ScopeKey, Readable, AllRead, AllReadBack, AllStorable;
    ScopeKeyIsOwned(c, seed, scope);
    var s := Owner(seed, scope);
    var (vk, k) := SessionKeys(c, s).value;
    OwnerSyncUpserts(c, seed, scope, k, m, mem, NOTHING, entries, 0, coins);
    var n := SyncFrom(c, s, k, vk, m, NOTHING, entries, 0, coins).0;
    var after := Upserted(mem, scope, entries, 0);
    UpsertedReadsBack(mem, scope, entries);
    AllReadExactly(c, seed, n, after, k, entries);
    WritesNothingAtAll(c, seed, scope, k, n, after, entries, again);
  }

  lemma WritesNothingAtAll(c: Crypto, seed: Bytes32, scope: Scope, k: ReadKeyPair, m: Entries, mem: Memories,
                           entries: seq<SyncEntry>, coins: nat -> Coins)
    requires Represents(c, seed, m, mem) && Owned(c, seed, k)
    ensures var (n, u) := SyncFrom(c, Owner(seed, scope), k, VerifyingKey(c, seed), m, NOTHING, entries, 0, coins);
            && (u.written == 0 <==> AllReadBack(mem, k.scope, entries))
            && (u.written == 0 ==> n == m)
  {
    hide Represents, SyncFrom, ReadsBack, ValidEntry;
    WritesNothingExactly(c, seed, scope, k, m, mem, NOTHING, entries, 0, coins);
  }

  /**
    An entry outside the session's scope that does not read back already: right after its write it is
    a scope mismatch, and the next sync writes it again.
   */
  lemma OutsideEntryWrittenAgain(c: Crypto, seed: Bytes32, scope: Scope, m: Entries, mem: Memories, e: SyncEntry,
                                 coins: nat -> Coins, again: nat -> Coins)
    requires Represents(c, seed, m, mem) && ValidEntry(e) && Storable(e.scope, e.content)
    requires !IsAncestorOf(scope, e.scope) && !ReadsBack(mem, scope, e)
    ensures SessionKeys(c, Owner(seed, scope)).Ok?
    ensures var s := Owner(seed, scope);
            var (vk, k) := SessionKeys(c, s).value;
            var (n, u) := SyncFrom(c, s, k, vk, m, NOTHING, [e], 0, coins);
            && u.written == 1
            && ReadFrom(c, n, k, vk, e.scope, e.key) == Err(ScopeMismatch(scope, e.scope))
            && SyncFrom(c, s, k, vk, n, NOTHING, [e], 0, again).1.written == 1
  {
    hide Represents, ReadFrom, SyncOne, ScopeKey, CompositeKey, IsAncestorOf;
    ScopeKeyIsOwned(c, seed, scope);
    var (vk, k) := SessionKeys(c, Owner(seed, scope)).value;
    OneEntry(c, Owner(seed, scope), k, vk, m, e, coins);
    OwnerStep(c, seed, scope, k, m, mem, NOTHING, e, coins(0));
    OwnerStepWrites(c, seed, scope, k, m, mem, NOTHING, e, coins(0));
    var n := SyncOne(c, Owner(seed, scope), k, vk, m, NOTHING, e, coins(0)).0;
    var after := Upsert(mem, scope, e);
    ReadSees(c, seed, n, after, k, e.scope, e.key);
    OneEntry(c, Owner(seed, scope), k, vk, n, e, again);
    OwnerStepWrites(c, seed, scope, k, n, after, NOTHING, e, again(0));
  }

  lemma OneEntry(c: Crypto, s: Session, k: ReadKeyPair, vk: Bytes32, m: Entries, e: SyncEntry, coins: nat -> Coins)
    ensures SyncFrom(c, s, k, vk, m, NOTHING, [e], 0, coins) == SyncOne(c, s, k, vk, m, NOTHING, e, coins(0))
  {
    hide SyncOne;
  }

  // ---- Any sync

  /** The valid entries from position `i` on that the store holds already. */
  function HeldFrom(c: Crypto, m: Entries, k: ReadKeyPair, vk: Bytes32, entries: seq<SyncEntry>, i: nat): nat
    requires i <= |entries|
    decreases |entries| - i
  {
    if i == |entries| then 0
    else
      var e := entries[i];
      (if ValidEntry(e) && ReadFrom(c, m, k, vk, e.scope, e.key) == Ok(e.content) then 1 else 0)
      + HeldFrom(c, m, k, vk, entries, i + 1)
  }

  /** An agent's sync skips exactly the entries held already, proposes the other valid ones, and stores nothing. */
  lemma {:induction false} AgentSyncCounts(c: Crypto, s: Session, k: ReadKeyPair, vk: Bytes32, m: Entries, t: Tally,
                                           entries: seq<SyncEntry>, i: nat, coins: nat -> Coins)
    requires s.Agent? && i <= |entries|
    ensures var (n, u) := SyncFrom(c, s, k, vk, m, t, entries, i, coins);
            && n == m && u.written == t.written && u.errors == t.errors + InvalidFrom(entries, i)
            && u.skipped == t.skipped + HeldFrom(c, m, k, vk, entries, i)
            && u.proposed == t.proposed + |entries| - i - InvalidFrom(entries, i) - HeldFrom(c, m, k, vk, entries, i)
    decreases |entries| - i
  {
    hide ReadFrom;
    if i < |entries| {
      var (next, tally) := SyncOne(c, s, k, vk, m, t, entries[i], coins(i));
      AgentSyncCounts(c, s, k, vk, next, tally, entries, i + 1, coins);
    }
  }

  /** The stored entry is the write of the sync entry, with the given randomness. */
  predicate WrittenWith(c: Crypto, seed: Bytes32, stored: StorageEntry, e: SyncEntry, coins: Coins) {
    && ValidEntry(e) && stored.id == CompositeKey(e.scope, e.key) && stored.scope == e.scope && stored.key == e.key
    && SealedBytes(c, seed, e.scope, e.content, coins) == Ok(stored.data)
  }

  /** What an owner's sync changes are writes of its entries, each with the randomness of its own position. */
  lemma {:induction false} EachWriteDrawsItsOwn(c: Crypto, seed: Bytes32, scope: Scope, k: ReadKeyPair, vk: Bytes32,
                                                m: Entries, t: Tally, entries: seq<SyncEntry>, i: nat,
                                                coins: nat -> Coins, id: Str)
    requires i <= |entries|
    ensures var n := SyncFrom(c, Owner(seed, scope), k, vk, m, t, entries, i, coins).0;
            && (id in m ==> id in n)
            && (id in n && (id !in m || n[id] != m[id]) ==>
                  exists j | i <= j < |entries| :: WrittenWith(c, seed, n[id], entries[j], coins(j)))
    decreases |entries| - i
  {
    hide ReadFrom, SealedBytes, CompositeKey, ValidEntry, WrittenWith, SyncOne;
    if i < |entries| {
      var s := Owner(seed, scope);
      var (next, tally) := SyncOne(c, s, k, vk, m, t, entries[i], coins(i));
      EachWriteDrawsItsOwn(c, seed, scope, k, vk, next, tally, entries, i + 1, coins, id);
      OneWrite(c, seed, scope, k, vk, m, t, entries[i], coins(i), id);
    }
  }

  lemma OneWrite(c: Crypto, seed: Bytes32, scope: Scope, k: ReadKeyPair, vk: Bytes32, m: Entries, t: Tally,
                 e: SyncEntry, coins: Coins, id: Str)
    ensures var n := SyncOne(c, Owner(seed, scope), k, vk, m, t, e, coins).0;
            && (id in m ==> id in n)
            && (id in n && (id !in m || n[id] != m[id]) ==> WrittenWith(c, seed, n[id], e, coins))
  {
    hide ReadFrom, SealedBytes, CompositeKey;
  }

  /** The two strings of a login are told apart: swapped, the first one read, as a spend key, is refused by its tag. */
  lemma SwappedStringsRefused(c: Crypto, key: ExportedReadKey, vk: Bytes32)
    ensures SessionKeys(c, Agent(EncodeSpendPublic(c, vk), EncodeExportedReadKey(c, key)))
         == Err(InvalidTypeTag(0x01, 0x03))
  {
    hide DecodeSpendPublic, DecodeExportedReadKey, EncodeExportedReadKey, EncodeSpendPublic;
    ExportedKeyRoundTrip(c, key);
  }

  // ---- Granting

  /** The two strings the owner's `grant` hands to an agent. */
  function GrantedSession(c: Crypto, seed: Bytes32, key: ReadKeyPair): Session {
    Agent(EncodeExportedReadKey(c, Export(key)), EncodeSpendPublic(c, VerifyingKey(c, seed)))
  }

  /**
    From grant to view: an agent logging in with the strings granted for a scope holds the
    owner's key for it, lists exactly the memories at or below it, and reads those and no others.
   */
  lemma GrantedAgentSees(c: Crypto, seed: Bytes32, granted: Scope, m: Entries, mem: Memories, es: seq<StorageEntry>,
                         scope: Scope, key: Str)
    requires Memory.Represents(c, seed, m, mem) && IsListing(m, granted, es)
    ensures ScopeKey(c, seed, granted).Ok?
    ensures var s := GrantedSession(c, seed, ScopeKey(c, seed, granted).value);
            && SessionKeys(c, s) == Ok((VerifyingKey(c, seed), ScopeKey(c, seed, granted).value))
            && var (vk, k) := SessionKeys(c, s).value;
            && k.scope == granted
            && ShowAll(c, [], es, k, vk).Ok? && Exactly(ShowAll(c, [], es, k, vk).value, mem, granted)
            && ReadFrom(c, m, k, vk, scope, key) == Recalled(mem, granted, scope, key)
  {
    hide ShowAll, ReadFrom, Exactly, IsListing, Represents, ScopeKey, Recalled;
    ScopeKeyIsOwned(c, seed, granted);
    var k := ScopeKey(c, seed, granted).value;
    HandoverKeeps(c, k);
    SpendPublicRoundTrip(c, VerifyingKey(c, seed), seed);
    ListSeesExactly(c, seed, m, mem, k, es);
    ReadSees(c, seed, m, mem, k, scope, key);
  }
}
