/**
  The encrypted memory store. Behind composite keys, serialised envelopes and derived keys it
  behaves as a map from (scope, key) to plaintext, seen through the ancestor order on scopes.
 */
module Memory {
  import opened Basics
  import opened Scopes
  import opened Primitives
  import opened Keys
  import opened Delegation
  import opened Envelopes
  import opened EnvelopeCodec
  import opened Encryption
  import opened Access
  import opened Names
  import opened Storage

  datatype MemoryEntry = MemoryEntry(scope: Scope, key: Str, data: seq<byte>)

  datatype Proposal = Proposal(scope: Scope, key: Str, plaintext: seq<byte>, proposedBy: Str)

  // ---- What the operations do to the stored entries

  function SealedBytes(c: Crypto, seed: Bytes32, scope: Scope, content: seq<byte>, coins: Coins): Result<seq<byte>> {
    match Encrypted(c, EciesX25519ChaCha20, scope, [], Some(seed), true, content, coins)
    case Ok(envelope) => Ok(Wire(envelope))
    case Err(error) => Err(error)
  }

  function Written(c: Crypto, seed: Bytes32, m: Entries, scope: Scope, key: Str, content: seq<byte>, coins: Coins):
    Result<Entries>
  {
    match SealedBytes(c, seed, scope, content, coins)
    case Ok(data) => Ok(PutEntry(m, scope, key, data))
    case Err(error) => Err(error)
  }

  function ReadFrom(c: Crypto, m: Entries, k: ReadKeyPair, vk: Bytes32, scope: Scope, key: Str): Result<seq<byte>> {
    match GetEntry(m, CompositeKey(scope, key))
    case Err(error) => Err(error)
    case Ok(entry) =>
      match Parsed(entry.data)
      case Err(error) => Err(error)
      case Ok(envelope) => Decrypt(c, envelope, k, vk)
  }

  /** One listed entry: an error to report, nothing to show, or a memory. */
  function Shown(c: Crypto, entry: StorageEntry, k: ReadKeyPair, vk: Bytes32): Result<Option<MemoryEntry>> {
    match Parsed(entry.data)
    case Err(error) => Err(error)
    case Ok(envelope) =>
      match Decrypt(c, envelope, k, vk)
      case Err(_) => Ok(None)
      case Ok(data) =>
        match New(entry.scope)
        case Ok(scope) => Ok(Some(MemoryEntry(scope, entry.key, data)))
        case Err(_) => Err(StorageError)
  }

  /** The memories shown for a listing, appended to those shown before; the first error ends it. */
  function ShowAll(c: Crypto, done: seq<MemoryEntry>, es: seq<StorageEntry>, k: ReadKeyPair, vk: Bytes32):
    Result<seq<MemoryEntry>>
    decreases es
  {
    if es == [] then Ok(done)
    else
      match Shown(c, es[0], k, vk)
      case Err(error) => Err(error)
      case Ok(shown) => ShowAll(c, if shown.Some? then done + [shown.value] else done, es[1..], k, vk)
  }

  method ShowEach(c: Crypto, es: seq<StorageEntry>, k: ReadKeyPair, vk: Bytes32) returns (r: Result<seq<MemoryEntry>>)
    ensures r == ShowAll(c, [], es, k, vk)
  {
    hide Decrypt;
    var memories := [];
    assert es[0..] == es;
    for i := 0 to |es|
      invariant ShowAll(c, [], es, k, vk) == ShowAll(c, memories, es[i..], k, vk)
    {
      assert es[i..][0] == es[i] && es[i..][1..] == es[i + 1..];
      var envelope :- FromBytes(es[i].data);
      match Decrypt(c, envelope, k, vk)
      case Err(_) =>
      case Ok(data) =>
        match New(es[i].scope) {
          case Ok(scope) => memories := memories + [MemoryEntry(scope, es[i].key, data)];
          case Err(_) => return Err(StorageError);
        }
    }
    r := Ok(memories);
  }

  /** What a stored entry holds for a key, if it opens. */
  function OpenedBy(c: Crypto, entry: StorageEntry, k: ReadKeyPair, vk: Bytes32): Option<seq<byte>> {
    match Parsed(entry.data)
    case Err(_) => None
    case Ok(envelope) =>
      match Decrypt(c, envelope, k, vk)
      case Ok(content) => Some(content)
      case Err(_) => None
  }

  /** The entry's bytes parse, and if it opens for the key its scope is one. */
  predicate Legible(c: Crypto, entry: StorageEntry, k: ReadKeyPair, vk: Bytes32) {
    Parsed(entry.data).Ok? && (OpenedBy(c, entry, k, vk).Some? ==> IsScope(entry.scope))
  }

  /** The memories of the entries that open for the key, in order. */
  function Opened(c: Crypto, es: seq<StorageEntry>, k: ReadKeyPair, vk: Bytes32): seq<MemoryEntry> {
    if es == [] then []
    else
      var content := OpenedBy(c, es[0], k, vk);
      (if content.Some? && IsScope(es[0].scope) then [MemoryEntry(es[0].scope, es[0].key, content.value)] else [])
      + Opened(c, es[1..], k, vk)
  }

  /** The error of an entry that is not legible: that of its parse, or of its scope. */
  function IllegibleError(entry: StorageEntry): RokError {
    match Parsed(entry.data)
    case Err(error) => error
    case Ok(_) => StorageError
  }

  /** The first entry that is not legible. */
  predicate StopsAt(c: Crypto, es: seq<StorageEntry>, k: ReadKeyPair, vk: Bytes32, i: nat) {
    i < |es| && !Legible(c, es[i], k, vk) && forall j | 0 <= j < i :: Legible(c, es[j], k, vk)
  }

  lemma ShowStep(c: Crypto, done: seq<MemoryEntry>, es: seq<StorageEntry>, k: ReadKeyPair, vk: Bytes32)
    requires es != []
    ensures ShowAll(c, done, es, k, vk) ==
            if Legible(c, es[0], k, vk) then ShowAll(c, done + Opened(c, [es[0]], k, vk), es[1..], k, vk)
            else Err(IllegibleError(es[0]))
    ensures Opened(c, es, k, vk) == Opened(c, [es[0]], k, vk) + Opened(c, es[1..], k, vk)
  {
    hide Decrypt, Parsed, IsScope;
    var one, content := [es[0]], OpenedBy(c, es[0], k, vk);
    assert one[1..] == [];
    var item :=
      if content.Some? && IsScope(es[0].scope) then [MemoryEntry(es[0].scope, es[0].key, content.value)] else [];
    assert Opened(c, one, k, vk) == item + [] == item;
    assert done + [] == done;
  }

  /**
    A list of any entries, whoever stored them: it fails exactly when one of them is not legible,
    with the error of the first such, and otherwise shows exactly the memories of those that open;
    an entry that does not open is passed over, whatever the reason.
   */
  lemma {:induction false} ShowsWhatOpens(c: Crypto, done: seq<MemoryEntry>, es: seq<StorageEntry>, k: ReadKeyPair,
                                          vk: Bytes32)
    ensures ShowAll(c, done, es, k, vk).Ok? <==> forall i | 0 <= i < |es| :: Legible(c, es[i], k, vk)
    ensures ShowAll(c, done, es, k, vk).Ok? ==> ShowAll(c, done, es, k, vk) == Ok(done + Opened(c, es, k, vk))
    ensures ShowAll(c, done, es, k, vk).Err? ==>
              exists i: nat :: StopsAt(c, es, k, vk, i) && ShowAll(c, done, es, k, vk) == Err(IllegibleError(es[i]))
    decreases es
  {
    hide Shown, Legible, OpenedBy, IllegibleError;
    if es == [] {
      assert done + [] == done;
    } else {
      assert es == [es[0]] + es[1..];
      ShowStep(c, done, es, k, vk);
      if Legible(c, es[0], k, vk) {
        var item, later := Opened(c, [es[0]], k, vk), Opened(c, es[1..], k, vk);
        ShowsWhatOpens(c, done + item, es[1..], k, vk);
        assert done + item + later == done + (item + later);
        if i: nat :| StopsAt(c, es[1..], k, vk, i) {
          StopsLater(c, es, k, vk, i);
        }
      } else {
        assert StopsAt(c, es, k, vk, 0);
      }
    }
  }

  lemma StopsLater(c: Crypto, es: seq<StorageEntry>, k: ReadKeyPair, vk: Bytes32, i: nat)
    requires es != [] && Legible(c, es[0], k, vk) && StopsAt(c, es[1..], k, vk, i)
    ensures StopsAt(c, es, k, vk, i + 1) && es[i + 1] == es[1..][i]
  {
    hide Legible;
    forall j | 0 < j < i + 1
      ensures Legible(c, es[j], k, vk)
    {
      assert es[j] == es[1..][j - 1];
    }
  }

  class MemoryStore {
    const c: Crypto
    const seed: Bytes32
    const backend: MemoryStorage

    constructor (c: Crypto, seed: Bytes32, backend: MemoryStorage)
      ensures this.c == c && this.seed == seed && this.backend == backend
    {
      this.c, this.seed, this.backend := c, seed, backend;
    }

    method Write(scope: Scope, key: Str, content: seq<byte>, coins: Coins) returns (r: Result<Str>)
      requires backend.Valid()
      modifies backend
      ensures backend.Valid()
      ensures match Written(c, seed, old(backend.entries), scope, key, content, coins)
              case Ok(m) => r == Ok(CompositeKey(scope, key)) && backend.entries == m
              case Err(error) => r == Err(error) && backend.entries == old(backend.entries)
    {
      hide Encrypted, Wire;
      var builder := new EncryptBuilder(EciesX25519ChaCha20, scope);
      builder.SetSpendKey(seed);
      builder.SetScopeBased();
      var envelope :- builder.Encrypt(c, content, coins);
      var data := ToBytes(envelope);
      var id := backend.Put(scope, key, data);
      return Ok(id);
    }

    method AcceptProposal(p: Proposal, coins: Coins) returns (r: Result<Str>)
      requires backend.Valid()
      modifies backend
      ensures backend.Valid()
      ensures match Written(c, seed, old(backend.entries), p.scope, p.key, p.plaintext, coins)
              case Ok(m) => r == Ok(CompositeKey(p.scope, p.key)) && backend.entries == m
              case Err(error) => r == Err(error) && backend.entries == old(backend.entries)
    {
      r := Write(p.scope, p.key, p.plaintext, coins);
    }

    method Read(k: ReadKeyPair, scope: Scope, key: Str) returns (r: Result<seq<byte>>)
      ensures r == ReadFrom(c, backend.entries, k, VerifyingKey(c, seed), scope, key)
    {
      var entry :- backend.GetByKey(scope, key);
      var envelope :- FromBytes(entry.data);
      r := Decrypt(c, envelope, k, VerifyingKey(c, seed));
    }

    /** The listing the backend happened to return is the second result. */
    method List(k: ReadKeyPair) returns (r: Result<seq<MemoryEntry>>, ghost es: seq<StorageEntry>)
      requires backend.Valid()
      ensures IsListing(backend.entries, k.scope, es)
      ensures r == ShowAll(c, [], es, k, VerifyingKey(c, seed))
    {
      var entries := backend.List(k.scope);
      es := entries;
      r := ShowEach(c, entries, k, VerifyingKey(c, seed));
    }

    method GrantAccess(scope: Scope) returns (r: Result<ExportedReadKey>)
      ensures r == match ScopeKey(c, seed, scope)
                   case Ok(k) => Ok(Export(k))
                   case Err(error) => Err(error)
    {
      var root := DeriveRootReadKey(c, seed);
      if scope == ROOT {
        return Ok(Export(root));
      }
      var scoped :- DeriveChild(c, root, scope);
      return Ok(Export(scoped));
    }
  }

  /** The agents' view: a verification key instead of the spend key, and no way to write. */
  class MemoryReader {
    const c: Crypto
    const spendVk: Bytes32
    const backend: MemoryStorage

    constructor (c: Crypto, spendVk: Bytes32, backend: MemoryStorage)
      ensures this.c == c && this.spendVk == spendVk && this.backend == backend
    {
      this.c, this.spendVk, this.backend := c, spendVk, backend;
    }

    method Read(k: ReadKeyPair, scope: Scope, key: Str) returns (r: Result<seq<byte>>)
      ensures r == ReadFrom(c, backend.entries, k, spendVk, scope, key)
    {
      var entry :- backend.GetByKey(scope, key);
      var envelope :- FromBytes(entry.data);
      r := Decrypt(c, envelope, k, spendVk);
    }

    method List(k: ReadKeyPair) returns (r: Result<seq<MemoryEntry>>, ghost es: seq<StorageEntry>)
      requires backend.Valid()
      ensures IsListing(backend.entries, k.scope, es)
      ensures r == ShowAll(c, [], es, k, spendVk)
    {
      var entries := backend.List(k.scope);
      es := entries;
      r := ShowEach(c, entries, k, spendVk);
    }
  }

  // ---- The abstract store

  /** What the store holds: the memory behind each composite key. */
  type Memories = map<Str, MemoryEntry>

  function Recorded(mem: Memories, scope: Scope, key: Str, content: seq<byte>): Memories {
    mem[CompositeKey(scope, key) := MemoryEntry(scope, key, content)]
  }

  /** What a key at the viewer's scope reads under a name: the memory behind its composite key. */
  function Recalled(mem: Memories, viewer: Scope, scope: Scope, key: Str): Result<seq<byte>> {
    var id := CompositeKey(scope, key);
    if id !in mem then Err(StorageError)
    else if IsAncestorOf(viewer, mem[id].scope) then Ok(mem[id].data)
    else Err(ScopeMismatch(viewer, mem[id].scope))
  }

  /** The stored bytes restore to an envelope sealed for the owner at the memory's scope. */
  ghost predicate Carries(c: Crypto, seed: Bytes32, entry: StorageEntry, memory: MemoryEntry) {
    && Parsed(entry.data).Ok?
    && Parsed(entry.data).value.scope == memory.scope
    && ScopeSealed(c, seed, Parsed(entry.data).value, memory.data)
  }

  /** The stored entries are named like the memories, one entry for each. */
  predicate SameNames(m: Entries, mem: Memories) {
    && WellKeyed(m) && m.Keys == mem.Keys
    && (forall id | id in m :: m[id].scope == mem[id].scope && m[id].key == mem[id].key)
  }

  ghost predicate Represents(c: Crypto, seed: Bytes32, m: Entries, mem: Memories) {
    SameNames(m, mem) && (forall id | id in m :: Carries(c, seed, m[id], mem[id]))
  }

  /** What the format can carry. */
  predicate Storable(scope: Scope, content: seq<byte>) {
    |scope| < 0x1_0000 && |content| < 0x1_0000_0000_0000_0000
  }

  /** A write never fails; the stored bytes restore the envelope exactly when scope and content fit. */
  lemma SealedBytesRestore(c: Crypto, seed: Bytes32, scope: Scope, content: seq<byte>, coins: Coins)
    ensures var sealed := Encrypted(c, EciesX25519ChaCha20, scope, [], Some(seed), true, content, coins);
            && sealed.Ok? && SealedBytes(c, seed, scope, content, coins) == Ok(Wire(sealed.value))
            && (Parsed(Wire(sealed.value)) == sealed <==> Storable(scope, content))
  {
    hide Encrypted, Wire, Parse, Fits, Parsed;
    EncryptedIsScopeSealed(c, EciesX25519ChaCha20, scope, [], seed, content, coins);
    ScopeEnvelopeFits(c, EciesX25519ChaCha20, scope, [], seed, content, coins);
    var e := Encrypted(c, EciesX25519ChaCha20, scope, [], Some(seed), true, content, coins).value;
    RoundTrip(e, []);
    assert Wire(e) + [] == Wire(e);
  }

  /**
    What happens to a memory whose scope's length is truncated to nothing: its bytes cannot be read,
    by any key, and not under any name.
   */
  lemma LongScopeUnreadable(c: Crypto, seed: Bytes32, scope: Scope, content: seq<byte>, coins: Coins)
    requires |scope| % 0x1_0000 == 0
    ensures SealedBytes(c, seed, scope, content, coins).Ok?
    ensures Parsed(SealedBytes(c, seed, scope, content, coins).value) == Err(InvalidScope)
  {
    hide Encrypted;
    SealedBytesRestore(c, seed, scope, content, coins);
    EncryptedIsScopeSealed(c, EciesX25519ChaCha20, scope, [], seed, content, coins);
    EmptiedScope(Encrypted(c, EciesX25519ChaCha20, scope, [], Some(seed), true, content, coins).value);
  }

  /** There is such a scope. */
  lemma LongScopeExists()
    ensures IsScope([SLASH] + seq(0xFFFF, _ => 0x61)) && |[SLASH] + seq(0xFFFF, _ => 0x61)| == 0x1_0000
  {
  }

  lemma SealedBytesCarry(c: Crypto, seed: Bytes32, scope: Scope, key: Str, content: seq<byte>, coins: Coins)
    ensures SealedBytes(c, seed, scope, content, coins).Ok?
    ensures Storable(scope, content) ==>
              Carries(c, seed, StorageEntry(CompositeKey(scope, key), scope, key,
                                            SealedBytes(c, seed, scope, content, coins).value),
                      MemoryEntry(scope, key, content))
  {
    hide Encrypted, Wire, Parsed, ScopeSealed, SealedBytes;
    SealedBytesRestore(c, seed, scope, content, coins);
    EncryptedIsScopeSealed(c, EciesX25519ChaCha20, scope, [], seed, content, coins);
  }

  /** A write never fails, and is an update at its composite key. */
  lemma WriteUpdates(c: Crypto, seed: Bytes32, m: Entries, mem: Memories, scope: Scope, key: Str, content: seq<byte>,
                     coins: Coins)
    requires Represents(c, seed, m, mem)
    ensures Written(c, seed, m, scope, key, content, coins).Ok?
    ensures Storable(scope, content) ==>
              Represents(c, seed, Written(c, seed, m, scope, key, content, coins).value,
                         Recorded(mem, scope, key, content))
  {
    hide Carries, SealedBytes, IsScope, CompositeKey;
    SealedBytesCarry(c, seed, scope, key, content, coins);
  }

  /** A read opens the memory behind the composite key for keys at or above its scope, and is refused otherwise. */
  lemma ReadSees(c: Crypto, seed: Bytes32, m: Entries, mem: Memories, k: ReadKeyPair, scope: Scope, key: Str)
    requires Represents(c, seed, m, mem) && Owned(c, seed, k)
    ensures ReadFrom(c, m, k, VerifyingKey(c, seed), scope, key) == Recalled(mem, k.scope, scope, key)
  {
    hide Decrypt, Parse, ScopeSealed;
    var id := CompositeKey(scope, key);
    if id in m {
      ScopeSealedOpens(c, seed, Parsed(m[id].data).value, mem[id].data, k);
    }
  }

  function IdOf(memory: MemoryEntry): Str {
    CompositeKey(memory.scope, memory.key)
  }

  /** Exactly the memories at or below the scope, each once. */
  predicate Exactly(ms: seq<MemoryEntry>, mem: Memories, scope: Scope) {
    && (forall i | 0 <= i < |ms| ::
          IdOf(ms[i]) in mem && mem[IdOf(ms[i])] == ms[i] && IsAncestorOf(scope, ms[i].scope))
    && (forall i, j | 0 <= i < j < |ms| :: IdOf(ms[i]) != IdOf(ms[j]))
    && (forall id | id in mem && IsAncestorOf(scope, mem[id].scope) :: mem[id] in ms)
  }

  /** Every entry of a listing is shown, as the memory it represents. */
  lemma {:induction false} AllShown(c: Crypto, seed: Bytes32, m: Entries, mem: Memories, k: ReadKeyPair,
                                    done: seq<MemoryEntry>, es: seq<StorageEntry>)
    requires Represents(c, seed, m, mem) && Owned(c, seed, k)
    requires forall i | 0 <= i < |es| :: es[i].id in m && m[es[i].id] == es[i] && ListedUnder(es[i].scope, k.scope)
    ensures ShowAll(c, done, es, k, VerifyingKey(c, seed)) == Ok(done + Seen(m, mem, es))
    decreases es
  {
    hide Shown, Carries, SameNames, ListedUnder;
    if es == [] {
      assert done + [] == done;
    } else {
      EntryShown(c, seed, m, mem, k, es[0]);
      AllShown(c, seed, m, mem, k, done + [mem[es[0].id]], es[1..]);
      SeenCons(m, mem, es, done);
    }
  }

  lemma SeenCons(m: Entries, mem: Memories, es: seq<StorageEntry>, done: seq<MemoryEntry>)
    requires SameNames(m, mem) && es != []
    requires forall i | 0 <= i < |es| :: es[i].id in m && m[es[i].id] == es[i]
    ensures done + Seen(m, mem, es) == done + [mem[es[0].id]] + Seen(m, mem, es[1..])
  {
  }

  lemma EntryShown(c: Crypto, seed: Bytes32, m: Entries, mem: Memories, k: ReadKeyPair, entry: StorageEntry)
    requires Represents(c, seed, m, mem) && Owned(c, seed, k)
    requires entry.id in m && m[entry.id] == entry && ListedUnder(entry.scope, k.scope)
    ensures entry.id in mem
    ensures Shown(c, entry, k, VerifyingKey(c, seed)) == Ok(Some(mem[entry.id]))
  {
    hide Decrypt, Parse, ScopeSealed;
    FilterIsAncestor(entry.scope, k.scope);
    ScopeSealedOpens(c, seed, Parsed(entry.data).value, mem[entry.id].data, k);
  }

  /** The memories behind stored entries. */
  function Seen(m: Entries, mem: Memories, es: seq<StorageEntry>): (ms: seq<MemoryEntry>)
    requires SameNames(m, mem)
    requires forall i | 0 <= i < |es| :: es[i].id in m && m[es[i].id] == es[i]
    ensures |ms| == |es|
    ensures forall i | 0 <= i < |es| ::
              es[i].id in mem && ms[i] == mem[es[i].id] && ms[i].scope == es[i].scope && IdOf(ms[i]) == es[i].id
  {
    seq(|es|, i requires 0 <= i < |es| => mem[es[i].id])
  }

  lemma SeenIsExact(m: Entries, mem: Memories, es: seq<StorageEntry>, prefix: Scope)
    requires SameNames(m, mem) && IsListing(m, prefix, es)
    ensures Exactly(Seen(m, mem, es), mem, prefix)
  {
    hide IsScope, IsAncestorOf;
    var ms := Seen(m, mem, es);
    forall i | 0 <= i < |ms|
      ensures IsAncestorOf(prefix, ms[i].scope)
    {
      FilterIsAncestor(es[i].scope, prefix);
    }
    forall id | id in mem && IsAncestorOf(prefix, mem[id].scope)
      ensures mem[id] in ms
    {
      FilterIsAncestor(mem[id].scope, prefix);
      var i :| 0 <= i < |es| && es[i] == m[id];
      assert ms[i] == mem[id];
    }
  }

  /** A list with any key of the owner shows exactly the memories at or below its scope. */
  lemma ListSeesExactly(c: Crypto, seed: Bytes32, m: Entries, mem: Memories, k: ReadKeyPair, es: seq<StorageEntry>)
    requires Represents(c, seed, m, mem) && Owned(c, seed, k) && IsListing(m, k.scope, es)
    ensures ShowAll(c, [], es, k, VerifyingKey(c, seed)).Ok?
    ensures Exactly(ShowAll(c, [], es, k, VerifyingKey(c, seed)).value, mem, k.scope)
  {
    hide ShowAll, Carries, Exactly;
    AllShown(c, seed, m, mem, k, [], es);
    SeenIsExact(m, mem, es, k.scope);
    assert [] + Seen(m, mem, es) == Seen(m, mem, es);
  }

  /**
    One such memory at or below the key's scope ends every list with an error, whatever else the
    store holds; its own read gives the same error.
   */
  lemma LongScopeEndsList(c: Crypto, seed: Bytes32, m: Entries, mem: Memories, k: ReadKeyPair, scope: Scope, key: Str,
                          content: seq<byte>, coins: Coins, es: seq<StorageEntry>)
    requires Represents(c, seed, m, mem) && Owned(c, seed, k)
    requires |scope| % 0x1_0000 == 0
    ensures Written(c, seed, m, scope, key, content, coins).Ok?
    ensures var n := Written(c, seed, m, scope, key, content, coins).value;
            && ReadFrom(c, n, k, VerifyingKey(c, seed), scope, key) == Err(InvalidScope)
            && (IsAncestorOf(k.scope, scope) && IsListing(n, k.scope, es) ==>
                  ShowAll(c, [], es, k, VerifyingKey(c, seed)) == Err(InvalidScope))
  {
    hide ShowAll, Decrypt, Parsed, SealedBytes, Represents, IsScope, IsAncestorOf;
    LongScopeUnreadable(c, seed, scope, content, coins);
    var n := Written(c, seed, m, scope, key, content, coins).value;
    var bad := n[CompositeKey(scope, key)];
    if IsAncestorOf(k.scope, scope) && IsListing(n, k.scope, es) {
      FilterIsAncestor(scope, k.scope);
      assert bad in es;
      BadEntryEnds(c, seed, m, mem, k, [], es, bad);
    }
  }

  lemma {:induction false} BadEntryEnds(c: Crypto, seed: Bytes32, m: Entries, mem: Memories, k: ReadKeyPair,
                                        done: seq<MemoryEntry>, es: seq<StorageEntry>, bad: StorageEntry)
    requires Represents(c, seed, m, mem) && Owned(c, seed, k)
    requires Parsed(bad.data) == Err(InvalidScope) && bad in es
    requires forall i | 0 <= i < |es| ::
               es[i] == bad || (es[i].id in m && m[es[i].id] == es[i] && ListedUnder(es[i].scope, k.scope))
    ensures ShowAll(c, done, es, k, VerifyingKey(c, seed)) == Err(InvalidScope)
    decreases es
  {
    hide Represents, Decrypt, Parsed, ListedUnder;
    if es[0] != bad {
      EntryShown(c, seed, m, mem, k, es[0]);
      BadEntryEnds(c, seed, m, mem, k, done + [mem[es[0].id]], es[1..], bad);
    }
  }

  // ---- Runs

  /** A write or an accepted proposal, with the randomness it draws. */
  datatype Op = Op(scope: Scope, key: Str, content: seq<byte>, coins: Coins)

  function RunOps(c: Crypto, seed: Bytes32, m: Entries, ops: seq<Op>): Result<Entries>
    decreases |ops|
  {
    if ops == [] then Ok(m)
    else
      match Written(c, seed, m, ops[0].scope, ops[0].key, ops[0].content, ops[0].coins)
      case Ok(next) => RunOps(c, seed, next, ops[1..])
      case Err(error) => Err(error)
  }

  /** The last memory written under each composite key. */
  function LastMemories(mem: Memories, ops: seq<Op>): Memories
    decreases |ops|
  {
    if ops == [] then mem else LastMemories(Recorded(mem, ops[0].scope, ops[0].key, ops[0].content), ops[1..])
  }

  lemma {:induction false} RunUpdates(c: Crypto, seed: Bytes32, m: Entries, mem: Memories, ops: seq<Op>)
    requires Represents(c, seed, m, mem)
    requires forall i | 0 <= i < |ops| :: Storable(ops[i].scope, ops[i].content)
    ensures RunOps(c, seed, m, ops).Ok?
    ensures Represents(c, seed, RunOps(c, seed, m, ops).value, LastMemories(mem, ops))
    decreases |ops|
  {
    hide Represents, Written, Recorded;
    if ops != [] {
      WriteUpdates(c, seed, m, mem, ops[0].scope, ops[0].key, ops[0].content, ops[0].coins);
      RunUpdates(c, seed, Written(c, seed, m, ops[0].scope, ops[0].key, ops[0].content, ops[0].coins).value,
                 Recorded(mem, ops[0].scope, ops[0].key, ops[0].content), ops[1..]);
    }
  }

  /**
    After any run of writes and accepted proposals on an empty store, whatever the keys, and for a
    key delegated along any chain: `list` shows exactly the last memory under each composite key at
    or below the key's scope, and `read` gives the memory under the name's composite key, an
    unknown-entry error, or a scope mismatch.
   */
  lemma StoreKeepsLastWrites(c: Crypto, seed: Bytes32, ops: seq<Op>, steps: seq<Step>, es: seq<StorageEntry>,
                             scope: Scope, key: Str)
    requires forall i | 0 <= i < |ops| :: Storable(ops[i].scope, ops[i].content)
    ensures RunOps(c, seed, map[], ops).Ok?
    ensures var m, mem := RunOps(c, seed, map[], ops).value, LastMemories(map[], ops);
            Run(c, DeriveRootReadKey(c, seed), steps).Ok? ==>
              var k := Run(c, DeriveRootReadKey(c, seed), steps).value;
              && (IsListing(m, k.scope, es) ==>
                    && ShowAll(c, [], es, k, VerifyingKey(c, seed)).Ok?
                    && Exactly(ShowAll(c, [], es, k, VerifyingKey(c, seed)).value, mem, k.scope))
              && ReadFrom(c, m, k, VerifyingKey(c, seed), scope, key) == Recalled(mem, k.scope, scope, key)
  {
    hide ShowAll, ReadFrom, Exactly, IsListing, RunOps, LastMemories, Run, Recalled;
    assert Represents(c, seed, map[], map[]);
    RunUpdates(c, seed, map[], map[], ops);
    RootIsOwned(c, seed);
    DelegatedKeysAreOwned(c, seed, DeriveRootReadKey(c, seed), steps);
    var m, mem := RunOps(c, seed, map[], ops).value, LastMemories(map[], ops);
    if Run(c, DeriveRootReadKey(c, seed), steps).Ok? {
      var k := Run(c, DeriveRootReadKey(c, seed), steps).value;
      if IsListing(m, k.scope, es) {
        ListSeesExactly(c, seed, m, mem, k, es);
      }
      ReadSees(c, seed, m, mem, k, scope, key);
    }
  }

  // ---- The store as a map from scope and key

  /** Contents by scope and key, as a caller thinks of them. */
  type Contents = map<(Scope, Str), seq<byte>>

  /** The last content written under each scope and key. */
  function LastContents(contents: Contents, ops: seq<Op>): Contents
    decreases |ops|
  {
    if ops == [] then contents
    else LastContents(contents[(ops[0].scope, ops[0].key) := ops[0].content], ops[1..])
  }

  /** A memory is the last content of its name, and every name has a memory under its composite key. */
  predicate Tracks(mem: Memories, contents: Contents) {
    && (forall id | id in mem ::
          && id == IdOf(mem[id]) && (mem[id].scope, mem[id].key) in contents
          && contents[(mem[id].scope, mem[id].key)] == mem[id].data)
    && (forall n | n in contents :: CompositeKey(n.0, n.1) in mem)
  }

  lemma {:induction false} RunTracks(mem: Memories, contents: Contents, ops: seq<Op>)
    requires Tracks(mem, contents)
    ensures Tracks(LastMemories(mem, ops), LastContents(contents, ops))
    decreases |ops|
  {
    if ops != [] {
      var scope, key, content := ops[0].scope, ops[0].key, ops[0].content;
      assert Tracks(Recorded(mem, scope, key, content), contents[(scope, key) := content]);
      RunTracks(Recorded(mem, scope, key, content), contents[(scope, key) := content], ops[1..]);
    }
  }

  /** Below the scope, no name has lost its memory to another name with the same composite key. */
  predicate NoneLost(mem: Memories, contents: Contents, scope: Scope)
    requires Tracks(mem, contents)
  {
    forall n | n in contents && IsAncestorOf(scope, n.0) ::
      mem[CompositeKey(n.0, n.1)] == MemoryEntry(n.0, n.1, contents[n])
  }

  /** Seen from root, nothing is lost exactly when no two written names share a composite key. */
  lemma NoneLostExactly(mem: Memories, contents: Contents)
    requires Tracks(mem, contents)
    ensures NoneLost(mem, contents, ROOT) <==> Unambiguous(contents.Keys)
    ensures forall scope: Scope :: NoneLost(mem, contents, ROOT) ==> NoneLost(mem, contents, scope)
  {
    hide IsScope;
    if Unambiguous(contents.Keys) {
      forall n | n in contents
        ensures mem[CompositeKey(n.0, n.1)] == MemoryEntry(n.0, n.1, contents[n])
      {
        var memory := mem[CompositeKey(n.0, n.1)];
        assert (memory.scope, memory.key) == n;
      }
    }
  }

  /** Exactly the names at or below the scope, each once, with their last contents. */
  predicate ExactlyNamed(ms: seq<MemoryEntry>, contents: Contents, scope: Scope) {
    && (forall i | 0 <= i < |ms| ::
          && (ms[i].scope, ms[i].key) in contents && contents[(ms[i].scope, ms[i].key)] == ms[i].data
          && IsAncestorOf(scope, ms[i].scope))
    && (forall i, j | 0 <= i < j < |ms| :: (ms[i].scope, ms[i].key) != (ms[j].scope, ms[j].key))
    && (forall n | n in contents && IsAncestorOf(scope, n.0) :: MemoryEntry(n.0, n.1, contents[n]) in ms)
  }

  lemma NamedExactly(ms: seq<MemoryEntry>, mem: Memories, contents: Contents, scope: Scope)
    requires Exactly(ms, mem, scope) && Tracks(mem, contents)
    ensures ExactlyNamed(ms, contents, scope) <==> NoneLost(mem, contents, scope)
  {
    hide IsScope, IsAncestorOf, CompositeKey;
    if ExactlyNamed(ms, contents, scope) {
      forall n | n in contents && IsAncestorOf(scope, n.0)
        ensures mem[CompositeKey(n.0, n.1)] == MemoryEntry(n.0, n.1, contents[n])
      {
        var i :| 0 <= i < |ms| && ms[i] == MemoryEntry(n.0, n.1, contents[n]);
        assert mem[IdOf(ms[i])] == ms[i];
      }
    }
  }

  /** What a read by name should give. */
  function Named(contents: Contents, viewer: Scope, scope: Scope, key: Str): Result<seq<byte>> {
    if (scope, key) !in contents then Err(StorageError)
    else if IsAncestorOf(viewer, scope) then Ok(contents[(scope, key)])
    else Err(ScopeMismatch(viewer, scope))
  }

  /**
    A read agrees with the map: nothing is stored under its composite key, or its own memory is, or
    it may see its last content, which the memory of a namesake happens to have too.
   */
  predicate ReadsItsOwn(mem: Memories, contents: Contents, viewer: Scope, scope: Scope, key: Str) {
    var id := CompositeKey(scope, key);
    || id !in mem
    || (mem[id].scope, mem[id].key) == (scope, key)
    || ((scope, key) in contents && mem[id].data == contents[(scope, key)]
        && IsAncestorOf(viewer, scope) && IsAncestorOf(viewer, mem[id].scope))
  }

  /** No other name that was written shares the composite key. */
  predicate NoNamesake(contents: Contents, scope: Scope, key: Str) {
    forall n | n in contents && CompositeKey(n.0, n.1) == CompositeKey(scope, key) :: n == (scope, key)
  }

  lemma NamedReadExactly(mem: Memories, contents: Contents, viewer: Scope, scope: Scope, key: Str)
    requires Tracks(mem, contents)
    ensures Recalled(mem, viewer, scope, key) == Named(contents, viewer, scope, key)
            <==> ReadsItsOwn(mem, contents, viewer, scope, key)
    ensures NoNamesake(contents, scope, key) ==> ReadsItsOwn(mem, contents, viewer, scope, key)
  {
    hide IsAncestorOf, IsScope, CompositeKey;
    var id := CompositeKey(scope, key);
    if id in mem {
      CompositeAt(scope, key);
      CompositeAt(mem[id].scope, mem[id].key);
      assert mem[id].scope == scope ==> mem[id].key == key;
    }
  }

  /**
    The store as a map from scope and key, for any run and any delegated key. A list agrees with
    the last contents exactly when nothing under the key's scope was lost to a shared composite key.
    A read agrees exactly when it reads its own memory, as it does if no other written name shares
    its composite key.
   */
  lemma StoreIsAMap(c: Crypto, seed: Bytes32, ops: seq<Op>, steps: seq<Step>, es: seq<StorageEntry>,
                    scope: Scope, key: Str)
    requires forall i | 0 <= i < |ops| :: Storable(ops[i].scope, ops[i].content)
    ensures RunOps(c, seed, map[], ops).Ok?
    ensures Tracks(LastMemories(map[], ops), LastContents(map[], ops))
    ensures var m, mem := RunOps(c, seed, map[], ops).value, LastMemories(map[], ops);
            var contents := LastContents(map[], ops);
            Run(c, DeriveRootReadKey(c, seed), steps).Ok? ==>
              var k := Run(c, DeriveRootReadKey(c, seed), steps).value;
              && (IsListing(m, k.scope, es) ==>
                    && ShowAll(c, [], es, k, VerifyingKey(c, seed)).Ok?
                    && (ExactlyNamed(ShowAll(c, [], es, k, VerifyingKey(c, seed)).value, contents, k.scope)
                        <==> NoneLost(mem, contents, k.scope)))
              && (Unambiguous(contents.Keys) ==> NoneLost(mem, contents, k.scope))
              && (ReadFrom(c, m, k, VerifyingKey(c, seed), scope, key) == Named(contents, k.scope, scope, key)
                  <==> ReadsItsOwn(mem, contents, k.scope, scope, key))
              && (NoNamesake(contents, scope, key) ==> ReadsItsOwn(mem, contents, k.scope, scope, key))
  {
    hide ShowAll, ReadFrom, Exactly, ExactlyNamed, IsListing, RunOps, LastMemories, LastContents, Run, NoneLost;
    hide ReadsItsOwn, NoNamesake, Recalled, Named;
    StoreKeepsLastWrites(c, seed, ops, steps, es, scope, key);
    RunTracks(map[], map[], ops);
    var m, mem, contents := RunOps(c, seed, map[], ops).value, LastMemories(map[], ops), LastContents(map[], ops);
    if Run(c, DeriveRootReadKey(c, seed), steps).Ok? {
      var k := Run(c, DeriveRootReadKey(c, seed), steps).value;
      if IsListing(m, k.scope, es) {
        NamedExactly(ShowAll(c, [], es, k, VerifyingKey(c, seed)).value, mem, contents, k.scope);
      }
      NoneLostExactly(mem, contents);
      NamedReadExactly(mem, contents, k.scope, scope, key);
    }
  }

  /**
    The whole interface at once, for a key at root: nothing is lost and a read under any name agrees,
    exactly when no name written has a namesake, written or not. `AliasedExactly` says which have.
   */
  lemma MapForEveryName(mem: Memories, contents: Contents)
    requires Tracks(mem, contents)
    ensures NoneLost(mem, contents, ROOT)
            && (forall scope: Scope, key: Str :: Recalled(mem, ROOT, scope, key) == Named(contents, ROOT, scope, key))
            <==> forall n | n in contents :: !Aliased(n.0, n.1)
  {
    hide CompositeKey, NoneLost, Recalled, Named;
    NoneLostExactly(mem, contents);
    if forall n | n in contents :: !Aliased(n.0, n.1) {
      forall scope: Scope, key: Str
        ensures Recalled(mem, ROOT, scope, key) == Named(contents, ROOT, scope, key)
      {
        NamedReadExactly(mem, contents, ROOT, scope, key);
      }
    }
    if && NoneLost(mem, contents, ROOT)
       && forall scope: Scope, key: Str :: Recalled(mem, ROOT, scope, key) == Named(contents, ROOT, scope, key) {
      forall n | n in contents
        ensures !Aliased(n.0, n.1)
      {
        if Aliased(n.0, n.1) {
          var s: Scope, k: Str :| (s, k) != (n.0, n.1) && CompositeKey(s, k) == CompositeKey(n.0, n.1);
          PhantomOf(mem, contents, n, s, k);
        }
      }
    }
  }

  /** An unwritten namesake of a written name reads that name's memory. */
  lemma PhantomOf(mem: Memories, contents: Contents, n: (Scope, Str), scope: Scope, key: Str)
    requires Tracks(mem, contents) && Unambiguous(contents.Keys) && n in contents
    requires (scope, key) != n && CompositeKey(scope, key) == CompositeKey(n.0, n.1)
    ensures Recalled(mem, ROOT, scope, key) != Named(contents, ROOT, scope, key)
  {
    hide IsScope, CompositeKey;
  }

  /** With slash-free keys, no name is ever lost: the store is the map of last contents. */
  lemma SlashFreeStoreIsAMap(c: Crypto, seed: Bytes32, ops: seq<Op>, steps: seq<Step>, es: seq<StorageEntry>,
                             scope: Scope, key: Str)
    requires forall i | 0 <= i < |ops| :: Storable(ops[i].scope, ops[i].content) && SLASH !in ops[i].key
    requires SLASH !in key
    ensures RunOps(c, seed, map[], ops).Ok?
    ensures var m, contents := RunOps(c, seed, map[], ops).value, LastContents(map[], ops);
            Run(c, DeriveRootReadKey(c, seed), steps).Ok? ==>
              var k := Run(c, DeriveRootReadKey(c, seed), steps).value;
              && (IsListing(m, k.scope, es) ==>
                    && ShowAll(c, [], es, k, VerifyingKey(c, seed)).Ok?
                    && ExactlyNamed(ShowAll(c, [], es, k, VerifyingKey(c, seed)).value, contents, k.scope))
              && ReadFrom(c, m, k, VerifyingKey(c, seed), scope, key) == Named(contents, k.scope, scope, key)
  {
    hide ShowAll, ReadFrom, ExactlyNamed, IsListing, RunOps, LastMemories, LastContents, Run, NoneLost, Named;
    hide ReadsItsOwn, NoNamesake;
    StoreIsAMap(c, seed, ops, steps, es, scope, key);
    WrittenNames(map[], ops);
    var contents := LastContents(map[], ops);
    SlashFreeUnambiguous(contents.Keys + {(scope, key)});
    assert Unambiguous(contents.Keys) && NoNamesake(contents, scope, key) by {
      FewerNames(contents, scope, key);
    }
  }

  lemma FewerNames(contents: Contents, scope: Scope, key: Str)
    requires Unambiguous(contents.Keys + {(scope, key)})
    ensures Unambiguous(contents.Keys) && NoNamesake(contents, scope, key)
  {
    hide IsScope, CompositeKey;
  }

  lemma {:induction false} WrittenNames(contents: Contents, ops: seq<Op>)
    ensures forall n :: n in LastContents(contents, ops) <==>
              n in contents || exists i :: 0 <= i < |ops| && n == (ops[i].scope, ops[i].key)
    decreases |ops|
  {
    if ops != [] {
      var next := contents[(ops[0].scope, ops[0].key) := ops[0].content];
      WrittenNames(next, ops[1..]);
      forall n
        ensures n in LastContents(contents, ops) <==>
                  n in contents || exists i :: 0 <= i < |ops| && n == (ops[i].scope, ops[i].key)
      {
        if exists i :: 0 <= i < |ops[1..]| && n == (ops[1..][i].scope, ops[1..][i].key) {
          var i :| 0 <= i < |ops[1..]| && n == (ops[1..][i].scope, ops[1..][i].key);
          assert n == (ops[i + 1].scope, ops[i + 1].key);
        }
        if exists i :: 0 < i < |ops| && n == (ops[i].scope, ops[i].key) {
          var i :| 0 < i < |ops| && n == (ops[i].scope, ops[i].key);
          assert n == (ops[1..][i - 1].scope, ops[1..][i - 1].key);
        }
      }
    }
  }

  /**
    How the map is lost: after writing x at `b/c` under `/a` and then y at `c` under `/a/b`, the
    owner's root key reads y at the first name, and a list shows the second memory only.
   */
  lemma SlashedKeyLosesItsMemory(c: Crypto, seed: Bytes32, x: seq<byte>, y: seq<byte>, first: Coins, second: Coins,
                                 es: seq<StorageEntry>)
    requires |x| < 0x1_0000_0000_0000_0000 && |y| < 0x1_0000_0000_0000_0000
    ensures var ops := [Op(OUTER, OUTER_KEY, x, first), Op(INNER, INNER_KEY, y, second)];
            var k, vk := DeriveRootReadKey(c, seed), VerifyingKey(c, seed);
            && RunOps(c, seed, map[], ops).Ok?
            && var m := RunOps(c, seed, map[], ops).value;
            && ReadFrom(c, m, k, vk, OUTER, OUTER_KEY) == Ok(y)
            && (IsListing(m, ROOT, es) ==>
                  ShowAll(c, [], es, k, vk) == Ok([MemoryEntry(INNER, INNER_KEY, y)]))
  {
    hide ShowAll, ReadFrom, IsListing, RunOps, CompositeKey;
    SharedNames();
    var ops := [Op(OUTER, OUTER_KEY, x, first), Op(INNER, INNER_KEY, y, second)];
    var mem: Memories := map[CompositeKey(INNER, INNER_KEY) := MemoryEntry(INNER, INNER_KEY, y)];
    LastOfTwo(ops);
    assert Run(c, DeriveRootReadKey(c, seed), []) == Ok(DeriveRootReadKey(c, seed));
    StoreKeepsLastWrites(c, seed, ops, [], es, OUTER, OUTER_KEY);
    var m := RunOps(c, seed, map[], ops).value;
    if IsListing(m, ROOT, es) {
      OnlyOne(ShowAll(c, [], es, DeriveRootReadKey(c, seed), VerifyingKey(c, seed)).value, mem,
              CompositeKey(INNER, INNER_KEY));
    }
  }

  /**
    A memory nobody wrote: after a single write at `c` under `/a/b`, with no two names to collide and
    nothing lost, the owner's root key reads that content at `b/c` under `/a`.
   */
  lemma PhantomRead(c: Crypto, seed: Bytes32, y: seq<byte>, coins: Coins)
    requires |y| < 0x1_0000_0000_0000_0000
    ensures var ops := [Op(INNER, INNER_KEY, y, coins)];
            var k, vk := DeriveRootReadKey(c, seed), VerifyingKey(c, seed);
            && RunOps(c, seed, map[], ops).Ok?
            && LastContents(map[], ops) == map[(INNER, INNER_KEY) := y]
            && Unambiguous(LastContents(map[], ops).Keys)
            && ReadFrom(c, RunOps(c, seed, map[], ops).value, k, vk, OUTER, OUTER_KEY) == Ok(y)
  {
    hide ReadFrom, RunOps, CompositeKey;
    SharedNames();
    var ops := [Op(INNER, INNER_KEY, y, coins)];
    assert Run(c, DeriveRootReadKey(c, seed), []) == Ok(DeriveRootReadKey(c, seed));
    StoreKeepsLastWrites(c, seed, ops, [], [], OUTER, OUTER_KEY);
    assert ops[1..] == [];
    assert LastMemories(map[], ops) == Recorded(map[], INNER, INNER_KEY, y);
    assert LastContents(map[], ops) == map[(INNER, INNER_KEY) := y];
  }

  lemma LastOfTwo(ops: seq<Op>)
    requires |ops| == 2 && CompositeKey(ops[0].scope, ops[0].key) == CompositeKey(ops[1].scope, ops[1].key)
    ensures LastMemories(map[], ops)
         == map[CompositeKey(ops[1].scope, ops[1].key) := MemoryEntry(ops[1].scope, ops[1].key, ops[1].content)]
  {
    hide CompositeKey;
    var one := Recorded(map[], ops[0].scope, ops[0].key, ops[0].content);
    var two := Recorded(one, ops[1].scope, ops[1].key, ops[1].content);
    assert LastMemories(map[], ops) == LastMemories(one, ops[1..]) == LastMemories(two, ops[1..][1..]) == two;
  }

  lemma FirstTwoDiffer(ms: seq<MemoryEntry>, mem: Memories)
    requires Exactly(ms, mem, ROOT)
    ensures |ms| > 1 ==> IdOf(ms[0]) != IdOf(ms[1])
  {
  }

  lemma OnlyOne(ms: seq<MemoryEntry>, mem: Memories, id: Str)
    requires Exactly(ms, mem, ROOT) && mem.Keys == {id}
    ensures ms == [mem[id]]
  {
    assert mem[id] in ms;
    FirstTwoDiffer(ms, mem);
  }

  /** A granted key imports as the owner's key for exactly the granted scope. */
  lemma GrantIsOwned(c: Crypto, seed: Bytes32, scope: Scope)
    ensures ScopeKey(c, seed, scope).Ok?
    ensures Import(c, Export(ScopeKey(c, seed, scope).value)) == ScopeKey(c, seed, scope)
    ensures Owned(c, seed, ScopeKey(c, seed, scope).value) && ScopeKey(c, seed, scope).value.scope == scope
  {
  }
}
