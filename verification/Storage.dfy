/** The in-memory storage backend: entries in a map under their composite keys. */
module Storage {
  import opened Basics
  import opened Scopes
  import opened Names

  /** A stored item; its id is its composite key. */
  datatype StorageEntry = StorageEntry(id: Str, scope: Str, key: Str, data: seq<byte>)

  type Entries = map<Str, StorageEntry>

  function PutEntry(m: Entries, scope: Str, key: Str, data: seq<byte>): Entries {
    m[CompositeKey(scope, key) := StorageEntry(CompositeKey(scope, key), scope, key, data)]
  }

  function GetEntry(m: Entries, id: Str): Result<StorageEntry> {
    if id in m then Ok(m[id]) else Err(StorageError)
  }

  predicate WellKeyed(m: Entries) {
    forall id | id in m :: m[id].id == id && id == CompositeKey(m[id].scope, m[id].key)
  }

  /** The entries under a prefix, each once, in any order: a hash map's iteration order is not fixed. */
  predicate IsListing(m: Entries, prefix: Str, es: seq<StorageEntry>) {
    && (forall i | 0 <= i < |es| :: es[i].id in m && m[es[i].id] == es[i] && ListedUnder(es[i].scope, prefix))
    && (forall i, j | 0 <= i < j < |es| :: es[i].id != es[j].id)
    && (forall id | id in m && ListedUnder(m[id].scope, prefix) :: m[id] in es)
  }

  class MemoryStorage {
    var entries: Entries

    constructor ()
      ensures entries == map[]
      ensures Valid()
    {
      entries := map[];
    }

    ghost predicate Valid()
      reads this
    {
      WellKeyed(entries)
    }

    method Put(scope: Str, key: Str, data: seq<byte>) returns (id: Str)
      requires Valid()
      modifies this
      ensures Valid()
      ensures entries == PutEntry(old(entries), scope, key, data)
      ensures id == CompositeKey(scope, key)
    {
      id := CompositeKey(scope, key);
      entries := entries[id := StorageEntry(id, scope, key, data)];
    }

    method Get(id: Str) returns (r: Result<StorageEntry>)
      ensures r == GetEntry(entries, id)
    {
      if id in entries {
        return Ok(entries[id]);
      }
      return Err(StorageError);
    }

    method GetByKey(scope: Str, key: Str) returns (r: Result<StorageEntry>)
      ensures r == GetEntry(entries, CompositeKey(scope, key))
    {
      r := Get(CompositeKey(scope, key));
    }

    method List(prefix: Str) returns (es: seq<StorageEntry>)
      requires Valid()
      ensures IsListing(entries, prefix, es)
    {
      es := [];
      var remaining := entries.Keys;
      while remaining != {}
        invariant remaining <= entries.Keys
        invariant forall i | 0 <= i < |es| ::
                    && es[i].id in entries && es[i].id !in remaining
                    && entries[es[i].id] == es[i] && ListedUnder(es[i].scope, prefix)
        invariant forall i, j | 0 <= i < j < |es| :: es[i].id != es[j].id
        invariant forall id | id in entries && id !in remaining && ListedUnder(entries[id].scope, prefix) ::
                    entries[id] in es
        decreases remaining
      {
        var id :| id in remaining;
        remaining := remaining - {id};
        if ListedUnder(entries[id].scope, prefix) {
          es := es + [entries[id]];
        }
      }
    }

    method Delete(id: Str) returns (r: Result<()>)
      requires Valid()
      modifies this
      ensures Valid()
      ensures r == if id in old(entries) then Ok(()) else Err(StorageError)
      ensures entries == old(entries) - {id}
    {
      if id in entries {
        entries := entries - {id};
        return Ok(());
      }
      return Err(StorageError);
    }
  }
}
