/** The client-side part of the Fileverse backend's `list`: documents recovered from their titles. */
module Fileverse {
  import opened Basics
  import opened Scopes
  import opened Names
  import opened Storage

  /** A document of the service; `content` is its decoded body, if it decodes. */
  datatype Doc = Doc(ddocId: Str, title: Str, content: Option<seq<byte>>)

  /** The entry of a document, or an error for an undecodable body. */
  function DocToEntry(doc: Doc): Result<StorageEntry> {
    match doc.content
    case None => Err(StorageError)
    case Some(data) =>
      match ParseTitle(doc.title)
      case Some((scope, key)) => Ok(StorageEntry(doc.ddocId, scope, key, data))
      case None => Ok(StorageEntry(doc.ddocId, Ascii("unknown"), doc.ddocId, data))
  }

  function Kept(doc: Doc, prefix: Str): Option<StorageEntry> {
    match ParseTitle(doc.title)
    case None => None
    case Some((scope, _)) =>
      if !ListedUnder(scope, prefix) then None
      else
        match DocToEntry(doc)
        case Ok(entry) => Some(entry)
        case Err(_) => None
  }

  function KeptAll(done: seq<StorageEntry>, docs: seq<Doc>, prefix: Str): seq<StorageEntry>
    decreases docs
  {
    if docs == [] then done
    else
      match Kept(docs[0], prefix)
      case Some(entry) => KeptAll(done + [entry], docs[1..], prefix)
      case None => KeptAll(done, docs[1..], prefix)
  }

  /** The filter loop of `list` and of its fallback. */
  method FilterDocs(docs: seq<Doc>, prefix: Str) returns (entries: seq<StorageEntry>)
    ensures entries == KeptAll([], docs, prefix)
  {
    entries := [];
    assert docs[0..] == docs;
    for i := 0 to |docs|
      invariant KeptAll([], docs, prefix) == KeptAll(entries, docs[i..], prefix)
    {
      assert docs[i..][0] == docs[i] && docs[i..][1..] == docs[i + 1..];
      match ParseTitle(docs[i].title)
      case None =>
      case Some((scope, _)) =>
        if ListedUnder(scope, prefix) {
          var entry := DocToEntry(docs[i]);
          if entry.Ok? {
            entries := entries + [entry.value];
          }
        }
    }
  }

  /** A document is kept exactly when its title parses, its body decodes and its scope is under the prefix. */
  lemma KeptExactly(doc: Doc, prefix: Str, entry: StorageEntry)
    ensures Kept(doc, prefix) == Some(entry) <==>
              && ParseTitle(doc.title) == Some((entry.scope, entry.key))
              && doc.content == Some(entry.data) && doc.ddocId == entry.id
              && (prefix == ROOT || entry.scope == prefix || prefix + [SLASH] <= entry.scope)
  {
    hide ParseTitle;
  }

  /** A document whose title does not parse becomes an entry under its own id, at a scope that is none. */
  lemma UntitledHasNoScope(doc: Doc)
    requires ParseTitle(doc.title).None? && doc.content.Some?
    ensures DocToEntry(doc).Ok? && !IsScope(DocToEntry(doc).value.scope)
    ensures DocToEntry(doc).value.key == DocToEntry(doc).value.id == doc.ddocId
    ensures DocToEntry(doc).value.data == doc.content.value
  {
    assert Ascii("unknown")[0] == 0x75;
  }

  /** What `put` stores for an item: a titled document. */
  predicate StoredAs(doc: Doc, item: StorageEntry) {
    && doc.ddocId == item.id && doc.content == Some(item.data)
    && IsScope(item.scope) && doc.title == Title(item.scope, item.key)
  }

  /** The items at or below a scope, in order. */
  function Under(items: seq<StorageEntry>, prefix: Scope): seq<StorageEntry>
    requires forall i | 0 <= i < |items| :: IsScope(items[i].scope)
  {
    if items == [] then []
    else (if IsAncestorOf(prefix, items[0].scope) then [items[0]] else []) + Under(items[1..], prefix)
  }

  /** A key that a title carries. */
  predicate TitledKey(key: Str) {
    key != [] && COLON !in key
  }

  /**
    One stored document in the filter. A titled key comes back whole, exactly at or below the
    prefix; any other item is dropped, or comes back below the prefix under a wrong name.
   */
  lemma KeptItem(doc: Doc, item: StorageEntry, prefix: Scope)
    requires StoredAs(doc, item)
    ensures Kept(doc, prefix).Some? ==> IsAncestorOf(prefix, item.scope)
    ensures IsAncestorOf(prefix, item.scope) ==> (Kept(doc, prefix) == Some(item) <==> TitledKey(item.key))
  {
    hide Title, ParseTitle, IsAncestorOf;
    TitleParsed(item.scope, item.key);
    TitleRoundTrip(item.scope, item.key);
    FilterIsAncestor(item.scope, prefix);
    if ParseTitle(doc.title).Some? {
      var (scope, key) := ParseTitle(doc.title).value;
      ExtendedScopeListed(item.scope, scope, prefix);
    }
  }

  /** A scope with a colon behind it is listed at most where the scope is. */
  lemma ExtendedScopeListed(scope: Scope, extended: Str, prefix: Scope)
    requires scope == extended || scope + [COLON] <= extended
    ensures ListedUnder(extended, prefix) ==> ListedUnder(scope, prefix)
  {
    if scope != extended {
      NoColon(prefix);
      assert extended[|scope|] == COLON;
      if prefix + [SLASH] <= extended {
        EndsBefore(prefix + [SLASH], extended, |scope|);
        assert extended[..|prefix| + 1] == prefix + [SLASH];
        assert scope[..|prefix| + 1] == extended[..|prefix| + 1];
      } else {
        ColonAtEnd(scope, extended, prefix);
      }
    }
  }

  lemma NoColon(scope: Scope)
    ensures COLON !in scope + [SLASH]
  {
    assert !IsSegmentChar(COLON);
  }

  /** A prefix without colon ends before a colon. */
  lemma EndsBefore(q: Str, s: Str, pos: nat)
    requires q <= s && COLON !in q && pos < |s| && s[pos] == COLON
    ensures |q| <= pos
  {
  }

  lemma ColonAtEnd(scope: Scope, extended: Str, prefix: Scope)
    requires scope + [COLON] <= extended
    ensures extended != prefix
  {
    NoColon(prefix);
    assert extended[|scope|] == COLON;
  }

  /**
    Over stored documents the filter returns exactly the items at or below the scope, whole and in
    order, if and only if each of those has a non-empty key without a colon.
   */
  lemma {:induction false} FilterFindsItems(docs: seq<Doc>, items: seq<StorageEntry>, prefix: Scope,
                                            done: seq<StorageEntry>)
    requires |docs| == |items|
    requires forall i | 0 <= i < |items| :: IsScope(items[i].scope) && StoredAs(docs[i], items[i])
    ensures |KeptAll(done, docs, prefix)| <= |done| + |Under(items, prefix)|
    ensures done <= KeptAll(done, docs, prefix)
    ensures KeptAll(done, docs, prefix) == done + Under(items, prefix) <==>
              forall i | 0 <= i < |items| && IsAncestorOf(prefix, items[i].scope) :: TitledKey(items[i].key)
    decreases docs
  {
    hide Kept, StoredAs, IsAncestorOf, TitledKey, IsScope;
    if docs != [] {
      KeptItem(docs[0], items[0], prefix);
      var later := Under(items[1..], prefix);
      var next := match Kept(docs[0], prefix) case Some(entry) => done + [entry] case None => done;
      FilterFindsItems(docs[1..], items[1..], prefix, next);
      GoodCons(items, prefix);
      if IsAncestorOf(prefix, items[0].scope) {
        OneExpected(done, items[0], Kept(docs[0], prefix), later, KeptAll(done, docs, prefix));
      } else {
        assert done + ([] + later) == done + later;
      }
    }
  }

  /** What may come of one expected item: it is kept, and the rest goes on, or the whole is not as expected. */
  lemma OneExpected(done: seq<StorageEntry>, item: StorageEntry, kept: Option<StorageEntry>, later: seq<StorageEntry>,
                    all: seq<StorageEntry>)
    requires var next := if kept.Some? then done + [kept.value] else done;
             next <= all && |all| <= |next| + |later|
    ensures done <= all && |all| <= |done| + |[item] + later|
    ensures all == done + ([item] + later) <==> kept == Some(item) && all == done + [item] + later
  {
    assert done + [item] + later == done + ([item] + later);
    if kept.Some? && all == done + ([item] + later) {
      assert all[|done|] == (done + [kept.value])[|done|] == kept.value;
      assert (done + ([item] + later))[|done|] == item;
    }
  }

  lemma GoodCons(items: seq<StorageEntry>, prefix: Scope)
    requires items != [] && forall i | 0 <= i < |items| :: IsScope(items[i].scope)
    ensures (forall i | 0 <= i < |items| && IsAncestorOf(prefix, items[i].scope) :: TitledKey(items[i].key)) <==>
              && (IsAncestorOf(prefix, items[0].scope) ==> TitledKey(items[0].key))
              && (forall i | 0 <= i < |items[1..]| && IsAncestorOf(prefix, items[1..][i].scope) ::
                    TitledKey(items[1..][i].key))
  {
    hide TitledKey, IsAncestorOf, IsScope;
    var rest := items[1..];
    assert forall i | 0 < i < |items| :: items[i] == rest[i - 1];
    assert forall i | 0 <= i < |rest| :: rest[i] == items[i + 1];
  }
}
