/**
  The textual names of stored memories: the composite key of the in-memory backend, the
  document title of the Fileverse backend, and the resource URI.
 */
module Names {
  import opened Basics
  import opened Scopes

  function CompositeKey(scope: Str, key: Str): Str {
    scope + [SLASH] + key
  }

  const TITLE_PREFIX: Str := Ascii("rok:")
  const URI_PREFIX: Str := Ascii("rok://memory")

  function Title(scope: Str, key: Str): Str {
    TITLE_PREFIX + scope + [COLON] + key
  }

  function StripPrefix(s: Str, prefix: Str): Option<Str> {
    if |prefix| <= |s| && s[..|prefix|] == prefix then Some(s[|prefix|..]) else None
  }

  /** `parse_title`: the key is what follows the last colon. */
  function ParseTitle(title: Str): Option<(Str, Str)> {
    match StripPrefix(title, TITLE_PREFIX)
    case None => None
    case Some(rest) =>
      match RFind(rest, COLON)
      case None => None
      case Some(pos) =>
        if pos == 0 || pos + 1 == |rest| then None else Some((rest[..pos], rest[pos + 1..]))
  }

  function MemoryUri(scope: Scope, key: Str): Str {
    URI_PREFIX + scope + [SLASH] + key
  }

  /** The split in `read_resource`; `None` is its invalid-parameters error. */
  function SplitUri(uri: Str): Option<(Scope, Str)> {
    match StripPrefix(uri, URI_PREFIX)
    case None => None
    case Some(path) => SplitPath(path)
  }

  function SplitPath(path: Str): Option<(Scope, Str)> {
    match RFind(path, SLASH)
    case None => None
    case Some(pos) =>
      if pos + 1 == |path| then None
      else
        var scopeStr := if pos == 0 then ROOT else path[..pos];
        match New(scopeStr)
        case Ok(scope) => Some((scope, path[pos + 1..]))
        case Err(_) => None
  }

  lemma StripOwnPrefix(prefix: Str, s: Str)
    ensures StripPrefix(prefix + s, prefix) == Some(s)
  {
  }

  /** The last separator splits off exactly the part without separators. */
  lemma LastSeparator(p: Str, b: byte, q: Str)
    ensures RFind(p + [b] + q, b).Some?
    ensures RFind(p + [b] + q, b).value >= |p|
    ensures RFind(p + [b] + q, b) == Some(|p|) <==> b !in q
  {
    var s := p + [b] + q;
    assert s[|p|] == b && s[|p| + 1..] == q;
    var pos := RFind(s, b).value;
    assert forall i | pos < i < |s| :: s[i] == s[pos + 1..][i - pos - 1];
    if b !in q {
      RFindAt(s, b, |p|);
    }
  }

  lemma SeparatorSplits(p: Str, b: byte, q: Str)
    ensures (p + [b] + q)[..|p|] == p && (p + [b] + q)[|p| + 1..] == q
  {
  }

  /** A title gives its scope and key back exactly when the key is non-empty and has no colon. */
  lemma TitleRoundTrip(scope: Scope, key: Str)
    ensures ParseTitle(Title(scope, key)) == Some((scope, key)) <==> key != [] && COLON !in key
  {
    assert Title(scope, key) == TITLE_PREFIX + (scope + [COLON] + key);
    ParseTitleExactly(Title(scope, key), scope, key);
  }

  /** No two names have one title: a scope has no colon, so the first colon behind the prefix ends it. */
  lemma TitlesDistinct(s1: Scope, k1: Str, s2: Scope, k2: Str)
    ensures Title(s1, k1) == Title(s2, k2) <==> s1 == s2 && k1 == k2
  {
    if Title(s1, k1) == Title(s2, k2) {
      var r1, r2 := s1 + [COLON] + k1, s2 + [COLON] + k2;
      assert Title(s1, k1) == TITLE_PREFIX + r1 && Title(s2, k2) == TITLE_PREFIX + r2;
      StripOwnPrefix(TITLE_PREFIX, r1);
      StripOwnPrefix(TITLE_PREFIX, r2);
      ColonEndsScope(s1, k1, s2, k2);
      ColonEndsScope(s2, k2, s1, k1);
      SeparatorSplits(s1, COLON, k1);
      SeparatorSplits(s2, COLON, k2);
    }
  }

  lemma ColonEndsScope(s1: Scope, k1: Str, s2: Scope, k2: Str)
    requires s1 + [COLON] + k1 == s2 + [COLON] + k2
    ensures |s1| >= |s2|
  {
    var r := s1 + [COLON] + k1;
    assert r[|s1|] == COLON;
    assert forall i | 0 <= i < |s2| :: r[i] == s2[i];
    assert !IsSegmentChar(COLON);
  }

  /** Whatever the key, a title parses at most to its scope, or to the scope with a colon and more behind it. */
  lemma TitleParsed(scope: Scope, key: Str)
    ensures match ParseTitle(Title(scope, key))
            case Some((s, _)) => s == scope || scope + [COLON] <= s
            case None => true
  {
    hide IsScope, RFind;
    var rest := scope + [COLON] + key;
    assert Title(scope, key) == TITLE_PREFIX + rest;
    StripOwnPrefix(TITLE_PREFIX, rest);
    LastSeparator(scope, COLON, key);
    CutBehindScope(scope, key, RFind(rest, COLON).value);
  }

  lemma CutBehindScope(scope: Str, key: Str, pos: nat)
    requires |scope| <= pos <= |scope + [COLON] + key|
    ensures var s := (scope + [COLON] + key)[..pos];
            s == scope || scope + [COLON] <= s
  {
    var rest := scope + [COLON] + key;
    assert rest[..|scope|] == scope;
    if pos > |scope| {
      assert rest[..pos][..|scope| + 1] == scope + [COLON];
    }
  }

  /** A resource URI gives its scope, root included, and key back exactly when the key is non-empty and has no slash. */
  lemma UriRoundTrip(scope: Scope, key: Str)
    ensures SplitUri(MemoryUri(scope, key)) == Some((scope, key)) <==> key != [] && SLASH !in key
  {
    var path := scope + [SLASH] + key;
    assert MemoryUri(scope, key) == URI_PREFIX + path;
    StripOwnPrefix(URI_PREFIX, path);
    LastSeparator(scope, SLASH, key);
    SeparatorSplits(scope, SLASH, key);
  }

  /** Any string is read as a title exactly if it is one: with a scope part, and a non-empty key without colon. */
  lemma ParseTitleExactly(title: Str, scope: Str, key: Str)
    ensures ParseTitle(title) == Some((scope, key)) <==>
              scope != [] && key != [] && COLON !in key && title == Ascii("rok:") + (scope + [COLON] + key)
  {
    if scope != [] && key != [] && COLON !in key && title == Ascii("rok:") + (scope + [COLON] + key) {
      TitleParts(scope, key);
    }
    if ParseTitle(title).Some? {
      PartsOfTitle(title);
    }
  }

  lemma TitleParts(scope: Str, key: Str)
    requires scope != [] && key != [] && COLON !in key
    ensures ParseTitle(Ascii("rok:") + (scope + [COLON] + key)) == Some((scope, key))
  {
    StripOwnPrefix(TITLE_PREFIX, scope + [COLON] + key);
    LastSeparator(scope, COLON, key);
    SeparatorSplits(scope, COLON, key);
  }

  lemma PartsOfTitle(title: Str)
    requires ParseTitle(title).Some?
    ensures var (scope, key) := ParseTitle(title).value;
            scope != [] && key != [] && COLON !in key && title == Ascii("rok:") + (scope + [COLON] + key)
  {
    var rest := title[4..];
    var pos := RFind(rest, COLON).value;
    assert title == TITLE_PREFIX + rest;
    assert rest == rest[..pos] + [COLON] + rest[pos + 1..];
  }

  /**
    Any string is split as a URI exactly if it is that of a scope and a non-empty slash-free key;
    for root a single slash before the key will do as well.
   */
  lemma SplitUriExactly(uri: Str, scope: Scope, key: Str)
    ensures SplitUri(uri) == Some((scope, key)) <==>
              && key != [] && SLASH !in key
              && (uri == MemoryUri(scope, key) || (scope == ROOT && uri == Ascii("rok://memory") + ([SLASH] + key)))
  {
    if uri == MemoryUri(scope, key) {
      UriRoundTrip(scope, key);
    }
    if uri == Ascii("rok://memory") + ([SLASH] + key) && key != [] && SLASH !in key {
      RootUri(key);
    }
    if SplitUri(uri) == Some((scope, key)) {
      SplitParts(uri);
    }
  }

  lemma RootUri(key: Str)
    requires key != [] && SLASH !in key
    ensures SplitUri(Ascii("rok://memory") + ([SLASH] + key)) == Some((ROOT, key))
  {
    StripOwnPrefix(URI_PREFIX, [SLASH] + key);
    LastSeparator([], SLASH, key);
    assert [] + [SLASH] + key == [SLASH] + key;
  }

  lemma SplitParts(uri: Str)
    requires SplitUri(uri).Some?
    ensures var (scope, key) := SplitUri(uri).value;
            && key != [] && SLASH !in key
            && (uri == MemoryUri(scope, key) || (scope == ROOT && uri == Ascii("rok://memory") + ([SLASH] + key)))
  {
    hide SplitPath, IsScope;
    var path := uri[|URI_PREFIX|..];
    assert uri == URI_PREFIX + path;
    PathParts(path);
    var (scope, key) := SplitPath(path).value;
    assert MemoryUri(scope, key) == URI_PREFIX + (scope + [SLASH] + key);
  }

  lemma PathParts(path: Str)
    requires SplitPath(path).Some?
    ensures var (scope, key) := SplitPath(path).value;
            && key != [] && SLASH !in key
            && (path == scope + [SLASH] + key || (scope == ROOT && path == [SLASH] + key))
  {
    hide IsScope;
    var pos := RFind(path, SLASH).value;
    assert path == path[..pos] + [SLASH] + path[pos + 1..];
    assert path[..0] == [];
  }

  // ---- Composite keys

  /**
    The name (s2, k2) lies on the path of (s1, k1): s2 extends s1, and k1 goes on from s1 through
    the rest of s2 to k2. Nothing extends root this way, since root ends in its own slash.
   */
  predicate RunsThrough(s1: Scope, k1: Str, s2: Scope, k2: Str) {
    s1 != ROOT && s1 != s2 && IsAncestorOf(s1, s2) && k1 == s2[|s1| + 1..] + [SLASH] + k2
  }

  lemma CompositeAt(scope: Scope, key: Str)
    ensures var id := CompositeKey(scope, key);
            && |id| == |scope| + 1 + |key| && id[..|scope|] == scope && id[|scope|] == SLASH && id[|scope| + 1..] == key
  {
  }

  lemma ShorterScopeRunsThrough(s1: Scope, k1: Str, s2: Scope, k2: Str)
    requires |s1| <= |s2|
    ensures CompositeKey(s1, k1) == CompositeKey(s2, k2) <==> (s1 == s2 && k1 == k2) || RunsThrough(s1, k1, s2, k2)
  {
    CompositeAt(s1, k1);
    CompositeAt(s2, k2);
    if CompositeKey(s1, k1) == CompositeKey(s2, k2) {
      var id := CompositeKey(s2, k2);
      assert s1 == id[..|s2|][..|s1|] == s2[..|s1|];
      if s1 != s2 {
        assert id[..|s2|][|s1|] == SLASH;
        assert id[|s1| + 1..] == s2[|s1| + 1..] + [SLASH] + k2;
      }
    }
    if RunsThrough(s1, k1, s2, k2) {
      RunsThroughShares(s1, k1, s2, k2);
    }
  }

  lemma RunsThroughShares(s1: Scope, k1: Str, s2: Scope, k2: Str)
    requires RunsThrough(s1, k1, s2, k2)
    ensures CompositeKey(s1, k1) == CompositeKey(s2, k2)
  {
    assert s2 == s1 + [SLASH] + s2[|s1| + 1..];
  }

  /** Two names share a composite key exactly when they are the same or one runs through the other. */
  lemma SharedExactly(s1: Scope, k1: Str, s2: Scope, k2: Str)
    ensures CompositeKey(s1, k1) == CompositeKey(s2, k2) <==>
              (s1 == s2 && k1 == k2) || RunsThrough(s1, k1, s2, k2) || RunsThrough(s2, k2, s1, k1)
  {
    if |s1| <= |s2| {
      ShorterScopeRunsThrough(s1, k1, s2, k2);
    } else {
      ShorterScopeRunsThrough(s2, k2, s1, k1);
    }
  }

  /** No two of the names share a composite key. */
  ghost predicate Unambiguous(names: set<(Scope, Str)>) {
    forall a, b | a in names && b in names && CompositeKey(a.0, a.1) == CompositeKey(b.0, b.1) :: a == b
  }

  /** Names whose keys have no slash never share a composite key. */
  lemma SlashFreeUnambiguous(names: set<(Scope, Str)>)
    requires forall n | n in names :: SLASH !in n.1
    ensures Unambiguous(names)
  {
    forall a, b | a in names && b in names && CompositeKey(a.0, a.1) == CompositeKey(b.0, b.1)
      ensures a == b
    {
      SharedExactly(a.0, a.1, b.0, b.1);
    }
  }

  /** Another name has the same composite key. */
  ghost predicate Aliased(scope: Scope, key: Str) {
    exists s: Scope, k: Str :: (s, k) != (scope, key) && CompositeKey(s, k) == CompositeKey(scope, key)
  }

  /** What comes before the first separator. */
  function UpTo(s: Str, b: byte): (head: Str)
    ensures |head| <= |s| && head == s[..|head|] && b !in head
    ensures b in s ==> |head| < |s| && s[|head|] == b
  {
    if s == [] || s[0] == b then [] else [s[0]] + UpTo(s[1..], b)
  }

  /**
    A name shares its composite key with another name exactly when its scope is not root and
    either the scope has a parent other than root, or the key goes on with a valid segment and a slash.
   */
  lemma AliasedExactly(scope: Scope, key: Str)
    ensures Aliased(scope, key) <==>
              scope != ROOT && (Depth(scope) > 1 || (SLASH in key && IsSegment(UpTo(key, SLASH))))
  {
    hide CompositeKey, UpTo, Depth, IsScope, IsSegment;
    if scope != ROOT && Depth(scope) > 1 {
      DeepScopeAliased(scope, key);
    } else if scope != ROOT && SLASH in key && IsSegment(UpTo(key, SLASH)) {
      SegmentKeyAliased(scope, key);
    }
    if Aliased(scope, key) {
      var s: Scope, k: Str :| (s, k) != (scope, key) && CompositeKey(s, k) == CompositeKey(scope, key);
      SharedExactly(s, k, scope, key);
      if RunsThrough(s, k, scope, key) {
        DeepBelow(s, scope);
      } else {
        FirstSegmentOf(scope, key, s, k);
      }
    }
  }

  lemma SegmentKeyAliased(scope: Scope, key: Str)
    requires scope != ROOT && SLASH in key && IsSegment(UpTo(key, SLASH))
    ensures Aliased(scope, key)
  {
    hide IsScope, IsSegment, CompositeKey, UpTo, Aliased;
    var head := UpTo(key, SLASH);
    var tail := key[|head| + 1..];
    ChildIsScope(scope, head);
    assert key == head + [SLASH] + tail;
    Regroups(scope, head, tail);
    AliasedBy(scope, key, scope + [SLASH] + head, tail);
  }

  lemma AliasedBy(scope: Scope, key: Str, s: Scope, k: Str)
    requires s != scope && CompositeKey(s, k) == CompositeKey(scope, key)
    ensures Aliased(scope, key)
  {
  }

  /** The same bytes, split at either slash. */
  lemma Regroups(scope: Str, head: Str, tail: Str)
    ensures CompositeKey(scope, head + [SLASH] + tail) == CompositeKey(scope + [SLASH] + head, tail)
    ensures |scope + [SLASH] + head| > |scope|
  {
  }

  /** A scope below a scope other than root has at least two levels. */
  lemma DeepBelow(upper: Scope, lower: Scope)
    requires upper != ROOT && upper != lower && IsAncestorOf(upper, lower)
    ensures lower != ROOT && Depth(lower) > 1
  {
    AncestorIsPrefix(upper, lower);
    ComponentsOfScope(upper);
    ComponentsOfScope(lower);
  }

  lemma DeepScopeAliased(scope: Scope, key: Str)
    requires Depth(scope) > 1
    ensures Aliased(scope, key)
  {
    ParentStripsLast(scope);
    var p := Parent(scope).value;
    AncestorIsPrefix(p, scope);
    assert Components(p) != [];
    assert p != ROOT && p != scope;
    var k := scope[|p| + 1..] + [SLASH] + key;
    SharedExactly(p, k, scope, key);
  }

  /** A key that runs through another name starts with a segment and a slash. */
  lemma FirstSegmentOf(s1: Scope, k1: Str, s2: Scope, k2: Str)
    requires RunsThrough(s1, k1, s2, k2)
    ensures SLASH in k1 && IsSegment(UpTo(k1, SLASH))
  {
    hide IsSegmentChar;
    var rest := s2[|s1| + 1..];
    assert k1[|rest|] == SLASH;
    var head := UpTo(k1, SLASH);
    SegmentAfterSlash(s2, |s1|);
    forall i | 0 <= i < |head|
      ensures IsSegmentChar(head[i])
    {
      assert head[i] == k1[i] == rest[i] == s2[|s1| + 1 + i];
    }
  }

  /** Behind a slash of a scope other than root there is no end and no slash. */
  lemma SegmentAfterSlash(s: Scope, pos: nat)
    requires s != ROOT && pos < |s| && s[pos] == SLASH
    ensures pos + 1 < |s| && s[pos + 1] != SLASH
  {
  }

  // Two scopes, and keys under them, that meet

  const OUTER: Scope := Ascii("/a")
  const INNER: Scope := Ascii("/a/b")
  const OUTER_KEY: Str := Ascii("b/c")
  const INNER_KEY: Str := Ascii("c")

  /**
    Names that share a composite key: with slash-free and with slashed keys, and for a key whose
    last slash is preceded by nothing a scope could hold.
   */
  lemma SharedNames()
    ensures (OUTER, OUTER_KEY) != (INNER, INNER_KEY)
    ensures CompositeKey(OUTER, OUTER_KEY) == CompositeKey(INNER, INNER_KEY)
    ensures !IsScope(Ascii("/a/b/!"))
    ensures CompositeKey(OUTER, Ascii("b/!/d")) == CompositeKey(INNER, Ascii("!/d"))
    ensures Aliased(INNER, INNER_KEY) && Aliased(OUTER, Ascii("b/!/d"))
  {
    assert !IsSegmentChar(0x21);
    assert Ascii("/a/b/!")[5] == 0x21;
    assert CompositeKey(OUTER, OUTER_KEY) == CompositeKey(INNER, INNER_KEY);
    assert CompositeKey(OUTER, Ascii("b/!/d")) == CompositeKey(INNER, Ascii("!/d"));
    assert |OUTER| != |INNER|;
  }
}
