/**
  Hierarchical scope paths. Scopes are strings, compared by prefix tests on strings;
  this module shows that those tests are the tree order on lists of path segments.
 */
module Scopes {
  import opened Basics
  import opened Fields

  const ROOT: Str := [SLASH]

  predicate IsSegmentChar(b: byte) {
    0x30 <= b <= 0x39 || 0x41 <= b <= 0x5A || 0x61 <= b <= 0x7A || b == 0x2D || b == 0x5F
  }

  predicate HasDoubleSlash(p: Str) {
    exists i | 0 <= i < |p| - 1 :: p[i] == SLASH && p[i + 1] == SLASH
  }

  predicate IsScope(p: Str) {
    && |p| > 0 && p[0] == SLASH
    && (|p| > 1 ==> p[|p| - 1] != SLASH)
    && !HasDoubleSlash(p)
    && (forall i | 1 <= i < |p| :: IsSegmentChar(p[i]) || p[i] == SLASH)
  }

  /** A validated path: the string inside the Rust newtype. */
  type Scope = p: Str | IsScope(p) witness ROOT

  /** `str::split('/')`. */
  function Split(s: Str): (parts: seq<Str>)
    ensures |parts| > 0
  {
    if s == [] then [[]]
    else
      var rest := Split(s[1..]);
      if s[0] == SLASH then [[]] + rest else [[s[0]] + rest[0]] + rest[1..]
  }

  /** `[str]::join("/")`. */
  function Join(parts: seq<Str>): Str {
    if parts == [] then []
    else if |parts| == 1 then parts[0]
    else parts[0] + [SLASH] + Join(parts[1..])
  }

  /** `Scope::new`: the checks in their order. */
  function New(path: Str): (r: Result<Scope>)
    ensures r.Ok? <==> IsScope(path)
    ensures r.Ok? ==> r.value == path
    ensures r.Err? ==> r.error == InvalidScope
  {
    if || path == []
       || path[0] != SLASH
       || (|path| > 1 && path[|path| - 1] == SLASH)
       || HasDoubleSlash(path)
       || (exists i | 1 <= i < |path| :: !IsSegmentChar(path[i]) && path[i] != SLASH)
       || (path != ROOT && [] in Split(path[1..]))
    then
      assert !IsScope(path) by {
        if IsScope(path) && path != ROOT {
          NoEmptySegment(path);
        }
      }
      Err(InvalidScope)
    else
      Ok(path)
  }

  predicate IsAncestorOf(self: Scope, descendant: Scope) {
    if self == ROOT then true
    else if self == descendant then true
    else self <= descendant && |self| < |descendant| && descendant[|self|] == SLASH
  }

  function Components(s: Scope): (parts: seq<Str>) {
    if s == ROOT then [] else Split(s[1..])
  }

  function Depth(s: Scope): nat {
    if s == ROOT then 0 else |Split(s[1..])|
  }

  /** `str::rfind`. */
  function RFind(s: Str, b: byte): (r: Option<nat>)
    ensures r.None? ==> b !in s
    ensures r.Some? ==> r.value < |s| && s[r.value] == b && b !in s[r.value + 1..]
  {
    if s == [] then None
    else if s[|s| - 1] == b then Some(|s| - 1)
    else
      var r := RFind(s[..|s| - 1], b);
      assert forall i | 0 <= i < |s| && s[i] == b :: i < |s| - 1 && s[..|s| - 1][i] == b;
      r
  }

  lemma RFindAt(s: Str, b: byte, n: nat)
    requires n < |s| && s[n] == b && b !in s[n + 1..]
    ensures RFind(s, b) == Some(n)
  {
  }

  function Parent(s: Scope): (r: Option<Scope>)
  {
    if s == ROOT then None
    else
      match RFind(s, SLASH)
      case Some(pos) => if pos == 0 then Some(ROOT) else
        ParentIsScope(s, pos);
        Some(s[..pos])
      case None => None
  }

  function Child(s: Scope, segment: Str): (r: Result<Scope>)
    ensures r.Ok? <==> IsSegment(segment)
    ensures r.Err? ==> r.error == InvalidScope
  {
    if segment == [] then Err(InvalidScope)
    else if SLASH in segment then Err(InvalidScope)
    else if exists i | 0 <= i < |segment| :: !IsSegmentChar(segment[i]) then Err(InvalidScope)
    else
      var path := if s == ROOT then [SLASH] + segment else s + [SLASH] + segment;
      assert IsScope(path) by { ChildIsScope(s, segment); }
      Ok(path)
  }

  lemma ParentIsScope(s: Scope, pos: nat)
    requires 0 < pos < |s| && s[pos] == SLASH
    ensures IsScope(s[..pos])
  {
  }

  lemma ChildIsScope(s: Scope, segment: Str)
    requires IsSegment(segment)
    ensures IsScope(if s == ROOT then [SLASH] + segment else s + [SLASH] + segment)
  {
  }

  // ---- The tree view

  predicate IsSegment(seg: Str) {
    seg != [] && forall i | 0 <= i < |seg| :: IsSegmentChar(seg[i])
  }

  predicate AreSegments(comps: seq<Str>) {
    forall i | 0 <= i < |comps| :: IsSegment(comps[i])
  }

  /** `/a/b/c` for `[a, b, c]`. */
  function Path(comps: seq<Str>): Str {
    if comps == [] then [] else [SLASH] + comps[0] + Path(comps[1..])
  }

  function Render(comps: seq<Str>): Str {
    if comps == [] then ROOT else Path(comps)
  }

  lemma {:induction false} PathConcat(a: seq<Str>, b: seq<Str>)
    ensures Path(a + b) == Path(a) + Path(b)
  {
    if a == [] {
      assert a + b == b;
    } else {
      assert (a + b)[1..] == a[1..] + b;
      PathConcat(a[1..], b);
    }
  }

  lemma {:induction false} JoinIsPath(comps: seq<Str>)
    requires comps != []
    ensures [SLASH] + Join(comps) == Path(comps)
  {
    if |comps| > 1 {
      JoinIsPath(comps[1..]);
    }
  }

  lemma {:induction false} PathOfSplit(s: Str)
    ensures Path(Split(s)) == [SLASH] + s
  {
    if s != [] {
      PathOfSplit(s[1..]);
      assert [s[0]] + s[1..] == s;
      var rest := Split(s[1..]);
      if s[0] == SLASH {
        PathCons([], rest);
      } else {
        PathCons([s[0]] + rest[0], rest[1..]);
        PathCons(rest[0], rest[1..]);
        assert rest == [rest[0]] + rest[1..];
        var t := rest[0] + Path(rest[1..]);
        assert t == ([SLASH] + t)[1..] == s[1..];
        assert [s[0]] + rest[0] + Path(rest[1..]) == [s[0]] + t;
      }
    }
  }

  lemma PathCons(seg: Str, comps: seq<Str>)
    ensures Path([seg] + comps) == [SLASH] + (seg + Path(comps))
  {
  }

  /** Every character of every segment of a split comes from the string and is no slash. */
  lemma {:induction false} SplitChars(s: Str)
    ensures forall k, j | 0 <= k < |Split(s)| && 0 <= j < |Split(s)[k]| ::
              Split(s)[k][j] in s && Split(s)[k][j] != SLASH
  {
    if s != [] {
      SplitChars(s[1..]);
      var rest := Split(s[1..]);
      var parts := Split(s);
      forall k, j | 0 <= k < |parts| && 0 <= j < |parts[k]|
        ensures parts[k][j] in s && parts[k][j] != SLASH
      {
        if s[0] == SLASH {
          assert parts[k] == rest[k - 1];
        } else if k == 0 {
          assert j > 0 ==> parts[0][j] == rest[0][j - 1];
        } else {
          assert parts[k] == rest[k];
        }
      }
    }
  }

  /** An empty part of a split sits at an end of the string or between two slashes. */
  lemma {:induction false} EmptyPart(s: Str)
    ensures Split(s)[0] == [] <==> s == [] || s[0] == SLASH
    ensures [] in Split(s)[1..] ==> |s| > 0 && (s[|s| - 1] == SLASH || HasDoubleSlash(s))
  {
    if s != [] {
      var t := s[1..];
      EmptyPart(t);
      var rest := Split(t);
      if s[0] == SLASH {
        assert Split(s)[1..] == rest;
        if [] in rest && rest[0] == [] {
          if t != [] {
            assert s[0] == SLASH && s[1] == SLASH;
          }
        } else if [] in rest {
          assert [] in rest[1..];
          LiftDoubleSlash(s);
        }
      } else {
        assert Split(s)[1..] == rest[1..];
        if [] in rest[1..] {
          LiftDoubleSlash(s);
        }
      }
    }
  }

  lemma LiftDoubleSlash(s: Str)
    requires s != []
    ensures HasDoubleSlash(s[1..]) ==> HasDoubleSlash(s)
    ensures |s| > 1 ==> s[1..][|s| - 2] == s[|s| - 1]
  {
  }

  lemma NoEmptySegment(s: Scope)
    requires s != ROOT
    ensures [] !in Split(s[1..])
  {
    var t := s[1..];
    EmptyPart(t);
    LiftDoubleSlash(s);
    var parts := Split(t);
    assert t[0] == s[1] && s[0] == SLASH;
    assert parts == [parts[0]] + parts[1..];
  }

  /** The segments of a scope are well formed, and rendering them gives the scope back. */
  lemma ComponentsOfScope(s: Scope)
    ensures AreSegments(Components(s))
    ensures Render(Components(s)) == s
    ensures s != ROOT ==> Components(s) != []
  {
    if s != ROOT {
      var t := s[1..];
      PathOfSplit(t);
      assert [SLASH] + t == s;
      NoEmptySegment(s);
      SplitChars(t);
      forall k | 0 <= k < |Split(t)|
        ensures IsSegment(Split(t)[k])
      {
        assert Split(t)[k] in Split(t);
        forall j | 0 <= j < |Split(t)[k]|
          ensures IsSegmentChar(Split(t)[k][j])
        {
          var i :| 0 <= i < |t| && t[i] == Split(t)[k][j];
          assert s[i + 1] == t[i];
        }
      }
    }
  }

  lemma PathSnoc(init: seq<Str>, last: Str)
    ensures Path(init + [last]) == Path(init) + [SLASH] + last
  {
    PathConcat(init, [last]);
    assert Path([last]) == [SLASH] + last + Path([]);
    assert Path([last]) == [SLASH] + last;
    assert Path(init) + ([SLASH] + last) == Path(init) + [SLASH] + last;
  }

  predicate AtBoundary(t: Str) {
    t == [] || t[0] == SLASH
  }

  /** Two slash-free segments followed by boundaries can only be cut in one way. */
  lemma SegmentCut(x: Str, s: Str, y: Str, t: Str)
    requires IsSegment(x) && IsSegment(y) && AtBoundary(s) && AtBoundary(t)
    requires x + s == y + t
    ensures x == y && s == t
  {
    var w := x + s;
    assert forall i | 0 <= i < |x| :: w[i] == x[i];
    assert forall i | 0 <= i < |y| :: w[i] == y[i];
    assert !IsSegmentChar(SLASH);
    assert |x| < |w| ==> w[|x|] == s[0];
    assert |y| < |w| ==> w[|y|] == t[0];
    assert x == w[..|x|] && y == w[..|y|] && s == w[|x|..] && t == w[|y|..];
  }

  /** A path is a string prefix of another, up to a boundary, exactly when its list is. */
  lemma {:induction false} PathPrefix(a: seq<Str>, t: Str, b: seq<Str>)
    requires AreSegments(a) && AreSegments(b) && AtBoundary(t)
    requires Path(a) + t == Path(b)
    ensures a <= b && t == Path(b[|a|..])
  {
    if a == [] {
      assert Path(a) + t == t;
    } else {
      var ta := Path(a[1..]) + t;
      assert Path(a) + t == [SLASH] + (a[0] + ta);
      assert b != [];
      var tb := Path(b[1..]);
      assert Path(b) == [SLASH] + (b[0] + tb);
      assert a[0] + ta == (Path(a) + t)[1..] == b[0] + tb;
      SegmentCut(a[0], ta, b[0], tb);
      PathPrefix(a[1..], t, b[1..]);
      assert a == [a[0]] + a[1..] && b == [b[0]] + b[1..];
      assert b[1..][|a[1..]|..] == b[|a|..];
    }
  }

  lemma {:induction false} RenderIsScope(comps: seq<Str>)
    requires AreSegments(comps)
    ensures IsScope(Render(comps))
    ensures comps != [] ==> Path(comps) != ROOT && |Path(comps)| > 1
  {
    if comps != [] {
      var n := |comps| - 1;
      var init, last := comps[..n], comps[n];
      RenderIsScope(init);
      assert comps == init + [last];
      PathSnoc(init, last);
      ChildIsScope(Render(init), last);
    }
  }

  /** Rendering a list of segments and splitting it again gives the list back. */
  lemma ComponentsOfRender(comps: seq<Str>)
    requires AreSegments(comps)
    ensures IsScope(Render(comps)) && Components(Render(comps)) == comps
  {
    RenderIsScope(comps);
    var s := Render(comps);
    ComponentsOfScope(s);
    if comps != [] {
      assert Path(comps) + [] == Path(comps);
      PathPrefix(comps, [], Components(s));
      assert Components(s)[|comps|..] == [];
    }
  }

  /** `Scope::new` accepts exactly root and the slash-joined lists of segments. */
  lemma NewAcceptsExactlyPaths(path: Str)
    ensures New(path).Ok? <==> exists comps :: AreSegments(comps) && path == Render(comps)
  {
    if IsScope(path) {
      ComponentsOfScope(path);
    }
    forall comps | AreSegments(comps) && path == Render(comps)
      ensures IsScope(path)
    {
      RenderIsScope(comps);
    }
  }

  /** The string test is the list-prefix order. */
  lemma AncestorIsPrefix(a: Scope, b: Scope)
    ensures IsAncestorOf(a, b) <==> Components(a) <= Components(b)
  {
    ComponentsOfScope(a);
    ComponentsOfScope(b);
    var ca, cb := Components(a), Components(b);
    if a != ROOT {
      if IsAncestorOf(a, b) {
        var t := b[|a|..];
        assert Path(ca) + t == b;
        assert b != ROOT;
        PathPrefix(ca, t, cb);
      }
      if ca <= cb {
        var rest := cb[|ca|..];
        assert cb == ca + rest;
        PathConcat(ca, rest);
        assert Path(rest) == [] || Path(rest)[0] == SLASH;
      }
    }
  }

  /** The order: root is least, antisymmetric, transitive, and the ancestors of a scope form a chain. */
  lemma AncestorOrder(a: Scope, b: Scope, x: Scope)
    ensures IsAncestorOf(ROOT, a) && IsAncestorOf(a, a)
    ensures IsAncestorOf(a, b) && IsAncestorOf(b, a) ==> a == b
    ensures IsAncestorOf(a, b) && IsAncestorOf(b, x) ==> IsAncestorOf(a, x)
    ensures IsAncestorOf(a, x) && IsAncestorOf(b, x) ==> IsAncestorOf(a, b) || IsAncestorOf(b, a)
  {
  }

  lemma ChildPath(s: Scope, segment: Str)
    requires IsSegment(segment)
    ensures Child(s, segment) == Ok(Path(Components(s)) + [SLASH] + segment)
  {
    ComponentsOfScope(s);
    assert s == ROOT ==> Path(Components(s)) + [SLASH] == [SLASH];
  }

  /** `child` appends one segment; `parent` removes it again. */
  lemma ParentUndoesChild(s: Scope, segment: Str)
    requires IsSegment(segment)
    ensures Components(Child(s, segment).value) == Components(s) + [segment]
    ensures Parent(Child(s, segment).value) == Some(s)
    ensures Depth(Child(s, segment).value) == Depth(s) + 1
  {
    ComponentsOfScope(s);
    ChildPath(s, segment);
    PathSnoc(Components(s), segment);
    ComponentsOfRender(Components(s) + [segment]);
    var p := Path(Components(s));
    LastSlash(p, segment);
    assert (p + [SLASH] + segment)[..|p|] == p;
  }

  lemma LastSlash(p: Str, segment: Str)
    requires SLASH !in segment
    ensures RFind(p + [SLASH] + segment, SLASH) == Some(|p|)
  {
    var c := p + [SLASH] + segment;
    assert c[|p| + 1..] == segment;
    RFindAt(c, SLASH, |p|);
  }

  /** Every scope but the root is the child of its parent, so `parent` strips the last segment. */
  lemma ParentStripsLast(s: Scope)
    requires s != ROOT
    ensures Parent(s).Some?
    ensures Components(s) == Components(Parent(s).value) + [Components(s)[|Components(s)| - 1]]
  {
    ComponentsOfScope(s);
    var comps := Components(s);
    var init, last := comps[..|comps| - 1], comps[|comps| - 1];
    ComponentsOfRender(init);
    ParentUndoesChild(Render(init), last);
    ComponentsOfScope(Child(Render(init), last).value);
    assert init + [last] == comps;
  }

  /** Scopes are ASCII, so their bytes pass the UTF-8 check. */
  lemma ScopeIsUtf8(s: Scope)
    ensures ValidUtf8(s)
  {
    AsciiIsUtf8(s);
  }

  /** The filter of both storage backends' `list`. */
  predicate ListedUnder(entryScope: Str, prefix: Str) {
    entryScope == prefix || prefix + [SLASH] <= entryScope || prefix == ROOT
  }

  /** On scopes the hand-written storage filter is the ancestor order. */
  lemma FilterIsAncestor(entryScope: Scope, prefix: Scope)
    ensures ListedUnder(entryScope, prefix) <==> IsAncestorOf(prefix, entryScope)
  {
  }
}
