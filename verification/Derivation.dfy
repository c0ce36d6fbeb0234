/**
  Key derivation. A read secret is derived one path level at a time; `Descend` is that walk,
  for any step function, and the walk does not depend on where it is interrupted.
 */
module Derivation {
  import opened Basics
  import opened Scopes
  import opened Primitives

  const DOMAIN_SPEND_TO_ROOT: Str := Ascii("rok-v1-spend-to-root-read")
  const DOMAIN_READ_CHILD: Str := Ascii("rok-v1-read-child-derive")
  const DOMAIN_KEY_WRAP: Str := Ascii("rok-v1-key-wrap")
  const DOMAIN_HYBRID_COMBINE: Str := Ascii("rok-v1-hybrid-combine")
  const DOMAIN_PQ_KEY_DERIVE: Str := Ascii("rok-v1-pq-key-derive")

  function DeriveRootReadSecret(c: Crypto, spendSecret: Bytes32): Bytes32 {
    c.hkdf(DOMAIN_SPEND_TO_ROOT, spendSecret, ROOT)
  }

  function DeriveWrappingKey(c: Crypto, sharedSecret: Bytes32, keyId: KeyId): Bytes32 {
    c.hkdf(DOMAIN_KEY_WRAP, sharedSecret, keyId)
  }

  function DerivePqKeySeed(c: Crypto, readSecret: Bytes32, scope: Scope): Bytes32 {
    c.hkdf(DOMAIN_PQ_KEY_DERIVE, readSecret, scope)
  }

  /** `combine_hybrid_secrets`. */
  function CombineHybridSecrets(c: Crypto, x25519Shared: Bytes32, mlkemShared: seq<byte>): Bytes32 {
    c.hkdf(DOMAIN_HYBRID_COMBINE, x25519Shared + mlkemShared, [])
  }

  /** The secret below `secret` after the levels `comps[from..]`; each level's info is its full path. */
  function Descend<T>(step: (T, Str) -> T, secret: T, comps: seq<Str>, from: nat): T
    requires from <= |comps|
    decreases |comps|
  {
    if |comps| == from then secret
    else step(Descend(step, secret, comps[..|comps| - 1], from), Path(comps))
  }

  /** One level of `derive_child_read_secret`. */
  function ReadStep(c: Crypto): (Bytes32, Str) -> Bytes32 {
    (secret: Bytes32, path: Str) => c.hkdf(DOMAIN_READ_CHILD, secret, path)
  }

  function ChildReadSecret(c: Crypto, parentSecret: Bytes32, parent: Scope, child: Scope): Result<Bytes32> {
    if !IsAncestorOf(parent, child) then Err(DerivationError)
    else if parent == child then Err(DerivationError)
    else
      AncestorIsPrefix(parent, child);
      Ok(Descend(ReadStep(c), parentSecret, Components(child), |Components(parent)|))
  }

  /** `derive_child_read_secret`: the loop over the levels between the two scopes. */
  method DeriveChildReadSecret(c: Crypto, parentSecret: Bytes32, parentScope: Scope, childScope: Scope)
    returns (r: Result<Bytes32>)
    ensures r == ChildReadSecret(c, parentSecret, parentScope, childScope)
  {
    if !IsAncestorOf(parentScope, childScope) {
      return Err(DerivationError);
    }
    if parentScope == childScope {
      return Err(DerivationError);
    }
    AncestorIsPrefix(parentScope, childScope);
    var parentComponents := Components(parentScope);
    var childComponents := Components(childScope);
    var current := parentSecret;
    assert childComponents[..|parentComponents|] == parentComponents;
    for i := |parentComponents| to |childComponents|
      invariant current == Descend(ReadStep(c), parentSecret, childComponents[..i], |parentComponents|)
    {
      var intermediatePath := [SLASH] + Join(childComponents[..i + 1]);
      JoinIsPath(childComponents[..i + 1]);
      assert childComponents[..i + 1][..i] == childComponents[..i];
      current := c.hkdf(DOMAIN_READ_CHILD, current, intermediatePath);
    }
    assert childComponents[..|childComponents|] == childComponents;
    r := Ok(current);
  }

  /** Deriving in two stages is deriving at once: for prefixes `a <= b <= c` of one path. */
  lemma {:induction false} DescendInStages<T>(step: (T, Str) -> T, secret: T, comps: seq<Str>, mid: nat, from: nat)
    requires from <= mid <= |comps|
    ensures Descend(step, Descend(step, secret, comps[..mid], from), comps, mid) == Descend(step, secret, comps, from)
    decreases |comps|
  {
    if mid == |comps| {
      assert comps[..mid] == comps;
    } else {
      var init := comps[..|comps| - 1];
      assert init[..mid] == comps[..mid];
      DescendInStages(step, secret, init, mid, from);
    }
  }

  /** Direct and stepwise derivation agree, for scopes A above B above C. */
  lemma StepwiseIsDirect(c: Crypto, secret: Bytes32, top: Scope, mid: Scope, low: Scope)
    requires ChildReadSecret(c, secret, top, mid).Ok?
    requires ChildReadSecret(c, ChildReadSecret(c, secret, top, mid).value, mid, low).Ok?
    ensures ChildReadSecret(c, ChildReadSecret(c, secret, top, mid).value, mid, low)
         == ChildReadSecret(c, secret, top, low)
  {
    AncestorOrder(top, mid, low);
    AncestorOrder(mid, top, low);
    AncestorIsPrefix(top, mid);
    AncestorIsPrefix(mid, low);
    var comps := Components(low);
    assert comps[..|Components(mid)|] == Components(mid);
    DescendInStages(ReadStep(c), secret, comps, |Components(mid)|, |Components(top)|);
  }

  // ---- Derivation read as a free constructor

  /** HKDF as a constructor: the root secret, or a level below another secret. */
  datatype Term = Seed | Expand(ikm: Term, info: Str)

  function FreeStep(): (Term, Str) -> Term {
    (t: Term, info: Str) => Expand(t, info)
  }

  /** The info strings of a term, outermost last. */
  function Infos(t: Term): seq<Str> {
    match t
    case Seed => []
    case Expand(ikm, info) => Infos(ikm) + [info]
  }

  /** The info strings along a walk are the successive scope prefixes, each a valid scope above the target. */
  lemma {:induction false} InfosArePrefixes(comps: seq<Str>)
    requires AreSegments(comps)
    ensures |Infos(Descend(FreeStep(), Seed, comps, 0))| == |comps|
    ensures forall i | 0 <= i < |comps| ::
              && Infos(Descend(FreeStep(), Seed, comps, 0))[i] == Path(comps[..i + 1])
              && IsScope(Path(comps[..i + 1]))
              && IsScope(Render(comps))
              && IsAncestorOf(Path(comps[..i + 1]), Render(comps))
  {
    RenderIsScope(comps);
    if comps != [] {
      var n := |comps| - 1;
      InfosArePrefixes(comps[..n]);
      forall i | 0 <= i < |comps|
        ensures Infos(Descend(FreeStep(), Seed, comps, 0))[i] == Path(comps[..i + 1])
        ensures IsScope(Path(comps[..i + 1])) && IsAncestorOf(Path(comps[..i + 1]), Render(comps))
      {
        if i < n {
          assert comps[..n][..i + 1] == comps[..i + 1];
        } else {
          assert comps[..i + 1] == comps;
        }
        ComponentsOfRender(comps[..i + 1]);
        ComponentsOfRender(comps);
        AncestorIsPrefix(Render(comps[..i + 1]), Render(comps));
      }
    }
  }

  /** With HKDF free of collisions, distinct scopes of one owner have distinct secrets. */
  lemma DistinctScopesDistinctSecrets(a: Scope, b: Scope)
    ensures Descend(FreeStep(), Seed, Components(a), 0) == Descend(FreeStep(), Seed, Components(b), 0) <==> a == b
  {
    ComponentsOfScope(a);
    ComponentsOfScope(b);
    var ca, cb := Components(a), Components(b);
    if Descend(FreeStep(), Seed, ca, 0) == Descend(FreeStep(), Seed, cb, 0) {
      InfosArePrefixes(ca);
      InfosArePrefixes(cb);
      if ca != [] {
        assert ca[..|ca|] == ca && cb[..|cb|] == cb;
      }
    }
  }

  // ---- The real walk is the free one, interpreted

  /** A term over a root secret: each level is HKDF of the level above, with the level's info. */
  function Interpreted(c: Crypto, root: Bytes32, t: Term): Bytes32 {
    match t
    case Seed => root
    case Expand(ikm, info) => c.hkdf(Ascii("rok-v1-read-child-derive"), Interpreted(c, root, ikm), info)
  }

  lemma {:induction false} WalkIsInterpreted(c: Crypto, root: Bytes32, comps: seq<Str>)
    ensures Descend(ReadStep(c), root, comps, 0) == Interpreted(c, root, Descend(FreeStep(), Seed, comps, 0))
    decreases |comps|
  {
    if comps != [] {
      WalkIsInterpreted(c, root, comps[..|comps| - 1]);
    }
  }

  /** The secrets and infos that a term's levels are expanded from. */
  function Expansions(c: Crypto, root: Bytes32, t: Term): set<(Bytes32, Str)> {
    match t
    case Seed => {}
    case Expand(ikm, info) => Expansions(c, root, ikm) + {(Interpreted(c, root, ikm), info)}
  }

  /** HKDF gives no two of the expansions one output, and none of them a root secret. */
  ghost predicate NoHkdfCollision(c: Crypto, expansions: set<(Bytes32, Str)>, roots: set<Bytes32>) {
    && (forall x, y | x in expansions && y in expansions
                      && c.hkdf(DOMAIN_READ_CHILD, x.0, x.1) == c.hkdf(DOMAIN_READ_CHILD, y.0, y.1) :: x == y)
    && (forall x | x in expansions :: c.hkdf(DOMAIN_READ_CHILD, x.0, x.1) !in roots)
  }

  lemma {:induction false} InterpretedApart(c: Crypto, r: Bytes32, t: Term, s: Bytes32, u: Term,
                                            expansions: set<(Bytes32, Str)>)
    requires NoHkdfCollision(c, expansions, {r, s})
    requires Expansions(c, r, t) + Expansions(c, s, u) <= expansions
    ensures Interpreted(c, r, t) == Interpreted(c, s, u) <==> r == s && t == u
  {
    if t.Expand? && u.Expand? {
      InterpretedApart(c, r, t.ikm, s, u.ikm, expansions);
      assert (Interpreted(c, r, t.ikm), t.info) in expansions && (Interpreted(c, s, u.ikm), u.info) in expansions;
    } else if t.Expand? {
      assert (Interpreted(c, r, t.ikm), t.info) in expansions;
    } else if u.Expand? {
      assert (Interpreted(c, s, u.ikm), u.info) in expansions;
    }
  }

  function WalkTerm(scope: Scope): Term {
    Descend(FreeStep(), Seed, Components(scope), 0)
  }

  /**
    Where HKDF does not collide, the secrets of two scopes below two root secrets are one secret
    only for one root and one scope: siblings, and levels of one branch, are all apart.
   */
  lemma WalksApart(c: Crypto, r: Bytes32, a: Scope, s: Bytes32, b: Scope)
    requires NoHkdfCollision(c, Expansions(c, r, WalkTerm(a)) + Expansions(c, s, WalkTerm(b)), {r, s})
    ensures Descend(ReadStep(c), r, Components(a), 0) == Descend(ReadStep(c), s, Components(b), 0) <==> r == s && a == b
  {
    hide Interpreted, Expansions, Descend;
    WalkIsInterpreted(c, r, Components(a));
    WalkIsInterpreted(c, s, Components(b));
    InterpretedApart(c, r, WalkTerm(a), s, WalkTerm(b), Expansions(c, r, WalkTerm(a)) + Expansions(c, s, WalkTerm(b)));
    DistinctScopesDistinctSecrets(a, b);
  }

  // ---- What every derivation is expanded from

  /** Everything the system derives, by purpose. */
  datatype Purpose =
    | RootSecret(spend: Bytes32)
    | LevelSecret(secret: Bytes32, path: Str)
    | WrappingKey(shared: Bytes32, keyId: KeyId)
    | PqSeed(secret: Bytes32, scope: Scope)
    | HybridSecret(x25519Shared: Bytes32, mlkemShared: seq<byte>)

  function DerivedFor(c: Crypto, p: Purpose): Bytes32 {
    match p
    case RootSecret(spend) => DeriveRootReadSecret(c, spend)
    case LevelSecret(secret, path) => ReadStep(c)(secret, path)
    case WrappingKey(shared, keyId) => DeriveWrappingKey(c, shared, keyId)
    case PqSeed(secret, scope) => DerivePqKeySeed(c, secret, scope)
    case HybridSecret(x25519Shared, mlkemShared) => CombineHybridSecrets(c, x25519Shared, mlkemShared)
  }

  /** The table of salts, input keys and infos (RFC 5869, section 2). */
  function HkdfInput(p: Purpose): (seq<byte>, seq<byte>, seq<byte>) {
    match p
    case RootSecret(spend) => (Ascii("rok-v1-spend-to-root-read"), spend, Ascii("/"))
    case LevelSecret(secret, path) => (Ascii("rok-v1-read-child-derive"), secret, path)
    case WrappingKey(shared, keyId) => (Ascii("rok-v1-key-wrap"), shared, keyId)
    case PqSeed(secret, scope) => (Ascii("rok-v1-pq-key-derive"), secret, scope)
    case HybridSecret(x25519Shared, mlkemShared) => (Ascii("rok-v1-hybrid-combine"), x25519Shared + mlkemShared, [])
  }

  /** No two purposes share an input: the salts differ, and within one salt the rest can be read back. */
  lemma InputsApart(p: Purpose, q: Purpose)
    ensures HkdfInput(p) == HkdfInput(q) <==> p == q
  {
    if HkdfInput(p) == HkdfInput(q) {
      assert |HkdfInput(p).0| == |HkdfInput(q).0|;
      if p.HybridSecret? {
        assert p.x25519Shared == HkdfInput(p).1[..32] && p.mlkemShared == HkdfInput(p).1[32..];
        assert q.x25519Shared == HkdfInput(q).1[..32] && q.mlkemShared == HkdfInput(q).1[32..];
      }
    }
  }

  /** Each derivation is one HKDF call on its own input, so two that HKDF tells apart differ. */
  lemma PurposesSeparate(c: Crypto, p: Purpose, q: Purpose)
    requires var (s, k, i) := HkdfInput(p);
             var (t, l, j) := HkdfInput(q);
             c.hkdf(s, k, i) == c.hkdf(t, l, j) ==> (s, k, i) == (t, l, j)
    ensures var (salt, ikm, info) := HkdfInput(p);
            DerivedFor(c, p) == c.hkdf(salt, ikm, info)
    ensures DerivedFor(c, p) == DerivedFor(c, q) <==> p == q
  {
    assert Ascii("/") == ROOT;
    InputsApart(p, q);
  }
}
