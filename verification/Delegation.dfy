/**
  Delegation chains. However a key was passed on and narrowed, its secret is the one the
  owner would derive for its scope, and only scopes below the starting one can be reached.
 */
module Delegation {
  import opened Basics
  import opened Scopes
  import opened Primitives
  import opened Derivation
  import opened Keys
  import opened Encoding

  /** One step of a chain; a handover is export, encode, decode, import. */
  datatype Step = Derive(target: Scope) | Segment(name: Str) | Handover

  function Handed(c: Crypto, k: ReadKeyPair): Result<ReadKeyPair> {
    var exported :- DecodeExportedReadKey(c, EncodeExportedReadKey(c, Export(k)));
    Import(c, exported)
  }

  function TakeStep(c: Crypto, k: ReadKeyPair, step: Step): Result<ReadKeyPair> {
    match step
    case Derive(target) => DeriveChild(c, k, target)
    case Segment(name) => DeriveChildSegment(c, k, name)
    case Handover => Handed(c, k)
  }

  function Run(c: Crypto, k: ReadKeyPair, steps: seq<Step>): Result<ReadKeyPair>
    decreases steps
  {
    if steps == [] then Ok(k)
    else
      match TakeStep(c, k, steps[0])
      case Ok(next) => Run(c, next, steps[1..])
      case Err(error) => Err(error)
  }

  /** The secret the owner derives for a scope, starting from the spend seed. */
  function OwnerSecret(c: Crypto, seed: Bytes32, scope: Scope): Bytes32 {
    Descend(ReadStep(c), DeriveRootReadSecret(c, seed), Components(scope), 0)
  }

  function OwnerPublic(c: Crypto, seed: Bytes32, scope: Scope): Bytes32 {
    c.x25519Public(OwnerSecret(c, seed, scope))
  }

  function OwnerId(c: Crypto, seed: Bytes32, scope: Scope): KeyId {
    KeyIdOf(c, OwnerPublic(c, seed, scope))
  }

  /** A key of this owner: the right secret for its scope. */
  ghost predicate Owned(c: Crypto, seed: Bytes32, k: ReadKeyPair) {
    k.secret == OwnerSecret(c, seed, k.scope) && k.public == OwnerPublic(c, seed, k.scope)
  }

  /** Only the root key has no parent; any other names an owner's key at a proper ancestor. */
  ghost predicate HasLineage(c: Crypto, seed: Bytes32, k: ReadKeyPair) {
    match k.parentKeyId
    case None => k.scope == ROOT
    case Some(id) => exists a: Scope :: IsAncestorOf(a, k.scope) && a != k.scope && id == OwnerId(c, seed, a)
  }

  lemma RootIsOwned(c: Crypto, seed: Bytes32)
    ensures Owned(c, seed, DeriveRootReadKey(c, seed)) && HasLineage(c, seed, DeriveRootReadKey(c, seed))
  {
  }

  lemma DeriveChildIsOwned(c: Crypto, seed: Bytes32, k: ReadKeyPair, child: Scope)
    requires Owned(c, seed, k) && IsAncestorOf(k.scope, child) && k.scope != child
    ensures DeriveChild(c, k, child)
         == Ok(ReadKeyPair(OwnerSecret(c, seed, child), OwnerPublic(c, seed, child), child,
                           Some(OwnerId(c, seed, k.scope))))
  {
    AncestorIsPrefix(k.scope, child);
    var comps := Components(child);
    var n := |Components(k.scope)|;
    assert comps[..n] == Components(k.scope);
    DescendInStages(ReadStep(c), DeriveRootReadSecret(c, seed), comps, n, 0);
  }

  lemma ChildIsBelow(s: Scope, segment: Str)
    requires IsSegment(segment)
    ensures IsAncestorOf(s, Child(s, segment).value) && s != Child(s, segment).value
  {
  }

  /** A handover changes nothing. */
  lemma HandoverKeeps(c: Crypto, k: ReadKeyPair)
    requires k.public == c.x25519Public(k.secret)
    ensures Handed(c, k) == Ok(k)
  {
    ExportedKeyRoundTrip(c, Export(k));
  }

  lemma StepKeeps(c: Crypto, seed: Bytes32, k: ReadKeyPair, step: Step)
    requires Owned(c, seed, k) && HasLineage(c, seed, k) && TakeStep(c, k, step).Ok?
    ensures Owned(c, seed, TakeStep(c, k, step).value) && HasLineage(c, seed, TakeStep(c, k, step).value)
    ensures IsAncestorOf(k.scope, TakeStep(c, k, step).value.scope)
  {
    match step
    case Derive(target) => DeriveChildIsOwned(c, seed, k, target);
    case Segment(name) =>
      ChildIsBelow(k.scope, name);
      DeriveChildIsOwned(c, seed, k, Child(k.scope, name).value);
    case Handover => HandoverKeeps(c, k);
  }

  /** Every key a chain produces is the owner's own key for its scope, below the starting scope. */
  lemma {:induction false} DelegatedKeysAreOwned(c: Crypto, seed: Bytes32, k: ReadKeyPair, steps: seq<Step>)
    requires Owned(c, seed, k) && HasLineage(c, seed, k)
    ensures Run(c, k, steps).Ok? ==>
              && Owned(c, seed, Run(c, k, steps).value) && HasLineage(c, seed, Run(c, k, steps).value)
              && IsAncestorOf(k.scope, Run(c, k, steps).value.scope)
    decreases steps
  {
    hide TakeStep, Owned, HasLineage, IsAncestorOf;
    AncestorOrder(k.scope, k.scope, k.scope);
    if steps != [] && TakeStep(c, k, steps[0]).Ok? {
      var next := TakeStep(c, k, steps[0]).value;
      StepKeeps(c, seed, k, steps[0]);
      DelegatedKeysAreOwned(c, seed, next, steps[1..]);
      if Run(c, next, steps[1..]).Ok? {
        AncestorOrder(k.scope, next.scope, Run(c, k, steps).value.scope);
      }
    }
  }

  ghost predicate Reachable(c: Crypto, k: ReadKeyPair, target: Scope) {
    exists steps :: Run(c, k, steps).Ok? && Run(c, k, steps).value.scope == target
  }

  /** From a key at a scope exactly the scopes at or below it can be reached. */
  lemma ReachableExactlyBelow(c: Crypto, seed: Bytes32, k: ReadKeyPair, target: Scope)
    requires Owned(c, seed, k) && HasLineage(c, seed, k)
    ensures Reachable(c, k, target) <==> IsAncestorOf(k.scope, target)
  {
    forall steps | Run(c, k, steps).Ok? && Run(c, k, steps).value.scope == target
      ensures IsAncestorOf(k.scope, target)
    {
      DelegatedKeysAreOwned(c, seed, k, steps);
    }
    if k.scope == target {
      assert Run(c, k, []) == Ok(k);
    } else if IsAncestorOf(k.scope, target) {
      DeriveChildIsOwned(c, seed, k, target);
      var next := DeriveChild(c, k, target).value;
      var steps := [Derive(target)];
      assert TakeStep(c, k, steps[0]) == Ok(next);
      assert Run(c, next, steps[1..]) == Ok(next);
      assert Run(c, k, steps) == Ok(next);
    }
  }

  /** Two chains from the owner's root that end at one scope end with the same key material. */
  lemma PathIndependence(c: Crypto, seed: Bytes32, p: seq<Step>, q: seq<Step>)
    ensures var k, l := Run(c, DeriveRootReadKey(c, seed), p), Run(c, DeriveRootReadKey(c, seed), q);
            k.Ok? && l.Ok? && k.value.scope == l.value.scope ==>
              k.value.secret == l.value.secret && k.value.public == l.value.public
  {
    hide Run;
    RootIsOwned(c, seed);
    DelegatedKeysAreOwned(c, seed, DeriveRootReadKey(c, seed), p);
    DelegatedKeysAreOwned(c, seed, DeriveRootReadKey(c, seed), q);
  }

  /** The key `encrypt` and `grant_access` derive for a scope always exists and is the owner's. */
  lemma ScopeKeyIsOwned(c: Crypto, seed: Bytes32, scope: Scope)
    ensures ScopeKey(c, seed, scope).Ok?
    ensures Owned(c, seed, ScopeKey(c, seed, scope).value) && ScopeKey(c, seed, scope).value.scope == scope
    ensures HasLineage(c, seed, ScopeKey(c, seed, scope).value)
  {
  }

  /** The owner's secret at a scope as a term over the owner's root secret. */
  function OwnerExpansions(c: Crypto, seed: Bytes32, scope: Scope): set<(Bytes32, Str)> {
    Expansions(c, DeriveRootReadSecret(c, seed), WalkTerm(scope))
  }

  /**
    Two owners' secrets, or one owner's at two scopes, are one secret only for one owner and one
    scope, where HKDF does not collide on what the two are expanded from.
   */
  lemma OwnerSecretsApart(c: Crypto, seed: Bytes32, a: Scope, other: Bytes32, b: Scope)
    requires NoHkdfCollision(c, OwnerExpansions(c, seed, a) + OwnerExpansions(c, other, b),
                             {DeriveRootReadSecret(c, seed), DeriveRootReadSecret(c, other)})
    requires var salt, info := Ascii("rok-v1-spend-to-root-read"), Ascii("/");
             c.hkdf(salt, seed, info) == c.hkdf(salt, other, info) ==> seed == other
    ensures OwnerSecret(c, seed, a) == OwnerSecret(c, other, b) <==> seed == other && a == b
  {
    hide Expansions, WalkTerm, Descend;
    WalksApart(c, DeriveRootReadSecret(c, seed), a, DeriveRootReadSecret(c, other), b);
    assert Ascii("/") == ROOT;
  }

  /** Narrowing any key succeeds exactly for scopes strictly below its own. */
  lemma DerivesExactly(c: Crypto, k: ReadKeyPair, target: Scope)
    ensures DeriveChild(c, k, target).Ok? <==> IsAncestorOf(k.scope, target) && k.scope != target
    ensures DeriveChild(c, k, target).Err? ==> DeriveChild(c, k, target) == Err(DerivationError)
    ensures DeriveChild(c, k, target).Ok? ==>
              var child := DeriveChild(c, k, target).value;
              && child.scope == target && child.parentKeyId == Some(KeyIdOf(c, k.public))
              && child.public == c.x25519Public(child.secret)
  {
    hide IsAncestorOf;
  }

  /** A segment step gives the key of the child scope, and fails for anything that is no segment. */
  lemma SegmentIsChild(c: Crypto, k: ReadKeyPair, name: Str)
    ensures DeriveChildSegment(c, k, name).Ok? <==> IsSegment(name)
    ensures !IsSegment(name) ==> DeriveChildSegment(c, k, name) == Err(InvalidScope)
    ensures IsSegment(name) ==>
              var child := DeriveChildSegment(c, k, name).value;
              && Components(child.scope) == Components(k.scope) + [name]
              && DeriveChildSegment(c, k, name) == DeriveChild(c, k, child.scope)
  {
    if IsSegment(name) {
      ParentUndoesChild(k.scope, name);
      ChildIsBelow(k.scope, name);
      assert DeriveChild(c, k, Child(k.scope, name).value).Ok?;
    }
  }

  /** An exported key is imported exactly when its public half belongs to its secret half. */
  lemma ImportExactly(c: Crypto, e: ExportedReadKey, k: ReadKeyPair)
    ensures Import(c, e) == Ok(k) <==> e == Export(k) && k.public == c.x25519Public(k.secret)
    ensures Import(c, e).Err? ==> Import(c, e) == Err(InvalidKeyMaterial)
  {
  }
}
