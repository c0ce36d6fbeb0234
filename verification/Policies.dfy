/** Access policies: a list of rules that behaves as a map from scopes to key sets. */
module Policies {
  import opened Basics
  import opened Scopes
  import opened Primitives

  /** Key ids are kept in base58; the expiry is a Unix time. */
  datatype AccessRule = AccessRule(scope: Str, recipientKeyIds: seq<Str>, expiresAt: Option<nat>)

  type Rules = seq<AccessRule>

  // ---- The operations on the list

  function FindRule(rules: Rules, scope: Str): (r: Option<nat>)
    ensures r.None? <==> forall i | 0 <= i < |rules| :: rules[i].scope != scope
    ensures r.Some? ==> r.value < |rules| && rules[r.value].scope == scope
    ensures r.Some? ==> forall i | 0 <= i < r.value :: rules[i].scope != scope
  {
    FirstIndex(rules, (r: AccessRule) => r.scope == scope)
  }

  /** `Vec::retain(|k| k != key)`. */
  function Without(keys: seq<Str>, key: Str): (r: seq<Str>)
    ensures forall k :: k in r <==> k in keys && k != key
  {
    if keys == [] then []
    else if keys[0] == key then Without(keys[1..], key)
    else [keys[0]] + Without(keys[1..], key)
  }

  function Granted(rules: Rules, scope: Scope, key: Str, expiresAt: Option<nat>): Rules {
    match FindRule(rules, scope)
    case Some(i) =>
      if key in rules[i].recipientKeyIds then rules
      else rules[i := rules[i].(recipientKeyIds := rules[i].recipientKeyIds + [key])]
    case None => rules + [AccessRule(scope, [key], expiresAt)]
  }

  function Revoked(rules: Rules, scope: Scope, key: Str): Rules {
    match FindRule(rules, scope)
    case Some(i) => rules[i := rules[i].(recipientKeyIds := Without(rules[i].recipientKeyIds, key))]
    case None => rules
  }

  predicate Expired(expiresAt: Option<nat>, now: nat) {
    expiresAt.Some? && now > expiresAt.value
  }

  /** The rule applies to the target: its scope is an ancestor or equal, and it has not expired. */
  predicate Applies(rule: AccessRule, scope: Scope, now: nat) {
    && New(rule.scope).Ok?
    && (IsAncestorOf(New(rule.scope).value, scope) || rule.scope == scope)
    && !Expired(rule.expiresAt, now)
  }

  // ---- Sorting: byte-wise string order

  predicate Less(a: Str, b: Str) {
    if b == [] then false
    else if a == [] then true
    else if a[0] != b[0] then a[0] < b[0]
    else Less(a[1..], b[1..])
  }

  lemma {:induction false} LessIsStrictOrder(a: Str, b: Str, x: Str)
    ensures !Less(a, a)
    ensures a == b || Less(a, b) || Less(b, a)
    ensures Less(a, b) && Less(b, x) ==> Less(a, x)
    decreases |a| + |b| + |x|
  {
    if a != [] {
      LessIsStrictOrder(a[1..], if b == [] then [] else b[1..], if x == [] then [] else x[1..]);
      assert a == [a[0]] + a[1..];
    }
    if b != [] {
      assert b == [b[0]] + b[1..];
    }
  }

  predicate Sorted(s: seq<Str>) {
    forall i, j | 0 <= i < j < |s| :: s[i] == s[j] || Less(s[i], s[j])
  }

  predicate StrictlySorted(s: seq<Str>) {
    forall i, j | 0 <= i < j < |s| :: Less(s[i], s[j])
  }

  function Insert(x: Str, s: seq<Str>): (r: seq<Str>)
    ensures forall y :: y in r <==> y == x || y in s
  {
    if s == [] || x == s[0] || Less(x, s[0]) then [x] + s else [s[0]] + Insert(x, s[1..])
  }

  /** `Vec::sort`. */
  function Sort(s: seq<Str>): (r: seq<Str>)
    ensures forall y :: y in r <==> y in s
  {
    if s == [] then [] else Insert(s[0], Sort(s[1..]))
  }

  /** `Vec::dedup`: drops repetitions of the element before. */
  function Dedup(s: seq<Str>): (r: seq<Str>)
    ensures forall y :: y in r <==> y in s
    ensures s != [] ==> r != [] && r[0] == s[0]
  {
    if |s| <= 1 then s
    else if s[0] == s[1] then Dedup(s[1..])
    else [s[0]] + Dedup(s[1..])
  }

  lemma {:induction false} InsertKeepsSorted(x: Str, s: seq<Str>)
    requires Sorted(s)
    ensures Sorted(Insert(x, s))
  {
    if s != [] && x != s[0] && !Less(x, s[0]) {
      LessIsStrictOrder(x, s[0], x);
      InsertKeepsSorted(x, s[1..]);
      var r := Insert(x, s[1..]);
      forall y | y in r
        ensures y == s[0] || Less(s[0], y)
      {
      }
    } else if s != [] {
      forall j | 0 <= j < |s|
        ensures x == s[j] || Less(x, s[j])
      {
        LessIsStrictOrder(x, s[0], s[j]);
      }
    }
  }

  lemma {:induction false} SortSorts(s: seq<Str>)
    ensures Sorted(Sort(s))
  {
    if s != [] {
      SortSorts(s[1..]);
      InsertKeepsSorted(s[0], Sort(s[1..]));
    }
  }

  lemma {:induction false} DedupMakesStrict(s: seq<Str>)
    requires Sorted(s)
    ensures StrictlySorted(Dedup(s))
  {
    if |s| > 1 {
      DedupMakesStrict(s[1..]);
      var r := Dedup(s[1..]);
      if s[0] != s[1] {
        forall y | y in r
          ensures Less(s[0], y)
        {
          LessIsStrictOrder(s[0], s[1], y);
        }
      }
    }
  }

  /** A strictly sorted list is determined by its elements. */
  lemma {:induction false} StrictlySortedUnique(s: seq<Str>, t: seq<Str>)
    requires StrictlySorted(s) && StrictlySorted(t) && forall y :: y in s <==> y in t
    ensures s == t
  {
    assert s != [] ==> s[0] in s;
    assert t != [] ==> t[0] in t;
    if s != [] && t != [] {
      LessIsStrictOrder(s[0], t[0], s[0]);
      assert s[0] in t && t[0] in s;
      assert s[0] == t[0];
      forall y
        ensures y in s[1..] <==> y in t[1..]
      {
        LessIsStrictOrder(s[0], s[0], s[0]);
        assert y in s <==> y == s[0] || y in s[1..];
        assert y in t <==> y == t[0] || y in t[1..];
      }
      StrictlySortedUnique(s[1..], t[1..]);
    }
  }

  // ---- The policy object

  class AccessPolicy {
    const c: Crypto
    var rules: Rules

    constructor (c: Crypto)
      ensures this.c == c && rules == []
    {
      this.c, rules := c, [];
    }

    method Grant(scope: Scope, keyId: KeyId, expiresAt: Option<nat>)
      modifies this`rules
      ensures rules == Granted(old(rules), scope, c.base58Encode(keyId), expiresAt)
    {
      var key := c.base58Encode(keyId);
      match FindRule(rules, scope)
      case Some(i) =>
        if key !in rules[i].recipientKeyIds {
          rules := rules[i := rules[i].(recipientKeyIds := rules[i].recipientKeyIds + [key])];
        }
      case None =>
        rules := rules + [AccessRule(scope, [key], expiresAt)];
    }

    method Revoke(scope: Scope, keyId: KeyId)
      modifies this`rules
      ensures rules == Revoked(old(rules), scope, c.base58Encode(keyId))
    {
      var key := c.base58Encode(keyId);
      match FindRule(rules, scope)
      case Some(i) =>
        rules := rules[i := rules[i].(recipientKeyIds := Without(rules[i].recipientKeyIds, key))];
      case None =>
    }

    /** Strictly sorted, and exactly the keys of the rules that apply: the result is determined. */
    method KeyIdsForScope(scope: Scope, now: nat) returns (keys: seq<Str>)
      ensures StrictlySorted(keys)
      ensures forall k :: k in keys <==>
                exists i | 0 <= i < |rules| :: Applies(rules[i], scope, now) && k in rules[i].recipientKeyIds
    {
      var result := [];
      for i := 0 to |rules|
        invariant forall k :: k in result <==>
                    exists j | 0 <= j < i :: Applies(rules[j], scope, now) && k in rules[j].recipientKeyIds
      {
        var rule := rules[i];
        var ruleScope := New(rule.scope);
        if ruleScope.Ok? {
          if IsAncestorOf(ruleScope.value, scope) || rule.scope == scope {
            if rule.expiresAt.Some? && now > rule.expiresAt.value {
              continue;
            }
            result := result + rule.recipientKeyIds;
          }
        }
      }
      SortSorts(result);
      DedupMakesStrict(Sort(result));
      keys := Dedup(Sort(result));
    }
  }

  // ---- The abstract policy

  /** The keys of a scope and the expiry its first grant set. */
  datatype Grants = Grants(keys: set<Str>, expiresAt: Option<nat>)

  type Policy = map<Str, Grants>

  function AfterGrant(p: Policy, scope: Scope, key: Str, expiresAt: Option<nat>): Policy {
    if scope in p then p[scope := Grants(p[scope].keys + {key}, p[scope].expiresAt)]
    else p[scope := Grants({key}, expiresAt)]
  }

  function AfterRevoke(p: Policy, scope: Scope, key: Str): Policy {
    if scope in p then p[scope := Grants(p[scope].keys - {key}, p[scope].expiresAt)] else p
  }

  function KeySet(keys: seq<Str>): set<Str> {
    set k | k in keys
  }

  predicate NoRepeats(keys: seq<Str>) {
    forall i, j | 0 <= i < j < |keys| :: keys[i] != keys[j]
  }

  /** One rule per scope, no repeated key in a rule, and the map's content. */
  predicate Represents(rules: Rules, p: Policy) {
    && (forall i, j | 0 <= i < j < |rules| :: rules[i].scope != rules[j].scope)
    && (forall i | 0 <= i < |rules| ::
          && IsScope(rules[i].scope) && NoRepeats(rules[i].recipientKeyIds)
          && rules[i].scope in p && p[rules[i].scope] == Grants(KeySet(rules[i].recipientKeyIds), rules[i].expiresAt))
    && (forall s | s in p :: exists i | 0 <= i < |rules| :: rules[i].scope == s)
  }

  lemma {:induction false} WithoutHasNoRepeats(keys: seq<Str>, key: Str)
    requires NoRepeats(keys)
    ensures NoRepeats(Without(keys, key))
  {
    if keys != [] {
      WithoutHasNoRepeats(keys[1..], key);
      var r := Without(keys[1..], key);
      assert keys[0] !in keys[1..];
      assert forall j | 0 <= j < |r| :: r[j] in r;
    }
  }

  lemma UpdateRepresents(rules: Rules, p: Policy, i: nat, keys: seq<Str>)
    requires Represents(rules, p) && i < |rules| && NoRepeats(keys)
    ensures Represents(rules[i := rules[i].(recipientKeyIds := keys)],
                       p[rules[i].scope := Grants(KeySet(keys), rules[i].expiresAt)])
  {
    hide KeySet, NoRepeats, IsScope;
    var rules' := rules[i := rules[i].(recipientKeyIds := keys)];
    var p' := p[rules[i].scope := Grants(KeySet(keys), rules[i].expiresAt)];
    assert forall j | 0 <= j < |rules| :: rules'[j].scope == rules[j].scope;
    forall s | s in p'
      ensures exists j | 0 <= j < |rules'| :: rules'[j].scope == s
    {
      var j :| 0 <= j < |rules| && rules[j].scope == s;
      assert rules'[j].scope == s;
    }
  }

  /** Granting on the list refines granting on the map: the expiry of the first grant stays. */
  lemma GrantRefines(rules: Rules, p: Policy, scope: Scope, key: Str, expiresAt: Option<nat>)
    requires Represents(rules, p)
    ensures Represents(Granted(rules, scope, key, expiresAt), AfterGrant(p, scope, key, expiresAt))
  {
    hide IsScope;
    match FindRule(rules, scope)
    case Some(i) =>
      var keys := rules[i].recipientKeyIds;
      if key in keys {
        assert KeySet(keys) + {key} == KeySet(keys);
        assert p[scope := p[scope]] == p;
      } else {
        assert KeySet(keys + [key]) == KeySet(keys) + {key};
        UpdateRepresents(rules, p, i, keys + [key]);
      }
    case None =>
      assert KeySet([key]) == {key};
      assert scope !in p;
      AddRepresents(rules, p, AccessRule(scope, [key], expiresAt));
  }

  lemma AddRepresents(rules: Rules, p: Policy, rule: AccessRule)
    requires Represents(rules, p) && rule.scope !in p && IsScope(rule.scope) && NoRepeats(rule.recipientKeyIds)
    ensures Represents(rules + [rule], p[rule.scope := Grants(KeySet(rule.recipientKeyIds), rule.expiresAt)])
  {
    hide KeySet, NoRepeats, IsScope;
    var rules' := rules + [rule];
    var p' := p[rule.scope := Grants(KeySet(rule.recipientKeyIds), rule.expiresAt)];
    forall s | s in p'
      ensures exists j | 0 <= j < |rules'| :: rules'[j].scope == s
    {
      if s == rule.scope {
        assert rules'[|rules|].scope == s;
      } else {
        var j :| 0 <= j < |rules| && rules[j].scope == s;
        assert rules'[j].scope == s;
      }
    }
  }

  /** Revoking on the list refines revoking on the map: the scope stays, with one key less. */
  lemma RevokeRefines(rules: Rules, p: Policy, scope: Scope, key: Str)
    requires Represents(rules, p)
    ensures Represents(Revoked(rules, scope, key), AfterRevoke(p, scope, key))
  {
    match FindRule(rules, scope)
    case Some(i) =>
      var keys := rules[i].recipientKeyIds;
      WithoutHasNoRepeats(keys, key);
      assert KeySet(Without(keys, key)) == KeySet(keys) - {key};
      UpdateRepresents(rules, p, i, Without(keys, key));
    case None =>
      assert scope !in p;
  }

  datatype Op = Grant(scope: Scope, keyId: KeyId, expiresAt: Option<nat>) | Revoke(scope: Scope, keyId: KeyId)

  function RunOps(c: Crypto, rules: Rules, ops: seq<Op>): Rules
    decreases |ops|
  {
    if ops == [] then rules
    else
      match ops[0]
      case Grant(scope, keyId, expiresAt) =>
        RunOps(c, Granted(rules, scope, c.base58Encode(keyId), expiresAt), ops[1..])
      case Revoke(scope, keyId) => RunOps(c, Revoked(rules, scope, c.base58Encode(keyId)), ops[1..])
  }

  function Meaning(c: Crypto, p: Policy, ops: seq<Op>): Policy
    decreases |ops|
  {
    if ops == [] then p
    else
      match ops[0]
      case Grant(scope, keyId, expiresAt) =>
        Meaning(c, AfterGrant(p, scope, c.base58Encode(keyId), expiresAt), ops[1..])
      case Revoke(scope, keyId) => Meaning(c, AfterRevoke(p, scope, c.base58Encode(keyId)), ops[1..])
  }

  ghost predicate IsKeyText(c: Crypto, key: Str) {
    exists id: KeyId :: key == c.base58Encode(id)
  }

  /** Every key in a rule is the encoding of an 8-byte id. */
  ghost predicate Encoded(c: Crypto, rules: Rules) {
    forall i, j | 0 <= i < |rules| && 0 <= j < |rules[i].recipientKeyIds| :: IsKeyText(c, rules[i].recipientKeyIds[j])
  }

  lemma StepKeepsEncoded(c: Crypto, rules: Rules, scope: Scope, keyId: KeyId, expiresAt: Option<nat>)
    requires Encoded(c, rules)
    ensures Encoded(c, Granted(rules, scope, c.base58Encode(keyId), expiresAt))
    ensures Encoded(c, Revoked(rules, scope, c.base58Encode(keyId)))
  {
    var key := c.base58Encode(keyId);
    var revoked := Revoked(rules, scope, key);
    forall i, j | 0 <= i < |revoked| && 0 <= j < |revoked[i].recipientKeyIds|
      ensures IsKeyText(c, revoked[i].recipientKeyIds[j])
    {
      var k := revoked[i].recipientKeyIds[j];
      assert k in rules[i].recipientKeyIds;
      var l :| 0 <= l < |rules[i].recipientKeyIds| && rules[i].recipientKeyIds[l] == k;
    }
  }

  /** Any run of grants and revocations keeps one rule per scope without repeated keys, and acts on the map. */
  lemma {:induction false} RunRefines(c: Crypto, rules: Rules, p: Policy, ops: seq<Op>)
    requires Represents(rules, p) && Encoded(c, rules)
    ensures Represents(RunOps(c, rules, ops), Meaning(c, p, ops)) && Encoded(c, RunOps(c, rules, ops))
    decreases |ops|
  {
    hide Represents, Encoded, Granted, Revoked;
    if ops != [] {
      match ops[0]
      case Grant(scope, keyId, expiresAt) =>
        GrantRefines(rules, p, scope, c.base58Encode(keyId), expiresAt);
        StepKeepsEncoded(c, rules, scope, keyId, expiresAt);
        RunRefines(c, Granted(rules, scope, c.base58Encode(keyId), expiresAt),
                   AfterGrant(p, scope, c.base58Encode(keyId), expiresAt), ops[1..]);
      case Revoke(scope, keyId) =>
        RevokeRefines(rules, p, scope, c.base58Encode(keyId));
        StepKeepsEncoded(c, rules, scope, keyId, None);
        RunRefines(c, Revoked(rules, scope, c.base58Encode(keyId)),
                   AfterRevoke(p, scope, c.base58Encode(keyId)), ops[1..]);
    }
  }

  /** Who has access at a scope according to the map: the keys of unexpired entries at or above it. */
  ghost predicate MayAccess(p: Policy, scope: Scope, now: nat, key: Str) {
    exists s: Scope :: s in p && IsAncestorOf(s, scope) && key in p[s].keys
                       && !Expired(p[s].expiresAt, now)
  }

  /** The query on the rules is the query on the map. */
  lemma QueryRefines(rules: Rules, p: Policy, scope: Scope, now: nat, key: Str)
    requires Represents(rules, p)
    ensures (exists i | 0 <= i < |rules| :: Applies(rules[i], scope, now) && key in rules[i].recipientKeyIds)
            <==> MayAccess(p, scope, now, key)
  {
  }

  /** Moving to a descendant scope only adds keys; time only removes them. */
  lemma AccessGrowsDownwards(p: Policy, upper: Scope, lower: Scope, earlier: nat, later: nat, key: Str)
    requires IsAncestorOf(upper, lower) && earlier <= later
    requires MayAccess(p, upper, later, key)
    ensures MayAccess(p, lower, earlier, key)
  {
  }

  /**
    What a grant changes: one key gains access at or below the scope, and that only if the expiry
    in force there, which is that of the scope's first grant, has not passed.
   */
  lemma GrantChangesExactly(p: Policy, scope: Scope, key: Str, expiresAt: Option<nat>, target: Scope, now: nat,
                            other: Str)
    ensures MayAccess(AfterGrant(p, scope, key, expiresAt), target, now, other) <==>
              || MayAccess(p, target, now, other)
              || (other == key && IsAncestorOf(scope, target)
                  && !Expired(if scope in p then p[scope].expiresAt else expiresAt, now))
  {
    hide IsAncestorOf, IsScope;
    var after := AfterGrant(p, scope, key, expiresAt);
    if MayAccess(p, target, now, other) {
      var s: Scope :| s in p && IsAncestorOf(s, target) && other in p[s].keys
                      && !Expired(p[s].expiresAt, now);
      assert s in after && other in after[s].keys;
    }
    if other == key && IsAncestorOf(scope, target)
       && !Expired(if scope in p then p[scope].expiresAt else expiresAt, now) {
      assert scope in after && other in after[scope].keys;
    }
  }

  /** A grant on a rule that has expired changes nothing that the query shows. */
  lemma GrantOnExpiredIsVain(p: Policy, scope: Scope, key: Str, expiresAt: Option<nat>, target: Scope, now: nat,
                             other: Str)
    requires scope in p && Expired(p[scope].expiresAt, now)
    ensures MayAccess(AfterGrant(p, scope, key, expiresAt), target, now, other) <==> MayAccess(p, target, now, other)
  {
    GrantChangesExactly(p, scope, key, expiresAt, target, now, other);
  }

  /** What a revocation leaves: every access that does not rest on that key at that scope. */
  lemma RevokeChangesExactly(p: Policy, scope: Scope, key: Str, target: Scope, now: nat, other: Str)
    ensures MayAccess(AfterRevoke(p, scope, key), target, now, other) <==>
              if other == key then MayAccess(p - {scope}, target, now, other) else MayAccess(p, target, now, other)
  {
    hide IsAncestorOf, IsScope;
    var after := AfterRevoke(p, scope, key);
    var before := if other == key then p - {scope} else p;
    forall s: Scope
      ensures s in after && other in after[s].keys <==> s in before && other in before[s].keys
    {
    }
  }

  /** After any run on an empty policy, what the query returns is what the map grants. */
  lemma PolicyIsAMap(c: Crypto, ops: seq<Op>, scope: Scope, now: nat, keys: seq<Str>)
    requires var rules := RunOps(c, [], ops);
             forall k :: k in keys <==>
               exists i | 0 <= i < |rules| :: Applies(rules[i], scope, now) && k in rules[i].recipientKeyIds
    ensures forall k :: k in keys <==> MayAccess(Meaning(c, map[], ops), scope, now, k)
  {
    hide Applies, RunOps, Meaning, MayAccess;
    assert Represents([], map[]);
    RunRefines(c, [], map[], ops);
    forall k
      ensures k in keys <==> MayAccess(Meaning(c, map[], ops), scope, now, k)
    {
      QueryRefines(RunOps(c, [], ops), Meaning(c, map[], ops), scope, now, k);
    }
  }

  /**
    How long a grant lasts: with an expiry the query shows the key at or below the scope up to and
    including that second, and no longer; without one, always.
   */
  lemma GrantLastsThroughExpiry(c: Crypto, scope: Scope, keyId: KeyId, expiresAt: Option<nat>, target: Scope, now: nat)
    ensures var rules := RunOps(c, [], [Grant(scope, keyId, expiresAt)]);
            (exists i | 0 <= i < |rules| ::
               Applies(rules[i], target, now) && c.base58Encode(keyId) in rules[i].recipientKeyIds)
            <==> IsAncestorOf(scope, target) && (expiresAt.None? || now <= expiresAt.value)
  {
    hide IsAncestorOf;
    var key := c.base58Encode(keyId);
    var ops := [Grant(scope, keyId, expiresAt)];
    assert ops[1..] == [];
    assert RunOps(c, [], ops) == Granted([], scope, key, expiresAt) == [AccessRule(scope, [key], expiresAt)];
    assert [AccessRule(scope, [key], expiresAt)][0].recipientKeyIds == [key];
    AncestorOrder(scope, target, target);
  }

  // ---- Protobuf structs

  /** Key ids as raw bytes; an expiry of 0 stands for none. */
  datatype ProtoRule = ProtoRule(scope: Str, recipientKeyIds: seq<seq<byte>>, expiresAt: nat)

  function KeyToProto(c: Crypto, key: Str): seq<byte> {
    match c.base58Decode(key)
    case Some(bytes) => if |bytes| == 8 then bytes else []
    case None => []
  }

  function KeysToProto(c: Crypto, keys: seq<Str>): seq<seq<byte>> {
    seq(|keys|, i requires 0 <= i < |keys| => KeyToProto(c, keys[i]))
  }

  /** Ids of another length, and empty encodings, are dropped. */
  function KeysFromProto(c: Crypto, ids: seq<seq<byte>>): seq<Str> {
    if ids == [] then []
    else
      var key := if |ids[0]| == 8 then c.base58Encode(ids[0]) else [];
      (if key == [] then [] else [key]) + KeysFromProto(c, ids[1..])
  }

  function RuleToProto(c: Crypto, r: AccessRule): ProtoRule {
    ProtoRule(r.scope, KeysToProto(c, r.recipientKeyIds), if r.expiresAt.Some? then r.expiresAt.value else 0)
  }

  function RuleFromProto(c: Crypto, r: ProtoRule): AccessRule {
    AccessRule(r.scope, KeysFromProto(c, r.recipientKeyIds), if r.expiresAt == 0 then None else Some(r.expiresAt))
  }

  function ToProto(c: Crypto, rules: Rules): (r: seq<ProtoRule>)
    ensures |r| == |rules|
  {
    seq(|rules|, i requires 0 <= i < |rules| => RuleToProto(c, rules[i]))
  }

  function FromProto(c: Crypto, rules: seq<ProtoRule>): (r: Rules)
    ensures |r| == |rules|
  {
    seq(|rules|, i requires 0 <= i < |rules| => RuleFromProto(c, rules[i]))
  }

  lemma {:induction false} KeysFromProtoEncoded(c: Crypto, ids: seq<seq<byte>>, key: Str)
    requires key in KeysFromProto(c, ids)
    ensures IsKeyText(c, key)
  {
    if key in KeysFromProto(c, ids[1..]) {
      KeysFromProtoEncoded(c, ids[1..], key);
    } else {
      var id: KeyId := ids[0];
      assert key == c.base58Encode(id);
    }
  }

  lemma {:induction false} EncodedKeysReturn(c: Crypto, keys: seq<Str>)
    requires forall j | 0 <= j < |keys| :: IsKeyText(c, keys[j])
    ensures KeysFromProto(c, KeysToProto(c, keys)) == keys
  {
    if keys != [] {
      EncodedKeysReturn(c, keys[1..]);
      var id: KeyId :| keys[0] == c.base58Encode(id);
      assert c.base58Decode(keys[0]) == Some(id);
      var ids := KeysToProto(c, keys);
      assert ids[0] == id && ids[1..] == KeysToProto(c, keys[1..]);
      assert c.base58Encode(id) != [];
    }
  }

  /** The key texts of a rule come back exactly when each encodes an 8-byte id. */
  lemma KeysRoundTrip(c: Crypto, keys: seq<Str>)
    ensures KeysFromProto(c, KeysToProto(c, keys)) == keys <==> forall j | 0 <= j < |keys| :: IsKeyText(c, keys[j])
  {
    if forall j | 0 <= j < |keys| :: IsKeyText(c, keys[j]) {
      EncodedKeysReturn(c, keys);
    }
    if KeysFromProto(c, KeysToProto(c, keys)) == keys {
      forall j | 0 <= j < |keys|
        ensures IsKeyText(c, keys[j])
      {
        KeysFromProtoEncoded(c, KeysToProto(c, keys), keys[j]);
      }
    }
  }

  /**
    The structs carry a policy's rules exactly when no rule expires at time 0 and every key text
    encodes an 8-byte id, as after any run of grants and revocations it does.
   */
  lemma ProtoRoundTrip(c: Crypto, rules: Rules)
    ensures FromProto(c, ToProto(c, rules)) == rules
            <==> Encoded(c, rules) && forall i | 0 <= i < |rules| :: rules[i].expiresAt != Some(0)
  {
    hide IsKeyText, KeysFromProto, KeysToProto;
    var back := FromProto(c, ToProto(c, rules));
    forall i | 0 <= i < |rules|
      ensures back[i] == rules[i] <==>
                && rules[i].expiresAt != Some(0)
                && forall j | 0 <= j < |rules[i].recipientKeyIds| :: IsKeyText(c, rules[i].recipientKeyIds[j])
    {
      assert back[i] == RuleFromProto(c, RuleToProto(c, rules[i]));
      KeysRoundTrip(c, rules[i].recipientKeyIds);
    }
  }
}
