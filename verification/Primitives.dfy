/**
  The library primitives, as a record of functions with the functional laws the system relies
  on, and a small symbolic instance that satisfies all of them. Nothing is assumed about
  secrecy or about collisions; where a result needs distinct key ids it says so.
 */
module Primitives {
  import opened Basics

  datatype Primitives = Primitives(
    hkdf: (seq<byte>, seq<byte>, seq<byte>) -> Bytes32,  // salt, input key, info
    sha256: seq<byte> -> Bytes32,
    x25519Public: Bytes32 -> Bytes32,
    x25519: (Bytes32, Bytes32) -> Bytes32,
    ed25519Public: Bytes32 -> Bytes32,
    ed25519IsKey: Bytes32 -> bool,
    ed25519Sign: (Bytes32, seq<byte>) -> Bytes64,
    ed25519Verify: (Bytes32, seq<byte>, Bytes64) -> bool,
    chachaSeal: (Bytes32, Bytes12, seq<byte>) -> seq<byte>,
    chachaOpen: (Bytes32, Bytes12, seq<byte>) -> Option<seq<byte>>,
    sivSeal: (Bytes32, Bytes12, seq<byte>) -> seq<byte>,
    sivOpen: (Bytes32, Bytes12, seq<byte>) -> Option<seq<byte>>,
    kemPrivate: Bytes32 -> seq<byte>,  // from the generator's seed
    kemPublic: Bytes32 -> seq<byte>,
    kemCiphertext: (seq<byte>, Bytes32) -> seq<byte>,  // public key, coins
    kemShared: (seq<byte>, Bytes32) -> seq<byte>,
    kemDecapsulate: (seq<byte>, seq<byte>) -> Option<seq<byte>>,
    base58Encode: seq<byte> -> Str,
    base58Decode: Str -> Option<seq<byte>>)
  {
    /** Both sides of an exchange agree (RFC 7748, section 6.1). */
    ghost predicate ExchangeAgrees() {
      forall a: Bytes32, b: Bytes32 :: x25519(a, x25519Public(b)) == x25519(b, x25519Public(a))
    }

    /** A signature verifies under the signer's public key (RFC 8032, section 5.1). */
    ghost predicate SignaturesVerify() {
      && (forall sk: Bytes32 :: ed25519IsKey(ed25519Public(sk)))
      && (forall sk: Bytes32, m: seq<byte> :: ed25519Verify(ed25519Public(sk), m, ed25519Sign(sk, m)))
    }

    /** Opening undoes sealing; the tag takes 16 bytes (RFC 8439, section 2.8; RFC 8452, section 4). */
    ghost predicate SealsOpen() {
      && (forall k: Bytes32, n: Bytes12, p: seq<byte> ::
            |chachaSeal(k, n, p)| == |p| + 16 && chachaOpen(k, n, chachaSeal(k, n, p)) == Some(p))
      && (forall k: Bytes32, n: Bytes12, p: seq<byte> ::
            |sivSeal(k, n, p)| == |p| + 16 && sivOpen(k, n, sivSeal(k, n, p)) == Some(p))
    }

    /** Decapsulation undoes encapsulation on 1088-byte ciphertexts (FIPS 203, section 7). */
    ghost predicate KemAgrees() {
      && (forall seed: Bytes32, r: Bytes32 ::
            && |kemCiphertext(kemPublic(seed), r)| == 1088
            && kemDecapsulate(kemPrivate(seed), kemCiphertext(kemPublic(seed), r))
               == Some(kemShared(kemPublic(seed), r)))
      && (forall dk: seq<byte>, ct: seq<byte> | |ct| != 1088 :: kemDecapsulate(dk, ct) == None)
    }

    ghost predicate Base58Inverts() {
      && (forall b: seq<byte> :: base58Decode(base58Encode(b)) == Some(b))
      && (forall b: seq<byte> | b != [] :: base58Encode(b) != [])
    }

    ghost predicate Lawful() {
      ExchangeAgrees() && SignaturesVerify() && SealsOpen() && KemAgrees() && Base58Inverts()
    }
  }

  type Crypto = c: Primitives | c.Lawful() witness (SymbolicIsLawful(); SYMBOLIC)

  // ---- A symbolic instance

  /** The first `n` bytes, padded with zeros. */
  function Fit(s: seq<byte>, n: nat): (r: seq<byte>)
    ensures |r| == n
  {
    if |s| >= n then s[..n] else s + Zeros(n - |s|)
  }

  function Mix(a: seq<byte>, b: seq<byte>): (r: Bytes32) {
    var x, y := Fit(a, 32), Fit(b, 32);
    seq(32, i requires 0 <= i < 32 => (x[i] as int + y[i] as int) % 256)
  }

  function SealWith(k: Bytes32, p: seq<byte>): seq<byte> {
    p + k[..16]
  }

  function OpenWith(k: Bytes32, c: seq<byte>): Option<seq<byte>> {
    if |c| >= 16 && c[|c| - 16..] == k[..16] then Some(c[..|c| - 16]) else None
  }

  lemma OpenSeal(k: Bytes32, p: seq<byte>)
    ensures OpenWith(k, SealWith(k, p)) == Some(p)
  {
  }

  lemma FitPrefix(s: Bytes32, n: nat)
    requires n >= 32
    ensures Fit(Fit(s, n), 32) == s
  {
  }

  const SYMBOLIC: Primitives := Primitives(
    (salt: seq<byte>, ikm: seq<byte>, info: seq<byte>) => Mix(salt, Mix(ikm, info)),
    (m: seq<byte>) => Fit(m, 32),
    (a: Bytes32) => a,
    (a: Bytes32, b: Bytes32) => Mix(a, b),
    (sk: Bytes32) => sk,
    (vk: Bytes32) => true,
    (sk: Bytes32, m: seq<byte>) => sk + Fit(m, 32),
    (vk: Bytes32, m: seq<byte>, s: Bytes64) => s == vk + Fit(m, 32),
    (k: Bytes32, n: Bytes12, p: seq<byte>) => SealWith(k, p),
    (k: Bytes32, n: Bytes12, c: seq<byte>) => OpenWith(k, c),
    (k: Bytes32, n: Bytes12, p: seq<byte>) => SealWith(k, p),
    (k: Bytes32, n: Bytes12, c: seq<byte>) => OpenWith(k, c),
    (seed: Bytes32) => seed,
    (seed: Bytes32) => seed,
    (pk: seq<byte>, r: Bytes32) => Fit(r, 1088),
    (pk: seq<byte>, r: Bytes32) => Mix(pk, r),
    (dk: seq<byte>, ct: seq<byte>) => if |ct| == 1088 then Some(Mix(dk, Fit(ct, 32))) else None,
    (b: seq<byte>) => b,
    (s: Str) => Some(s))

  /** The laws are consistent: this instance satisfies them. */
  lemma SymbolicIsLawful()
    ensures SYMBOLIC.Lawful()
  {
    forall a: Bytes32, b: Bytes32
      ensures SYMBOLIC.x25519(a, SYMBOLIC.x25519Public(b)) == SYMBOLIC.x25519(b, SYMBOLIC.x25519Public(a))
    {
      assert Mix(a, b) == Mix(b, a);
    }
    forall k: Bytes32, p: seq<byte>
      ensures OpenWith(k, SealWith(k, p)) == Some(p)
    {
      OpenSeal(k, p);
    }
    forall r: Bytes32
      ensures Fit(Fit(r, 1088), 32) == r
    {
      FitPrefix(r, 1088);
    }
    assert SYMBOLIC.KemAgrees() by {
      forall seed: Bytes32, r: Bytes32
        ensures SYMBOLIC.kemDecapsulate(SYMBOLIC.kemPrivate(seed), SYMBOLIC.kemCiphertext(SYMBOLIC.kemPublic(seed), r))
             == Some(SYMBOLIC.kemShared(SYMBOLIC.kemPublic(seed), r))
      {
        assert Fit(r, 32) == r;
      }
    }
  }
}
