/**
  What the signed bytes say about an envelope. The scope is signed without its length, so
  the signed bytes determine the envelope up to the length of its scope, and no further.
 */
module SignedBytes {
  import opened Basics
  import opened Fields
  import opened Scopes
  import opened Envelopes

  /** The counts fit the u32 and u64 fields they are signed in. */
  predicate FitsSigned(e: Envelope) {
    && |MlkemBytes(e)| < 0x1_0000_0000
    && |e.accessEntries| < 0x1_0000_0000
    && (forall i | 0 <= i < |e.accessEntries| :: |e.accessEntries[i].wrappedDataKey| < 0x1_0000_0000)
    && |e.ciphertext| < 0x1_0000_0000_0000_0000
  }

  /** Equal in every field but the signature, an empty ML-KEM ciphertext counting as none. */
  predicate SameButSignature(a: Envelope, b: Envelope) {
    Normalize(a).(signature := b.signature) == Normalize(b)
  }

  lemma CancelLE(m: nat, n: nat, w: nat, s: seq<byte>, t: seq<byte>)
    requires m < Pow256(w) && n < Pow256(w) && LE(m, w) + s == LE(n, w) + t
    ensures m == n && s == t
  {
    Cancel(LE(m, w), s, LE(n, w), t);
    LEToNat(m, w);
    LEToNat(n, w);
  }

  lemma CancelBlock(a: seq<byte>, s: seq<byte>, b: seq<byte>, t: seq<byte>, w: nat)
    requires |a| < Pow256(w) && |b| < Pow256(w) && PutBlock(a, w, s) == PutBlock(b, w, t)
    ensures a == b && s == t
  {
    CancelLE(|a|, |b|, w, a + s, b + t);
    Cancel(a, s, b, t);
  }

  lemma {:induction false} CancelEntries(a: seq<AccessEntry>, s: seq<byte>, b: seq<AccessEntry>, t: seq<byte>)
    requires |a| == |b| && PutEntries(a, 4, s) == PutEntries(b, 4, t)
    requires forall i | 0 <= i < |a| :: |a[i].wrappedDataKey| < 0x1_0000_0000
    requires forall i | 0 <= i < |b| :: |b[i].wrappedDataKey| < 0x1_0000_0000
    ensures a == b && s == t
  {
    if a != [] {
      Widths();
      var sa, sb := PutEntries(a[1..], 4, s), PutEntries(b[1..], 4, t);
      Cancel(a[0].readKeyId, PutBlock(a[0].wrappedDataKey, 4, a[0].wrapNonce + sa),
             b[0].readKeyId, PutBlock(b[0].wrappedDataKey, 4, b[0].wrapNonce + sb));
      CancelBlock(a[0].wrappedDataKey, a[0].wrapNonce + sa, b[0].wrappedDataKey, b[0].wrapNonce + sb, 4);
      Cancel(a[0].wrapNonce, sa, b[0].wrapNonce, sb);
      CancelEntries(a[1..], s, b[1..], t);
      assert a == [a[0]] + a[1..] && b == [b[0]] + b[1..];
    }
  }

  lemma CancelKeys(a: Envelope, s: seq<byte>, b: Envelope, t: seq<byte>)
    requires FitsSigned(a) && FitsSigned(b) && PutKeys(a, 4, s) == PutKeys(b, 4, t)
    ensures a.ephemeralPublic == b.ephemeralPublic && MlkemBytes(a) == MlkemBytes(b)
    ensures a.accessEntries == b.accessEntries && s == t
  {
    Widths();
    var na, nb := |a.accessEntries|, |b.accessEntries|;
    var ea, eb := PutEntries(a.accessEntries, 4, s), PutEntries(b.accessEntries, 4, t);
    Cancel(a.ephemeralPublic, PutBlock(MlkemBytes(a), 4, LE(na, 4) + ea),
           b.ephemeralPublic, PutBlock(MlkemBytes(b), 4, LE(nb, 4) + eb));
    CancelBlock(MlkemBytes(a), LE(na, 4) + ea, MlkemBytes(b), LE(nb, 4) + eb, 4);
    CancelLE(na, nb, 4, ea, eb);
    CancelEntries(a.accessEntries, s, b.accessEntries, t);
  }

  lemma CancelTrailer(a: Envelope, b: Envelope)
    requires FitsSigned(a) && FitsSigned(b) && PutTrailer(a, []) == PutTrailer(b, [])
    ensures a.nonce == b.nonce && a.ciphertext == b.ciphertext
    ensures a.tag == b.tag && a.spendPublicKey == b.spendPublicKey
  {
    Widths();
    var sa, sb := a.spendPublicKey + [], b.spendPublicKey + [];
    Cancel(a.nonce, PutBlock(a.ciphertext, 8, a.tag + sa), b.nonce, PutBlock(b.ciphertext, 8, b.tag + sb));
    CancelBlock(a.ciphertext, a.tag + sa, b.ciphertext, b.tag + sb, 8);
    Cancel(a.tag, sa, b.tag, sb);
    Cancel(a.spendPublicKey, [], b.spendPublicKey, []);
  }

  lemma CancelHeader(a: Envelope, s: seq<byte>, b: Envelope, t: seq<byte>)
    requires |a.scope| == |b.scope|
    requires LE(a.version, 4) + ([a.algorithm.AsU8()] + ([a.accessMode.AsU8()] + (a.scope + s)))
          == LE(b.version, 4) + ([b.algorithm.AsU8()] + ([b.accessMode.AsU8()] + (b.scope + t)))
    ensures a.version == b.version && a.algorithm == b.algorithm && a.accessMode == b.accessMode
    ensures a.scope == b.scope && s == t
  {
    Widths();
    var a2, b2 := [a.accessMode.AsU8()] + (a.scope + s), [b.accessMode.AsU8()] + (b.scope + t);
    CancelLE(a.version, b.version, 4, [a.algorithm.AsU8()] + a2, [b.algorithm.AsU8()] + b2);
    Cancel([a.algorithm.AsU8()], a2, [b.algorithm.AsU8()], b2);
    assert a.algorithm == b.algorithm by {
      assert [a.algorithm.AsU8()][0] == [b.algorithm.AsU8()][0];
    }
    Cancel([a.accessMode.AsU8()], a.scope + s, [b.accessMode.AsU8()], b.scope + t);
    assert a.accessMode == b.accessMode by {
      assert [a.accessMode.AsU8()][0] == [b.accessMode.AsU8()][0];
    }
    Cancel(a.scope, s, b.scope, t);
  }

  /**
    Envelopes with the same signed bytes are the same envelope, up to the signature, exactly
    when their scopes have the same length.
   */
  lemma SignedBytesDetermineEnvelope(a: Envelope, b: Envelope)
    requires FitsSigned(a) && FitsSigned(b) && Signable(a) == Signable(b)
    ensures SameButSignature(a, b) <==> |a.scope| == |b.scope|
  {
    if |a.scope| == |b.scope| {
      var sa, sb := PutTrailer(a, []), PutTrailer(b, []);
      CancelHeader(a, PutKeys(a, 4, sa), b, PutKeys(b, 4, sb));
      CancelKeys(a, sa, b, sb);
      CancelTrailer(a, b);
    }
  }

  /** At one scope length, envelopes are signed alike exactly when they are the same up to the signature. */
  lemma SignedExactly(a: Envelope, b: Envelope)
    requires FitsSigned(a) && FitsSigned(b) && |a.scope| == |b.scope|
    ensures Signable(a) == Signable(b) <==> SameButSignature(a, b)
  {
    hide Signable;
    if Signable(a) == Signable(b) {
      SignedBytesDetermineEnvelope(a, b);
    }
    if SameButSignature(a, b) {
      SignedWithoutSignature(a, b.signature);
      SignedWithoutSignature(b, b.signature);
    }
  }

  lemma SignedWithoutSignature(e: Envelope, signature: Bytes64)
    ensures Signable(Normalize(e).(signature := signature)) == Signable(e)
  {
  }

  function Blank(scope: Scope, ephemeral: Bytes32, nonce: Bytes12, ciphertext: seq<byte>): Envelope {
    Envelope(2, EciesX25519ChaCha20, scope, ephemeral, None, [], nonce, ciphertext, Zeros(16), Zeros(64), Zeros(32),
             ScopeBased)
  }

  /** An envelope at `/a`, and one at `/aa` whose scope takes the first byte of the fields behind it. */
  function ShortTwin(): Envelope {
    Blank([SLASH, 0x61], [0x61] + Zeros(31), Zeros(12), [0])
  }

  function LongTwin(): Envelope {
    Blank([SLASH, 0x61, 0x61], Zeros(32), Zeros(11) + [1], [])
  }

  /** The condition on scope lengths is needed: the twins have one signed form. */
  lemma ScopeLengthMatters()
    ensures FitsSigned(ShortTwin()) && FitsSigned(LongTwin())
    ensures Signable(ShortTwin()) == Signable(LongTwin())
    ensures ShortTwin().scope != LongTwin().scope && !SameButSignature(ShortTwin(), LongTwin())
  {
    var x: byte := 0x61;
    var a, b := ShortTwin(), LongTwin();
    TrailersMatch(a, b);
    KeysMatch(a, b, x, PutTrailer(b, []));
    ScopeMatch(a.scope, b.scope, x, PutKeys(b, 4, PutTrailer(b, [])));
    assert Signable(a) == Signable(b);
  }

  lemma ScopeMatch(s: Str, t: Str, x: byte, tail: seq<byte>)
    requires t == s + [x]
    ensures s + ([x] + tail) == t + tail
  {
  }

  lemma LastOfLE()
    ensures LE(1, 8) == [1] + Zeros(7)
  {
  }

  lemma TrailersMatch(a: Envelope, b: Envelope)
    requires a.nonce == Zeros(12) && a.ciphertext == [0] && a.tag == Zeros(16) && a.spendPublicKey == Zeros(32)
    requires b.nonce == Zeros(11) + [1] && b.ciphertext == [] && b.tag == Zeros(16) && b.spendPublicKey == Zeros(32)
    ensures PutTrailer(a, []) == [0] + PutTrailer(b, [])
  {
    LastOfLE();
    ZeroLE(8);
    assert PutTrailer(a, []) == Zeros(12) + [1] + Zeros(56);
    assert PutTrailer(b, []) == Zeros(11) + [1] + Zeros(56);
  }

  lemma KeysMatch(a: Envelope, b: Envelope, x: byte, t: seq<byte>)
    requires a.ephemeralPublic == [x] + Zeros(31) && b.ephemeralPublic == Zeros(32)
    requires MlkemBytes(a) == MlkemBytes(b) == [] && a.accessEntries == b.accessEntries == []
    ensures PutKeys(a, 4, [0] + t) == [x] + PutKeys(b, 4, t)
  {
  }

  lemma {:induction false} ZeroLE(w: nat)
    ensures LE(0, w) == Zeros(w)
  {
    if w > 0 {
      ZeroLE(w - 1);
    }
  }
}
