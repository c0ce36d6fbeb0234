/** Conversions between native envelopes and the protobuf structs. */
module Proto {
  import opened Basics
  import opened Scopes
  import opened Primitives
  import opened Keys
  import opened Envelopes
  import opened Encryption
  import opened Access
  import opened Sectioned

  datatype ProtoEntry = ProtoEntry(readKeyId: seq<byte>, wrappedDataKey: seq<byte>, wrapNonce: seq<byte>)

  datatype ProtoEnvelope = ProtoEnvelope(
    version: u32,
    algorithm: int,
    scope: Str,
    ephemeralPublic: seq<byte>,
    mlkemCiphertext: seq<byte>,
    accessEntries: seq<ProtoEntry>,
    nonce: seq<byte>,
    ciphertext: seq<byte>,
    tag: seq<byte>,
    spendPublicKey: seq<byte>,
    signature: seq<byte>,
    accessMode: int)

  datatype ProtoSection = ProtoSection(name: Name, envelope: Option<ProtoEnvelope>)

  datatype ProtoContainer = ProtoContainer(version: u32, sections: seq<ProtoSection>)

  function EntryToProto(e: AccessEntry): ProtoEntry {
    ProtoEntry(e.readKeyId, e.wrappedDataKey, e.wrapNonce)
  }

  function EntryFromProto(p: ProtoEntry): Result<AccessEntry> {
    if |p.readKeyId| != 8 then Err(SerializationError)
    else if |p.wrapNonce| != 12 then Err(SerializationError)
    else Ok(AccessEntry(p.readKeyId, p.wrappedDataKey, p.wrapNonce))
  }

  function EntriesToProto(es: seq<AccessEntry>): (ps: seq<ProtoEntry>)
    ensures |ps| == |es| && forall i | 0 <= i < |es| :: ps[i] == EntryToProto(es[i])
  {
    seq(|es|, i requires 0 <= i < |es| => EntryToProto(es[i]))
  }

  /** All entries converted, or the first one's error (both errors are one variant). */
  function EntriesFromProto(ps: seq<ProtoEntry>): (r: Result<seq<AccessEntry>>)
    ensures r.Ok? <==> forall i | 0 <= i < |ps| :: EntryFromProto(ps[i]).Ok?
    ensures r.Ok? ==> |r.value| == |ps| && forall i | 0 <= i < |ps| :: EntryFromProto(ps[i]) == Ok(r.value[i])
  {
    if exists i | 0 <= i < |ps| :: EntryFromProto(ps[i]).Err? then Err(SerializationError)
    else Ok(seq(|ps|, i requires 0 <= i < |ps| => EntryFromProto(ps[i]).value))
  }

  function AlgorithmToProto(a: Algorithm): int {
    match a
    case EciesX25519ChaCha20 => 1
    case HybridX25519MlKemChaCha20 => 2
  }

  /** Value 0 is the unspecified algorithm; other values are unknown. All are errors. */
  function AlgorithmFromProto(v: int): Result<Algorithm> {
    match v
    case 1 => Ok(EciesX25519ChaCha20)
    case 2 => Ok(HybridX25519MlKemChaCha20)
    case _ => Err(SerializationError)
  }

  function ModeToProto(m: AccessMode): int {
    match m
    case PerRecipient => 0
    case ScopeBased => 1
  }

  function ModeFromProto(v: int): Result<AccessMode> {
    match v
    case 0 => Ok(PerRecipient)
    case 1 => Ok(ScopeBased)
    case _ => Err(SerializationError)
  }

  function ToProto(e: Envelope): ProtoEnvelope {
    ProtoEnvelope(e.version, AlgorithmToProto(e.algorithm), e.scope, e.ephemeralPublic, MlkemBytes(e),
                  EntriesToProto(e.accessEntries), e.nonce, e.ciphertext, e.tag, e.spendPublicKey, e.signature,
                  ModeToProto(e.accessMode))
  }

  /** The checks of `try_from`, in order. */
  function FromProto(p: ProtoEnvelope): Result<Envelope> {
    var algorithm :- AlgorithmFromProto(p.algorithm);
    var scope :- New(p.scope);
    if |p.ephemeralPublic| != 32 then Err(SerializationError)
    else
      var entries :- EntriesFromProto(p.accessEntries);
      if |p.nonce| != 12 || |p.tag| != 16 || |p.spendPublicKey| != 32 || |p.signature| != 64 then
        Err(SerializationError)
      else
        var mode :- ModeFromProto(p.accessMode);
        Ok(Envelope(p.version, algorithm, scope, p.ephemeralPublic,
                    if p.mlkemCiphertext == [] then None else Some(p.mlkemCiphertext), entries, p.nonce, p.ciphertext,
                    p.tag, p.signature, p.spendPublicKey, mode))
  }

  /** `EncryptedEnvelope::try_from`, with its loop over the entries. */
  method EnvelopeFromProto(p: ProtoEnvelope) returns (r: Result<Envelope>)
    ensures r == FromProto(p)
  {
    var algorithm :- AlgorithmFromProto(p.algorithm);
    var scope :- New(p.scope);
    if |p.ephemeralPublic| != 32 {
      return Err(SerializationError);
    }
    var mlkem := if p.mlkemCiphertext == [] then None else Some(p.mlkemCiphertext);
    var entries := [];
    for i := 0 to |p.accessEntries|
      invariant |entries| == i
      invariant forall j | 0 <= j < i :: EntryFromProto(p.accessEntries[j]) == Ok(entries[j])
    {
      var entry :- EntryFromProto(p.accessEntries[i]);
      entries := entries + [entry];
    }
    assert EntriesFromProto(p.accessEntries).value == entries;
    if |p.nonce| != 12 || |p.tag| != 16 || |p.spendPublicKey| != 32 || |p.signature| != 64 {
      return Err(SerializationError);
    }
    var mode :- ModeFromProto(p.accessMode);
    r := Ok(Envelope(p.version, algorithm, scope, p.ephemeralPublic, mlkem, entries, p.nonce, p.ciphertext, p.tag,
                     p.signature, p.spendPublicKey, mode));
  }

  /**
    The structs accepted by `try_from` are exactly the images of envelopes: every envelope comes
    back in normal form, whatever its version and lengths, and every accepted struct is the image of its result.
   */
  lemma ProtoRoundTrip(e: Envelope, p: ProtoEnvelope)
    ensures FromProto(ToProto(e)) == Ok(Normalize(e))
    ensures FromProto(p).Ok? ==> ToProto(FromProto(p).value) == p
  {
    EntriesRoundTrip(e.accessEntries, p.accessEntries);
    if FromProto(p).Ok? {
      var v := FromProto(p).value;
      assert v.accessEntries == EntriesFromProto(p.accessEntries).value;
      assert MlkemBytes(v) == p.mlkemCiphertext;
    }
  }

  lemma EntriesRoundTrip(es: seq<AccessEntry>, ps: seq<ProtoEntry>)
    ensures EntriesFromProto(EntriesToProto(es)) == Ok(es)
    ensures EntriesFromProto(ps).Ok? ==> EntriesToProto(EntriesFromProto(ps).value) == ps
  {
    var qs := EntriesToProto(es);
    assert forall i | 0 <= i < |es| :: EntryFromProto(qs[i]) == Ok(es[i]);
    assert EntriesFromProto(qs).value == es;
    if EntriesFromProto(ps).Ok? {
      assert EntriesToProto(EntriesFromProto(ps).value) == ps;
    }
  }

  predicate EntryMatches(p: ProtoEntry, e: AccessEntry) {
    p.readKeyId == e.readKeyId && p.wrappedDataKey == e.wrappedDataKey && p.wrapNonce == e.wrapNonce
  }

  /** Every field of the struct is that of the envelope; an absent ML-KEM ciphertext is an empty one. */
  predicate StructMatches(p: ProtoEnvelope, e: Envelope) {
    && p.version == e.version && p.algorithm == (if e.algorithm == EciesX25519ChaCha20 then 1 else 2)
    && p.scope == e.scope && p.ephemeralPublic == e.ephemeralPublic && p.mlkemCiphertext == MlkemBytes(e)
    && |p.accessEntries| == |e.accessEntries|
    && (forall i | 0 <= i < |e.accessEntries| :: EntryMatches(p.accessEntries[i], e.accessEntries[i]))
    && p.nonce == e.nonce && p.ciphertext == e.ciphertext && p.tag == e.tag
    && p.spendPublicKey == e.spendPublicKey && p.signature == e.signature
    && p.accessMode == (if e.accessMode == PerRecipient then 0 else 1)
  }

  /** Both conversions keep every field in its place, so a struct is accepted exactly if it matches an envelope. */
  lemma StructsMatchExactly(p: ProtoEnvelope, e: Envelope)
    ensures ToProto(e) == p <==> StructMatches(p, e)
    ensures FromProto(p) == Ok(e) <==> StructMatches(p, e) && Normalize(e) == e
  {
    hide FromProto, EntriesFromProto;
    ProtoRoundTrip(e, p);
    StructOfEnvelope(p, e);
    if FromProto(p) == Ok(e) {
      NormalStruct(p, e);
    }
  }

  lemma StructOfEnvelope(p: ProtoEnvelope, e: Envelope)
    ensures ToProto(e) == p <==> StructMatches(p, e)
  {
    if StructMatches(p, e) {
      assert p.accessEntries == EntriesToProto(e.accessEntries);
    }
  }

  lemma NormalStruct(p: ProtoEnvelope, e: Envelope)
    requires FromProto(p) == Ok(e)
    ensures Normalize(e) == e
  {
    hide EntriesFromProto, IsScope;
  }

  /** The copy restored through the structs signs and decrypts like the original, for every key. */
  lemma ProtoCopyDecryptsAlike(c: Crypto, e: Envelope, k: ReadKeyPair, vk: Bytes32)
    ensures FromProto(ToProto(e)).Ok?
    ensures Signable(FromProto(ToProto(e)).value) == Signable(e)
    ensures Decrypt(c, FromProto(ToProto(e)).value, k, vk) == Decrypt(c, e, k, vk)
  {
    ProtoRoundTrip(e, ToProto(e));
    NormalFormDecryptsAlike(c, e, k, vk);
  }

  // ---- Containers

  function SectionToProto(s: Section): ProtoSection {
    ProtoSection(s.name, Some(ToProto(s.envelope)))
  }

  function SectionFromProto(p: ProtoSection): Result<Section> {
    match p.envelope
    case None => Err(SerializationError)
    case Some(proto) =>
      match FromProto(proto)
      case Ok(envelope) => Ok(Section(p.name, envelope))
      case Err(error) => Err(error)
  }

  function ContainerToProto(k: Container): ProtoContainer {
    ProtoContainer(k.version, seq(|k.sections|, i requires 0 <= i < |k.sections| => SectionToProto(k.sections[i])))
  }

  function SectionsFromProto(ps: seq<ProtoSection>): Result<seq<Section>> {
    if ps == [] then Ok([])
    else
      match SectionFromProto(ps[0])
      case Err(error) => Err(error)
      case Ok(section) =>
        match SectionsFromProto(ps[1..])
        case Err(error) => Err(error)
        case Ok(rest) => Ok([section] + rest)
  }

  function ContainerFromProto(p: ProtoContainer): Result<Container> {
    match SectionsFromProto(p.sections)
    case Ok(sections) => Ok(Container(p.version, sections))
    case Err(error) => Err(error)
  }

  /** `SectionedEnvelope::try_from`: the loop over the sections stops at the first error. */
  method SectionedFromProto(p: ProtoContainer) returns (r: Result<Container>)
    ensures r == ContainerFromProto(p)
  {
    hide SectionFromProto;
    var sections := [];
    assert p.sections[0..] == p.sections;
    assert forall rest: seq<Section> :: sections + rest == rest;
    for i := 0 to |p.sections|
      invariant match SectionsFromProto(p.sections[i..])
                case Ok(rest) => SectionsFromProto(p.sections) == Ok(sections + rest)
                case Err(error) => SectionsFromProto(p.sections) == Err(error)
    {
      assert p.sections[i..][0] == p.sections[i] && p.sections[i..][1..] == p.sections[i + 1..];
      var section :- SectionFromProto(p.sections[i]);
      ghost var before := sections;
      sections := sections + [section];
      assert forall rest: seq<Section> :: before + ([section] + rest) == sections + rest;
    }
    assert sections + [] == sections;
    r := Ok(Container(p.version, sections));
  }

  lemma {:induction false} SectionsRestored(ss: seq<Section>, ps: seq<ProtoSection>)
    requires |ps| == |ss| && forall i | 0 <= i < |ss| :: ps[i] == SectionToProto(ss[i])
    ensures SectionsFromProto(ps) == Ok(NormalizeSections(ss))
  {
    if ss != [] {
      SectionsRestored(ss[1..], ps[1..]);
      ProtoRoundTrip(ss[0].envelope, ToProto(ss[0].envelope));
      assert SectionFromProto(ps[0]) == Ok(NormalizeSection(ss[0]));
      assert NormalizeSections(ss) == [NormalizeSection(ss[0])] + NormalizeSections(ss[1..]);
    }
  }

  /** Containers survive the protobuf structs without any bound on lengths or versions. */
  lemma ContainerProtoRoundTrip(k: Container)
    ensures ContainerFromProto(ContainerToProto(k)) == Ok(NormalizeContainer(k))
  {
    SectionsRestored(k.sections, ContainerToProto(k).sections);
  }

  /** A refused struct: an invalid scope behind a known algorithm, or anything else wrong. */
  lemma StructErrors(p: ProtoEnvelope)
    ensures FromProto(p).Err? ==>
              FromProto(p).error ==
              if (p.algorithm == 1 || p.algorithm == 2) && !IsScope(p.scope) then InvalidScope else SerializationError
  {
    hide IsScope;
    EntriesErrors(p.accessEntries);
  }

  lemma EntriesErrors(ps: seq<ProtoEntry>)
    ensures EntriesFromProto(ps).Err? ==> EntriesFromProto(ps) == Err(SerializationError)
  {
  }

  /** The first section that does not convert. */
  predicate FirstBad(ps: seq<ProtoSection>, i: nat) {
    i < |ps| && SectionFromProto(ps[i]).Err? && forall j | 0 <= j < i :: SectionFromProto(ps[j]).Ok?
  }

  /**
    A container struct converts exactly when every section has an envelope that does; names and
    order stay. Otherwise the error is that of the first section that does not.
   */
  lemma {:induction false} SectionsExactly(ps: seq<ProtoSection>)
    ensures match SectionsFromProto(ps)
            case Ok(ss) =>
              && |ss| == |ps|
              && forall i | 0 <= i < |ps| ::
                   && ps[i].envelope.Some? && ss[i].name == ps[i].name
                   && FromProto(ps[i].envelope.value) == Ok(ss[i].envelope)
            case Err(error) =>
              exists i: nat :: FirstBad(ps, i)
                && error == match ps[i].envelope
                            case None => SerializationError
                            case Some(proto) => FromProto(proto).error
  {
    hide FromProto;
    if ps != [] {
      SectionsExactly(ps[1..]);
      if SectionFromProto(ps[0]).Err? {
        assert FirstBad(ps, 0);
      } else if i: nat :| FirstBad(ps[1..], i) {
        BadLater(ps, i);
      }
    }
  }

  lemma BadLater(ps: seq<ProtoSection>, i: nat)
    requires ps != [] && SectionFromProto(ps[0]).Ok? && FirstBad(ps[1..], i)
    ensures FirstBad(ps, i + 1) && ps[i + 1] == ps[1..][i]
  {
    hide SectionFromProto;
    forall j | 0 < j < i + 1
      ensures SectionFromProto(ps[j]).Ok?
    {
      assert ps[j] == ps[1..][j - 1];
    }
  }
}
