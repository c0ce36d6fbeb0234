/** Containers of named envelopes: their codec, their builder, and re-keying one section. */
module Sectioned {
  import opened Basics
  import opened Fields
  import opened Primitives
  import opened Keys
  import opened Envelopes
  import opened EnvelopeCodec
  import opened Encryption
  import opened Access

  /** A Rust `String`. */
  type Name = s: Str | ValidUtf8(s) witness []

  datatype Section = Section(name: Name, envelope: Envelope)

  datatype Container = Container(version: u32, sections: seq<Section>)

  const SECTIONED_MAGIC: seq<byte> := [0x52, 0x4F, 0x4B, 0x53]
  const SECTIONED_VERSION: u32 := 1

  // ---- Specification of the codec

  function PutSection(s: Section, tail: seq<byte>): seq<byte> {
    PutBlock(s.name, 2, PutBlock(Wire(s.envelope), 4, tail))
  }

  function PutSections(ss: seq<Section>, tail: seq<byte>): seq<byte> {
    PutMany(PutSection, ss, tail)
  }

  function PutContainer(k: Container, tail: seq<byte>): seq<byte> {
    SECTIONED_MAGIC + (LE(k.version, 4) + (LE(|k.sections|, 2) + PutSections(k.sections, tail)))
  }

  function ParseSection(s: seq<byte>): Result<(Section, seq<byte>)> {
    match TakeBlock(s, 2)
    case Err(error) => Err(error)
    case Ok((name, s1)) =>
      if !ValidUtf8(name) then Err(SerializationError)
      else
        match TakeBlock(s1, 4)
        case Err(error) => Err(error)
        case Ok((bytes, s2)) =>
          match Parsed(bytes)
          case Err(error) => Err(error)
          case Ok(envelope) => Ok((Section(name, envelope), s2))
  }

  function ParseSections(s: seq<byte>, count: nat): Result<(seq<Section>, seq<byte>)> {
    ParseMany(ParseSection, s, count)
  }

  function ParseContainer(s: seq<byte>): Result<(Container, seq<byte>)> {
    var (magic, s1) :- Take(s, 4);
    if magic != SECTIONED_MAGIC then Err(SerializationError)
    else
      var (version, s2) :- TakeU32(s1);
      var (count, s3) :- TakeLE(s2, 2);
      var (sections, s4) :- ParseSections(s3, count);
      Ok((Container(version, sections), s4))
  }

  /** Every length fits its field, and every inner envelope survives its own format. */
  predicate SectionFits(s: Section) {
    |s.name| < 0x1_0000 && |Wire(s.envelope)| < 0x1_0000_0000 && Fits(s.envelope) && s.envelope.version >= 2
  }

  predicate ContainerFits(k: Container) {
    |k.sections| < 0x1_0000 && forall i | 0 <= i < |k.sections| :: SectionFits(k.sections[i])
  }

  function NormalizeSection(s: Section): Section {
    s.(envelope := Normalize(s.envelope))
  }

  function NormalizeSections(ss: seq<Section>): (r: seq<Section>)
    ensures |r| == |ss| && forall i | 0 <= i < |ss| :: r[i] == NormalizeSection(ss[i])
  {
    seq(|ss|, i requires 0 <= i < |ss| => NormalizeSection(ss[i]))
  }

  function NormalizeContainer(k: Container): Container {
    k.(sections := NormalizeSections(k.sections))
  }

  // ---- The container object

  /** The first section of the name. */
  function FindSection(ss: seq<Section>, name: Str): (r: Option<nat>)
    ensures r.None? <==> forall i | 0 <= i < |ss| :: ss[i].name != name
    ensures r.Some? ==> r.value < |ss| && ss[r.value].name == name
    ensures r.Some? ==> forall i | 0 <= i < r.value :: ss[i].name != name
  {
    FirstIndex(ss, (s: Section) => s.name == name)
  }

  /** What `rekey_section` leaves in the container, or its error. */
  function SectionRekeyed(c: Crypto, ss: seq<Section>, name: Str, authorized: ReadKeyPair,
                          recipients: seq<Recipient>, seed: Bytes32, coins: Coins): Result<seq<Section>>
  {
    match FindSection(ss, name)
    case None => Err(SerializationError)
    case Some(i) =>
      match Rekeyed(c, ss[i].envelope, authorized, recipients, seed, coins)
      case Ok(envelope) => Ok(ss[i := ss[i].(envelope := envelope)])
      case Err(error) => Err(error)
  }

  class SectionedEnvelope {
    var version: u32
    var sections: seq<Section>

    constructor (version: u32, sections: seq<Section>)
      ensures this.version == version && this.sections == sections
    {
      this.version, this.sections := version, sections;
    }

    function View(): Container
      reads this
    {
      Container(version, sections)
    }

    /** `rekey_section`: on an error the container is unchanged. */
    method RekeySection(c: Crypto, name: Str, authorized: ReadKeyPair, recipients: seq<Recipient>, seed: Bytes32,
                        coins: Coins) returns (r: Result<()>)
      modifies this`sections
      ensures match SectionRekeyed(c, old(sections), name, authorized, recipients, seed, coins)
              case Ok(ss) => r == Ok(()) && sections == ss
              case Err(error) => r == Err(error) && sections == old(sections)
    {
      match FindSection(sections, name)
      case None => return Err(SerializationError);
      case Some(i) =>
        var envelope :- RekeyRecipients(c, sections[i].envelope, authorized, recipients, seed, coins);
        sections := sections[i := sections[i].(envelope := envelope)];
        return Ok(());
    }

    /** `to_bytes`. */
    method ToBytes() returns (buf: seq<byte>)
      ensures buf == PutContainer(View(), [])
    {
      hide PutSections;
      ghost var todo := PutContainer(View(), []);
      buf, todo := Extend([], SECTIONED_MAGIC, todo);
      buf, todo := Extend(buf, LE(version, 4), todo);
      buf, todo := Extend(buf, LE(|sections|, 2), todo);
      buf := ExtendSections(buf, sections, []);
      assert buf + [] == buf;
    }
  }

  method ExtendSections(buf: seq<byte>, ss: seq<Section>, ghost tail: seq<byte>) returns (next: seq<byte>)
    ensures next + tail == buf + PutSections(ss, tail)
  {
    hide PutSection;
    next := buf;
    for i := 0 to |ss|
      invariant next + PutSections(ss[i..], tail) == buf + PutSections(ss, tail)
    {
      assert ss[i..][0] == ss[i] && ss[i..][1..] == ss[i + 1..];
      next := ExtendSection(next, ss[i], PutSections(ss[i + 1..], tail));
    }
  }

  method ExtendSection(buf: seq<byte>, s: Section, ghost tail: seq<byte>) returns (next: seq<byte>)
    ensures next + tail == buf + PutSection(s, tail)
  {
    hide Wire;
    ghost var todo := PutSection(s, tail);
    next, todo := Extend(buf, LE(|s.name|, 2), todo);
    next, todo := Extend(next, s.name, todo);
    var envelopeBytes := Envelopes.ToBytes(s.envelope);
    next, todo := Extend(next, LE(|envelopeBytes|, 4), todo);
    next, todo := Extend(next, envelopeBytes, todo);
  }

  method ReadSection(data: seq<byte>, start: nat) returns (r: Result<Section>, pos: nat)
    requires start <= |data|
    ensures pos <= |data|
    ensures match ParseSection(data[start..])
            case Ok((section, rest)) => r == Ok(section) && data[pos..] == rest
            case Err(error) => r == Err(error)
  {
    pos := start;
    var bytes, name;
    bytes, pos :- ReadBytes(data, pos, 2);
    name, pos :- ReadBytes(data, pos, FromLE(bytes));
    if !ValidUtf8(name) {
      return Err(SerializationError), pos;
    }
    bytes, pos :- ReadBytes(data, pos, 4);
    bytes, pos :- ReadBytes(data, pos, FromLE(bytes));
    var envelope :- Envelopes.FromBytes(bytes);
    r := Ok(Section(name, envelope));
  }

  /** `from_bytes`, giving the container's contents. */
  method FromBytes(data: seq<byte>) returns (r: Result<Container>)
    ensures match ParseContainer(data)
            case Ok((k, _)) => r == Ok(k)
            case Err(error) => r == Err(error)
  {
    Widths();
    var pos := 0;
    assert data[0..] == data;
    var magic, bytes;
    magic, pos :- ReadBytes(data, pos, 4);
    if magic != SECTIONED_MAGIC {
      return Err(SerializationError);
    }
    bytes, pos :- ReadBytes(data, pos, 4);
    var version: u32 := FromLE(bytes);
    bytes, pos :- ReadBytes(data, pos, 2);
    var sections;
    sections, pos :- ReadSections(data, pos, FromLE(bytes));
    r := Ok(Container(version, sections));
  }

  method ReadSections(data: seq<byte>, start: nat, count: nat) returns (r: Result<seq<Section>>, pos: nat)
    requires start <= |data|
    ensures pos <= |data|
    ensures match ParseSections(data[start..], count)
            case Ok((sections, rest)) => r == Ok(sections) && data[pos..] == rest
            case Err(error) => r == Err(error)
  {
    hide ParseSection;
    pos := start;
    var sections := [];
    BehindBoth([], [], ParseSections(data[start..], count));
    for i := 0 to count
      invariant pos <= |data|
      invariant ParseSections(data[start..], count) == Behind(sections, ParseSections(data[pos..], count - i))
    {
      ParseManyStep(ParseSection, sections, data[pos..], count - i);
      var section;
      section, pos :- ReadSection(data, pos);
      sections := sections + [section];
    }
    assert sections + [] == sections;
    r := Ok(sections);
  }

  /** `SectionedEnvelopeBuilder`. */
  class SectionedEnvelopeBuilder {
    var sections: seq<Section>

    constructor ()
      ensures sections == []
    {
      sections := [];
    }

    ghost predicate Valid()
      reads this
    {
      DistinctNames(sections)
    }

    method AddSection(name: Name, envelope: Envelope) returns (r: Result<()>)
      requires Valid()
      modifies this`sections
      ensures Valid()
      ensures r == if exists i | 0 <= i < |old(sections)| :: old(sections)[i].name == name
                   then Err(SerializationError) else Ok(())
      ensures sections == if r.Ok? then old(sections) + [Section(name, envelope)] else old(sections)
    {
      if exists i | 0 <= i < |sections| :: sections[i].name == name {
        return Err(SerializationError);
      }
      sections := sections + [Section(name, envelope)];
      return Ok(());
    }

    method Build() returns (r: Result<Container>)
      requires Valid()
      ensures r == if sections == [] then Err(SerializationError) else Ok(Container(SECTIONED_VERSION, sections))
      ensures r.Ok? ==> r.value.sections != [] && DistinctNames(r.value.sections)
    {
      if sections == [] {
        return Err(SerializationError);
      }
      return Ok(Container(SECTIONED_VERSION, sections));
    }
  }

  predicate DistinctNames(ss: seq<Section>) {
    forall i, j | 0 <= i < j < |ss| :: ss[i].name != ss[j].name
  }

  // ---- Properties of the codec

  lemma ParseSectionAppend(s: Section, tail: seq<byte>)
    requires SectionFits(s)
    ensures ParseSection(PutSection(s, tail)) == Ok((NormalizeSection(s), tail))
  {
    Widths();
    TakeBlockAppend(s.name, 2, PutBlock(Wire(s.envelope), 4, tail));
    TakeBlockAppend(Wire(s.envelope), 4, tail);
    RoundTrip(s.envelope, []);
    assert Wire(s.envelope) + [] == Wire(s.envelope);
  }

  /** Bytes that parse to an envelope are at least as long as its print, up to the mode byte. */
  lemma ParsedIsLong(bytes: seq<byte>, e: Envelope)
    requires Parsed(bytes) == Ok(Normalize(e))
    ensures |bytes| + 1 >= |Wire(e)|
  {
    ParseSound(bytes);
    var rest := Parse(bytes).value.1;
    NormalizeLayout(e, if e.version >= 2 then [e.accessMode.AsU8()] else [], rest);
    LayoutLength(e, if e.version >= 2 then [e.accessMode.AsU8()] else [], rest);
    SizeOfWire(e);
  }

  /** The envelope block of a section is what it says only if its size fits and its version is current. */
  lemma EnvelopeBlockExact(e: Envelope, tail: seq<byte>)
    requires TakeBlock(PutBlock(Wire(e), 4, tail), 4).Ok?
    requires Parsed(TakeBlock(PutBlock(Wire(e), 4, tail), 4).value.0) == Ok(Normalize(e))
    ensures |Wire(e)| < 0x1_0000_0000 && Fits(e) && e.version >= 2
  {
    hide Parsed, Wire;
    Widths();
    var bytes := TakeBlock(PutBlock(Wire(e), 4, tail), 4).value.0;
    TruncatedBlock(Wire(e), 4, tail);
    ParsedIsLong(bytes, e);
    assert |Wire(e)| < 0x1_0000_0000;
    TakeBlockAppend(Wire(e), 4, tail);
    assert bytes == Wire(e) + [];
    RoundTrip(e, []);
  }

  /** A block whose length was truncated on writing reads back shorter. */
  lemma TruncatedBlock(b: seq<byte>, w: nat, tail: seq<byte>)
    requires TakeBlock(PutBlock(b, w, tail), w).Ok?
    ensures |TakeBlock(PutBlock(b, w, tail), w).value.0| == |b| % Pow256(w)
  {
    TakeAppend(LE(|b|, w), b + tail);
    LEToNat(|b|, w);
  }

  lemma ParseSectionExact(s: Section, tail: seq<byte>)
    requires ParseSection(PutSection(s, tail)).Ok?
    requires ParseSection(PutSection(s, tail)).value.0 == NormalizeSection(s)
    ensures SectionFits(s)
  {
    Widths();
    var inner := PutBlock(Wire(s.envelope), 4, tail);
    TakeBlockSound(PutSection(s, tail), 2);
    TakeBlockAppend(s.name, 2, inner);
    EnvelopeBlockExact(s.envelope, tail);
  }

  lemma ParseSectionsExact(ss: seq<Section>, tail: seq<byte>)
    ensures ParseSections(PutSections(ss, tail), |ss|).Ok?
            && ParseSections(PutSections(ss, tail), |ss|).value.0 == NormalizeSections(ss)
            <==> forall i | 0 <= i < |ss| :: SectionFits(ss[i])
    ensures (forall i | 0 <= i < |ss| :: SectionFits(ss[i])) ==>
              ParseSections(PutSections(ss, tail), |ss|) == Ok((NormalizeSections(ss), tail))
  {
    forall s: Section, t: seq<byte> | SectionFits(s)
      ensures ParseSection(PutSection(s, t)) == Ok((NormalizeSection(s), t))
    {
      ParseSectionAppend(s, t);
    }
    forall s: Section, t: seq<byte> | !SectionFits(s)
      ensures ParseSection(PutSection(s, t)).Ok? ==> ParseSection(PutSection(s, t)).value.0 != NormalizeSection(s)
    {
      if ParseSection(PutSection(s, t)).Ok? && ParseSection(PutSection(s, t)).value.0 == NormalizeSection(s) {
        ParseSectionExact(s, t);
      }
    }
    ParseManyExact(PutSection, ParseSection, SectionFits, NormalizeSection, ss, NormalizeSections(ss), tail);
  }

  /** Round trip with its exact condition, for any number of sections. */
  lemma ContainerRoundTrip(k: Container, rest: seq<byte>)
    ensures ContainerFits(k) <==>
              && ParseContainer(PutContainer(k, rest)).Ok?
              && ParseContainer(PutContainer(k, rest)).value.0 == NormalizeContainer(k)
    ensures ContainerFits(k) ==> ParseContainer(PutContainer(k, rest)) == Ok((NormalizeContainer(k), rest))
  {
    hide ParseSection, PutSection, SectionFits, ParseContainer, PutContainer;
    var s3 := PutSections(k.sections, rest);
    PrintedHeader(k, rest);
    ParseSectionsExact(k.sections, rest);
    var count := |k.sections| % 0x1_0000;
    if ParseSections(s3, count).Ok? {
      ParseManyCount(ParseSection, s3, count);
    }
  }

  /** Behind a printed header the parser reads as many sections as the truncated count says. */
  lemma PrintedHeader(k: Container, rest: seq<byte>)
    ensures ParseContainer(PutContainer(k, rest)) ==
            match ParseSections(PutSections(k.sections, rest), |k.sections| % 0x1_0000)
            case Ok((sections, behind)) => Ok((Container(k.version, sections), behind))
            case Err(error) => Err(error)
  {
    hide ParseSections, PutSections;
    Widths();
    var s3 := PutSections(k.sections, rest);
    var s2 := LE(|k.sections|, 2) + s3;
    TakeAppend(SECTIONED_MAGIC, LE(k.version, 4) + s2);
    TakeLEAppend(k.version, 4, s2);
    TakeAppend(LE(|k.sections|, 2), s3);
    LEToNat(|k.sections|, 2);
  }

  lemma ParseSectionExtends(s: seq<byte>, more: seq<byte>)
    requires ParseSection(s).Ok?
    ensures ParseSection(s + more) == Ok((ParseSection(s).value.0, ParseSection(s).value.1 + more))
  {
    hide Parsed, ValidUtf8;
    TakeBlockExtends(s, 2, more);
    TakeBlockExtends(TakeBlock(s, 2).value.1, 4, more);
  }

  /** Bytes behind a parsed container are handed on untouched. */
  lemma ParseContainerExtends(s: seq<byte>, more: seq<byte>)
    requires ParseContainer(s).Ok?
    ensures ParseContainer(s + more) == Ok((ParseContainer(s).value.0, ParseContainer(s).value.1 + more))
  {
    hide ParseSection;
    var s1 := Take(s, 4).value.1;
    TakeExtends(s, 4, more);
    TakeExtends(s1, 4, more);
    var (version, s2) := TakeU32(s1).value;
    TakeExtends(s2, 2, more);
    var (count, s3) := TakeLE(s2, 2).value;
    forall t: seq<byte> | ParseSection(t).Ok?
      ensures ParseSection(t + more) == Ok((ParseSection(t).value.0, ParseSection(t).value.1 + more))
    {
      ParseSectionExtends(t, more);
    }
    ParseManyExtends(ParseSection, s3, count, more);
  }

  /** Every strict prefix of a printed container is rejected. */
  lemma ContainerPrefixRejected(k: Container, n: nat)
    requires ContainerFits(k) && n < |PutContainer(k, [])|
    ensures ParseContainer(PutContainer(k, [])[..n]).Err?
  {
    hide ParseContainer, PutContainer;
    var whole := PutContainer(k, []);
    ContainerRoundTrip(k, []);
    assert whole[..n] + whole[n..] == whole;
    if ParseContainer(whole[..n]).Ok? {
      ParseContainerExtends(whole[..n], whole[n..]);
    }
  }

  /** The round trip keeps the names, so a built container stays non-empty with distinct names. */
  lemma NamesSurvive(k: Container)
    requires ContainerFits(k) && k.sections != [] && DistinctNames(k.sections)
    ensures ParseContainer(PutContainer(k, [])).Ok?
    ensures var ss := ParseContainer(PutContainer(k, [])).value.0.sections;
            && |ss| == |k.sections| && ss != [] && DistinctNames(ss)
            && forall i | 0 <= i < |ss| :: ss[i].name == k.sections[i].name
  {
    ContainerRoundTrip(k, []);
  }

  /** Neither parser takes what the other printer writes. */
  lemma FormatsAreDisjoint(e: Envelope, k: Container, rest: seq<byte>)
    ensures ParseContainer(Wire(e) + rest) == Err(SerializationError)
    ensures Parse(PutContainer(k, rest)) == Err(SerializationError)
  {
    assert (Wire(e) + rest)[..4] == MAGIC;
    assert PutContainer(k, rest)[..4] == SECTIONED_MAGIC;
    assert MAGIC[3] != SECTIONED_MAGIC[3];
  }

  // ---- The fields in their order

  /** Section by section: the name behind its length, the envelope's bytes behind theirs. */
  function SectionsBytes(ss: seq<Section>): seq<byte> {
    if ss == [] then []
    else
      LE(|ss[0].name|, 2) + (ss[0].name
      + (LE(|Wire(ss[0].envelope)|, 4) + (Wire(ss[0].envelope) + SectionsBytes(ss[1..]))))
  }

  lemma {:induction false} PutSectionsBytes(ss: seq<Section>)
    ensures PutSections(ss, []) == SectionsBytes(ss)
  {
    hide Wire;
    if ss != [] {
      PutSectionsBytes(ss[1..]);
    }
  }

  /** The container format, field by field: `ROKS`, the version, the number of sections, and the sections. */
  lemma ContainerInOrder(k: Container)
    ensures PutContainer(k, []) ==
            [0x52, 0x4F, 0x4B, 0x53] + (LE(k.version, 4) + (LE(|k.sections|, 2) + SectionsBytes(k.sections)))
  {
    hide Wire, PutSections;
    PutSectionsBytes(k.sections);
  }

  // ---- Reprinting a container

  /** The inner envelope uses up its block, in the layout that `to_bytes` writes. */
  predicate TightSection(s: seq<byte>)
    requires ParseSection(s).Ok?
  {
    var block := TakeBlock(TakeBlock(s, 2).value.1, 4).value.0;
    Parse(block).value.1 == [] && ParseSection(s).value.0.envelope.version >= 2
  }

  predicate TightSections(s: seq<byte>, count: nat)
    requires ParseSections(s, count).Ok?
    decreases count
  {
    count == 0 || (TightSection(s) && TightSections(ParseSection(s).value.1, count - 1))
  }

  /** A parsed container is its header, of 10 bytes, and the sections behind it. */
  lemma HeaderParsed(data: seq<byte>)
    requires ParseContainer(data).Ok?
    ensures var (k, rest) := ParseContainer(data).value;
            && |data| >= 10 && |k.sections| < 0x1_0000
            && ParseSections(data[10..], |k.sections|) == Ok((k.sections, rest))
            && data == SECTIONED_MAGIC + (LE(k.version, 4) + (LE(|k.sections|, 2) + data[10..]))
  {
    hide ParseSection;
    Widths();
    TakeSound(data, 4);
    var s1 := Take(data, 4).value.1;
    TakeLESound(s1, 4);
    var s2 := TakeU32(s1).value.1;
    TakeLESound(s2, 2);
    var (count, s3) := TakeLE(s2, 2).value;
    ParseManyCount(ParseSection, s3, count);
    assert data[10..] == s3;
  }

  /** Every inner envelope uses up its block. */
  predicate Tight(data: seq<byte>)
    requires ParseContainer(data).Ok?
  {
    HeaderParsed(data);
    TightSections(data[10..], |ParseContainer(data).value.0.sections|)
  }

  /** Bytes that parse to an envelope are its print exactly when it uses them up and is of version 2. */
  lemma BlockIsPrint(bytes: seq<byte>)
    requires Parsed(bytes).Ok?
    ensures var (e, rest) := Parse(bytes).value;
            && Normalize(e) == e
            && (bytes == Wire(e) <==> rest == [] && e.version >= 2)
  {
    hide Parse, Wire, Fits;
    var (e, rest) := Parse(bytes).value;
    ParseSound(bytes);
    Reprint(bytes);
    RoundTrip(e, []);
    assert Wire(e) + [] == Wire(e);
  }

  lemma ReprintSection(s: seq<byte>, x: seq<byte>)
    requires ParseSection(s).Ok?
    ensures var (section, rest) := ParseSection(s).value;
            s == PutSection(section, x) <==> TightSection(s) && x == rest
  {
    hide Parse, Wire, ValidUtf8;
    var (section, rest) := ParseSection(s).value;
    TakeBlockSound(s, 2);
    var s1 := TakeBlock(s, 2).value.1;
    TakeBlockSound(s1, 4);
    var block := TakeBlock(s1, 4).value.0;
    BlockIsPrint(block);
    if s == PutSection(section, x) {
      PrintedSection(section, x);
    }
  }

  /** A normal section that comes back from its print comes back whole. */
  lemma PrintedSection(section: Section, x: seq<byte>)
    requires ParseSection(PutSection(section, x)).Ok?
    requires ParseSection(PutSection(section, x)).value.0 == section == NormalizeSection(section)
    ensures ParseSection(PutSection(section, x)).value.1 == x
    ensures TakeBlock(TakeBlock(PutSection(section, x), 2).value.1, 4).value.0 == Wire(section.envelope)
  {
    hide Parsed, Wire;
    Widths();
    ParseSectionExact(section, x);
    TakeBlockAppend(section.name, 2, PutBlock(Wire(section.envelope), 4, x));
    TakeBlockAppend(Wire(section.envelope), 4, x);
  }

  lemma {:induction false} ReprintSections(s: seq<byte>, count: nat)
    requires ParseSections(s, count).Ok?
    ensures var (ss, rest) := ParseSections(s, count).value;
            s == PutSections(ss, rest) <==> TightSections(s, count)
    decreases count
  {
    hide ParseSection, PutSection, TightSection;
    if count > 0 {
      var (section, s1) := ParseSection(s).value;
      ReprintSections(s1, count - 1);
      var (later, rest) := ParseSections(s1, count - 1).value;
      var ss := [section] + later;
      assert ss[0] == section && ss[1..] == later;
      ReprintSection(s, PutSections(later, rest));
      ReprintSection(s, s1);
    }
  }

  /** Printing a parsed container gives the consumed bytes back exactly when every inner envelope uses up its block. */
  lemma ReprintContainer(data: seq<byte>)
    requires ParseContainer(data).Ok?
    ensures var (k, rest) := ParseContainer(data).value;
            data == PutContainer(k, rest) <==> Tight(data)
  {
    hide ParseContainer, ParseSections, TightSections, PutSections;
    var (k, rest) := ParseContainer(data).value;
    HeaderParsed(data);
    ReprintSections(data[10..], |k.sections|);
    assert PutContainer(k, rest)[10..] == PutSections(k.sections, rest);
  }

  /** Bytes that parse but do not reprint: a block with one byte behind its envelope, which is dropped. */
  lemma SlackIsDropped(e: Envelope, name: Name)
    requires Fits(e) && e.version >= 2 && Normalize(e) == e && |Wire(e)| + 1 < 0x1_0000_0000 && |name| < 0x1_0000
    ensures var data := SECTIONED_MAGIC + (LE(1, 4) + (LE(1, 2) + PutBlock(name, 2, PutBlock(Wire(e) + [0], 4, []))));
            && ParseContainer(data) == Ok((Container(1, [Section(name, e)]), []))
            && data != PutContainer(Container(1, [Section(name, e)]), [])
  {
    hide Parse, Wire, Fits, ValidUtf8;
    Widths();
    var block := Wire(e) + [0];
    var s3 := PutBlock(name, 2, PutBlock(block, 4, []));
    RoundTrip(e, [0]);
    TakeBlockAppend(name, 2, PutBlock(block, 4, []));
    TakeBlockAppend(block, 4, []);
    assert ParseSection(s3) == Ok((Section(name, e), []));
    assert ParseMany(ParseSection, [], 0) == Ok(([], []));
    assert [Section(name, e)] + [] == [Section(name, e)];
    assert ParseSections(s3, 1) == Ok(([Section(name, e)], []));
    var s2 := LE(1, 2) + s3;
    TakeAppend(SECTIONED_MAGIC, LE(1, 4) + s2);
    TakeLEAppend(1, 4, s2);
    TakeLEAppend(1, 2, s3);
    assert [Section(name, e)][1..] == [];
    assert PutSections([Section(name, e)], []) == PutSection(Section(name, e), PutSections([], []));
    assert |PutContainer(Container(1, [Section(name, e)]), [])| == 10 + 6 + |name| + |Wire(e)|;
  }

  // ---- Re-keying sections

  /**
    Re-keying the first section of a name moves its access and touches no other section and no
    name, whether or not later sections repeat the name.
   */
  lemma RekeySectionIsLocal(c: Crypto, ss: seq<Section>, name: Str, at: nat, signer: Bytes32, rs: seq<Recipient>,
                            plaintext: seq<byte>, authorized: ReadKeyPair, recipients: seq<Recipient>, seed: Bytes32,
                            coins: Coins)
    requires FindSection(ss, name) == Some(at)
    requires Sealed(c, signer, ss[at].envelope, rs, plaintext) && ss[at].envelope.accessMode == PerRecipient
    requires WellFormed(c, authorized) && NotShadowed(c, rs, authorized)
    ensures var r := SectionRekeyed(c, ss, name, authorized, recipients, seed, coins);
            && (r.Ok? <==> Listed(rs, KeyIdOf(c, authorized.public)) && recipients != [])
            && (r.Ok? ==>
                  && |r.value| == |ss|
                  && (forall i | 0 <= i < |ss| :: r.value[i].name == ss[i].name)
                  && (forall i | 0 <= i < |ss| && i != at :: r.value[i] == ss[i])
                  && SamePayload(r.value[at].envelope, ss[at].envelope)
                  && Sealed(c, seed, r.value[at].envelope, recipients, plaintext))
  {
    RekeyMovesAccess(c, ss[at].envelope, signer, rs, plaintext, authorized, recipients, seed, coins);
  }

  /**
    For any container: a section is re-keyed exactly when the name is found and its first envelope
    may be; then only that envelope changes, its payload and mode do not, and it is as fresh as any
    re-keyed one. So an altered or scope-based envelope is refused here, too.
   */
  lemma SectionRekeysExactly(c: Crypto, ss: seq<Section>, name: Str, authorized: ReadKeyPair,
                             recipients: seq<Recipient>, seed: Bytes32, coins: Coins)
    ensures var r := SectionRekeyed(c, ss, name, authorized, recipients, seed, coins);
            match FindSection(ss, name)
            case None => r == Err(SerializationError)
            case Some(at) =>
              && (r.Ok? <==> exists dataKey :: MayRekey(c, ss[at].envelope, authorized, recipients, dataKey))
              && (r.Ok? ==>
                    && |r.value| == |ss| && r.value[at].name == ss[at].name
                    && (forall i | 0 <= i < |ss| && i != at :: r.value[i] == ss[i])
                    && SamePayload(r.value[at].envelope, ss[at].envelope)
                    && forall dataKey | MayRekey(c, ss[at].envelope, authorized, recipients, dataKey) ::
                         ReaddressedWith(c, r.value[at].envelope, recipients, seed, coins, dataKey))
  {
    hide Rekeyed, MayRekey, ReaddressedWith, SamePayload;
    if FindSection(ss, name).Some? {
      RekeysExactly(c, ss[FindSection(ss, name).value].envelope, authorized, recipients, seed, coins);
    }
  }

  datatype SectionCall = SectionCall(name: Str, call: RekeyCall)

  function RunSectionRekeys(c: Crypto, ss: seq<Section>, calls: seq<SectionCall>): Result<seq<Section>>
    decreases |calls|
  {
    if calls == [] then Ok(ss)
    else
      var call := calls[0].call;
      match SectionRekeyed(c, ss, calls[0].name, call.authorized, call.recipients, call.seed, call.coins)
      case Ok(next) => RunSectionRekeys(c, next, calls[1..])
      case Err(error) => Err(error)
  }

  /** The calls that reach the section at a position, in order. */
  function CallsFor(ss: seq<Section>, calls: seq<SectionCall>, at: nat): seq<RekeyCall> {
    if calls == [] then []
    else (if FindSection(ss, calls[0].name) == Some(at) then [calls[0].call] else []) + CallsFor(ss, calls[1..], at)
  }

  predicate AllFound(ss: seq<Section>, calls: seq<SectionCall>) {
    forall j | 0 <= j < |calls| :: FindSection(ss, calls[j].name).Some?
  }

  /** Each section is the outcome of the calls that reach it, run on its envelope alone. */
  predicate EachAlone(c: Crypto, ss: seq<Section>, calls: seq<SectionCall>, result: seq<Section>) {
    && |result| == |ss|
    && forall i | 0 <= i < |ss| ::
         && result[i].name == ss[i].name
         && RunRekeys(c, ss[i].envelope, CallsFor(ss, calls, i)) == Ok(result[i].envelope)
  }

  lemma SameNamesFound(ss: seq<Section>, tt: seq<Section>, name: Str)
    requires |ss| == |tt| && forall i | 0 <= i < |ss| :: ss[i].name == tt[i].name
    ensures FindSection(ss, name) == FindSection(tt, name)
  {
  }

  lemma {:induction false} SameNamesReached(ss: seq<Section>, tt: seq<Section>, calls: seq<SectionCall>, at: nat)
    requires |ss| == |tt| && forall i | 0 <= i < |ss| :: ss[i].name == tt[i].name
    ensures CallsFor(ss, calls, at) == CallsFor(tt, calls, at)
  {
    if calls != [] {
      SameNamesFound(ss, tt, calls[0].name);
      SameNamesReached(ss, tt, calls[1..], at);
    }
  }

  /**
    Sections do not meet: a chain of calls on a container runs through exactly when every name is
    found and every section, on its own, runs through the calls that reach it; each section is then
    what those calls alone make of it. So `Access.RekeyChain` holds section by section.
   */
  lemma {:induction false} SectionsRekeyAlone(c: Crypto, ss: seq<Section>, calls: seq<SectionCall>)
    ensures var r := RunSectionRekeys(c, ss, calls);
            && (r.Ok? <==>
                  && AllFound(ss, calls)
                  && forall i | 0 <= i < |ss| :: RunRekeys(c, ss[i].envelope, CallsFor(ss, calls, i)).Ok?)
            && (r.Ok? ==> EachAlone(c, ss, calls, r.value))
    decreases |calls|
  {
    hide Rekeyed, FindSection, CallsFor, RunRekeys;
    if calls == [] {
      NoCalls(c, ss);
    } else if FindSection(ss, calls[0].name).Some? {
      var call := calls[0].call;
      var r := SectionRekeyed(c, ss, calls[0].name, call.authorized, call.recipients, call.seed, call.coins);
      FirstCall(c, ss, calls);
      if r.Ok? {
        SectionsRekeyAlone(c, r.value, calls[1..]);
        FoundCons(ss, r.value, calls);
      }
    }
  }

  lemma NoCalls(c: Crypto, ss: seq<Section>)
    ensures EachAlone(c, ss, [], ss)
  {
  }

  /** The first call turns every section's own run into the run of the calls after it, or fails the one it reaches. */
  lemma FirstCall(c: Crypto, ss: seq<Section>, calls: seq<SectionCall>)
    requires calls != [] && FindSection(ss, calls[0].name).Some?
    ensures var call := calls[0].call;
            match SectionRekeyed(c, ss, calls[0].name, call.authorized, call.recipients, call.seed, call.coins)
            case Ok(next) =>
              && |next| == |ss|
              && forall i | 0 <= i < |ss| ::
                   && next[i].name == ss[i].name
                   && RunRekeys(c, ss[i].envelope, CallsFor(ss, calls, i))
                   == RunRekeys(c, next[i].envelope, CallsFor(next, calls[1..], i))
            case Err(_) =>
              exists i :: 0 <= i < |ss| && RunRekeys(c, ss[i].envelope, CallsFor(ss, calls, i)).Err?
  {
    hide Rekeyed;
    var call := calls[0].call;
    var at := FindSection(ss, calls[0].name).value;
    var r := SectionRekeyed(c, ss, calls[0].name, call.authorized, call.recipients, call.seed, call.coins);
    var run := [call] + CallsFor(ss, calls[1..], at);
    assert CallsFor(ss, calls, at) == run && run[0] == call && run[1..] == CallsFor(ss, calls[1..], at);
    if r.Ok? {
      forall i | 0 <= i < |ss|
        ensures RunRekeys(c, ss[i].envelope, CallsFor(ss, calls, i))
             == RunRekeys(c, r.value[i].envelope, CallsFor(r.value, calls[1..], i))
      {
        SameNamesReached(ss, r.value, calls[1..], i);
        if i != at {
          assert CallsFor(ss, calls, i) == CallsFor(ss, calls[1..], i);
        }
      }
    }
  }

  /** Access after any chain on a container: each section is sealed for the last list that reached it. */
  lemma SectionChainMovesAccess(c: Crypto, ss: seq<Section>, calls: seq<SectionCall>, at: nat, seed: Bytes32,
                                rs: seq<Recipient>, plaintext: seq<byte>)
    requires at < |ss| && RunSectionRekeys(c, ss, calls).Ok?
    requires Sealed(c, seed, ss[at].envelope, rs, plaintext) && ss[at].envelope.accessMode == PerRecipient
    requires Genuine(c, rs, CallsFor(ss, calls, at))
    ensures var result, own := RunSectionRekeys(c, ss, calls).value, CallsFor(ss, calls, at);
            && |result| == |ss| && result[at].name == ss[at].name && Permitted(c, rs, own)
            && SamePayload(result[at].envelope, ss[at].envelope)
            && Sealed(c, LastSeed(seed, own), result[at].envelope, LastRecipients(rs, own), plaintext)
  {
    hide RunRekeys, RunSectionRekeys, CallsFor, Genuine, Permitted, SamePayload, Sealed;
    SectionsRekeyAlone(c, ss, calls);
    RekeyChain(c, ss[at].envelope, seed, rs, plaintext, CallsFor(ss, calls, at));
  }

  lemma FoundCons(ss: seq<Section>, tt: seq<Section>, calls: seq<SectionCall>)
    requires |ss| == |tt| && forall i | 0 <= i < |ss| :: ss[i].name == tt[i].name
    requires calls != [] && FindSection(ss, calls[0].name).Some?
    ensures AllFound(ss, calls) <==> AllFound(tt, calls[1..])
  {
    forall name
      ensures FindSection(ss, name) == FindSection(tt, name)
    {
      SameNamesFound(ss, tt, name);
    }
    assert forall j | 0 < j < |calls| :: calls[j] == calls[1..][j - 1];
    assert forall j | 0 <= j < |calls[1..]| :: calls[1..][j] == calls[j + 1];
  }
}
