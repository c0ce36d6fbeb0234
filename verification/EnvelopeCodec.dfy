/**
  The binary format of envelopes: the parser inverts the printer, reads nothing but printed
  envelopes, rejects truncated ones, and the signed bytes determine the envelope.
 */
module EnvelopeCodec {
  import opened Basics
  import opened Fields
  import opened Scopes
  import opened Envelopes

  predicate EntriesFit(es: seq<AccessEntry>) {
    forall i | 0 <= i < |es| :: |es[i].wrappedDataKey| < 0x1_0000
  }

  // ---- Printing, then parsing

  lemma ParseEntryAppend(entry: AccessEntry, tail: seq<byte>)
    requires |entry.wrappedDataKey| < 0x1_0000
    ensures ParseEntry(entry.readKeyId + PutBlock(entry.wrappedDataKey, 2, entry.wrapNonce + tail)) == Ok((entry, tail))
  {
    Widths();
    TakeAppend(entry.readKeyId, PutBlock(entry.wrappedDataKey, 2, entry.wrapNonce + tail));
    TakeBlockAppend(entry.wrappedDataKey, 2, entry.wrapNonce + tail);
    TakeAppend(entry.wrapNonce, tail);
  }

  lemma {:induction false} ParseEntriesAppend(es: seq<AccessEntry>, tail: seq<byte>)
    requires EntriesFit(es)
    ensures ParseEntries(PutEntries(es, 2, tail), |es|) == Ok((es, tail))
  {
    if es != [] {
      ParseEntryAppend(es[0], PutEntries(es[1..], 2, tail));
      ParseEntriesAppend(es[1..], tail);
      assert [es[0]] + es[1..] == es;
    }
  }

  function ModeBytes(e: Envelope): seq<byte> {
    if e.version >= 2 then [e.accessMode.AsU8()] else []
  }

  lemma ParseModeAppend(e: Envelope, tail: seq<byte>)
    requires e.version < 2 ==> e.accessMode == PerRecipient
    ensures ParseMode(e.version, ModeBytes(e) + tail) == Ok((e.accessMode, tail))
  {
    TakeAppend([e.accessMode.AsU8()], tail);
    assert [] + tail == tail;
  }

  lemma ParseScopeAppend(scope: Scope, tail: seq<byte>)
    requires |scope| < 0x1_0000
    ensures ParseScope(PutBlock(scope, 2, tail)) == Ok((scope, tail))
  {
    Widths();
    TakeBlockAppend(scope, 2, tail);
    ScopeIsUtf8(scope);
  }

  lemma ParseHeaderAppend(e: Envelope, tail: seq<byte>)
    requires |e.scope| < 0x1_0000 && (e.version < 2 ==> e.accessMode == PerRecipient)
    ensures ParseHeader(MAGIC + (LE(e.version, 4) + ([e.algorithm.AsU8()]
                        + (ModeBytes(e) + PutBlock(e.scope, 2, tail)))))
            == Ok(((e.version, e.algorithm, e.accessMode, e.scope), tail))
  {
    Widths();
    var t5 := PutBlock(e.scope, 2, tail);
    var t4 := ModeBytes(e) + t5;
    var t3 := [e.algorithm.AsU8()] + t4;
    TakeAppend(MAGIC, LE(e.version, 4) + t3);
    TakeLEAppend(e.version, 4, t3);
    TakeAppend([e.algorithm.AsU8()], t4);
    ParseModeAppend(e, t5);
    ParseScopeAppend(e.scope, tail);
  }

  lemma ParseKeysAppend(e: Envelope, tail: seq<byte>)
    requires Fits(e)
    ensures ParseKeys(PutKeys(e, 2, tail))
            == Ok(((e.ephemeralPublic, Normalize(e).mlkemCiphertext, e.accessEntries), tail))
  {
    Widths();
    var t3 := PutEntries(e.accessEntries, 2, tail);
    var t2 := LE(|e.accessEntries|, 2) + t3;
    TakeAppend(e.ephemeralPublic, PutBlock(MlkemBytes(e), 4, t2));
    TakeBlockAppend(MlkemBytes(e), 4, t2);
    TakeLEAppend(|e.accessEntries|, 2, t3);
    ParseEntriesAppend(e.accessEntries, tail);
  }

  lemma ParseTrailerAppend(e: Envelope, tail: seq<byte>)
    requires Fits(e)
    ensures ParseTrailer(PutTrailer(e, e.signature + tail))
            == Ok(((e.nonce, e.ciphertext, e.tag, e.spendPublicKey, e.signature), tail))
  {
    Widths();
    var t4 := e.signature + tail;
    var t3 := e.spendPublicKey + t4;
    var t2 := e.tag + t3;
    TakeAppend(e.nonce, PutBlock(e.ciphertext, 8, t2));
    TakeBlockAppend(e.ciphertext, 8, t2);
    TakeAppend(e.tag, t3);
    TakeAppend(e.spendPublicKey, t4);
    TakeAppend(e.signature, tail);
  }

  lemma ParseLayout(e: Envelope, tail: seq<byte>)
    requires Fits(e) && (e.version < 2 ==> e.accessMode == PerRecipient)
    ensures Parse(Layout(e, tail)) == Ok((Normalize(e), tail))
  {
    var t2 := PutTrailer(e, e.signature + tail);
    ParseHeaderAppend(e, PutKeys(e, 2, t2));
    ParseKeysAppend(e, t2);
    ParseTrailerAppend(e, tail);
  }

  // ---- Parsing, then printing

  lemma ParseEntrySound(s: seq<byte>)
    requires ParseEntry(s).Ok?
    ensures var (entry, rest) := ParseEntry(s).value;
            && |entry.wrappedDataKey| < 0x1_0000
            && s == entry.readKeyId + PutBlock(entry.wrappedDataKey, 2, entry.wrapNonce + rest)
  {
    Widths();
    TakeSound(s, 8);
    var s1 := Take(s, 8).value.1;
    TakeBlockSound(s1, 2);
    TakeSound(TakeBlock(s1, 2).value.1, 12);
  }

  lemma {:induction false} ParseEntriesSound(s: seq<byte>, count: nat)
    requires ParseEntries(s, count).Ok?
    ensures var (es, rest) := ParseEntries(s, count).value;
            |es| == count && EntriesFit(es) && s == PutEntries(es, 2, rest)
  {
    if count > 0 {
      ParseEntrySound(s);
      var (entry, s1) := ParseEntry(s).value;
      ParseEntriesSound(s1, count - 1);
      var (es, rest) := ParseEntries(s1, count - 1).value;
      EntriesCons(entry, es, rest);
    }
  }

  lemma EntriesCons(entry: AccessEntry, es: seq<AccessEntry>, tail: seq<byte>)
    requires |entry.wrappedDataKey| < 0x1_0000 && EntriesFit(es)
    ensures EntriesFit([entry] + es)
    ensures PutEntries([entry] + es, 2, tail) == entry.readKeyId
            + PutBlock(entry.wrappedDataKey, 2, entry.wrapNonce + PutEntries(es, 2, tail))
  {
  }

  lemma ParseHeaderSound(s: seq<byte>)
    requires ParseHeader(s).Ok?
    ensures var ((version, algorithm, mode, scope), rest) := ParseHeader(s).value;
            && |scope| < 0x1_0000
            && (version < 2 ==> mode == PerRecipient)
            && s == MAGIC + (LE(version, 4) + ([algorithm.AsU8()] +
                    ((if version >= 2 then [mode.AsU8()] else []) + PutBlock(scope, 2, rest))))
  {
    Widths();
    TakeSound(s, 4);
    var s1 := Take(s, 4).value.1;
    TakeLESound(s1, 4);
    var (version, s2) := TakeU32(s1).value;
    TakeSound(s2, 1);
    var (algo, s3) := Take(s2, 1).value;
    assert algo == [Algorithm.FromU8(algo[0]).value.AsU8()];
    var (mode, s4) := ParseMode(version, s3).value;
    assert s3 == (if version >= 2 then [mode.AsU8()] else []) + s4 by {
      if version >= 2 {
        TakeSound(s3, 1);
        assert Take(s3, 1).value.0 == [mode.AsU8()];
      } else {
        assert [] + s4 == s4;
      }
    }
    TakeBlockSound(s4, 2);
  }

  lemma ParseKeysSound(s: seq<byte>, e: Envelope)
    requires ParseKeys(s).Ok?
    requires ParseKeys(s).value.0 == (e.ephemeralPublic, e.mlkemCiphertext, e.accessEntries)
    ensures s == PutKeys(e, 2, ParseKeys(s).value.1)
    ensures Normalize(e) == e && |MlkemBytes(e)| < 0x1_0000_0000
    ensures |e.accessEntries| < 0x1_0000 && EntriesFit(e.accessEntries)
  {
    Widths();
    var s1 := Take(s, 32).value.1;
    TakeBlockSound(s1, 4);
    var (mlkem, s2) := TakeBlock(s1, 4).value;
    assert MlkemBytes(e) == mlkem;
    TakeLESound(s2, 2);
    var (count, s3) := TakeLE(s2, 2).value;
    ParseEntriesSound(s3, count);
    TakeSound(s, 32);
  }

  lemma ParseTrailerSound(s: seq<byte>, e: Envelope)
    requires ParseTrailer(s).Ok?
    requires ParseTrailer(s).value.0 == (e.nonce, e.ciphertext, e.tag, e.spendPublicKey, e.signature)
    ensures s == PutTrailer(e, e.signature + ParseTrailer(s).value.1)
    ensures |e.ciphertext| < 0x1_0000_0000_0000_0000
  {
    Widths();
    TakeSound(s, 12);
    var s1 := Take(s, 12).value.1;
    TakeBlockSound(s1, 8);
    var s2 := TakeBlock(s1, 8).value.1;
    TakeSound(s2, 16);
    var s3 := Take(s2, 16).value.1;
    TakeSound(s3, 32);
    TakeSound(Take(s3, 32).value.1, 64);
  }

  lemma ParseSound(s: seq<byte>)
    ensures Parse(s).Ok? ==>
              var (e, rest) := Parse(s).value;
              Canonical(e) && s == Layout(e, rest)
  {
    if Parse(s).Ok? {
      var (e, rest) := Parse(s).value;
      ParseHeaderSound(s);
      var s1 := ParseHeader(s).value.1;
      ParseKeysSound(s1, e);
      var s2 := ParseKeys(s1).value.1;
      ParseTrailerSound(s2, e);
    }
  }

  /** The parser in one sentence: it reads exactly the layouts of canonical envelopes. */
  lemma ParseExactly(s: seq<byte>, e: Envelope, rest: seq<byte>)
    ensures Parse(s) == Ok((e, rest)) <==> Canonical(e) && s == Layout(e, rest)
  {
    if Parse(s) == Ok((e, rest)) {
      ParseSound(s);
    }
    if Canonical(e) && s == Layout(e, rest) {
      ParseLayout(e, rest);
    }
  }

  // ---- Errors

  /** The data starts like an envelope, but the path in the place of the scope is no scope. */
  predicate NamesNoScope(s: seq<byte>, version: u32, algorithm: Algorithm, mode: AccessMode, path: Str,
                         rest: seq<byte>)
  {
    && |path| < 0x1_0000 && ValidUtf8(path) && !IsScope(path)
    && s == MAGIC + (LE(version, 4) + ([algorithm.AsU8()] +
            ((if version >= 2 then [mode.AsU8()] else []) + PutBlock(path, 2, rest))))
  }

  lemma ScopeErrors(s: seq<byte>)
    ensures ParseScope(s).Err? ==>
              if TakeBlock(s, 2).Ok? && ValidUtf8(TakeBlock(s, 2).value.0) then ParseScope(s) == Err(InvalidScope)
              else ParseScope(s) == Err(SerializationError)
  {
    hide ValidUtf8, IsScope;
  }

  lemma HeaderError(s: seq<byte>)
    requires ParseHeader(s).Err?
    ensures ParseHeader(s).error == InvalidScope || ParseHeader(s).error == SerializationError
    ensures ParseHeader(s).error == InvalidScope ==>
              exists version, algorithm, mode, path, rest :: NamesNoScope(s, version, algorithm, mode, path, rest)
  {
    hide IsScope, ValidUtf8;
    Widths();
    if ParseHeader(s).error == InvalidScope {
      TakeSound(s, 4);
      var s1 := Take(s, 4).value.1;
      TakeLESound(s1, 4);
      var (version, s2) := TakeU32(s1).value;
      TakeSound(s2, 1);
      var (algo, s3) := Take(s2, 1).value;
      var algorithm := Algorithm.FromU8(algo[0]).value;
      assert algo == [algorithm.AsU8()];
      var (mode, s4) := ParseMode(version, s3).value;
      ModeSound(version, s3);
      TakeBlockSound(s4, 2);
      var (path, rest) := TakeBlock(s4, 2).value;
      assert NamesNoScope(s, version, algorithm, mode, path, rest);
    }
  }

  lemma ModeSound(version: u32, s: seq<byte>)
    requires ParseMode(version, s).Ok?
    ensures var (mode, rest) := ParseMode(version, s).value;
            s == (if version >= 2 then [mode.AsU8()] else []) + rest
  {
    if version >= 2 {
      TakeSound(s, 1);
      assert Take(s, 1).value.0 == [ParseMode(version, s).value.0.AsU8()];
    } else {
      assert [] + s == s;
    }
  }

  lemma NoScopeRefused(s: seq<byte>, version: u32, algorithm: Algorithm, mode: AccessMode, path: Str, rest: seq<byte>)
    requires NamesNoScope(s, version, algorithm, mode, path, rest)
    ensures ParseHeader(s) == Err(InvalidScope)
  {
    hide IsScope, ValidUtf8;
    Widths();
    var t5 := PutBlock(path, 2, rest);
    var m := if version >= 2 then [mode.AsU8()] else [];
    var t4 := m + t5;
    var t3 := [algorithm.AsU8()] + t4;
    TakeAppend(MAGIC, LE(version, 4) + t3);
    TakeLEAppend(version, 4, t3);
    TakeAppend([algorithm.AsU8()], t4);
    TakeAppend([mode.AsU8()], t5);
    assert [] + t5 == t5;
    TakeBlockAppend(path, 2, rest);
  }

  lemma KeysErrors(s: seq<byte>)
    ensures ParseKeys(s).Err? ==> ParseKeys(s) == Err(SerializationError)
    ensures ParseTrailer(s).Err? ==> ParseTrailer(s) == Err(SerializationError)
  {
    if Take(s, 32).Ok? {
      var s1 := Take(s, 32).value.1;
      if TakeBlock(s1, 4).Ok? && TakeLE(TakeBlock(s1, 4).value.1, 2).Ok? {
        var (count, s3) := TakeLE(TakeBlock(s1, 4).value.1, 2).value;
        EntriesErrors(s3, count);
      }
    }
  }

  lemma {:induction false} EntriesErrors(s: seq<byte>, count: nat)
    ensures ParseEntries(s, count).Err? ==> ParseEntries(s, count) == Err(SerializationError)
  {
    if count > 0 && ParseEntry(s).Ok? {
      EntriesErrors(ParseEntry(s).value.1, count - 1);
    }
  }

  /** A parse blames the scope exactly when all before it is in order and it is none; else it is a format error. */
  lemma ParseErrorsExactly(s: seq<byte>)
    ensures Parse(s) == Err(InvalidScope) <==>
              exists version, algorithm, mode, path, rest :: NamesNoScope(s, version, algorithm, mode, path, rest)
    ensures Parse(s).Err? && Parse(s) != Err(InvalidScope) ==> Parse(s) == Err(SerializationError)
  {
    hide ParseHeader, ParseKeys, ParseTrailer, NamesNoScope;
    if ParseHeader(s).Err? {
      HeaderError(s);
    } else {
      KeysErrors(ParseHeader(s).value.1);
      if ParseKeys(ParseHeader(s).value.1).Ok? {
        KeysErrors(ParseKeys(ParseHeader(s).value.1).value.1);
      }
    }
    forall version, algorithm, mode, path, rest | NamesNoScope(s, version, algorithm, mode, path, rest)
      ensures Parse(s) == Err(InvalidScope)
    {
      NoScopeRefused(s, version, algorithm, mode, path, rest);
    }
  }

  // ---- Consequences

  lemma {:induction false} PutEntriesAppend(es: seq<AccessEntry>, w: nat, t: seq<byte>, u: seq<byte>)
    ensures PutEntries(es, w, t) + u == PutEntries(es, w, t + u)
  {
    if es != [] {
      PutEntriesAppend(es[1..], w, t, u);
      var rest := PutEntries(es[1..], w, t);
      BlockAppend(es[0].wrappedDataKey, w, es[0].wrapNonce + rest, u);
      assert es[0].wrapNonce + rest + u == es[0].wrapNonce + (rest + u);
      AppendAssoc(es[0].readKeyId, PutBlock(es[0].wrappedDataKey, w, es[0].wrapNonce + rest), u);
    }
  }

  lemma AppendAssoc(a: seq<byte>, b: seq<byte>, c: seq<byte>)
    ensures (a + b) + c == a + (b + c)
  {
  }

  lemma BlockAppend(b: seq<byte>, w: nat, t: seq<byte>, u: seq<byte>)
    ensures PutBlock(b, w, t) + u == PutBlock(b, w, t + u)
  {
  }

  lemma PutKeysAppend(e: Envelope, w: nat, t: seq<byte>, u: seq<byte>)
    ensures PutKeys(e, w, t) + u == PutKeys(e, w, t + u)
  {
    PutEntriesAppend(e.accessEntries, w, t, u);
    var t3 := PutEntries(e.accessEntries, w, t);
    var t2 := LE(|e.accessEntries|, w) + t3;
    AppendAssoc(LE(|e.accessEntries|, w), t3, u);
    BlockAppend(MlkemBytes(e), 4, t2, u);
    AppendAssoc(e.ephemeralPublic, PutBlock(MlkemBytes(e), 4, t2), u);
  }

  lemma PutTrailerAppend(e: Envelope, t: seq<byte>, u: seq<byte>)
    ensures PutTrailer(e, t) + u == PutTrailer(e, t + u)
  {
  }

  lemma LayoutAppend(e: Envelope, mode: seq<byte>, t: seq<byte>, u: seq<byte>)
    ensures LayoutWith(e, mode, t) + u == LayoutWith(e, mode, t + u)
  {
    var t7 := PutTrailer(e, e.signature + t);
    var t6 := PutKeys(e, 2, t7);
    var t5 := PutBlock(e.scope, 2, t6);
    AppendAssoc(e.signature, t, u);
    PutTrailerAppend(e, e.signature + t, u);
    PutKeysAppend(e, 2, t7, u);
    BlockAppend(e.scope, 2, t6, u);
    AppendAssoc(mode, t5, u);
    AppendAssoc([e.algorithm.AsU8()], mode + t5, u);
    AppendAssoc(LE(e.version, 4), [e.algorithm.AsU8()] + (mode + t5), u);
    AppendAssoc(MAGIC, LE(e.version, 4) + ([e.algorithm.AsU8()] + (mode + t5)), u);
  }

  /**
    A version below 2 never survives printing: the mode byte that is always written is read as
    the low byte of the scope length.
   */
  lemma OldVersionShifts(e: Envelope, rest: seq<byte>)
    requires e.version < 2
    ensures Parsed(Wire(e) + rest) != Ok(Normalize(e))
  {
    if Parsed(Wire(e) + rest) == Ok(Normalize(e)) {
      ParseSound(Wire(e) + rest);
      var behind := Parse(Wire(e) + rest).value.1;
      LayoutAppend(e, [e.accessMode.AsU8()], [], rest);
      NormalizeLayout(e, [], behind);
      ModeByteShifts(e, [] + rest, behind);
    }
  }

  /** A scope whose length is truncated to 0 on writing reads back empty, which no scope is. */
  lemma EmptiedScope(e: Envelope)
    requires |e.scope| % 0x1_0000 == 0 && e.version >= 2
    ensures Parsed(Wire(e)) == Err(InvalidScope)
  {
    hide ParseKeys, ParseTrailer, PutKeys, PutTrailer;
    Widths();
    var keys := PutKeys(e, 2, PutTrailer(e, e.signature + []));
    var t5 := PutBlock(e.scope, 2, keys);
    var t4 := [e.accessMode.AsU8()] + t5;
    var t3 := [e.algorithm.AsU8()] + t4;
    TakeAppend(MAGIC, LE(e.version, 4) + t3);
    TakeLEAppend(e.version, 4, t3);
    TakeAppend([e.algorithm.AsU8()], t4);
    ParseModeAppend(e, t5);
    EmptiedBlock(e.scope, keys);
  }

  lemma EmptiedBlock(scope: Scope, tail: seq<byte>)
    requires |scope| % 0x1_0000 == 0
    ensures ParseScope(PutBlock(scope, 2, tail)) == Err(InvalidScope)
  {
    Widths();
    TakeAppend(LE(|scope|, 2), scope + tail);
    LEToNat(|scope|, 2);
    assert (scope + tail)[..0] == [];
  }

  lemma ModeByteShifts(e: Envelope, s: seq<byte>, t: seq<byte>)
    requires |e.scope| < 0x1_0000
    ensures LayoutWith(e, [0], s) != LayoutWith(e, [], t)
  {
    var a := PutBlock(e.scope, 2, PutKeys(e, 2, PutTrailer(e, e.signature + s)));
    var b := PutBlock(e.scope, 2, PutKeys(e, 2, PutTrailer(e, e.signature + t)));
    if LayoutWith(e, [0], s) == LayoutWith(e, [], t) {
      var algo := [e.algorithm.AsU8()];
      Cancel(MAGIC, LE(e.version, 4) + (algo + ([0] + a)), MAGIC, LE(e.version, 4) + (algo + ([] + b)));
      Cancel(LE(e.version, 4), algo + ([0] + a), LE(e.version, 4), algo + ([] + b));
      Cancel(algo, [0] + a, algo, [] + b);
      ZeroLengthScope(e.scope, a, b);
    }
  }

  lemma ZeroLengthScope(scope: Scope, a: seq<byte>, b: seq<byte>)
    requires |scope| < 0x1_0000 && |a| >= 2 && |b| >= 2
    requires a[..2] == LE(|scope|, 2) && b[..2] == LE(|scope|, 2)
    ensures [0] + a != [] + b
  {
    assert LE(|scope|, 2) == [|scope| % 256, (|scope| / 256) % 256];
    assert ([0] + a)[0] == 0 && ([0] + a)[1] == a[..2][0];
    assert ([] + b)[0] == b[..2][0] && ([] + b)[1] == b[..2][1];
  }

  lemma LayoutLength(e: Envelope, mode: seq<byte>, tail: seq<byte>)
    ensures |LayoutWith(e, mode, tail)| == WireSize(e) - 1 + |mode| + |tail|
  {
    PutEntriesSize(e.accessEntries, PutTrailer(e, e.signature + tail));
  }

  lemma NormalizeLayout(e: Envelope, mode: seq<byte>, tail: seq<byte>)
    ensures LayoutWith(Normalize(e), mode, tail) == LayoutWith(e, mode, tail)
    ensures Signable(Normalize(e)) == Signable(e)
  {
  }

  /**
    Round trip, with its exact condition: behind any bytes `rest`, the parser gives back the
    printed envelope precisely when every length fits its field and the version is at least 2.
   */
  lemma RoundTrip(e: Envelope, rest: seq<byte>)
    ensures Parsed(Wire(e) + rest) == Ok(Normalize(e)) <==> Fits(e) && e.version >= 2
    ensures Fits(e) && e.version >= 2 ==> Parse(Wire(e) + rest) == Ok((Normalize(e), rest))
  {
    LayoutAppend(e, [e.accessMode.AsU8()], [], rest);
    assert [] + rest == rest;
    assert MlkemBytes(Normalize(e)) == MlkemBytes(e);
    if Fits(e) && e.version >= 2 {
      ParseLayout(e, rest);
    } else if e.version < 2 {
      OldVersionShifts(e, rest);
    } else if Parsed(Wire(e) + rest) == Ok(Normalize(e)) {
      ParseSound(Wire(e) + rest);
    }
  }

  /** Printing what was parsed gives the consumed bytes back. */
  lemma Reprint(data: seq<byte>)
    ensures Parse(data).Ok? && Parse(data).value.0.version >= 2 ==>
              var (e, rest) := Parse(data).value;
              data == Wire(e) + rest
  {
    if Parse(data).Ok? {
      var (e, rest) := Parse(data).value;
      ParseSound(data);
      LayoutAppend(e, [e.accessMode.AsU8()], [], rest);
      assert [] + rest == rest;
    }
  }

  /** Bytes behind a parsed envelope are handed on untouched. */
  lemma ParseExtends(p: seq<byte>, q: seq<byte>)
    ensures Parse(p).Ok? ==>
              var (e, rest) := Parse(p).value;
              Parse(p + q) == Ok((e, rest + q))
  {
    if Parse(p).Ok? {
      var (e, rest) := Parse(p).value;
      ParseSound(p);
      LayoutAppend(e, if e.version >= 2 then [e.accessMode.AsU8()] else [], rest, q);
      ParseLayout(e, rest + q);
    }
  }

  /** Every strict prefix of a printed envelope is rejected. */
  lemma PrefixRejected(e: Envelope, n: nat)
    requires Fits(e) && e.version >= 2 && n < |Wire(e)|
    ensures Parse(Wire(e)[..n]).Err?
  {
    var p, q := Wire(e)[..n], Wire(e)[n..];
    RoundTrip(e, []);
    assert p + q == Wire(e) + [];
    ParseExtends(p, q);
  }

  // ---- The fields in their order

  function AlgorithmByte(e: Envelope): byte {
    if e.algorithm == EciesX25519ChaCha20 then 1 else 2
  }

  function ModeByte(e: Envelope): byte {
    if e.accessMode == PerRecipient then 0 else 1
  }

  /** Entry by entry: the key id, the wrapped key behind its length, the nonce. */
  function EntriesBytes(es: seq<AccessEntry>, w: nat): seq<byte> {
    if es == [] then []
    else
      es[0].readKeyId
      + (LE(|es[0].wrappedDataKey|, w) + (es[0].wrappedDataKey + (es[0].wrapNonce + EntriesBytes(es[1..], w))))
  }

  lemma {:induction false} PutEntriesBytes(es: seq<AccessEntry>, w: nat, tail: seq<byte>)
    ensures PutEntries(es, w, tail) == EntriesBytes(es, w) + tail
  {
    if es == [] {
      assert [] + tail == tail;
    } else {
      PutEntriesBytes(es[1..], w, tail);
      EntryBytesAppend(es[0], w, EntriesBytes(es[1..], w), tail);
    }
  }

  lemma EntryBytesAppend(entry: AccessEntry, w: nat, rest: seq<byte>, tail: seq<byte>)
    ensures entry.readKeyId + PutBlock(entry.wrappedDataKey, w, entry.wrapNonce + (rest + tail))
         == (entry.readKeyId
             + (LE(|entry.wrappedDataKey|, w) + (entry.wrappedDataKey + (entry.wrapNonce + rest)))) + tail
  {
  }

  /** From the ephemeral key on, wire and signed form differ only in the width of the counts. */
  function KeysBytes(e: Envelope, w: nat, tail: seq<byte>): seq<byte> {
    e.ephemeralPublic + (LE(|MlkemBytes(e)|, 4) + (MlkemBytes(e)
    + (LE(|e.accessEntries|, w) + (EntriesBytes(e.accessEntries, w)
    + (e.nonce + (LE(|e.ciphertext|, 8) + (e.ciphertext + (e.tag + (e.spendPublicKey + tail)))))))))
  }

  /** The wire format, field by field: `ROK` and 1, then what is written of the envelope, in this order. */
  lemma WireInOrder(e: Envelope)
    ensures Wire(e) ==
            [0x52, 0x4F, 0x4B, 0x01] + (LE(e.version, 4) + ([AlgorithmByte(e)] + ([ModeByte(e)]
            + (LE(|e.scope|, 2) + (e.scope + KeysBytes(e, 2, e.signature))))))
  {
    PutEntriesBytes(e.accessEntries, 2, PutTrailer(e, e.signature + []));
    assert e.signature + [] == e.signature;
  }

  /** What is signed, field by field: no length before the scope, wider counts, and no signature. */
  lemma SignableInOrder(e: Envelope)
    ensures Signable(e) ==
            LE(e.version, 4) + ([AlgorithmByte(e)] + ([ModeByte(e)] + (e.scope + KeysBytes(e, 4, []))))
  {
    PutEntriesBytes(e.accessEntries, 4, PutTrailer(e, []));
  }

  // ---- Size

  function EntriesSize(es: seq<AccessEntry>): nat {
    if es == [] then 0 else 22 + |es[0].wrappedDataKey| + EntriesSize(es[1..])
  }

  lemma {:induction false} PutEntriesSize(es: seq<AccessEntry>, tail: seq<byte>)
    ensures |PutEntries(es, 2, tail)| == EntriesSize(es) + |tail|
  {
    if es != [] {
      PutEntriesSize(es[1..], tail);
    }
  }

  function WireSize(e: Envelope): nat {
    182 + |e.scope| + |MlkemBytes(e)| + EntriesSize(e.accessEntries) + |e.ciphertext|
  }

  /** The size in closed form; a successful parse consumes exactly this many bytes. */
  lemma SizeOfWire(e: Envelope)
    ensures |Wire(e)| == WireSize(e)
  {
    LayoutLength(e, [e.accessMode.AsU8()], []);
  }

  lemma ConsumedSize(data: seq<byte>)
    ensures Parse(data).Ok? && Parse(data).value.0.version >= 2 ==>
              |data| - |Parse(data).value.1| == WireSize(Parse(data).value.0)
  {
    hide Parse, Wire;
    Reprint(data);
    if Parse(data).Ok? {
      SizeOfWire(Parse(data).value.0);
    }
  }
}
