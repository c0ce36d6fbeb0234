/**
  Bytes, fixed-width byte strings, results and the error variants shared by every layer.
  Error values keep the variant (and the structured fields) of the Rust error enum;
  the free-text messages are not part of the model.
 */
module Basics {

  type byte = x: int | 0 <= x < 256

  /** A Rust `str`: its bytes. Lengths and prefix tests on `str` are byte-wise. */
  type Str = seq<byte>

  type KeyId = s: seq<byte> | |s| == 8 witness Zeros(8)
  type Bytes12 = s: seq<byte> | |s| == 12 witness Zeros(12)
  type Bytes16 = s: seq<byte> | |s| == 16 witness Zeros(16)
  type Bytes32 = s: seq<byte> | |s| == 32 witness Zeros(32)
  type Bytes64 = s: seq<byte> | |s| == 64 witness Zeros(64)

  function Zeros(n: nat): (s: seq<byte>)
    ensures |s| == n
    ensures forall i | 0 <= i < n :: s[i] == 0
  {
    seq(n, _ => 0)
  }

  datatype Option<+T> = None | Some(value: T)

  datatype RokError =
    | DerivationError
    | EncryptionError
    | DecryptionError
    | SignatureVerificationFailed
    | InvalidScope
    | NoMatchingAccessEntry(id: KeyId)
    | KeyNotFound
    | SerializationError
    | InvalidKeyMaterial
    | ScopeMismatch(keyScope: Str, dataScope: Str)
    | EncodingError
    | InvalidChecksum
    | StorageError
    | InvalidTypeTag(expected: byte, got: byte)
    | Panic  // a slice copy of unequal lengths: the Rust code aborts here

  datatype Result<+T> = Ok(value: T) | Err(error: RokError) {
    predicate IsFailure() {
      Err?
    }

    function PropagateFailure<U>(): Result<U>
      requires Err?
    {
      Err(error)
    }

    function Extract(): T
      requires Ok?
    {
      value
    }
  }

  /** The bytes of an ASCII literal. */
  function Ascii(s: string): (b: Str)
    requires forall i | 0 <= i < |s| :: s[i] < 128 as char
    ensures |b| == |s|
  {
    seq(|s|, i requires 0 <= i < |s| => s[i] as int)
  }

  /** The position of the first element that satisfies `p`, as `Iterator::find` sees it. */
  function FirstIndex<T>(s: seq<T>, p: T -> bool): (r: Option<nat>)
    ensures r.None? <==> forall i | 0 <= i < |s| :: !p(s[i])
    ensures r.Some? ==> r.value < |s| && p(s[r.value])
    ensures r.Some? ==> forall i | 0 <= i < r.value :: !p(s[i])
  {
    if s == [] then None
    else if p(s[0]) then Some(0)
    else
      match FirstIndex(s[1..], p)
      case Some(i) => Some(i + 1)
      case None => None
  }

  const SLASH: byte := 0x2F
  const COLON: byte := 0x3A
}
