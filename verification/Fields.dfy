/**
  The primitive wire fields: fixed-width runs, little-endian integers and
  length-prefixed blocks. A printer takes the bytes that follow it (`tail`), so that
  layouts nest to the right and reading a field leaves exactly the tail.
 */
module Fields {
  import opened Basics

  function Pow256(w: nat): (r: nat)
    ensures r > 0
  {
    if w == 0 then 1 else 256 * Pow256(w - 1)
  }

  lemma Widths()
    ensures Pow256(2) == 0x1_0000 && Pow256(4) == 0x1_0000_0000 && Pow256(8) == 0x1_0000_0000_0000_0000
  {
  }

  /** `(n as uW).to_le_bytes()`: the low `w` bytes, so an oversized `n` is truncated. */
  function LE(n: nat, w: nat): (s: seq<byte>)
    ensures |s| == w
  {
    if w == 0 then [] else [n % 256] + LE(n / 256, w - 1)
  }

  function FromLE(s: seq<byte>): (n: nat)
    ensures n < Pow256(|s|)
  {
    if s == [] then 0 else s[0] + 256 * FromLE(s[1..])
  }

  lemma {:induction false} LEToNat(n: nat, w: nat)
    ensures FromLE(LE(n, w)) == n % Pow256(w)
    decreases w
  {
    if w > 0 {
      LEToNat(n / 256, w - 1);
      assert LE(n, w)[1..] == LE(n / 256, w - 1);
      ModStep(n, Pow256(w - 1));
    }
  }

  lemma ModStep(n: nat, p: nat)
    requires p > 0
    ensures n % 256 + 256 * ((n / 256) % p) == n % (256 * p)
  {
    var q := n / 256;
    assert n == 256 * q + n % 256;
    assert q == p * (q / p) + q % p;
    var r := n % 256 + 256 * (q % p);
    assert n == (256 * p) * (q / p) + r by {
      assert 256 * (p * (q / p)) == (256 * p) * (q / p);
    }
    ModUnique(n, 256 * p, q / p, r);
  }

  lemma ModUnique(n: nat, d: nat, k: nat, r: nat)
    requires d > 0 && n == d * k + r && r < d
    ensures n % d == r
  {
    var m := k - n / d;
    assert d * m == n % d - r by {
      assert n == d * (n / d) + n % d;
      assert d * m == d * k - d * (n / d);
    }
    if m >= 1 {
      MulAtLeast(d, m);
    } else if m <= -1 {
      MulAtLeast(d, -m);
    }
  }

  lemma MulAtLeast(d: nat, m: nat)
    requires m >= 1
    ensures d * m >= d
  {
  }

  lemma DivUnique(n: nat, d: nat, k: nat, r: nat)
    requires d > 0 && n == d * k + r && r < d
    ensures n / d == k
  {
    ModUnique(n, d, k, r);
    var m := k - n / d;
    assert d * m == 0 by {
      assert n == d * (n / d) + n % d;
      assert d * m == d * k - d * (n / d);
    }
    MulAway(d, m);
  }

  lemma MulAway(d: nat, m: int)
    requires d > 0
    ensures m == 0 || d * m >= d || d * m <= 0 - d
  {
    if m >= 1 {
      MulAtLeast(d, m);
    } else if m <= -1 {
      MulAtLeast(d, -m);
      assert d * m == -(d * -m);
    }
  }

  lemma DivTwice(n: nat, p: nat)
    requires p > 0
    ensures (n / 256) / p == n / (256 * p)
  {
    var q := n / 256;
    var k, s := q / p, q % p;
    assert q == p * k + s;
    assert n == (256 * p) * k + (256 * s + n % 256) by {
      assert n == 256 * q + n % 256;
      assert 256 * (p * k) == (256 * p) * k;
    }
    DivUnique(n, 256 * p, k, 256 * s + n % 256);
  }

  /** Byte `i` is the digit of 256 to the power of `i`: least significant first. */
  lemma {:induction false} LEDigit(n: nat, w: nat, i: nat)
    requires i < w
    ensures LE(n, w)[i] == n / Pow256(i) % 256
    decreases w
  {
    if i > 0 {
      LEDigit(n / 256, w - 1, i - 1);
      DivTwice(n, Pow256(i - 1));
    }
  }

  lemma {:induction false} NatToLE(s: seq<byte>)
    ensures LE(FromLE(s), |s|) == s
  {
    if s != [] {
      NatToLE(s[1..]);
      assert s == [s[0]] + s[1..];
    }
  }

  // ---- Reading from the front of the remaining bytes

  /** The cursor's `read_bytes`: fails when fewer than `n` bytes remain. */
  function Take(s: seq<byte>, n: nat): (r: Result<(seq<byte>, seq<byte>)>)
    ensures r.Ok? <==> n <= |s|
    ensures r.Ok? ==> |r.value.0| == n && |r.value.1| == |s| - n
    ensures r.Err? ==> r.error == SerializationError
  {
    if n > |s| then Err(SerializationError) else Ok((s[..n], s[n..]))
  }

  lemma TakeSound(s: seq<byte>, n: nat)
    ensures Take(s, n).Ok? ==> s == Take(s, n).value.0 + Take(s, n).value.1
  {
  }

  lemma TakeAppend(a: seq<byte>, tail: seq<byte>)
    ensures Take(a + tail, |a|) == Ok((a, tail))
  {
  }

  function TakeLE(s: seq<byte>, w: nat): Result<(nat, seq<byte>)> {
    var (b, rest) :- Take(s, w);
    Ok((FromLE(b), rest))
  }

  lemma TakeLEAppend(n: nat, w: nat, tail: seq<byte>)
    requires n < Pow256(w)
    ensures TakeLE(LE(n, w) + tail, w) == Ok((n, tail))
  {
  }

  lemma TakeLESound(s: seq<byte>, w: nat)
    ensures TakeLE(s, w).Ok? ==>
              var (n, rest) := TakeLE(s, w).value;
              n < Pow256(w) && s == LE(n, w) + rest
  {
    TakeSound(s, w);
    if w <= |s| {
      NatToLE(s[..w]);
    }
  }

  /** A block behind its own length, written in `w` bytes. */
  function PutBlock(b: seq<byte>, w: nat, tail: seq<byte>): seq<byte> {
    LE(|b|, w) + (b + tail)
  }

  function TakeBlock(s: seq<byte>, w: nat): Result<(seq<byte>, seq<byte>)> {
    var (n, rest) :- TakeLE(s, w);
    Take(rest, n)
  }

  lemma TakeBlockAppend(b: seq<byte>, w: nat, tail: seq<byte>)
    requires |b| < Pow256(w)
    ensures TakeBlock(PutBlock(b, w, tail), w) == Ok((b, tail))
  {
    TakeLEAppend(|b|, w, b + tail);
    TakeAppend(b, tail);
  }

  lemma TakeBlockSound(s: seq<byte>, w: nat)
    ensures TakeBlock(s, w).Ok? ==>
              var (b, rest) := TakeBlock(s, w).value;
              |b| < Pow256(w) && s == PutBlock(b, w, rest)
  {
    TakeLESound(s, w);
    if TakeLE(s, w).Ok? {
      TakeSound(TakeLE(s, w).value.1, TakeLE(s, w).value.0);
    }
  }

  // ---- Repetition

  /** The result of a parse, with the items read before put in front. */
  function Behind<T>(done: seq<T>, r: Result<(seq<T>, seq<byte>)>): Result<(seq<T>, seq<byte>)> {
    match r
    case Ok((items, rest)) => Ok((done + items, rest))
    case Err(error) => Err(error)
  }

  lemma BehindBoth<T>(a: seq<T>, b: seq<T>, r: Result<(seq<T>, seq<byte>)>)
    ensures Behind(a, Behind(b, r)) == Behind(a + b, r)
    ensures Behind([], r) == r
  {
    if r.Ok? {
      assert a + (b + r.value.0) == (a + b) + r.value.0;
      assert [] + r.value.0 == r.value.0;
    }
  }

  function PutMany<T>(put: (T, seq<byte>) -> seq<byte>, items: seq<T>, tail: seq<byte>): seq<byte> {
    if items == [] then tail else put(items[0], PutMany(put, items[1..], tail))
  }

  function ParseMany<T>(parse: seq<byte> -> Result<(T, seq<byte>)>, s: seq<byte>, count: nat):
    Result<(seq<T>, seq<byte>)>
    decreases count
  {
    if count == 0 then Ok(([], s))
    else
      match parse(s)
      case Ok((item, rest)) => Behind([item], ParseMany(parse, rest, count - 1))
      case Err(error) => Err(error)
  }

  lemma {:induction false} ParseManyCount<T>(parse: seq<byte> -> Result<(T, seq<byte>)>, s: seq<byte>, count: nat)
    requires ParseMany(parse, s, count).Ok?
    ensures |ParseMany(parse, s, count).value.0| == count
    decreases count
  {
    if count > 0 {
      ParseManyCount(parse, parse(s).value.1, count - 1);
    }
  }

  /** One item more has been read. */
  lemma ParseManyStep<T>(parse: seq<byte> -> Result<(T, seq<byte>)>, done: seq<T>, s: seq<byte>, count: nat)
    requires count > 0
    ensures Behind(done, ParseMany(parse, s, count)) ==
            match parse(s)
            case Ok((item, rest)) => Behind(done + [item], ParseMany(parse, rest, count - 1))
            case Err(error) => Err(error)
  {
    if parse(s).Ok? {
      BehindBoth(done, [parse(s).value.0], ParseMany(parse, parse(s).value.1, count - 1));
    }
  }

  lemma TakeExtends(s: seq<byte>, n: nat, more: seq<byte>)
    requires Take(s, n).Ok?
    ensures Take(s + more, n) == Ok((Take(s, n).value.0, Take(s, n).value.1 + more))
  {
    assert (s + more)[..n] == s[..n] && (s + more)[n..] == s[n..] + more;
  }

  lemma TakeBlockExtends(s: seq<byte>, w: nat, more: seq<byte>)
    requires TakeBlock(s, w).Ok?
    ensures TakeBlock(s + more, w) == Ok((TakeBlock(s, w).value.0, TakeBlock(s, w).value.1 + more))
  {
    TakeExtends(s, w, more);
    var (n, rest) := TakeLE(s, w).value;
    TakeExtends(rest, n, more);
  }

  /** Items whose parser hands on the bytes behind them do so as a list. */
  lemma {:induction false} ParseManyExtends<T>(parse: seq<byte> -> Result<(T, seq<byte>)>, s: seq<byte>, count: nat,
                                               more: seq<byte>)
    requires forall s: seq<byte> | parse(s).Ok? :: parse(s + more) == Ok((parse(s).value.0, parse(s).value.1 + more))
    ensures ParseMany(parse, s, count).Ok? ==>
              ParseMany(parse, s + more, count)
              == Ok((ParseMany(parse, s, count).value.0, ParseMany(parse, s, count).value.1 + more))
    decreases count
  {
    if count > 0 && parse(s).Ok? {
      ParseManyExtends(parse, parse(s).value.1, count - 1, more);
    }
  }

  /**
    Items that each come back in normal form exactly when they fit, whatever follows them, do so
    as a list.
   */
  lemma {:induction false} ParseManyExact<T(!new)>(
    put: (T, seq<byte>) -> seq<byte>, parse: seq<byte> -> Result<(T, seq<byte>)>, fits: T -> bool, norm: T -> T,
    items: seq<T>, normal: seq<T>, tail: seq<byte>)
    requires |normal| == |items| && forall i | 0 <= i < |items| :: normal[i] == norm(items[i])
    requires forall x: T, t: seq<byte> | fits(x) :: parse(put(x, t)) == Ok((norm(x), t))
    requires forall x: T, t: seq<byte> | !fits(x) :: parse(put(x, t)).Ok? ==> parse(put(x, t)).value.0 != norm(x)
    ensures (forall i | 0 <= i < |items| :: fits(items[i])) ==>
              ParseMany(parse, PutMany(put, items, tail), |items|) == Ok((normal, tail))
    ensures ParseMany(parse, PutMany(put, items, tail), |items|).Ok?
            && ParseMany(parse, PutMany(put, items, tail), |items|).value.0 == normal ==>
              forall i | 0 <= i < |items| :: fits(items[i])
    decreases items
  {
    if items != [] {
      var x, rest := items[0], PutMany(put, items[1..], tail);
      ParseManyExact(put, parse, fits, norm, items[1..], normal[1..], tail);
      assert normal == [norm(x)] + normal[1..];
      assert items == [x] + items[1..];
      var r := parse(put(x, rest));
      if r.Ok? {
        var later := ParseMany(parse, r.value.1, |items| - 1);
        if later.Ok? {
          assert ([r.value.0] + later.value.0)[0] == r.value.0;
          assert ([r.value.0] + later.value.0)[1..] == later.value.0;
        }
      }
    }
  }

  lemma Cancel(a: seq<byte>, s: seq<byte>, b: seq<byte>, t: seq<byte>)
    requires |a| == |b| && a + s == b + t
    ensures a == b && s == t
  {
    assert a == (a + s)[..|a|] && s == (a + s)[|a|..];
    assert b == (b + t)[..|b|] && t == (b + t)[|b|..];
  }

  // ---- UTF-8 validity (RFC 3629, section 4), as `str::from_utf8` checks it

  predicate Continuation(b: byte) {
    0x80 <= b <= 0xBF
  }

  predicate ValidUtf8(s: seq<byte>) {
    if s == [] then true
    else if s[0] <= 0x7F then ValidUtf8(s[1..])
    else if 0xC2 <= s[0] <= 0xDF then |s| >= 2 && Continuation(s[1]) && ValidUtf8(s[2..])
    else if 0xE0 <= s[0] <= 0xEF then
      && |s| >= 3
      && (if s[0] == 0xE0 then 0xA0 <= s[1] <= 0xBF
          else if s[0] == 0xED then 0x80 <= s[1] <= 0x9F
          else Continuation(s[1]))
      && Continuation(s[2])
      && ValidUtf8(s[3..])
    else if 0xF0 <= s[0] <= 0xF4 then
      && |s| >= 4
      && (if s[0] == 0xF0 then 0x90 <= s[1] <= 0xBF
          else if s[0] == 0xF4 then 0x80 <= s[1] <= 0x8F
          else Continuation(s[1]))
      && Continuation(s[2]) && Continuation(s[3])
      && ValidUtf8(s[4..])
    else false
  }

  lemma {:induction false} AsciiIsUtf8(s: seq<byte>)
    requires forall i | 0 <= i < |s| :: s[i] <= 0x7F
    ensures ValidUtf8(s)
  {
    if s != [] {
      AsciiIsUtf8(s[1..]);
    }
  }
}
