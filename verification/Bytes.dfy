/**
 Bytes, big-endian integers, and parsers over byte sequences.

 A parser maps the unread bytes to a value and the bytes still unread. The wire
 formats below are all built from Take, which fails only for want of bytes.
 */
module Bytes {
  import opened Wrappers

  type byte = bv8
  type bytes = seq<byte>

  type i32 = n: int | -0x8000_0000 <= n < 0x8000_0000
  type i64 = n: int | -0x8000_0000_0000_0000 <= n < 0x8000_0000_0000_0000
  type u32 = n: int | 0 <= n < 0x1_0000_0000
  type u64 = n: int | 0 <= n < 0x1_0000_0000_0000_0000

  /** The byte of value `n`; counting up keeps int-to-bit-vector conversions out of every later proof. */
  function ToByte(n: nat): (b: byte)
    requires n < 256
    ensures b as int == n
  {
    if n == 0 then 0 else ToByte(n - 1) + 1
  }

  // ---------- Big-endian integers ----------

  function Pow256(w: nat): nat
  {
    if w == 0 then 1 else 256 * Pow256(w - 1)
  }

  /** The low `w` bytes of `n`, most significant first. */
  function BigEndian(n: nat, w: nat): (r: bytes)
    ensures |r| == w
    decreases w, n
  {
    if w == 0 then [] else BigEndian(n / 256, w - 1) + [ToByte(n % 256)]
  }

  function FromBigEndian(s: bytes): nat
  {
    if s == [] then 0 else FromBigEndian(s[..|s| - 1]) * 256 + s[|s| - 1] as int
  }

  lemma {:induction false} BigEndianRoundTrip(n: nat, w: nat)
    requires n < Pow256(w)
    ensures FromBigEndian(BigEndian(n, w)) == n
    decreases w
  {
    if w != 0 {
      BigEndianRoundTrip(n / 256, w - 1);
      var r := BigEndian(n, w);
      assert r[..w - 1] == BigEndian(n / 256, w - 1);
    }
  }

  lemma QuotientIs(x: nat, q: nat, r: nat, m: nat)
    requires r < m && x == q * m + r
    ensures x / m == q && x % m == r
  {
    var q', r' := x / m, x % m;
    assert (q' - q) * m == r - r' && (q - q') * m == r' - r;
    if q' > q {
      AtLeastOnce(q' - q, m);
    } else if q' < q {
      AtLeastOnce(q - q', m);
    }
  }

  lemma AtLeastOnce(q: int, m: nat)
    requires q >= 1
    ensures q * m >= m
  {
  }

  lemma NestedDivision(n: nat, m: nat)
    requires m > 0
    ensures n / 256 / m == n / (256 * m)
  {
    var q, r, low := n / 256 / m, n / 256 % m, n % 256;
    assert n / 256 == q * m + r;
    assert n == q * (256 * m) + (256 * r + low);
    QuotientIs(n, q, 256 * r + low, 256 * m);
  }

  lemma Pow256Positive(w: nat)
    ensures Pow256(w) > 0
  {
  }

  /** Byte `k` of `w` is the digit of weight 256^(w - 1 - k): the most significant byte comes first. */
  lemma {:induction false} BigEndianDigit(n: nat, w: nat, k: nat)
    requires k < w
    ensures Pow256(w - 1 - k) > 0
    ensures BigEndian(n, w)[k] as int == n / Pow256(w - 1 - k) % 256
    decreases w
  {
    Pow256Positive(w - 1 - k);
    if k < w - 1 {
      BigEndianDigit(n / 256, w - 1, k);
      NestedDivision(n, Pow256(w - 2 - k));
    }
  }

  lemma MovesUp(a: int, p: int, f: int, last: int)
    ensures (a * p + f) * 256 + last == a * (256 * p) + (f * 256 + last)
  {
  }

  lemma FromBigEndianUnfolds(s: bytes, last: byte)
    ensures FromBigEndian(s + [last]) == FromBigEndian(s) * 256 + last as int
  {
    assert (s + [last])[..|s|] == s;
  }

  /** The first byte read has the greatest weight. */
  lemma {:induction false} FromBigEndianHead(a: byte, s: bytes)
    ensures FromBigEndian([a] + s) == a as int * Pow256(|s|) + FromBigEndian(s)
    decreases |s|
  {
    hide FromBigEndian;
    if s == [] {
      FromBigEndianUnfolds([], a);
      FromNothing();
      assert [a] + s == [] + [a];
    } else {
      var n := |s| - 1;
      assert [a] + s == [a] + s[..n] + [s[n]] && s == s[..n] + [s[n]];
      FromBigEndianUnfolds([a] + s[..n], s[n]);
      FromBigEndianUnfolds(s[..n], s[n]);
      FromBigEndianHead(a, s[..n]);
      MovesUp(a as int, Pow256(n), FromBigEndian(s[..n]), s[n] as int);
    }
  }

  lemma FromNothing()
    ensures FromBigEndian([]) == 0
  {
  }

  lemma SameByte(b: byte)
    ensures ToByte(b as int) == b
  {
  }

  lemma BigEndianUnfolds(n: nat, low: byte, w: nat)
    ensures BigEndian(n * 256 + low as int, w + 1) == BigEndian(n, w) + [low]
  {
    QuotientIs(n * 256 + low as int, n, low as int, 256);
    SameByte(low);
    hide ToByte;
  }

  /** Every byte string is the big-endian form of the number it is read as. */
  lemma {:induction false} BigEndianOf(s: bytes)
    ensures BigEndian(FromBigEndian(s), |s|) == s
    decreases |s|
  {
    hide FromBigEndian, BigEndian;
    if s == [] {
      assert BigEndian(FromBigEndian(s), 0) == [];
    } else {
      var n := |s| - 1;
      assert s == s[..n] + [s[n]];
      FromBigEndianUnfolds(s[..n], s[n]);
      BigEndianUnfolds(FromBigEndian(s[..n]), s[n], n);
      BigEndianOf(s[..n]);
    }
  }

  /** A signed cast keeps the low bits: it differs from its argument by a multiple of the modulus. */
  lemma CastsKeepLowBits(n: int)
    ensures (n - AsI32(n)) % 0x1_0000_0000 == 0
    ensures (n - AsI64(n)) % 0x1_0000_0000_0000_0000 == 0
  {
  }

  lemma Pow256Values()
    ensures Pow256(4) == 0x1_0000_0000
    ensures Pow256(8) == 0x1_0000_0000_0000_0000
  {
    assert Pow256(2) == 0x1_0000;
    assert Pow256(3) == 0x100_0000;
    assert Pow256(5) == 0x100_0000_0000;
    assert Pow256(6) == 0x1_0000_0000_0000;
    assert Pow256(7) == 0x100_0000_0000_0000;
  }

  /** Rust's `n as i32`: keep the low 32 bits and read them as two's complement. */
  function AsI32(n: int): (r: i32)
  {
    var m := n % 0x1_0000_0000;
    if m < 0x8000_0000 then m else m - 0x1_0000_0000
  }

  function AsI64(n: int): (r: i64)
  {
    var m := n % 0x1_0000_0000_0000_0000;
    if m < 0x8000_0000_0000_0000 then m else m - 0x1_0000_0000_0000_0000
  }

  /** `to_be_bytes` of a 32-bit value, signed or raw bits. */
  function Be32(n: int): (r: bytes)
    ensures |r| == 4
  {
    BigEndian(n % 0x1_0000_0000, 4)
  }

  function Be64(n: int): (r: bytes)
    ensures |r| == 8
  {
    BigEndian(n % 0x1_0000_0000_0000_0000, 8)
  }

  // ---------- Parsers ----------

  datatype Parse<+T> = Done(value: T, rest: bytes) | Fail(reason: DecodeReason) {
    predicate IsFailure() {
      Fail?
    }

    function PropagateFailure<U>(): Parse<U>
      requires Fail?
    {
      Fail(reason)
    }

    function Extract(): (T, bytes)
      requires Done?
    {
      (value, rest)
    }
  }

  /** How many bytes of `s` a finished parse read. */
  function Used<T>(s: bytes, p: Parse<T>): int
    requires p.Done?
  {
    |s| - |p.rest|
  }

  /** The bytes a finished parse read. */
  function Consumed<T>(s: bytes, p: Parse<T>): bytes
    requires p.Done?
  {
    if |p.rest| <= |s| then s[..|s| - |p.rest|] else s
  }

  /** The unread bytes are exactly a suffix of the input. */
  ghost predicate LeavesSuffix<T>(s: bytes, p: Parse<T>)
  {
    p.Done? ==> |p.rest| <= |s| && p.rest == s[|s| - |p.rest|..]
  }

  /** Items already read, in front of the items a parse still yields: how a reading loop relates to its grammar. */
  function After<T>(out: seq<T>, p: Parse<seq<T>>): Parse<seq<T>>
  {
    match p
    case Done(xs, rest) => Done(out + xs, rest)
    case Fail(why) => Fail(why)
  }

  lemma AfterNone<T>(p: Parse<seq<T>>)
    ensures After([], p) == p
  {
    if p.Done? {
      assert [] + p.value == p.value;
    }
  }

  lemma AfterAll<T>(out: seq<T>, rest: bytes)
    ensures After(out, Done([], rest)) == Done(out, rest)
  {
    assert out + [] == out;
  }

  lemma AfterOneMore<T>(out: seq<T>, x: T, xs: seq<T>, rest: bytes)
    ensures After(out, Done([x] + xs, rest)) == After(out + [x], Done(xs, rest))
  {
    assert out + ([x] + xs) == out + [x] + xs;
  }

  function Take(n: nat, s: bytes): (p: Parse<bytes>)
    ensures LeavesSuffix(s, p)
    ensures p.Done? <==> n <= |s|
    ensures p.Done? ==> |p.value| == n
    ensures p.Fail? ==> p.reason == Truncated
  {
    if n <= |s| then Done(s[..n], s[n..]) else Fail(Truncated)
  }

  function ParseU8(s: bytes): (p: Parse<byte>)
    ensures LeavesSuffix(s, p)
  {
    var (b, s1) :- Take(1, s);
    Done(b[0], s1)
  }

  function ParseI32(s: bytes): (p: Parse<i32>)
    ensures LeavesSuffix(s, p)
  {
    var (b, s1) :- Take(4, s);
    Done(AsI32(FromBigEndian(b)), s1)
  }

  function ParseI64(s: bytes): (p: Parse<i64>)
    ensures LeavesSuffix(s, p)
  {
    var (b, s1) :- Take(8, s);
    Done(AsI64(FromBigEndian(b)), s1)
  }

  lemma TakeAppend(c: bytes, t: bytes)
    ensures Take(|c|, c + t) == Done(c, t)
  {
    assert (c + t)[..|c|] == c;
    assert (c + t)[|c|..] == t;
  }

  lemma ParseU8Append(b: byte, t: bytes)
    ensures ParseU8([b] + t) == Done(b, t)
  {
    TakeAppend([b], t);
  }

  lemma ModuloRoundTrip(n: int, w: nat, m: nat)
    requires m == Pow256(w) && m > 0
    ensures FromBigEndian(BigEndian(n % m, w)) == n % m
  {
    BigEndianRoundTrip(n % m, w);
  }

  lemma Be32Unsigned(n: int)
    ensures FromBigEndian(Be32(n)) == n % 0x1_0000_0000
  {
    Pow256Values();
    ModuloRoundTrip(n, 4, 0x1_0000_0000);
  }

  lemma Be64Unsigned(n: int)
    ensures FromBigEndian(Be64(n)) == n % 0x1_0000_0000_0000_0000
  {
    Pow256Values();
    ModuloRoundTrip(n, 8, 0x1_0000_0000_0000_0000);
  }

  lemma CastsReduce(n: int)
    ensures AsI32(n % 0x1_0000_0000) == AsI32(n)
    ensures AsI64(n % 0x1_0000_0000_0000_0000) == AsI64(n)
  {
  }

  lemma Be32Value(n: int)
    ensures AsI32(FromBigEndian(Be32(n))) == AsI32(n)
  {
    Be32Unsigned(n);
    CastsReduce(n);
  }

  lemma Be64Value(n: int)
    ensures AsI64(FromBigEndian(Be64(n))) == AsI64(n)
  {
    Be64Unsigned(n);
    CastsReduce(n);
  }

  lemma ParseI32Append(n: int, t: bytes)
    ensures ParseI32(Be32(n) + t) == Done(AsI32(n), t)
  {
    var b := Be32(n);
    TakeAppend(b, t);
    Be32Value(n);
  }

  lemma ParseI64Append(n: int, t: bytes)
    ensures ParseI64(Be64(n) + t) == Done(AsI64(n), t)
  {
    var b := Be64(n);
    TakeAppend(b, t);
    Be64Value(n);
  }

  lemma Signed32Append(n: i32, t: bytes)
    ensures ParseI32(Be32(n) + t) == Done(n, t)
  {
    assert AsI32(n) == n;
    ParseI32Append(n, t);
  }

  lemma Signed64Append(n: i64, t: bytes)
    ensures ParseI64(Be64(n) + t) == Done(n, t)
  {
    assert AsI64(n) == n;
    ParseI64Append(n, t);
  }

  /** Raw bit patterns pass through the signed reading unharmed. */
  lemma Bits32Append(n: u32, t: bytes)
    ensures ParseI32(Be32(n) + t).Done? && ParseI32(Be32(n) + t).rest == t
    ensures ParseI32(Be32(n) + t).value % 0x1_0000_0000 == n
  {
    assert AsI32(n) % 0x1_0000_0000 == n;
    ParseI32Append(n, t);
  }

  lemma Bits64Append(n: u64, t: bytes)
    ensures ParseI64(Be64(n) + t).Done? && ParseI64(Be64(n) + t).rest == t
    ensures ParseI64(Be64(n) + t).value % 0x1_0000_0000_0000_0000 == n
  {
    assert AsI64(n) % 0x1_0000_0000_0000_0000 == n;
    ParseI64Append(n, t);
  }

  // ---------- Length-prefixed payloads ----------

  /** Length prefix `len as i32`, then the bytes themselves. */
  function BinaryBytes(b: bytes): (r: bytes)
    ensures |r| == 4 + |b|
  {
    Be32(|b|) + b
  }

  function ParseBinary(s: bytes): (p: Parse<bytes>)
    ensures LeavesSuffix(s, p)
  {
    var (len, s1) :- ParseI32(s);
    if len < 0 then Fail(NegativeLength) else Take(len, s1)
  }

  /** The longest payload whose length survives the cast to i32. */
  const PAYLOAD_LIMIT: nat := 0x8000_0000

  lemma PrefixOfBinary(b: bytes, t: bytes)
    ensures ParseI32(BinaryBytes(b) + t) == Done(AsI32(|b|), b + t)
  {
    var prefix := Be32(|b|);
    assert (prefix + b) + t == prefix + (b + t);
    ParseI32Append(|b|, b + t);
  }

  lemma ParseBinaryAppend(b: bytes, t: bytes)
    requires |b| < PAYLOAD_LIMIT
    ensures ParseBinary(BinaryBytes(b) + t) == Done(b, t)
  {
    assert AsI32(|b|) == |b|;
    PrefixOfBinary(b, t);
    TakeAppend(b, t);
  }

  /**
   A payload is read back exactly when its length fits the prefix; past the limit nothing the reader returns can be it.
   */
  lemma BinaryRoundTripIff(b: bytes, t: bytes)
    ensures (ParseBinary(BinaryBytes(b) + t).Done? && ParseBinary(BinaryBytes(b) + t).value == b)
        <==> |b| < PAYLOAD_LIMIT
  {
    if |b| < PAYLOAD_LIMIT {
      ParseBinaryAppend(b, t);
    } else {
      PrefixOfBinary(b, t);
      var len := AsI32(|b|);
      assert len < |b|;
    }
  }

  // ---------- Locality ----------
  //
  // A parse that succeeds looks only at the bytes it consumed: other bytes may follow
  // them, and if any of them is missing the parse reports truncation. Each ...Local
  // lemma states this for one parser, for any continuation `t` and any cut `j`.

  ghost predicate Local<T>(s: bytes, p: Parse<T>, other: Parse<T>, t: bytes, j: int, cut: Parse<T>)
    requires p.Done?
  {
    && LeavesSuffix(s, p)
    && other == Done(p.value, t)
    && (j < Used(s, p) ==> cut == Fail(Truncated))
  }

  lemma TakeLocal(n: nat, s: bytes, t: bytes, j: nat)
    requires Take(n, s).Done?
    requires j <= |s|
    ensures Local(s, Take(n, s), Take(n, Consumed(s, Take(n, s)) + t), t, j, Take(n, s[..j]))
  {
    TakeAppend(s[..n], t);
  }

  lemma ParseU8Local(s: bytes, t: bytes, j: nat)
    requires ParseU8(s).Done?
    requires j <= |s|
    ensures Local(s, ParseU8(s), ParseU8(Consumed(s, ParseU8(s)) + t), t, j, ParseU8(s[..j]))
    ensures Used(s, ParseU8(s)) == 1
  {
    TakeLocal(1, s, t, j);
  }

  lemma ParseI32Local(s: bytes, t: bytes, j: nat)
    requires ParseI32(s).Done?
    requires j <= |s|
    ensures Local(s, ParseI32(s), ParseI32(Consumed(s, ParseI32(s)) + t), t, j, ParseI32(s[..j]))
    ensures Used(s, ParseI32(s)) == 4
  {
    TakeLocal(4, s, t, j);
  }

  lemma ParseI64Local(s: bytes, t: bytes, j: nat)
    requires ParseI64(s).Done?
    requires j <= |s|
    ensures Local(s, ParseI64(s), ParseI64(Consumed(s, ParseI64(s)) + t), t, j, ParseI64(s[..j]))
    ensures Used(s, ParseI64(s)) == 8
  {
    TakeLocal(8, s, t, j);
  }

  /** Two reads in a row, `a` bytes then `b` bytes: how a continuation and a cut split between them. */
  lemma SplitReads(s: bytes, a: nat, b: nat, t: bytes, j: nat)
    requires a + b <= |s|
    requires j <= |s|
    ensures s[..a + b] + t == s[..a] + (s[a..][..b] + t)
    ensures j >= a ==> s[..j] == s[..a] + s[a..][..j - a]
  {
  }

  lemma ParseBinaryLocal(s: bytes, t: bytes, j: nat)
    requires ParseBinary(s).Done?
    requires j <= |s|
    ensures Local(s, ParseBinary(s), ParseBinary(Consumed(s, ParseBinary(s)) + t), t, j, ParseBinary(s[..j]))
  {
    var len := ParseI32(s).value;
    var s1 := s[4..];
    SplitReads(s, 4, len, t, j);
    ParseI32Local(s, s1[..len] + t, j);
    TakeLocal(len, s1, t, if j >= 4 then j - 4 else 0);
    if j >= 4 {
      ParseI32Local(s, s1[..j - 4], j);
    }
  }
}
