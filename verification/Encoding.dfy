/** Canonical byte encodings. Integers are little-endian; the scalar and point codecs are arbitrary
    canonical fixed-width codecs, and the hashes are arbitrary functions. */
module Encoding {
  import opened Words
  import opened Field
  import opened Group

  type Bytes32 = b: Bytes | |b| == 32 witness seq(32, i => 0)

  function Ascii(s: string): (b: Bytes)
    ensures |b| == |s|
  {
    seq(|s|, i requires 0 <= i < |s| => (s[i] as int) % 256)
  }

  // ---- little-endian integers ----

  function Power256(w: nat): (p: nat)
    ensures p >= 1
  {
    if w == 0 then 1 else 256 * Power256(w - 1)
  }

  function LittleEndian(n: nat, w: nat): (b: Bytes)
    ensures |b| == w
  {
    if w == 0 then [] else [n % 256] + LittleEndian(n / 256, w - 1)
  }

  function FromLittleEndian(b: Bytes): nat {
    if b == [] then 0 else b[0] + 256 * FromLittleEndian(b[1..])
  }

  lemma {:induction false} LittleEndianParses(n: nat, w: nat)
    requires n < Power256(w)
    ensures FromLittleEndian(LittleEndian(n, w)) == n
  {
    if w != 0 {
      LittleEndianParses(n / 256, w - 1);
      assert LittleEndian(n, w)[1..] == LittleEndian(n / 256, w - 1);
    }
  }

  lemma {:induction false} LittleEndianPrints(b: Bytes)
    ensures FromLittleEndian(b) < Power256(|b|)
    ensures LittleEndian(FromLittleEndian(b), |b|) == b
  {
    if b != [] {
      LittleEndianPrints(b[1..]);
      LowByte(b[0], FromLittleEndian(b[1..]));
    }
  }

  lemma LowByte(low: Byte, high: nat)
    ensures (low + 256 * high) % 256 == low && (low + 256 * high) / 256 == high
  {}

  lemma LittleEndianInjective(m: nat, n: nat, w: nat)
    requires m < Power256(w) && n < Power256(w)
    requires LittleEndian(m, w) == LittleEndian(n, w)
    ensures m == n
  {
    LittleEndianParses(m, w);
    LittleEndianParses(n, w);
  }

  lemma WordWidths()
    ensures Power256(4) == U32_LIMIT && Power256(8) == U64_LIMIT
  {
    assert Power256(2) == 0x1_0000;
    assert Power256(4) == 256 * (256 * Power256(2));
    assert Power256(6) == 256 * (256 * Power256(4));
    assert Power256(8) == 256 * (256 * Power256(6));
  }

  function U32Bytes(x: U32): (b: Bytes)
    ensures |b| == 4
  {
    LittleEndian(x, 4)
  }

  function U64Bytes(x: U64): (b: Bytes)
    ensures |b| == 8
  {
    LittleEndian(x, 8)
  }

  function U32FromBytes(b: Bytes): U32
    requires |b| == 4
  {
    LittleEndianPrints(b);
    WordWidths();
    FromLittleEndian(b)
  }

  lemma U32RoundTrip(x: U32, b: Bytes)
    requires |b| == 4
    ensures U32FromBytes(U32Bytes(x)) == x
    ensures U32Bytes(U32FromBytes(b)) == b
  {
    WordWidths();
    LittleEndianParses(x, 4);
    LittleEndianPrints(b);
  }

  lemma U32BytesInjective(x: U32, y: U32)
    requires U32Bytes(x) == U32Bytes(y)
    ensures x == y
  {
    WordWidths();
    LittleEndianInjective(x, y, 4);
  }

  lemma U64BytesInjective(x: U64, y: U64)
    requires U64Bytes(x) == U64Bytes(y)
    ensures x == y
  {
    WordWidths();
    LittleEndianInjective(x, y, 8);
  }

  // ---- concatenations ----

  lemma SplitEqual<T>(a: seq<T>, b: seq<T>, c: seq<T>, d: seq<T>)
    requires a + b == c + d && |a| == |c|
    ensures a == c && b == d
  {
    assert (a + b)[..|a|] == a && (c + d)[..|a|] == c;
    assert (a + b)[|a|..] == b && (c + d)[|a|..] == d;
  }

  lemma Regroup<T>(a: seq<T>, b: seq<T>, c: seq<T>)
    ensures a + b + c == a + (b + c)
  {}

  /** A length-prefixed field; the length is cast to u64. */
  function Prefixed(field: Bytes): Bytes {
    U64Bytes(|field| % U64_LIMIT) + field
  }

  /** Length-prefixed fields can be read off the front, whatever follows. */
  lemma PrefixedSplit(a: Bytes, b: Bytes, c: Bytes, d: Bytes)
    requires Prefixed(a) + b == Prefixed(c) + d
    requires |a| < U64_LIMIT && |c| < U64_LIMIT
    ensures a == c && b == d
  {
    var la, lc := U64Bytes(|a| % U64_LIMIT), U64Bytes(|c| % U64_LIMIT);
    Regroup(la, a, b);
    Regroup(lc, c, d);
    SplitEqual(la, a + b, lc, c + d);
    U64BytesInjective(|a| % U64_LIMIT, |c| % U64_LIMIT);
    SplitEqual(a, b, c, d);
  }

  // ---- the scalar codec ----

  datatype Codec<!T> = Codec(size: nat, encode: T -> Bytes, decode: Bytes -> Option<T>)

  ghost predicate EncodesAt<T>(c: Codec<T>, x: T) {
    |c.encode(x)| == c.size && c.decode(c.encode(x)) == Some(x)
  }

  ghost predicate DecodesAt<T>(c: Codec<T>, b: Bytes) {
    c.decode(b).Some? ==> c.encode(c.decode(b).value) == b
  }

  /** Fixed width, injective, and only canonical encodings decode. */
  ghost predicate Canonical<T(!new)>(c: Codec<T>) {
    && (forall x :: EncodesAt(c, x))
    && (forall b :: DecodesAt(c, b))
  }

  lemma {:induction false} WideEnough(w: nat)
    ensures w < Power256(w)
  {
    if w != 0 {
      WideEnough(w - 1);
    }
  }

  function EncodeScalarWide(s: Scalar): Bytes { LittleEndian(s, ORDER) }

  function DecodeScalarWide(b: Bytes): Option<Scalar> {
    if |b| == ORDER && FromLittleEndian(b) < ORDER then Some(FromLittleEndian(b)) else None
  }

  function WideScalarCodec(): (c: Codec<Scalar>)
    ensures Canonical(c)
  {
    var c := Codec(ORDER, EncodeScalarWide, DecodeScalarWide);
    assert Canonical(c) by {
      WideEnough(ORDER);
      forall s: Scalar
        ensures EncodesAt(c, s)
      {
        LittleEndianParses(s, ORDER);
      }
      forall b: Bytes
        ensures DecodesAt(c, b)
      {
        LittleEndianPrints(b);
      }
    }
    c
  }

  type ScalarCodec = c: Codec<Scalar> | Canonical(c) witness WideScalarCodec()

  const SCALAR_CODEC: ScalarCodec

  function ScalarBytes(s: Scalar): (b: Bytes)
    ensures |b| == SCALAR_CODEC.size
  {
    assert EncodesAt(SCALAR_CODEC, s);
    SCALAR_CODEC.encode(s)
  }

  /** `from_canonical_bytes` */
  function ScalarFromBytes(b: Bytes): Option<Scalar> { SCALAR_CODEC.decode(b) }

  lemma ScalarRoundTrip(s: Scalar, b: Bytes)
    ensures ScalarFromBytes(ScalarBytes(s)) == Some(s)
    ensures ScalarFromBytes(b).Some? ==> ScalarBytes(ScalarFromBytes(b).value) == b
  {
    assert EncodesAt(SCALAR_CODEC, s);
    assert DecodesAt(SCALAR_CODEC, b);
  }

  lemma ScalarBytesInjective(s: Scalar, t: Scalar)
    requires ScalarBytes(s) == ScalarBytes(t)
    ensures s == t
  {
    ScalarRoundTrip(s, []);
    ScalarRoundTrip(t, []);
  }

  // ---- the point codec ----

  function CompressWide(p: Point): Bytes { ScalarBytes(p.log) }

  function DecompressWide(b: Bytes): Option<Point> {
    match ScalarFromBytes(b)
    case Some(s) => Some(Point(s))
    case None => None
  }

  function WidePointCodec(): (c: Codec<Point>)
    ensures Canonical(c)
  {
    var c := Codec(SCALAR_CODEC.size, CompressWide, DecompressWide);
    assert Canonical(c) by {
      forall p: Point
        ensures EncodesAt(c, p)
      {
        ScalarRoundTrip(p.log, []);
      }
      forall b: Bytes
        ensures DecodesAt(c, b)
      {
        ScalarRoundTrip(0, b);
      }
    }
    c
  }

  type PointCodec = c: Codec<Point> | Canonical(c) witness WidePointCodec()

  const POINT_CODEC: PointCodec

  function Compress(p: Point): (b: Bytes)
    ensures |b| == POINT_CODEC.size
  {
    assert EncodesAt(POINT_CODEC, p);
    POINT_CODEC.encode(p)
  }

  function Decompress(b: Bytes): Option<Point> { POINT_CODEC.decode(b) }

  lemma PointRoundTrip(p: Point, b: Bytes)
    ensures Decompress(Compress(p)) == Some(p)
    ensures Decompress(b).Some? ==> Compress(Decompress(b).value) == b
  {
    assert EncodesAt(POINT_CODEC, p);
    assert DecodesAt(POINT_CODEC, b);
  }

  lemma CompressInjective(p: Point, q: Point)
    requires Compress(p) == Compress(q)
    ensures p == q
  {
    PointRoundTrip(p, []);
    PointRoundTrip(q, []);
  }

  // ---- hashes ----

  const SHA512_32: Bytes -> Bytes32
  const SHA256: Bytes -> Bytes32
  const HASH_TO_SCALAR: Bytes -> Scalar

  /** SHA-512, truncated, tells these two inputs apart. */
  ghost predicate NoCollision(x: Bytes, y: Bytes) { SHA512_32(x) == SHA512_32(y) ==> x == y }

  ghost predicate NoCollision256(x: Bytes, y: Bytes) { SHA256(x) == SHA256(y) ==> x == y }

  ghost predicate NoScalarCollision(x: Bytes, y: Bytes) { HASH_TO_SCALAR(x) == HASH_TO_SCALAR(y) ==> x == y }
}
