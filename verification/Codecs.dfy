/** The byte codecs of `src/reshare.rs`: dealer commitments, reshared polynomials and sub-shares. */
module Codecs {
  import opened Words
  import opened Field
  import opened Group
  import opened Encoding
  import opened Commitments

  // ---- lists of compressed points ----

  /** The first n points, compressed and concatenated. */
  function CompressUpTo(ps: seq<Point>, n: nat): (b: Bytes)
    requires n <= |ps|
    ensures |b| == n * POINT_CODEC.size
  {
    if n == 0 then [] else CompressUpTo(ps, n - 1) + Compress(ps[n - 1])
  }

  function CompressAll(ps: seq<Point>): Bytes { CompressUpTo(ps, |ps|) }

  /** The i-th fixed-width chunk. */
  function Chunk(b: Bytes, i: nat): (c: Bytes)
    requires (i + 1) * POINT_CODEC.size <= |b|
    ensures |c| == POINT_CODEC.size
  {
    b[i * POINT_CODEC.size..(i + 1) * POINT_CODEC.size]
  }

  /** The first n chunks as points, if all of them decompress. */
  function DecompressUpTo(b: Bytes, n: nat): (r: Option<seq<Point>>)
    requires n * POINT_CODEC.size <= |b|
    ensures r.Some? ==> |r.value| == n
  {
    if n == 0 then Some([])
    else
      match (DecompressUpTo(b, n - 1), Decompress(Chunk(b, n - 1)))
      case (Some(ps), Some(p)) => Some(ps + [p])
      case _ => None
  }

  lemma WidthMonotone(m: nat, n: nat)
    requires m <= n
    ensures m * POINT_CODEC.size <= n * POINT_CODEC.size
  {}

  lemma {:induction false} CompressPrefix(ps: seq<Point>, m: nat, n: nat)
    requires m <= n <= |ps|
    ensures m * POINT_CODEC.size <= n * POINT_CODEC.size
    ensures CompressUpTo(ps, n)[..m * POINT_CODEC.size] == CompressUpTo(ps, m)
    decreases n
  {
    WidthMonotone(m, n);
    if m < n {
      WidthMonotone(m, n - 1);
      CompressPrefix(ps, m, n - 1);
    }
  }

  lemma ChunkOfCompressed(ps: seq<Point>, i: nat)
    requires i < |ps|
    ensures (i + 1) * POINT_CODEC.size <= |CompressAll(ps)|
    ensures Chunk(CompressAll(ps), i) == Compress(ps[i])
  {
    CompressPrefix(ps, i + 1, |ps|);
    var w := POINT_CODEC.size;
    assert (i + 1) * w == i * w + w;
    assert CompressAll(ps)[..(i + 1) * w][i * w..] == Compress(ps[i]);
  }

  lemma {:induction false} DecompressCompressed(ps: seq<Point>, n: nat)
    requires n <= |ps|
    ensures n * POINT_CODEC.size <= |CompressAll(ps)|
    ensures DecompressUpTo(CompressAll(ps), n) == Some(ps[..n])
    decreases n
  {
    CompressPrefix(ps, n, |ps|);
    if n != 0 {
      DecompressCompressed(ps, n - 1);
      ChunkOfCompressed(ps, n - 1);
      PointRoundTrip(ps[n - 1], []);
      assert ps[..n] == ps[..n - 1] + [ps[n - 1]];
    }
  }

  lemma {:induction false} CompressDecompressed(b: Bytes, n: nat)
    requires n * POINT_CODEC.size <= |b| && DecompressUpTo(b, n).Some?
    ensures CompressAll(DecompressUpTo(b, n).value) == b[..n * POINT_CODEC.size]
    decreases n
  {
    if n != 0 {
      CompressDecompressed(b, n - 1);
      var w, before, now := POINT_CODEC.size, DecompressUpTo(b, n - 1).value, DecompressUpTo(b, n).value;
      PointRoundTrip(now[n - 1], Chunk(b, n - 1));
      SameCompressed(now, before, n - 1);
      assert (n - 1) * w + w == n * w;
      assert b[..n * w] == b[..(n - 1) * w] + Chunk(b, n - 1);
    }
  }

  lemma {:induction false} SameCompressed(ps: seq<Point>, qs: seq<Point>, n: nat)
    requires n <= |ps| && n <= |qs| && forall i :: 0 <= i < n ==> ps[i] == qs[i]
    ensures CompressUpTo(ps, n) == CompressUpTo(qs, n)
    decreases n
  {
    if n != 0 {
      SameCompressed(ps, qs, n - 1);
    }
  }

  /** No codec of width 0 can tell two points apart. */
  lemma PointsTakeBytes()
    ensures POINT_CODEC.size > 0
  {
    var p, q := Point(Zero()), Point(One());
    ZeroIsNotOne();
    if POINT_CODEC.size == 0 {
      assert Compress(p) == [] && Compress(q) == [];
      CompressInjective(p, q);
    }
  }

  lemma WidthOrder(m: nat, n: nat)
    requires POINT_CODEC.size > 0
    ensures m < n ==> m * POINT_CODEC.size < n * POINT_CODEC.size
    ensures n < m ==> n * POINT_CODEC.size < m * POINT_CODEC.size
  {}

  lemma CompressAllInjective(ps: seq<Point>, qs: seq<Point>)
    requires CompressAll(ps) == CompressAll(qs)
    ensures ps == qs
  {
    PointsTakeBytes();
    WidthOrder(|ps|, |qs|);
    DecompressCompressed(ps, |ps|);
    DecompressCompressed(qs, |qs|);
    assert ps[..|ps|] == ps && qs[..|qs|] == qs;
  }

  method AppendPoints(buffer: Bytes, ps: seq<Point>) returns (out: Bytes)
    ensures out == buffer + CompressAll(ps)
  {
    out := buffer;
    for i := 0 to |ps|
      invariant out == buffer + CompressUpTo(ps, i)
    {
      out := out + Compress(ps[i]);
    }
  }

  method ReadPoints(b: Bytes, n: nat) returns (r: Option<seq<Point>>)
    requires n * POINT_CODEC.size == |b|
    ensures r == DecompressUpTo(b, n)
  {
    var ps := [];
    for i := 0 to n
      invariant i * POINT_CODEC.size <= |b| && DecompressUpTo(b, i) == Some(ps)
    {
      WidthMonotone(i + 1, n);
      var p := Decompress(Chunk(b, i));
      if p.None? {
        FailureStays(b, i + 1, n);
        return None;
      }
      ps := ps + [p.value];
    }
    return Some(ps);
  }

  lemma {:induction false} FailureStays(b: Bytes, m: nat, n: nat)
    requires n * POINT_CODEC.size <= |b| && m <= n
    requires (WidthMonotone(m, n); DecompressUpTo(b, m).None?)
    ensures DecompressUpTo(b, n).None?
    decreases n
  {
    if m < n {
      WidthMonotone(m, n - 1);
      WidthMonotone(n - 1, n);
      FailureStays(b, m, n - 1);
    }
  }

  // ---- dealer commitments ----

  function CommitmentBytes(c: DealerCommitment): Bytes { U32Bytes(c.dealerIndex) + CompressAll(c.coefficients) }

  function ParseCommitment(b: Bytes, threshold: U32): Result<DealerCommitment> {
    if |b| != 4 + threshold * POINT_CODEC.size then Err(InvalidCommitment)
    else if U32FromBytes(b[..4]) == 0 then Err(InvalidIndex)
    else
      match DecompressUpTo(b[4..], threshold)
      case None => Err(InvalidCommitment)
      case Some(ps) => Ok(DealerCommitment(U32FromBytes(b[..4]), ps))
  }

  method PrintCommitment(c: DealerCommitment) returns (b: Bytes)
    ensures b == CommitmentBytes(c)
  {
    b := AppendPoints(U32Bytes(c.dealerIndex), c.coefficients);
  }

  method CommitmentFromBytes(b: Bytes, threshold: U32) returns (r: Result<DealerCommitment>)
    ensures r == ParseCommitment(b, threshold)
  {
    if |b| != 4 + threshold * POINT_CODEC.size {
      return Err(InvalidCommitment);
    }
    var dealerIndex := U32FromBytes(b[..4]);
    if dealerIndex == 0 {
      return Err(InvalidIndex);
    }
    var coefficients := ReadPoints(b[4..], threshold);
    match coefficients
    case None => return Err(InvalidCommitment);
    case Some(ps) => return Ok(DealerCommitment(dealerIndex, ps));
  }

  /** Parsing and printing commitments undo each other: a byte string is accepted at threshold t exactly
      when it is the encoding of a commitment of threshold t with a non-zero index, and as that one. */
  lemma CommitmentCodecExact(b: Bytes, threshold: U32, c: DealerCommitment)
    ensures ParseCommitment(b, threshold) == Ok(c) <==>
            b == CommitmentBytes(c) && c.dealerIndex != 0 && c.Threshold() == threshold
  {
    U32RoundTrip(c.dealerIndex, if |b| >= 4 then b[..4] else [0, 0, 0, 0]);
    if b == CommitmentBytes(c) && c.Threshold() == threshold {
      assert b[..4] == U32Bytes(c.dealerIndex) && b[4..] == CompressAll(c.coefficients);
      DecompressCompressed(c.coefficients, threshold);
      assert c.coefficients[..threshold] == c.coefficients;
    }
    if ParseCommitment(b, threshold) == Ok(c) {
      CompressDecompressed(b[4..], threshold);
      assert b == b[..4] + b[4..];
      assert b[4..] == b[4..][..threshold * POINT_CODEC.size];
    }
  }

  /** Refused bytes are of another length, under index zero, or hold no points; only index zero is told apart. */
  lemma CommitmentRefused(b: Bytes, threshold: U32)
    ensures ParseCommitment(b, threshold) == Err(InvalidIndex) <==>
            |b| == 4 + threshold * POINT_CODEC.size && b[..4] == U32Bytes(0)
    ensures ParseCommitment(b, threshold).Err? ==>
              || ParseCommitment(b, threshold) == Err(InvalidIndex)
              || ParseCommitment(b, threshold) == Err(InvalidCommitment)
  {
    if |b| == 4 + threshold * POINT_CODEC.size {
      WidthMonotone(0, threshold);
      U32RoundTrip(0, b[..4]);
    }
  }

  lemma CommitmentBytesInjective(c: DealerCommitment, d: DealerCommitment)
    requires CommitmentBytes(c) == CommitmentBytes(d)
    ensures c == d
  {
    SplitEqual(U32Bytes(c.dealerIndex), CompressAll(c.coefficients), U32Bytes(d.dealerIndex),
               CompressAll(d.coefficients));
    U32BytesInjective(c.dealerIndex, d.dealerIndex);
    CompressAllInjective(c.coefficients, d.coefficients);
  }

  /** At threshold 0 the parser accepts an empty commitment, whose constant term does not exist. */
  lemma EmptyCommitmentAccepted(dealerIndex: U32)
    requires dealerIndex != 0
    ensures ParseCommitment(U32Bytes(dealerIndex), 0) == Ok(DealerCommitment(dealerIndex, []))
  {
    CommitmentCodecExact(U32Bytes(dealerIndex), 0, DealerCommitment(dealerIndex, []));
  }

  // ---- reshared polynomials ----

  function ParsePolynomial(b: Bytes, threshold: U32): Result<seq<Point>> {
    if threshold == 0 || |b| != POINT_CODEC.size * threshold then Err(InvalidCommitment)
    else
      match DecompressUpTo(b, threshold)
      case None => Err(InvalidCommitment)
      case Some(ps) => Ok(ps)
  }

  method PolynomialFromBytes(b: Bytes, threshold: U32) returns (r: Result<seq<Point>>)
    ensures r == ParsePolynomial(b, threshold)
  {
    if threshold == 0 || |b| != POINT_CODEC.size * threshold {
      return Err(InvalidCommitment);
    }
    var coefficients := ReadPoints(b, threshold);
    match coefficients
    case None => return Err(InvalidCommitment);
    case Some(ps) => return Ok(ps);
  }

  /** Parsing and printing polynomials undo each other, and no empty polynomial is accepted. */
  lemma PolynomialCodecExact(b: Bytes, threshold: U32, ps: seq<Point>)
    ensures ParsePolynomial(b, threshold) == Ok(ps) <==> b == CompressAll(ps) && |ps| == threshold != 0
  {
    if b == CompressAll(ps) && |ps| == threshold {
      DecompressCompressed(ps, threshold);
      assert ps[..threshold] == ps;
    }
    if ParsePolynomial(b, threshold) == Ok(ps) {
      CompressDecompressed(b, threshold);
      assert b == b[..threshold * POINT_CODEC.size];
    }
  }

  // ---- sub-shares ----

  function PlaintextSize(): nat { 8 + SCALAR_CODEC.size }

  function SubSharePlaintext(s: SubShare): (b: Bytes)
    ensures |b| == PlaintextSize()
  {
    U32Bytes(s.dealerIndex) + U32Bytes(s.playerIndex) + ScalarBytes(s.value)
  }

  function ParseSubShare(b: Bytes): Result<SubShare>
    requires |b| == PlaintextSize()
  {
    var dealer, player := U32FromBytes(b[..4]), U32FromBytes(b[4..8]);
    if dealer == 0 || player == 0 then Err(InvalidIndex)
    else
      match ScalarFromBytes(b[8..])
      case None => Err(InvalidResponse)
      case Some(v) => Ok(SubShare(dealer, player, v))
  }

  /** Parsing and printing sub-shares undo each other, for exactly the sub-shares `SubShare::new` builds. */
  lemma SubShareCodecExact(b: Bytes, s: SubShare)
    requires |b| == PlaintextSize()
    ensures ParseSubShare(b) == Ok(s) <==> b == SubSharePlaintext(s) && s.dealerIndex != 0 && s.playerIndex != 0
    ensures ParseSubShare(b) == Err(InvalidIndex) <==> b[..4] == U32Bytes(0) || b[4..8] == U32Bytes(0)
    ensures ParseSubShare(b).Err? ==> ParseSubShare(b) == Err(InvalidIndex) || ParseSubShare(b) == Err(InvalidResponse)
  {
    U32RoundTrip(0, b[..4]);
    U32RoundTrip(0, b[4..8]);
    U32RoundTrip(s.dealerIndex, b[..4]);
    U32RoundTrip(s.playerIndex, b[4..8]);
    ScalarRoundTrip(s.value, b[8..]);
    if b == SubSharePlaintext(s) {
      assert b[..4] == U32Bytes(s.dealerIndex) && b[4..8] == U32Bytes(s.playerIndex) && b[8..] == ScalarBytes(s.value);
    }
    assert b == b[..4] + b[4..8] + b[8..];
  }
}
