/** The bridge from a `frost-core` signing package (`src/zf.rs`): identifiers as indices, and the outer
    context an inner holder derives for itself. The binding factor and the challenge are `frost-core`'s;
    here they are arbitrary functions of the package and the key. */
module Zf {
  import opened Words
  import opened Sequences
  import opened Field
  import opened Group
  import opened Lagrange
  import opened Encoding
  import opened NestedAggregation

  const IDENTIFIER_SIZE: nat := 32

  function Reversed(b: Bytes): (r: Bytes)
    ensures |r| == |b| && forall i :: 0 <= i < |b| ==> r[i] == b[|b| - 1 - i]
  {
    seq(|b|, i requires 0 <= i < |b| => b[|b| - 1 - i])
  }

  function ZeroBytes(n: nat): (b: Bytes)
    ensures |b| == n && forall i :: 0 <= i < n ==> b[i] == 0
  {
    seq(n, i => 0)
  }

  /** The two serializations of a small integer as an n-byte scalar. */
  function LittleForm(i: U32, n: nat): Bytes
    requires n >= 4
  {
    U32Bytes(i) + ZeroBytes(n - 4)
  }

  function BigForm(i: U32, n: nat): Bytes
    requires n >= 4
  {
    ZeroBytes(n - 4) + Reversed(U32Bytes(i))
  }

  predicate AllZero(b: Bytes) { forall i :: 0 <= i < |b| ==> b[i] == 0 }

  function IdentifierToIndex(b: Bytes): Result<U32> {
    if |b| < 4 then Err(InvalidIndex)
    else
      var little, big := AllZero(b[4..]), AllZero(b[..|b| - 4]);
      if !little && !big then Err(InvalidIndex)
      else
        var v := if little then U32FromBytes(b[..4]) else U32FromBytes(Reversed(b[|b| - 4..]));
        if v == 0 then Err(InvalidIndex) else Ok(v)
  }

  lemma ReversedTwice(b: Bytes)
    ensures Reversed(Reversed(b)) == b
  {}

  lemma LittleFormDecodes(v: U32, b: Bytes)
    requires |b| >= 4
    ensures b == LittleForm(v, |b|) <==> AllZero(b[4..]) && U32FromBytes(b[..4]) == v
  {
    U32RoundTrip(v, b[..4]);
    if b == LittleForm(v, |b|) {
      assert b[..4] == U32Bytes(v) && b[4..] == ZeroBytes(|b| - 4);
    }
    if AllZero(b[4..]) && U32FromBytes(b[..4]) == v {
      assert b[4..] == ZeroBytes(|b| - 4);
      assert b == b[..4] + b[4..];
    }
  }

  lemma BigFormDecodes(v: U32, b: Bytes)
    requires |b| >= 4
    ensures b == BigForm(v, |b|) <==> AllZero(b[..|b| - 4]) && U32FromBytes(Reversed(b[|b| - 4..])) == v
  {
    var low, high := b[|b| - 4..], b[..|b| - 4];
    U32RoundTrip(v, Reversed(low));
    if b == BigForm(v, |b|) {
      assert low == Reversed(U32Bytes(v)) && high == ZeroBytes(|b| - 4);
      ReversedTwice(U32Bytes(v));
    }
    if AllZero(high) && U32FromBytes(Reversed(low)) == v {
      ReversedTwice(low);
      assert high == ZeroBytes(|b| - 4);
      assert b == high + low;
    }
  }

  lemma ZeroWord(b: Bytes)
    requires |b| == 4
    ensures U32FromBytes(b) == 0 <==> AllZero(b)
  {
    U32RoundTrip(0, b);
    assert AllZero(b) ==> b == ZeroBytes(4);
    assert U32Bytes(0) == ZeroBytes(4) by {
      assert LittleEndian(0, 1) == [0] + LittleEndian(0, 0);
      assert LittleEndian(0, 2) == [0] + LittleEndian(0, 1);
      assert LittleEndian(0, 3) == [0] + LittleEndian(0, 2);
    }
  }

  /** The index is read off exactly the zero-padded forms of a non-zero integer: the little-endian one, or
      the big-endian one where the bytes are no little-endian form. */
  lemma IdentifierExact(b: Bytes, v: U32)
    ensures IdentifierToIndex(b) == Ok(v) <==>
            && |b| >= 4 && v != 0
            && (b == LittleForm(v, |b|) || (b == BigForm(v, |b|) && !AllZero(b[4..])))
  {
    if |b| >= 4 {
      LittleFormDecodes(v, b);
      BigFormDecodes(v, b);
    }
  }

  /** From 8 bytes on, which all suites have, the two readings never compete. */
  lemma ReadingsDisjoint(b: Bytes, v: U32)
    requires |b| >= 8
    ensures IdentifierToIndex(b) == Ok(v) <==> v != 0 && (b == LittleForm(v, |b|) || b == BigForm(v, |b|))
  {
    IdentifierExact(b, v);
    BigFormDecodes(v, b);
    var low := b[|b| - 4..];
    ZeroWord(Reversed(low));
    if AllZero(b[4..]) {
      assert forall i :: 0 <= i < 4 ==> low[i] == b[4..][|b| - 8 + i];
      assert AllZero(Reversed(low));
    }
  }

  /** Every index survives the round trip in either byte order. */
  lemma IdentifierRoundTrip(i: U32)
    requires i != 0
    ensures IdentifierToIndex(LittleForm(i, IDENTIFIER_SIZE)) == Ok(i)
    ensures IdentifierToIndex(BigForm(i, IDENTIFIER_SIZE)) == Ok(i)
  {
    ReadingsDisjoint(LittleForm(i, IDENTIFIER_SIZE), i);
    ReadingsDisjoint(BigForm(i, IDENTIFIER_SIZE), i);
  }

  /** The byte order of the ciphersuite's field encoding. */
  datatype Suite = LittleEndianSuite | BigEndianSuite

  /** The form of a small integer in the suite's own order. */
  function SuiteForm(suite: Suite, i: U32, n: nat): Bytes
    requires n >= 4
  {
    match suite
    case LittleEndianSuite => LittleForm(i, n)
    case BigEndianSuite => BigForm(i, n)
  }

  /** The integer the bytes are in the suite's own order. */
  function IdentifierValue(suite: Suite, b: Bytes): nat {
    match suite
    case LittleEndianSuite => FromLittleEndian(b)
    case BigEndianSuite => FromLittleEndian(Reversed(b))
  }

  lemma {:induction false} ZeroBytesValue(n: nat)
    ensures FromLittleEndian(ZeroBytes(n)) == 0
  {
    if n > 0 {
      ZeroBytesValue(n - 1);
      assert ZeroBytes(n)[1..] == ZeroBytes(n - 1);
    }
  }

  lemma LittleFormValue(v: U32, n: nat)
    requires n >= 4
    ensures FromLittleEndian(LittleForm(v, n)) == v
  {
    var zeros := ZeroBytes(n - 4);
    ZeroBytesValue(n - 4);
    WordWidths();
    LittleEndianParses(v, 4);
    LeadingValue(U32Bytes(v), zeros);
  }

  lemma {:induction false} LeadingValue(b: Bytes, zeros: Bytes)
    requires FromLittleEndian(zeros) == 0
    ensures FromLittleEndian(b + zeros) == FromLittleEndian(b)
  {
    if b == [] {
      assert b + zeros == zeros;
    } else {
      LeadingValue(b[1..], zeros);
      assert (b + zeros)[1..] == b[1..] + zeros;
    }
  }

  lemma LittleFormExact(b: Bytes, v: U32)
    requires |b| >= 4
    ensures FromLittleEndian(b) == v <==> b == LittleForm(v, |b|)
  {
    LittleFormValue(v, |b|);
    LittleEndianPrints(b);
    LittleEndianPrints(LittleForm(v, |b|));
  }

  lemma ReversedLittleForm(v: U32, n: nat)
    requires n >= 4
    ensures Reversed(LittleForm(v, n)) == BigForm(v, n)
  {
    var b, r := LittleForm(v, n), BigForm(v, n);
    forall i | 0 <= i < n
      ensures Reversed(b)[i] == r[i]
    {}
  }

  /** Bytes stand for v in the suite's order exactly when they are its form of v. */
  lemma SuiteFormExact(suite: Suite, b: Bytes, v: U32)
    requires |b| >= 4
    ensures IdentifierValue(suite, b) == v <==> b == SuiteForm(suite, v, |b|)
  {
    match suite
    case LittleEndianSuite => LittleFormExact(b, v);
    case BigEndianSuite =>
      LittleFormExact(Reversed(b), v);
      ReversedLittleForm(v, |b|);
      ReversedTwice(b);
      ReversedTwice(LittleForm(v, |b|));
  }

  /** An accepted index is the identifier exactly when the bytes are its form in the suite's own order. */
  lemma IndexIsIdentifierIff(suite: Suite, b: Bytes)
    requires IdentifierToIndex(b).Ok?
    ensures var v := IdentifierToIndex(b).value;
      IdentifierValue(suite, b) == v <==> b == SuiteForm(suite, v, |b|)
  {
    SuiteFormExact(suite, b, IdentifierToIndex(b).value);
  }

  lemma ZeroRefused(b: Bytes)
    requires AllZero(b)
    ensures IdentifierToIndex(b) == Err(InvalidIndex)
  {
    if |b| >= 4 {
      ZeroWord(b[..4]);
    }
  }

  lemma ZeroIdentifierRefused(suite: Suite, b: Bytes)
    requires IdentifierValue(suite, b) == 0
    ensures IdentifierToIndex(b) == Err(InvalidIndex)
  {
    var zeros := ZeroBytes(|b|);
    ZeroBytesValue(|b|);
    LittleEndianPrints(zeros);
    LittleEndianPrints(b);
    LittleEndianPrints(Reversed(b));
    ReversedTwice(b);
    assert Reversed(zeros) == zeros;
    ZeroRefused(zeros);
  }

  /** From 8 bytes on, every non-zero identifier that fits a u32 is read as itself; of the larger ones, the
      accepted ones are read as something else. */
  lemma SmallIdentifiersExact(suite: Suite, b: Bytes)
    requires |b| >= 8
    ensures 0 < IdentifierValue(suite, b) < U32_LIMIT ==> IdentifierToIndex(b) == Ok(IdentifierValue(suite, b))
    ensures IdentifierToIndex(b).Ok? ==>
              (IdentifierToIndex(b).value == IdentifierValue(suite, b) <==> IdentifierValue(suite, b) < U32_LIMIT)
  {
    var v := IdentifierValue(suite, b);
    if v == 0 {
      ZeroIdentifierRefused(suite, b);
    } else if v < U32_LIMIT {
      SuiteFormExact(suite, b, v);
      ReadingsDisjoint(b, v);
    }
  }

  lemma FormsDiffer(v: U32, n: nat)
    requires v != 0 && n >= 8
    ensures LittleForm(v, n) != BigForm(v, n)
  {
    var b := LittleForm(v, n);
    LittleFormDecodes(v, b);
    ZeroWord(b[..4]);
    var i :| 0 <= i < 4 && b[..4][i] != 0;
    assert b[i] != BigForm(v, n)[i];
  }

  /** The other order's form of an index is accepted as that index, although it stands for a larger integer. */
  lemma OtherOrderMisread(v: U32)
    requires v != 0
    ensures IdentifierToIndex(LittleForm(v, IDENTIFIER_SIZE)) == Ok(v)
    ensures IdentifierValue(BigEndianSuite, LittleForm(v, IDENTIFIER_SIZE)) >= U32_LIMIT
    ensures IdentifierToIndex(BigForm(v, IDENTIFIER_SIZE)) == Ok(v)
    ensures IdentifierValue(LittleEndianSuite, BigForm(v, IDENTIFIER_SIZE)) >= U32_LIMIT
  {
    var little, big := LittleForm(v, IDENTIFIER_SIZE), BigForm(v, IDENTIFIER_SIZE);
    IdentifierRoundTrip(v);
    FormsDiffer(v, IDENTIFIER_SIZE);
    SmallIdentifiersExact(BigEndianSuite, little);
    SmallIdentifiersExact(LittleEndianSuite, big);
    SuiteFormExact(BigEndianSuite, little, v);
    SuiteFormExact(LittleEndianSuite, big, v);
  }

  // ---- signing packages ----

  datatype PackageEntry = PackageEntry(id: Bytes, hiding: Point, binding: Point)

  datatype Package = Package(suite: Suite, message: Bytes, entries: seq<PackageEntry>)

  function IdentifierBytes(suite: Suite, index: U32): Bytes {
    SuiteForm(suite, index, IDENTIFIER_SIZE)
  }

  /** The nested position must fit a u16 identifier. */
  function NestedIdentifier(suite: Suite, nestedIndex: U32): Result<Bytes> {
    if nestedIndex >= 0x1_0000 || nestedIndex == 0 then Err(InvalidIndex)
    else Ok(IdentifierBytes(suite, nestedIndex))
  }

  function EntryId(e: PackageEntry): Bytes { e.id }

  function EntryOf(entries: seq<PackageEntry>, id: Bytes): (r: Option<PackageEntry>)
    ensures r.Some? ==> r.value in entries && r.value.id == id
  {
    FirstWith(EntryId, entries, id)
  }

  const OUTER_BINDING: (Package, Point, Bytes) -> Result<Scalar>
  const OUTER_CHALLENGE: (Package, Point) -> Result<Scalar>

  /** The indices of the first n entries, or the first failure. */
  function IndicesUpTo(entries: seq<PackageEntry>, n: nat): (r: Result<seq<U32>>)
    requires n <= |entries|
    ensures r.Ok? ==> |r.value| == n
  {
    if n == 0 then Ok([])
    else
      var before :- IndicesUpTo(entries, n - 1);
      var index :- IdentifierToIndex(entries[n - 1].id);
      Ok(before + [index])
  }

  function ParamsFor(package: Package, key: Point, nestedIndex: U32): Result<Params> {
    var indices :- IndicesUpTo(package.entries, |package.entries|);
    var sorted := Sort(indices);
    match Position(sorted, nestedIndex)
    case None => Err(InvalidIndex)
    case Some(pos) =>
      var lagrange :- LagrangeResult(sorted);
      var id :- NestedIdentifier(package.suite, nestedIndex);
      var rho :- OUTER_BINDING(package, key, id);
      var challenge :- OUTER_CHALLENGE(package, key);
      LagrangeOutcome(sorted);
      Ok(Params(rho, challenge, lagrange[pos]))
  }

  method InnerParamsFromZf(package: Package, key: Point, nestedIndex: U32) returns (r: Result<Params>)
    ensures r == ParamsFor(package, key, nestedIndex)
  {
    var indices: seq<U32> := [];
    for i := 0 to |package.entries|
      invariant IndicesUpTo(package.entries, i) == Ok(indices)
    {
      var index := IdentifierToIndex(package.entries[i].id);
      if index.Err? {
        FailureStays(package.entries, i + 1, |package.entries|);
        return Err(index.error);
      }
      indices := indices + [index.value];
    }
    indices := Sort(indices);
    var pos := Position(indices, nestedIndex);
    if pos.None? {
      return Err(InvalidIndex);
    }
    var lagrange :- ComputeLagrangeCoefficients(indices);
    LagrangeOutcome(indices);
    var id :- NestedIdentifier(package.suite, nestedIndex);
    var rho :- OUTER_BINDING(package, key, id);
    var challenge :- OUTER_CHALLENGE(package, key);
    return Ok(Params(rho, challenge, lagrange[pos.value]));
  }

  lemma {:induction false} FailureStays(entries: seq<PackageEntry>, m: nat, n: nat)
    requires m <= n <= |entries| && IndicesUpTo(entries, m).Err?
    ensures IndicesUpTo(entries, n) == IndicesUpTo(entries, m)
    decreases n
  {
    if m < n {
      FailureStays(entries, m, n - 1);
    }
  }

  /** What a package's entries decode to, when all of them do. */
  lemma {:induction false} IndicesExact(entries: seq<PackageEntry>, n: nat)
    requires n <= |entries|
    ensures IndicesUpTo(entries, n).Ok? <==> forall i :: 0 <= i < n ==> IdentifierToIndex(entries[i].id).Ok?
    ensures IndicesUpTo(entries, n).Ok? ==>
              forall i :: 0 <= i < n ==> IdentifierToIndex(entries[i].id) == Ok(IndicesUpTo(entries, n).value[i])
    decreases n
  {
    if n != 0 {
      IndicesExact(entries, n - 1);
    }
  }

  /** A holder derives parameters exactly from packages that list the nested position among distinct
      signers, and takes the binding factor for that position and the challenge as they are. */
  lemma ParamsIff(package: Package, key: Point, nestedIndex: U32)
    ensures var indices := IndicesUpTo(package.entries, |package.entries|);
      var id := IdentifierBytes(package.suite, nestedIndex);
      ParamsFor(package, key, nestedIndex).Ok? <==>
      && indices.Ok? && ValidQuorum(indices.value) && nestedIndex in indices.value && 0 < nestedIndex < 0x1_0000
      && OUTER_BINDING(package, key, id).Ok? && OUTER_CHALLENGE(package, key).Ok?
    ensures ParamsFor(package, key, nestedIndex).Ok? ==>
              var params := ParamsFor(package, key, nestedIndex).value;
              var sorted := Sort(IndicesUpTo(package.entries, |package.entries|).value);
              && OUTER_BINDING(package, key, IdentifierBytes(package.suite, nestedIndex)) == Ok(params.rho)
              && OUTER_CHALLENGE(package, key) == Ok(params.challenge)
              && nestedIndex in sorted && LagrangeResult(sorted).Ok?
              && params.lambda == Coefficients(sorted)[Position(sorted, nestedIndex).value]
  {
    var indices := IndicesUpTo(package.entries, |package.entries|);
    if indices.Ok? {
      QuorumSurvivesSorting(indices.value);
      LagrangeOutcome(Sort(indices.value));
    }
  }

  /** Why parameters are refused before `frost-core` is asked: an identifier that is no index, a position that is not
      among the signers, or the least index that two identifiers share. */
  lemma ParamsRefused(package: Package, key: Point, nestedIndex: U32)
    ensures var indices := IndicesUpTo(package.entries, |package.entries|);
      var res := ParamsFor(package, key, nestedIndex);
      && ((exists e :: e in package.entries && IdentifierToIndex(e.id).Err?) ==> res == Err(InvalidIndex))
      && (indices.Ok? && nestedIndex !in indices.value ==> res == Err(InvalidIndex))
      && (indices.Ok? && nestedIndex in indices.value && !Distinct(indices.value) && 0 !in indices.value ==>
            exists d :: res == Err(DuplicateIndex(d)) && multiset(indices.value)[d] >= 2
                     && forall x :: x < d ==> multiset(indices.value)[x] <= 1)
  {
    var indices := IndicesUpTo(package.entries, |package.entries|);
    IndicesExact(package.entries, |package.entries|);
    IndicesError(package.entries, |package.entries|);
    if indices.Ok? {
      SortedRefusal(indices.value);
    }
  }

  lemma SortedRefusal(indices: seq<U32>)
    ensures forall d :: d in Sort(indices) <==> d in indices
    ensures indices != [] && 0 !in indices && !Distinct(indices) ==>
              exists d :: LagrangeResult(Sort(indices)) == Err(DuplicateIndex(d)) && multiset(indices)[d] >= 2
                       && forall x :: x < d ==> multiset(indices)[x] <= 1
  {
    SortFindsDuplicates(indices);
    SameMultisetSameElements(indices, Sort(indices));
    QuorumSurvivesSorting(indices);
    LagrangeOutcome(Sort(indices));
  }

  lemma {:induction false} IndicesError(entries: seq<PackageEntry>, n: nat)
    requires n <= |entries|
    ensures IndicesUpTo(entries, n).Err? ==> IndicesUpTo(entries, n) == Err(InvalidIndex)
    decreases n
  {
    if n != 0 {
      IndicesError(entries, n - 1);
    }
  }

  lemma QuorumSurvivesSorting(indices: seq<U32>)
    ensures ValidQuorum(Sort(indices)) <==> ValidQuorum(indices)
    ensures forall d :: d in Sort(indices) <==> d in indices
  {
    SortFindsDuplicates(indices);
    SameMultisetSameElements(indices, Sort(indices));
    if Distinct(indices) {
      PermutationDistinct(indices, Sort(indices));
    }
    if Distinct(Sort(indices)) {
      PermutationDistinct(Sort(indices), indices);
    }
  }

  /** The λ a holder derives is the coefficient of its position in the set of package indices,
      however that set is listed. */
  lemma LambdaOfTheSet(package: Package, key: Point, nestedIndex: U32, listing: seq<U32>, j: nat)
    requires ParamsFor(package, key, nestedIndex).Ok?
    requires Distinct(listing) && j < |listing| && listing[j] == nestedIndex
    requires forall d :: d in listing <==> d in IndicesUpTo(package.entries, |package.entries|).value
    ensures ParamsFor(package, key, nestedIndex).value.lambda == Coefficients(listing)[j]
  {
    ParamsIff(package, key, nestedIndex);
    SortedCoefficient(IndicesUpTo(package.entries, |package.entries|).value, nestedIndex, listing, j);
  }

  lemma SortedCoefficient(indices: seq<U32>, index: U32, listing: seq<U32>, j: nat)
    requires LagrangeResult(Sort(indices)).Ok? && index in Sort(indices)
    requires Distinct(listing) && j < |listing| && listing[j] == index
    requires forall d :: d in listing <==> d in indices
    ensures LagrangeResult(Sort(indices)).value == Coefficients(Sort(indices))
    ensures Coefficients(Sort(indices))[Position(Sort(indices), index).value] == Coefficients(listing)[j]
  {
    var sorted := Sort(indices);
    SortFindsDuplicates(indices);
    SameMultisetSameElements(indices, sorted);
    LagrangeOutcome(sorted);
    assert Elements(sorted) == Elements(listing);
    CoefficientDependsOnSet(sorted, Position(sorted, index).value, listing, j);
  }
}
