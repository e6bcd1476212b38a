/** `src/lagrange.rs`: Lagrange coefficients at zero by the common-denominator technique. */
module Lagrange {
  import opened Words
  import opened Sequences
  import opened Field
  import opened Polynomials

  ghost predicate ValidQuorum(indices: seq<U32>) {
    indices != [] && 0 !in indices && Distinct(indices)
  }

  function Nodes(indices: seq<U32>): (xs: seq<Scalar>)
    ensures |xs| == |indices|
    ensures forall i :: 0 <= i < |xs| ==> xs[i] == FromU32(indices[i])
  {
    seq(|indices|, i requires 0 <= i < |indices| => FromU32(indices[i]))
  }

  /** The textbook coefficient Π_{j≠i} j / (j - i), over the first n nodes. */
  function Textbook(xs: seq<Scalar>, i: nat, n: nat): Scalar
    requires i < |xs| && n <= |xs|
  {
    if n == 0 then One()
    else if n - 1 == i then Textbook(xs, i, n - 1)
    else Mul(Textbook(xs, i, n - 1), Mul(xs[n - 1], Invert(Sub(xs[n - 1], xs[i]))))
  }

  function Coefficients(indices: seq<U32>): (ls: seq<Scalar>)
    ensures |ls| == |indices|
    ensures forall i :: 0 <= i < |ls| ==> ls[i] == Textbook(Nodes(indices), i, |indices|)
  {
    seq(|indices|, i requires 0 <= i < |indices| => Textbook(Nodes(indices), i, |indices|))
  }

  /** What `compute_lagrange_coefficients` returns, error precedence included. */
  function LagrangeResult(indices: seq<U32>): (r: Result<seq<Scalar>>)
  {
    if indices == [] then Err(EmptyContributions)
    else if 0 in indices then Err(InvalidIndex)
    else
      match FirstRepeat(Sort(indices))
      case Some(d) => Err(DuplicateIndex(d))
      case None => Ok(Coefficients(indices))
  }

  lemma LagrangeOutcome(indices: seq<U32>)
    ensures LagrangeResult(indices).Ok? <==> ValidQuorum(indices)
    ensures LagrangeResult(indices).Ok? ==> LagrangeResult(indices).value == Coefficients(indices)
    ensures forall d :: LagrangeResult(indices) == Err(DuplicateIndex(d)) ==>
              multiset(indices)[d] >= 2 && forall x :: x < d ==> multiset(indices)[x] <= 1
    ensures LagrangeResult(indices) == Err(EmptyContributions) <==> indices == []
    ensures LagrangeResult(indices) == Err(InvalidIndex) <==> 0 in indices
    ensures indices != [] && 0 !in indices && !Distinct(indices) ==>
              exists d :: LagrangeResult(indices) == Err(DuplicateIndex(d))
  {
    SortFindsDuplicates(indices);
  }

  lemma NodesDistinct(indices: seq<U32>)
    requires Distinct(indices)
    ensures Distinct(Nodes(indices))
  {
    forall i, j | 0 <= i < j < |indices|
      ensures Nodes(indices)[i] != Nodes(indices)[j]
    {
      FromU32Injective(indices[i], indices[j]);
    }
  }

  // ---- the textbook product is the interpolation weight at zero ----

  lemma TextbookFactor(x: Scalar, xi: Scalar)
    requires x != xi
    ensures Mul(Mul(x, Invert(Sub(x, xi))), Sub(xi, x)) == Sub(Zero(), x)
  {
    var d := Sub(x, xi);
    SubZeroIff(x, xi);
    calc {
      Mul(Mul(x, Invert(d)), Sub(xi, x));
      { NegSub(x, xi); }
      Mul(Mul(x, Invert(d)), Neg(d));
      { MulNeg(Mul(x, Invert(d)), d); MulAssoc(x, Invert(d), d); }
      Neg(Mul(x, Mul(Invert(d), d)));
      { MulInvert(d); MulOne(x); AddZero(Neg(x)); }
      Sub(Zero(), x);
    }
  }

  lemma NegSub(x: Scalar, y: Scalar)
    ensures Sub(y, x) == Neg(Sub(x, y))
  {
    var d := Sub(x, y);
    AddSwap(y, Neg(x), x, Neg(y));
    AddNeg(x);
    AddNeg(y);
    AddComm(Neg(x), Neg(y));
    AddSwap(y, x, Neg(y), Neg(x));
    AddZero(Zero());
    AddNeg(d);
    AddComm(Neg(d), d);
    AddCancel(Sub(y, x), Neg(d), d);
  }

  lemma {:induction false} TextbookTimesNodes(xs: seq<Scalar>, i: nat, n: nat)
    requires Distinct(xs) && i < |xs| && n <= |xs|
    ensures Mul(Textbook(xs, i, n), NodeProduct(xs, i, n, xs[i])) == NodeProduct(xs, i, n, Zero())
  {
    if n == 0 {
      MulOne(One());
    } else {
      TextbookTimesNodes(xs, i, n - 1);
      if n - 1 != i {
        var x := xs[n - 1];
        TextbookFactor(x, xs[i]);
        var t, p := Textbook(xs, i, n - 1), NodeProduct(xs, i, n - 1, xs[i]);
        MulComm(Sub(xs[i], x), p);
        MulSwap(t, Mul(x, Invert(Sub(x, xs[i]))), p, Sub(xs[i], x));
        MulComm(NodeProduct(xs, i, n - 1, Zero()), Sub(Zero(), x));
      }
    }
  }

  lemma CoefficientsAreWeights(indices: seq<U32>)
    requires Distinct(indices)
    ensures Coefficients(indices) == Weights(Nodes(indices), Zero())
  {
    var xs := Nodes(indices);
    NodesDistinct(indices);
    forall i | 0 <= i < |xs|
      ensures Coefficients(indices)[i] == Weight(xs, i, Zero())
    {
      var t, p := Textbook(xs, i, |xs|), NodeProduct(xs, i, |xs|, xs[i]);
      TextbookTimesNodes(xs, i, |xs|);
      NodeProductZeroIff(xs, i, |xs|, xs[i]);
      MulAssoc(t, p, Invert(p));
      MulInvert(p);
      MulOne(t);
    }
  }

  // ---- the two-pass loop ----

  /** Π_{j<n} s[j] */
  function Product(s: seq<Scalar>, n: nat): Scalar
    requires n <= |s|
  {
    if n == 0 then One() else Mul(Product(s, n - 1), s[n - 1])
  }

  /** Π_{j>=n} s[j] */
  function ProductFrom(s: seq<Scalar>, n: nat): Scalar
    requires n <= |s|
    decreases |s| - n
  {
    if n == |s| then One() else Mul(ProductFrom(s, n + 1), s[n])
  }

  lemma {:induction false} ProductSplit(s: seq<Scalar>, n: nat)
    requires n <= |s|
    ensures Mul(Product(s, n), ProductFrom(s, n)) == Product(s, |s|)
    decreases |s| - n
  {
    if n == |s| {
      MulOne(Product(s, n));
    } else {
      ProductSplit(s, n + 1);
      MulAssoc(Product(s, n), s[n], ProductFrom(s, n + 1));
      MulComm(s[n], ProductFrom(s, n + 1));
    }
  }

  /** d_i = i·Π_{j<n, j≠i} (j - i) */
  function Denominator(xs: seq<Scalar>, i: nat, n: nat): Scalar
    requires i < |xs| && n <= |xs|
  {
    if n == 0 then xs[i]
    else if n - 1 == i then Denominator(xs, i, n - 1)
    else Mul(Denominator(xs, i, n - 1), Sub(xs[n - 1], xs[i]))
  }

  lemma {:induction false} DenominatorNonZero(xs: seq<Scalar>, i: nat, n: nat)
    requires Distinct(xs) && i < |xs| && n <= |xs| && xs[i] != Zero()
    ensures Denominator(xs, i, n) != Zero()
  {
    if n != 0 {
      DenominatorNonZero(xs, i, n - 1);
      if n - 1 != i {
        SubZeroIff(xs[n - 1], xs[i]);
        MulNonZero(Denominator(xs, i, n - 1), Sub(xs[n - 1], xs[i]));
      }
    }
  }

  lemma {:induction false} ProductNonZero(s: seq<Scalar>, n: nat)
    requires n <= |s| && forall i :: 0 <= i < n ==> s[i] != Zero()
    ensures Product(s, n) != Zero()
  {
    if n == 0 {
      ZeroIsNotOne();
    } else {
      ProductNonZero(s, n - 1);
      MulNonZero(Product(s, n - 1), s[n - 1]);
    }
  }

  /** Textbook coefficient times d_i is Π j, with x_i counted once it is passed. */
  lemma {:induction false} TextbookTimesDenominator(xs: seq<Scalar>, i: nat, n: nat)
    requires Distinct(xs) && i < |xs| && n <= |xs|
    ensures Mul(Textbook(xs, i, n), Denominator(xs, i, n)) ==
            if i < n then Product(xs, n) else Mul(Product(xs, n), xs[i])
  {
    if n != 0 {
      TextbookTimesDenominator(xs, i, n - 1);
      var x := xs[n - 1];
      if n - 1 != i {
        var d := Sub(x, xs[i]);
        SubZeroIff(x, xs[i]);
        MulSwap(Textbook(xs, i, n - 1), Mul(x, Invert(d)), Denominator(xs, i, n - 1), d);
        MulAssoc(x, Invert(d), d);
        MulInvert(d);
        MulOne(x);
        if i >= n {
          MulAssoc(Product(xs, n - 1), xs[i], x);
          MulComm(xs[i], x);
          MulAssoc(Product(xs, n - 1), x, xs[i]);
        }
      }
    }
  }

  /** ξ·d̄^{-1}·ρ_i is the textbook coefficient. */
  lemma CommonDenominator(xs: seq<Scalar>, ds: seq<Scalar>, i: nat, rho: Scalar)
    requires Distinct(xs) && Zero() !in xs && i < |xs| == |ds|
    requires forall j :: 0 <= j < |xs| ==> ds[j] == Denominator(xs, j, |xs|)
    requires rho == Mul(Product(ds, i), ProductFrom(ds, i + 1))
    ensures Product(ds, |ds|) != Zero()
    ensures Mul(Mul(Product(xs, |xs|), Invert(Product(ds, |ds|))), rho) == Textbook(xs, i, |xs|)
  {
    var xi, dBar := Product(xs, |xs|), Product(ds, |ds|);
    forall j | 0 <= j < |ds|
      ensures ds[j] != Zero()
    {
      DenominatorNonZero(xs, j, |xs|);
    }
    ProductNonZero(ds, |ds|);
    calc {
      Mul(Mul(Mul(xi, Invert(dBar)), rho), ds[i]);
      { MulAssoc(Mul(xi, Invert(dBar)), rho, ds[i]); MulAssoc(Product(ds, i), ProductFrom(ds, i + 1), ds[i]); }
      Mul(Mul(xi, Invert(dBar)), Mul(Product(ds, i), ProductFrom(ds, i)));
      { ProductSplit(ds, i); MulAssoc(xi, Invert(dBar), dBar); MulInvert(dBar); MulOne(xi); }
      xi;
      { TextbookTimesDenominator(xs, i, |xs|); }
      Mul(Textbook(xs, i, |xs|), ds[i]);
    }
    MulCancel(Mul(Mul(xi, Invert(dBar)), rho), Textbook(xs, i, |xs|), ds[i]);
  }

  method DenominatorOf(xs: seq<Scalar>, i: nat) returns (d: Scalar)
    requires i < |xs|
    ensures d == Denominator(xs, i, |xs|)
  {
    d := xs[i];
    for j := 0 to |xs|
      invariant d == Denominator(xs, i, j)
    {
      if i != j {
        d := Mul(d, Sub(xs[j], xs[i]));
      }
    }
  }

  /** rho[i] becomes Π_{j<i} d_j. */
  method ForwardPass(ds: seq<Scalar>, rho: array<Scalar>)
    requires rho.Length == |ds| > 0 && rho[0] == One()
    modifies rho
    ensures forall i {:trigger rho[i]} :: 0 <= i < |ds| ==> rho[i] == Product(ds, i)
  {
    for i := 1 to |ds|
      invariant forall j {:trigger rho[j]} :: 0 <= j < i ==> rho[j] == Product(ds, j)
    {
      rho[i] := Mul(rho[i - 1], ds[i - 1]);
    }
  }

  /** rho[i] is multiplied by Π_{j>i} d_j; the suffix left over is d̄ = Π d_j. */
  method BackwardPass(ds: seq<Scalar>, rho: array<Scalar>) returns (suffix: Scalar)
    requires rho.Length == |ds|
    requires forall i {:trigger rho[i]} :: 0 <= i < |ds| ==> rho[i] == Product(ds, i)
    modifies rho
    ensures suffix == Product(ds, |ds|)
    ensures forall i {:trigger rho[i]} :: 0 <= i < |ds| ==> rho[i] == Mul(Product(ds, i), ProductFrom(ds, i + 1))
  {
    suffix := One();
    for i := |ds| downto 0
      invariant suffix == ProductFrom(ds, i)
      invariant forall j {:trigger rho[j]} :: 0 <= j < i ==> rho[j] == Product(ds, j)
      invariant forall j {:trigger rho[j]} :: i <= j < |ds| ==> rho[j] == Mul(Product(ds, j), ProductFrom(ds, j + 1))
    {
      rho[i] := Mul(rho[i], suffix);
      suffix := Mul(suffix, ds[i]);
    }
    ProductSplit(ds, 0);
    MulOne(suffix);
  }

  /** The checks that come before any arithmetic. */
  method CheckIndices(indices: seq<U32>) returns (e: Option<Error>)
    ensures e.None? <==> ValidQuorum(indices)
    ensures e.Some? ==> LagrangeResult(indices) == Err(e.value)
  {
    LagrangeOutcome(indices);
    var k := |indices|;
    if k == 0 {
      return Some(EmptyContributions);
    }
    for i := 0 to k
      invariant 0 !in indices[..i]
    {
      if indices[i] == 0 {
        return Some(InvalidIndex);
      }
    }
    assert indices[..k] == indices;
    var sorted := Sort(indices);
    for i := 1 to k
      invariant FirstRepeat(sorted) == FirstRepeat(sorted[i - 1..])
    {
      if sorted[i] == sorted[i - 1] {
        return Some(DuplicateIndex(sorted[i]));
      }
      assert sorted[i - 1..][1..] == sorted[i..];
    }
    return None;
  }

  method ProductOf(xs: seq<Scalar>) returns (xi: Scalar)
    ensures xi == Product(xs, |xs|)
  {
    xi := One();
    for i := 0 to |xs|
      invariant xi == Product(xs, i)
    {
      xi := Mul(xi, xs[i]);
    }
  }

  method Denominators(xs: seq<Scalar>) returns (ds: seq<Scalar>)
    ensures |ds| == |xs| && forall i {:trigger ds[i]} :: 0 <= i < |xs| ==> ds[i] == Denominator(xs, i, |xs|)
  {
    ds := [];
    for i := 0 to |xs|
      invariant |ds| == i && forall j {:trigger ds[j]} :: 0 <= j < i ==> ds[j] == Denominator(xs, j, |xs|)
    {
      var d := DenominatorOf(xs, i);
      ds := ds + [d];
    }
  }

  /** ξ·ρ_i·d̄^{-1} for every i, with one inversion. */
  method CommonDenominatorCoefficients(xs: seq<Scalar>) returns (ls: seq<Scalar>)
    requires xs != [] && Distinct(xs) && Zero() !in xs
    ensures |ls| == |xs| && forall i {:trigger ls[i]} :: 0 <= i < |xs| ==> ls[i] == Textbook(xs, i, |xs|)
  {
    var k := |xs|;
    var xi := ProductOf(xs);
    var ds := Denominators(xs);
    var rho := new Scalar[k](_ => One());
    ForwardPass(ds, rho);
    var dBar := BackwardPass(ds, rho);
    ls := ScaledBy(Mul(xi, Invert(dBar)), rho);
    forall i | 0 <= i < k
      ensures ls[i] == Textbook(xs, i, k)
    {
      CommonDenominator(xs, ds, i, rho[i]);
    }
  }

  method ScaledBy(delta: Scalar, rho: array<Scalar>) returns (ls: seq<Scalar>)
    ensures |ls| == rho.Length && forall i {:trigger ls[i]} :: 0 <= i < |ls| ==> ls[i] == Mul(delta, rho[i])
  {
    ls := [];
    for i := 0 to rho.Length
      invariant |ls| == i && forall j {:trigger ls[j]} :: 0 <= j < i ==> ls[j] == Mul(delta, rho[j])
    {
      ls := ls + [Mul(delta, rho[i])];
    }
  }

  method ComputeLagrangeCoefficients(indices: seq<U32>) returns (r: Result<seq<Scalar>>)
    ensures r == LagrangeResult(indices)
    ensures r.Ok? <==> ValidQuorum(indices)
  {
    LagrangeOutcome(indices);
    var e := CheckIndices(indices);
    if e.Some? {
      return Err(e.value);
    }
    var xs := Nodes(indices);
    if |indices| == 1 {
      assert Textbook(xs, 0, 0) == Textbook(xs, 0, 1) == One();
      assert Coefficients(indices) == [One()];
      return Ok([One()]);
    }
    NodesDistinct(indices);
    forall i | 0 <= i < |xs|
      ensures xs[i] != Zero()
    {
      FromU32NonZero(indices[i]);
    }
    var coefficients := CommonDenominatorCoefficients(xs);
    assert coefficients == Coefficients(indices);
    return Ok(coefficients);
  }

  // ---- what the coefficients are for ----

  /** The shares of f at the given indices. */
  function Shares(f: Poly, indices: seq<U32>): (vs: seq<Scalar>)
    ensures |vs| == |indices|
    ensures forall i :: 0 <= i < |vs| ==> vs[i] == Eval(f, FromU32(indices[i]))
  {
    Values(f, Nodes(indices))
  }

  /** Σ λ_i·f(i) == f(0) for every polynomial of degree below |indices|. */
  lemma InterpolatesAtZero(f: Poly, indices: seq<U32>)
    requires Distinct(indices) && |f| <= |indices|
    ensures Dot(Coefficients(indices), Shares(f, indices), |indices|) == Eval(f, Zero())
  {
    CoefficientsAreWeights(indices);
    NodesDistinct(indices);
    Interpolation(f, Nodes(indices), Zero());
  }

  /** Reordering the indices reorders the coefficients: each depends on the index set alone. */
  lemma CoefficientDependsOnSet(s: seq<U32>, i: nat, t: seq<U32>, j: nat)
    requires Distinct(s) && Distinct(t) && Elements(s) == Elements(t)
    requires i < |s| && j < |t| && s[i] == t[j]
    ensures Coefficients(s)[i] == Coefficients(t)[j]
  {
    CoefficientsAreWeights(s);
    CoefficientsAreWeights(t);
    NodesDistinct(s);
    NodesDistinct(t);
    assert Elements(Nodes(s)) == Elements(Nodes(t)) by {
      NodesCover(s, t);
      NodesCover(t, s);
    }
    WeightDependsOnSet(Nodes(s), i, Nodes(t), j, Zero());
  }

  lemma NodesCover(s: seq<U32>, t: seq<U32>)
    requires Elements(s) <= Elements(t)
    ensures Elements(Nodes(s)) <= Elements(Nodes(t))
  {
    forall x | x in Nodes(s)
      ensures x in Nodes(t)
    {
      var i :| 0 <= i < |s| && Nodes(s)[i] == x;
      assert s[i] in Elements(t);
      var j :| 0 <= j < |t| && t[j] == s[i];
      assert Nodes(t)[j] == x;
    }
  }

  // ---- what fewer shares leave open ----

  /** f has one coefficient more than there are shares, the given value at zero, and the given shares. */
  ghost predicate Fits(f: Poly, indices: seq<U32>, shares: seq<Scalar>, atZero: Scalar)
    requires |shares| == |indices|
  {
    && |f| == |indices| + 1 && Eval(f, Zero()) == atZero
    && forall i :: 0 <= i < |indices| ==> Eval(f, FromU32(indices[i])) == shares[i]
  }

  /** Shares at t - 1 indices fit every secret, each in exactly one way. */
  lemma ShortOfThreshold(indices: seq<U32>, shares: seq<Scalar>, atZero: Scalar)
    requires Distinct(indices) && 0 !in indices && |shares| == |indices|
    ensures exists f :: Fits(f, indices, shares, atZero)
    ensures forall f, g :: Fits(f, indices, shares, atZero) && Fits(g, indices, shares, atZero) ==> f == g
  {
    var xs, vs := [Zero()] + Nodes(indices), [atZero] + shares;
    NodesDistinct(indices);
    forall i, j | 0 <= i < j < |xs|
      ensures xs[i] != xs[j]
    {
      if i == 0 {
        FromU32NonZero(indices[j - 1]);
      }
    }
    FittingPolynomial(indices, shares, atZero, xs, vs);
    forall f, g | Fits(f, indices, shares, atZero) && Fits(g, indices, shares, atZero)
      ensures f == g
    {
      forall i | 0 <= i < |xs|
        ensures Eval(f, xs[i]) == Eval(g, xs[i])
      {
        assert i > 0 ==> Eval(f, FromU32(indices[i - 1])) == Eval(g, FromU32(indices[i - 1]));
      }
      SameCoefficients(f, g, xs);
    }
  }

  lemma FittingPolynomial(indices: seq<U32>, shares: seq<Scalar>, atZero: Scalar, xs: seq<Scalar>, vs: seq<Scalar>)
    requires |shares| == |indices| && xs == [Zero()] + Nodes(indices) && vs == [atZero] + shares && Distinct(xs)
    ensures exists f :: Fits(f, indices, shares, atZero)
  {
    var h := Interpolant(xs, vs, |xs|);
    var f := PolyAdd(h, Zeros(|xs|));
    forall m | 0 <= m < |xs|
      ensures Eval(f, xs[m]) == vs[m]
    {
      InterpolantAtNode(xs, vs, m);
      EvalZeros(|xs|, xs[m]);
      EvalAdd(h, Zeros(|xs|), xs[m]);
      AddZero(vs[m]);
    }
    forall i | 0 <= i < |indices|
      ensures Eval(f, FromU32(indices[i])) == shares[i]
    {
      assert xs[i + 1] == FromU32(indices[i]) && vs[i + 1] == shares[i];
    }
    assert xs[0] == Zero() && vs[0] == atZero;
    assert Fits(f, indices, shares, atZero);
  }
}
