/** Polynomials as coefficient sequences, constant term first: evaluation, the bound on roots, and
    Lagrange's interpolant. */
module Polynomials {
  import opened Field
  import opened Sequences

  type Poly = seq<Scalar>

  function Eval(f: Poly, x: Scalar): Scalar {
    if f == [] then Zero() else Add(f[0], Mul(x, Eval(f[1..], x)))
  }

  function PolyAdd(f: Poly, g: Poly): (h: Poly)
    ensures |h| == if |f| >= |g| then |f| else |g|
  {
    if f == [] then g
    else if g == [] then f
    else [Add(f[0], g[0])] + PolyAdd(f[1..], g[1..])
  }

  function Scale(c: Scalar, f: Poly): (h: Poly)
    ensures |h| == |f|
  {
    if f == [] then [] else [Mul(c, f[0])] + Scale(c, f[1..])
  }

  /** (x - a)·f */
  function MulLinear(f: Poly, a: Scalar): (h: Poly)
    ensures |h| == |f| + 1
  {
    PolyAdd(Scale(Neg(a), f), [Zero()] + f)
  }

  /** The quotient of f - f(a) by x - a. */
  function Quotient(f: Poly, a: Scalar): (q: Poly)
    requires f != []
    ensures |q| == |f| - 1
  {
    if |f| == 1 then [] else [Eval(f[1..], a)] + Quotient(f[1..], a)
  }

  lemma {:induction false} EvalAdd(f: Poly, g: Poly, x: Scalar)
    ensures Eval(PolyAdd(f, g), x) == Add(Eval(f, x), Eval(g, x))
  {
    if f == [] {
      AddZero(Eval(g, x));
    } else if g == [] {
      AddZero(Eval(f, x));
    } else {
      var h := PolyAdd(f, g);
      assert h[1..] == PolyAdd(f[1..], g[1..]);
      EvalAdd(f[1..], g[1..], x);
      Distrib(x, Eval(f[1..], x), Eval(g[1..], x));
      AddSwap(f[0], g[0], Mul(x, Eval(f[1..], x)), Mul(x, Eval(g[1..], x)));
    }
  }

  lemma {:induction false} EvalScale(c: Scalar, f: Poly, x: Scalar)
    ensures Eval(Scale(c, f), x) == Mul(c, Eval(f, x))
  {
    if f == [] {
      MulZero(c);
    } else {
      assert Scale(c, f)[1..] == Scale(c, f[1..]);
      EvalScale(c, f[1..], x);
      MulRotate(x, c, Eval(f[1..], x));
      Distrib(c, f[0], Mul(x, Eval(f[1..], x)));
    }
  }

  lemma EvalMulLinear(f: Poly, a: Scalar, x: Scalar)
    ensures Eval(MulLinear(f, a), x) == Mul(Sub(x, a), Eval(f, x))
  {
    var shifted := [Zero()] + f;
    assert shifted[1..] == f;
    EvalAdd(Scale(Neg(a), f), shifted, x);
    EvalScale(Neg(a), f, x);
    AddZero(Mul(x, Eval(f, x)));
    DistribRight(x, Neg(a), Eval(f, x));
    AddComm(Mul(x, Eval(f, x)), Mul(Neg(a), Eval(f, x)));
  }

  lemma EvalAtZero(f: Poly)
    ensures Eval(f, Zero()) == if f == [] then Zero() else f[0]
  {
    if f != [] {
      MulComm(Zero(), Eval(f[1..], Zero()));
      MulZero(Eval(f[1..], Zero()));
      AddZero(f[0]);
    }
  }

  lemma EvalConstant(c: Scalar, x: Scalar)
    ensures Eval([c], x) == c
  {
    MulZero(x);
    AddZero(c);
  }

  lemma {:induction false} QuotientExact(f: Poly, a: Scalar, x: Scalar)
    requires f != []
    ensures Eval(f, x) == Add(Eval(f, a), Mul(Sub(x, a), Eval(Quotient(f, a), x)))
  {
    var f', q := f[1..], Quotient(f, a);
    if |f| == 1 {
      MulZero(x);
      MulZero(a);
      MulZero(Sub(x, a));
      AddZero(Add(f[0], Zero()));
    } else {
      var q' := Quotient(f', a);
      assert q[1..] == q';
      QuotientExact(f', a, x);
      var c, d, e := Eval(f', a), Sub(x, a), Eval(q', x);
      QuotientStep(f[0], a, x, c, e);
    }
  }

  /** f0 + x(c + (x-a)e) == (f0 + a·c) + (x-a)(c + x·e) */
  lemma QuotientStep(f0: Scalar, a: Scalar, x: Scalar, c: Scalar, e: Scalar)
    ensures Add(f0, Mul(x, Add(c, Mul(Sub(x, a), e)))) ==
            Add(Add(f0, Mul(a, c)), Mul(Sub(x, a), Add(c, Mul(x, e))))
  {
    var d := Sub(x, a);
    calc {
      Add(f0, Mul(x, Add(c, Mul(d, e))));
      { Distrib(x, c, Mul(d, e)); MulRotate(x, d, e); }
      Add(f0, Add(Mul(x, c), Mul(d, Mul(x, e))));
      { AddSub(x, a); DistribRight(d, a, c); AddComm(Mul(d, c), Mul(a, c)); }
      Add(f0, Add(Add(Mul(a, c), Mul(d, c)), Mul(d, Mul(x, e))));
      { AddAssoc(Mul(a, c), Mul(d, c), Mul(d, Mul(x, e))); Distrib(d, c, Mul(x, e)); }
      Add(f0, Add(Mul(a, c), Mul(d, Add(c, Mul(x, e)))));
      { AddAssoc(f0, Mul(a, c), Mul(d, Add(c, Mul(x, e)))); }
      Add(Add(f0, Mul(a, c)), Mul(d, Add(c, Mul(x, e))));
    }
  }

  ghost predicate VanishesOn(f: Poly, xs: seq<Scalar>) {
    forall i :: 0 <= i < |xs| ==> Eval(f, xs[i]) == Zero()
  }

  /** Dividing a root out leaves the other roots. */
  lemma QuotientVanishes(f: Poly, xs: seq<Scalar>)
    requires f != [] && xs != [] && Distinct(xs) && VanishesOn(f, xs)
    ensures Distinct(xs[1..]) && VanishesOn(Quotient(f, xs[0]), xs[1..])
  {
    var a, rest := xs[0], xs[1..];
    var q := Quotient(f, a);
    forall i | 0 <= i < |rest|
      ensures Eval(q, rest[i]) == Zero()
    {
      var x := xs[i + 1];
      QuotientExact(f, a, x);
      AddZero(Mul(Sub(x, a), Eval(q, x)));
      SubZeroIff(x, a);
      if Eval(q, x) != Zero() {
        MulNonZero(Sub(x, a), Eval(q, x));
      }
    }
  }

  /** A polynomial with at least as many distinct roots as coefficients is zero everywhere. */
  lemma {:induction false} RootBound(f: Poly, xs: seq<Scalar>, y: Scalar)
    requires |f| <= |xs| && Distinct(xs) && VanishesOn(f, xs)
    ensures Eval(f, y) == Zero()
    decreases |f|
  {
    if f != [] {
      var a, rest := xs[0], xs[1..];
      var q := Quotient(f, a);
      QuotientVanishes(f, xs);
      RootBound(q, rest, y);
      QuotientExact(f, a, y);
      MulZero(Sub(y, a));
      AddZero(Zero());
    }
  }

  /** Two polynomials of degree below |xs| that agree on xs agree everywhere. */
  lemma AgreementIsEquality(f: Poly, g: Poly, xs: seq<Scalar>, y: Scalar)
    requires |f| <= |xs| && |g| <= |xs| && Distinct(xs)
    requires forall i :: 0 <= i < |xs| ==> Eval(f, xs[i]) == Eval(g, xs[i])
    ensures Eval(f, y) == Eval(g, y)
  {
    var h := PolyAdd(f, Scale(Neg(One()), g));
    forall i | 0 <= i < |xs|
      ensures Eval(h, xs[i]) == Zero()
    {
      EvalDifference(f, g, xs[i]);
      SubZeroIff(Eval(f, xs[i]), Eval(g, xs[i]));
    }
    RootBound(h, xs, y);
    EvalDifference(f, g, y);
    SubZeroIff(Eval(f, y), Eval(g, y));
  }

  lemma {:induction false} ZeroQuotient(f: Poly, a: Scalar)
    requires f != [] && Eval(f, a) == Zero() && forall i :: 0 <= i < |f| - 1 ==> Quotient(f, a)[i] == Zero()
    ensures forall i :: 0 <= i < |f| ==> f[i] == Zero()
  {
    MulZero(a);
    AddZero(f[0]);
    if |f| > 1 {
      var q := Quotient(f, a);
      assert q[0] == Eval(f[1..], a) && q[1..] == Quotient(f[1..], a);
      ZeroQuotient(f[1..], a);
      assert f == [f[0]] + f[1..];
    }
  }

  /** A polynomial with as many distinct roots as coefficients has only zero coefficients. */
  lemma {:induction false} ZeroCoefficients(f: Poly, xs: seq<Scalar>)
    requires |f| == |xs| && Distinct(xs) && VanishesOn(f, xs)
    ensures forall i :: 0 <= i < |f| ==> f[i] == Zero()
    decreases |f|
  {
    if f != [] {
      var a, rest := xs[0], xs[1..];
      QuotientVanishes(f, xs);
      ZeroCoefficients(Quotient(f, a), rest);
      ZeroQuotient(f, a);
    }
  }

  /** Two polynomials of one length that agree on that many distinct points are the same. */
  lemma SameCoefficients(f: Poly, g: Poly, xs: seq<Scalar>)
    requires |f| == |g| == |xs| && Distinct(xs)
    requires forall i :: 0 <= i < |xs| ==> Eval(f, xs[i]) == Eval(g, xs[i])
    ensures f == g
  {
    var m := Scale(Neg(One()), g);
    var h := PolyAdd(f, m);
    forall i | 0 <= i < |xs|
      ensures Eval(h, xs[i]) == Zero()
    {
      EvalDifference(f, g, xs[i]);
      SubZeroIff(Eval(f, xs[i]), Eval(g, xs[i]));
    }
    ZeroCoefficients(h, xs);
    forall i | 0 <= i < |f|
      ensures f[i] == g[i]
    {
      PolyAddAt(f, m, i);
      ScaleAt(Neg(One()), g, i);
      MulComm(Neg(One()), g[i]);
      MulNeg(g[i], One());
      MulOne(g[i]);
      SubZeroIff(f[i], g[i]);
    }
  }

  lemma EvalDifference(f: Poly, g: Poly, x: Scalar)
    ensures Eval(PolyAdd(f, Scale(Neg(One()), g)), x) == Sub(Eval(f, x), Eval(g, x))
  {
    EvalAdd(f, Scale(Neg(One()), g), x);
    EvalScale(Neg(One()), g, x);
    MulComm(Neg(One()), Eval(g, x));
    MulNeg(Eval(g, x), One());
    MulOne(Eval(g, x));
  }

  // ---- sums ----

  /** Σ_{i<n} a[i]·b[i] */
  function Dot(a: seq<Scalar>, b: seq<Scalar>, n: nat): Scalar
    requires n <= |a| && n <= |b|
  {
    if n == 0 then Zero() else Add(Dot(a, b, n - 1), Mul(a[n - 1], b[n - 1]))
  }

  /** Σ_{i<n} s[i] */
  function SumTo(s: seq<Scalar>, n: nat): Scalar
    requires n <= |s|
  {
    if n == 0 then Zero() else Add(SumTo(s, n - 1), s[n - 1])
  }

  function Sum(s: seq<Scalar>): Scalar { SumTo(s, |s|) }

  lemma {:induction false} DotExtensional(a: seq<Scalar>, b: seq<Scalar>, a': seq<Scalar>, b': seq<Scalar>, n: nat)
    requires n <= |a| && n <= |b| && n <= |a'| && n <= |b'|
    requires forall i :: 0 <= i < n ==> a[i] == a'[i] && b[i] == b'[i]
    ensures Dot(a, b, n) == Dot(a', b', n)
  {
    if n != 0 {
      DotExtensional(a, b, a', b', n - 1);
    }
  }

  lemma {:induction false} DotAdd(a: seq<Scalar>, b: seq<Scalar>, c: seq<Scalar>, d: seq<Scalar>, n: nat)
    requires n <= |a| && n <= |b| && n <= |c| && n <= |d|
    requires forall i :: 0 <= i < n ==> d[i] == Add(b[i], c[i])
    ensures Dot(a, d, n) == Add(Dot(a, b, n), Dot(a, c, n))
  {
    if n == 0 {
      AddZero(Zero());
    } else {
      DotAdd(a, b, c, d, n - 1);
      Distrib(a[n - 1], b[n - 1], c[n - 1]);
      AddSwap(Dot(a, b, n - 1), Dot(a, c, n - 1), Mul(a[n - 1], b[n - 1]), Mul(a[n - 1], c[n - 1]));
    }
  }

  lemma {:induction false} DotScale(c: Scalar, a: seq<Scalar>, b: seq<Scalar>, d: seq<Scalar>, n: nat)
    requires n <= |a| && n <= |b| && n <= |d|
    requires forall i :: 0 <= i < n ==> d[i] == Mul(c, b[i])
    ensures Dot(a, d, n) == Mul(c, Dot(a, b, n))
  {
    if n == 0 {
      MulZero(c);
    } else {
      DotScale(c, a, b, d, n - 1);
      MulRotate(a[n - 1], c, b[n - 1]);
      Distrib(c, Dot(a, b, n - 1), Mul(a[n - 1], b[n - 1]));
    }
  }

  /** A sum with one non-zero term is that term. */
  lemma {:induction false} DotSingle(a: seq<Scalar>, b: seq<Scalar>, n: nat, m: nat)
    requires n <= |a| && n <= |b| && m < |a| && m < |b|
    requires forall i :: 0 <= i < n && i != m ==> b[i] == Zero()
    ensures Dot(a, b, n) == if m < n then Mul(a[m], b[m]) else Zero()
  {
    if n != 0 {
      DotSingle(a, b, n - 1, m);
      MulZero(a[n - 1]);
      AddZero(Dot(a, b, n - 1));
      AddZero(Mul(a[m], b[m]));
    }
  }

  // ---- the basis polynomial Π_{j≠i} (x - x_j) ----

  function Basis(xs: seq<Scalar>, i: nat, n: nat): (h: Poly)
    requires n <= |xs|
    ensures |h| == if i < n then n else n + 1
  {
    if n == 0 then [One()]
    else if n - 1 == i then Basis(xs, i, n - 1)
    else MulLinear(Basis(xs, i, n - 1), xs[n - 1])
  }

  /** Π_{j<n, j≠i} (y - x_j) */
  function NodeProduct(xs: seq<Scalar>, i: nat, n: nat, y: Scalar): Scalar
    requires n <= |xs|
  {
    if n == 0 then One()
    else if n - 1 == i then NodeProduct(xs, i, n - 1, y)
    else Mul(Sub(y, xs[n - 1]), NodeProduct(xs, i, n - 1, y))
  }

  lemma {:induction false} EvalBasis(xs: seq<Scalar>, i: nat, n: nat, y: Scalar)
    requires n <= |xs|
    ensures Eval(Basis(xs, i, n), y) == NodeProduct(xs, i, n, y)
  {
    if n == 0 {
      EvalConstant(One(), y);
    } else {
      EvalBasis(xs, i, n - 1, y);
      if n - 1 != i {
        EvalMulLinear(Basis(xs, i, n - 1), xs[n - 1], y);
      }
    }
  }

  lemma {:induction false} NodeProductZeroIff(xs: seq<Scalar>, i: nat, n: nat, y: Scalar)
    requires n <= |xs|
    ensures NodeProduct(xs, i, n, y) == Zero() <==> exists j :: 0 <= j < n && j != i && xs[j] == y
  {
    if n == 0 {
      ZeroIsNotOne();
    } else {
      NodeProductZeroIff(xs, i, n - 1, y);
      if n - 1 != i {
        var p := NodeProduct(xs, i, n - 1, y);
        SubZeroIff(y, xs[n - 1]);
        MulZero(p);
        MulZero(Sub(y, xs[n - 1]));
        if Sub(y, xs[n - 1]) != Zero() && p != Zero() {
          MulNonZero(Sub(y, xs[n - 1]), p);
        }
      }
    }
  }

  /** The weight of node i when interpolating at y. */
  function Weight(xs: seq<Scalar>, i: nat, y: Scalar): Scalar
    requires i < |xs|
  {
    Mul(NodeProduct(xs, i, |xs|, y), Invert(NodeProduct(xs, i, |xs|, xs[i])))
  }

  function Weights(xs: seq<Scalar>, y: Scalar): (w: seq<Scalar>)
    ensures |w| == |xs| && forall i :: 0 <= i < |w| ==> w[i] == Weight(xs, i, y)
  {
    seq(|xs|, i requires 0 <= i < |xs| => Weight(xs, i, y))
  }

  function Values(f: Poly, xs: seq<Scalar>): (vs: seq<Scalar>)
    ensures |vs| == |xs| && forall i :: 0 <= i < |vs| ==> vs[i] == Eval(f, xs[i])
  {
    seq(|xs|, i requires 0 <= i < |xs| => Eval(f, xs[i]))
  }

  lemma WeightAtNode(xs: seq<Scalar>, i: nat, m: nat)
    requires Distinct(xs) && i < |xs| && m < |xs|
    ensures Weight(xs, i, xs[m]) == if i == m then One() else Zero()
  {
    NodeProductZeroIff(xs, i, |xs|, xs[m]);
    if i == m {
      MulInvert(NodeProduct(xs, i, |xs|, xs[m]));
    } else {
      MulZero(Invert(NodeProduct(xs, i, |xs|, xs[i])));
    }
  }

  /** The polynomial of degree below |xs| through (xs[i], vs[i]), summed over the first n nodes. */
  function Interpolant(xs: seq<Scalar>, vs: seq<Scalar>, n: nat): (h: Poly)
    requires |vs| == |xs| && n <= |xs|
    ensures |h| <= |xs|
  {
    if n == 0 then []
    else
      var c := Mul(vs[n - 1], Invert(NodeProduct(xs, n - 1, |xs|, xs[n - 1])));
      PolyAdd(Interpolant(xs, vs, n - 1), Scale(c, Basis(xs, n - 1, |xs|)))
  }

  lemma {:induction false} EvalInterpolant(xs: seq<Scalar>, vs: seq<Scalar>, n: nat, y: Scalar)
    requires |vs| == |xs| && n <= |xs|
    ensures Eval(Interpolant(xs, vs, n), y) == Dot(Weights(xs, y), vs, n)
  {
    if n != 0 {
      var i := n - 1;
      var inv := Invert(NodeProduct(xs, i, |xs|, xs[i]));
      var c := Mul(vs[i], inv);
      var basis := Basis(xs, i, |xs|);
      EvalInterpolant(xs, vs, i, y);
      EvalAdd(Interpolant(xs, vs, i), Scale(c, basis), y);
      EvalScale(c, basis, y);
      EvalBasis(xs, i, |xs|, y);
      var p := NodeProduct(xs, i, |xs|, y);
      MulAssoc(vs[i], inv, p);
      MulComm(inv, p);
      MulComm(vs[i], Weight(xs, i, y));
    }
  }

  lemma InterpolantAtNode(xs: seq<Scalar>, vs: seq<Scalar>, m: nat)
    requires |vs| == |xs| && Distinct(xs) && m < |xs|
    ensures Eval(Interpolant(xs, vs, |xs|), xs[m]) == vs[m]
  {
    var w := Weights(xs, xs[m]);
    forall i | 0 <= i < |xs|
      ensures w[i] == if i == m then One() else Zero()
    {
      WeightAtNode(xs, i, m);
    }
    EvalInterpolant(xs, vs, |xs|, xs[m]);
    DotComm(w, vs, |xs|);
    DotSingle(vs, w, |xs|, m);
    MulOne(vs[m]);
  }

  lemma {:induction false} DotComm(a: seq<Scalar>, b: seq<Scalar>, n: nat)
    requires n <= |a| && n <= |b|
    ensures Dot(a, b, n) == Dot(b, a, n)
  {
    if n != 0 {
      DotComm(a, b, n - 1);
      MulComm(a[n - 1], b[n - 1]);
    }
  }

  /** Interpolation: the weights recover the value at y of every polynomial of degree below |xs|. */
  lemma Interpolation(f: Poly, xs: seq<Scalar>, y: Scalar)
    requires |f| <= |xs| && Distinct(xs)
    ensures Dot(Weights(xs, y), Values(f, xs), |xs|) == Eval(f, y)
  {
    var vs := Values(f, xs);
    var g := Interpolant(xs, vs, |xs|);
    forall i | 0 <= i < |xs|
      ensures Eval(f, xs[i]) == Eval(g, xs[i])
    {
      InterpolantAtNode(xs, vs, i);
    }
    AgreementIsEquality(f, g, xs, y);
    EvalInterpolant(xs, vs, |xs|, y);
  }

  function Unit(n: nat, i: nat): (s: seq<Scalar>)
    ensures |s| == n && forall m :: 0 <= m < n ==> s[m] == if m == i then One() else Zero()
  {
    if n == 0 then [] else Unit(n - 1, i) + [if n - 1 == i then One() else Zero()]
  }

  /** A weight is determined by the set of nodes and the node: reordering the nodes reorders the weights. */
  lemma WeightDependsOnSet(xs: seq<Scalar>, i: nat, ys: seq<Scalar>, j: nat, y: Scalar)
    requires Distinct(xs) && Distinct(ys) && Elements(xs) == Elements(ys)
    requires i < |xs| && j < |ys| && xs[i] == ys[j]
    ensures Weight(xs, i, y) == Weight(ys, j, y)
  {
    var unit := Unit(|xs|, i);
    var f := Interpolant(xs, unit, |xs|);
    DistinctSameElements(xs, ys);
    forall m | 0 <= m < |xs|
      ensures Eval(f, xs[m]) == if xs[m] == xs[i] then One() else Zero()
    {
      InterpolantAtNode(xs, unit, m);
    }
    UnitWeight(f, xs, i, y);
    forall m | 0 <= m < |ys|
      ensures Eval(f, ys[m]) == if ys[m] == ys[j] then One() else Zero()
    {
      assert ys[m] in Elements(xs);
    }
    UnitWeight(f, ys, j, y);
  }

  lemma UnitWeight(f: Poly, xs: seq<Scalar>, i: nat, y: Scalar)
    requires |f| <= |xs| && Distinct(xs) && i < |xs|
    requires forall m :: 0 <= m < |xs| ==> Eval(f, xs[m]) == if xs[m] == xs[i] then One() else Zero()
    ensures Weight(xs, i, y) == Eval(f, y)
  {
    Interpolation(f, xs, y);
    DotSingle(Weights(xs, y), Values(f, xs), |xs|, i);
    MulOne(Weight(xs, i, y));
  }

  // ---- linear combinations of polynomials ----

  function Zeros(t: nat): (f: Poly)
    ensures |f| == t && forall i :: 0 <= i < t ==> f[i] == Zero()
  {
    if t == 0 then [] else [Zero()] + Zeros(t - 1)
  }

  lemma {:induction false} EvalZeros(t: nat, x: Scalar)
    ensures Eval(Zeros(t), x) == Zero()
  {
    if t != 0 {
      assert Zeros(t)[1..] == Zeros(t - 1);
      EvalZeros(t - 1, x);
      MulZero(x);
      AddZero(Zero());
    }
  }

  /** Σ_{i<n} ls[i]·fs[i], for polynomials with t coefficients. */
  function Combination(ls: seq<Scalar>, fs: seq<Poly>, n: nat, t: nat): (h: Poly)
    requires n <= |ls| && n <= |fs|
    requires forall i :: 0 <= i < n ==> |fs[i]| == t
    ensures |h| == t
  {
    if n == 0 then Zeros(t) else PolyAdd(Combination(ls, fs, n - 1, t), Scale(ls[n - 1], fs[n - 1]))
  }

  lemma {:induction false} EvalCombination(ls: seq<Scalar>, fs: seq<Poly>, n: nat, t: nat, x: Scalar, vs: seq<Scalar>)
    requires n <= |ls| && n <= |fs| && n <= |vs|
    requires forall i :: 0 <= i < n ==> |fs[i]| == t && vs[i] == Eval(fs[i], x)
    ensures Eval(Combination(ls, fs, n, t), x) == Dot(ls, vs, n)
  {
    if n == 0 {
      EvalZeros(t, x);
    } else {
      EvalCombination(ls, fs, n - 1, t, x, vs);
      EvalAdd(Combination(ls, fs, n - 1, t), Scale(ls[n - 1], fs[n - 1]), x);
      EvalScale(ls[n - 1], fs[n - 1], x);
    }
  }

  lemma {:induction false} PolyAddAt(f: Poly, g: Poly, k: nat)
    requires |f| == |g| && k < |f|
    ensures PolyAdd(f, g)[k] == Add(f[k], g[k])
  {
    if k != 0 {
      PolyAddAt(f[1..], g[1..], k - 1);
    }
  }

  lemma {:induction false} ScaleAt(c: Scalar, f: Poly, k: nat)
    requires k < |f|
    ensures Scale(c, f)[k] == Mul(c, f[k])
  {
    if k != 0 {
      ScaleAt(c, f[1..], k - 1);
    }
  }

  /** Σ_{i<n} fs[i], for polynomials with t coefficients. */
  function SumPolys(fs: seq<Poly>, n: nat, t: nat): (h: Poly)
    requires n <= |fs| && forall i :: 0 <= i < n ==> |fs[i]| == t
    ensures |h| == t
  {
    if n == 0 then Zeros(t) else PolyAdd(SumPolys(fs, n - 1, t), fs[n - 1])
  }

  lemma {:induction false} EvalSumPolys(fs: seq<Poly>, n: nat, t: nat, x: Scalar, vs: seq<Scalar>)
    requires n <= |fs| && n <= |vs|
    requires forall i :: 0 <= i < n ==> |fs[i]| == t && vs[i] == Eval(fs[i], x)
    ensures Eval(SumPolys(fs, n, t), x) == SumTo(vs, n)
    decreases n
  {
    if n == 0 {
      EvalZeros(t, x);
    } else {
      EvalSumPolys(fs, n - 1, t, x, vs);
      EvalAdd(SumPolys(fs, n - 1, t), fs[n - 1], x);
    }
  }
}
