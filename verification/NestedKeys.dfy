/** The nested position's key material (`src/nested.rs`): the interleaved key generation of its outer
    polynomial, the splitting of the other participants' evaluations, and their combination. */
module NestedKeys {
  import opened Words
  import opened Sequences
  import opened Field
  import opened Group
  import opened Polynomials
  import opened Lagrange
  import opened Commitments
  import Dkg = DkgAggregator

  // ---- evaluation by running powers ----

  function Power(x: Scalar, n: nat): Scalar {
    if n == 0 then One() else Mul(Power(x, n - 1), x)
  }

  function Powers(x: Scalar, n: nat): (ps: seq<Scalar>)
    ensures |ps| == n && forall i :: 0 <= i < n ==> ps[i] == Power(x, i)
  {
    if n == 0 then [] else Powers(x, n - 1) + [Power(x, n - 1)]
  }

  lemma {:induction false} PowersSplitEval(f: Poly, x: Scalar, n: nat)
    requires n <= |f|
    ensures Add(Dot(Powers(x, |f|), f, n), Mul(Power(x, n), Eval(f[n..], x))) == Eval(f, x)
    decreases n
  {
    if n == 0 {
      assert f[0..] == f;
      MulOne(Eval(f, x));
      AddZero(Eval(f, x));
    } else {
      var tail, head := Eval(f[n..], x), Power(x, n - 1);
      PowersSplitEval(f, x, n - 1);
      assert f[n - 1..][1..] == f[n..];
      Distrib(head, f[n - 1], Mul(x, tail));
      MulAssoc(head, x, tail);
      AddAssoc(Dot(Powers(x, |f|), f, n - 1), Mul(head, f[n - 1]), Mul(Power(x, n), tail));
    }
  }

  /** Σ f_i·x^i is what Horner's rule computes. */
  lemma PowersEval(f: Poly, x: Scalar)
    ensures Dot(Powers(x, |f|), f, |f|) == Eval(f, x)
  {
    PowersSplitEval(f, x, |f|);
    MulZero(Power(x, |f|));
    AddZero(Dot(Powers(x, |f|), f, |f|));
  }

  method EvalByPowers(f: Poly, x: Scalar) returns (r: Scalar)
    ensures r == Eval(f, x)
  {
    r := Zero();
    var xPow := One();
    for i := 0 to |f|
      invariant xPow == Power(x, i)
      invariant r == Dot(Powers(x, |f|), f, i)
    {
      MulComm(f[i], xPow);
      r := Add(r, Mul(f[i], xPow));
      xPow := Mul(xPow, x);
    }
    PowersEval(f, x);
  }

  // ---- the interleaved key generation ----

  datatype InnerShare = InnerShare(holder: U32, coefficientShares: seq<Scalar>)

  method EvalAt(share: InnerShare, x: U32) returns (r: Scalar)
    ensures r == Eval(share.coefficientShares, FromU32(x))
  {
    r := EvalByPowers(share.coefficientShares, FromU32(x));
  }

  function Holders(n: U32): (hs: seq<U32>)
    ensures |hs| == n && forall i :: 0 <= i < n ==> hs[i] == i + 1
  {
    seq(n, i requires 0 <= i < n => i + 1)
  }

  lemma HoldersSorted(player: U32, n: U32)
    requires player != 0 && n != 0
    ensures CheckedDealerSet(player, Holders(n)) == Ok(Holders(n))
  {
    var hs := Holders(n);
    CheckedDealerSetOutcome(player, hs);
    var sorted := CheckedDealerSet(player, hs).value;
    forall d: U32
      ensures d in sorted <==> d in hs
    {
      assert d in Elements(sorted) <==> d in Elements(hs);
    }
    AscendingUnique(sorted, hs);
  }

  /** One coefficient's dealers, holder i+1 dealing polynomial i. */
  ghost predicate CoefficientDealers(ds: seq<Dealer>, fs: seq<Poly>, t: nat) {
    && |ds| == |fs|
    && forall i :: 0 <= i < |ds| ==>
         && ValidDealer(ds[i]) && ds[i].index == i + 1 && ds[i].polynomial == fs[i] && |fs[i]| == t
  }

  /** Dealer i+1's sub-share is accepted after those of dealers 1..i. */
  method DeliverNext(agg: Dkg.Aggregator, d: Dealer, i: nat)
    requires Dkg.Valid(agg.Snapshot()) && ValidDealer(d) && d.index == i + 1 && i + 1 in agg.dealers
    requires |agg.subshares| == i && forall k :: 0 <= k < i ==> agg.subshares[k].dealer == k + 1
    modifies agg
    ensures Dkg.Valid(agg.Snapshot())
    ensures agg.subshares == old(agg.subshares) + [Verified(d.index, Eval(d.polynomial, FromU32(agg.player)))]
  {
    var subshare := GenerateSubshare(d, agg.player);
    HonestSubshareVerifies(d, agg.player);
    var _ := agg.Deliver(subshare.value, d.commitment);
  }

  ghost function Entries(vs: seq<Scalar>, n: nat): (es: seq<Verified>)
    requires n <= |vs| < U32_LIMIT
    ensures |es| == n && forall k :: 0 <= k < n ==> es[k] == Verified(k + 1, vs[k])
  {
    seq(n, k requires 0 <= k < n => Verified(k + 1, vs[k]))
  }

  lemma FinalizeEntries(st: Dkg.State, vs: seq<Scalar>)
    requires |vs| < U32_LIMIT && st.subshares == Entries(vs, |vs|) && |st.dealers| == |vs|
    ensures Dkg.Finalize(st) == Ok(Sum(vs))
  {
    assert Dkg.Received(st) == vs;
  }

  method DeliverAll(agg: Dkg.Aggregator, ds: seq<Dealer>, ghost vs: seq<Scalar>)
    requires Dkg.Valid(agg.Snapshot()) && agg.subshares == []
    requires |vs| == |ds| < U32_LIMIT && agg.dealers == Holders(|ds|)
    requires forall i :: 0 <= i < |ds| ==>
               ValidDealer(ds[i]) && ds[i].index == i + 1 && vs[i] == Eval(ds[i].polynomial, FromU32(agg.player))
    modifies agg
    ensures Dkg.Valid(agg.Snapshot()) && agg.subshares == Entries(vs, |vs|)
  {
    for i := 0 to |ds|
      invariant Dkg.Valid(agg.Snapshot()) && agg.subshares == Entries(vs, i)
    {
      assert Holders(|ds|)[i] == i + 1;
      DeliverNext(agg, ds[i], i);
      assert Entries(vs, i + 1) == Entries(vs, i) + [Verified(i + 1, vs[i])];
    }
  }

  /** The inner aggregation of one coefficient by one holder: the holder's value of Σ p_i. */
  method AggregateCoefficient(holder: U32, n: U32, ds: seq<Dealer>, ghost fs: seq<Poly>, ghost t: nat)
    returns (share: Scalar)
    requires holder != 0 && n != 0 && |ds| == n && CoefficientDealers(ds, fs, t)
    ensures share == Eval(SumPolys(fs, n, t), FromU32(holder))
  {
    ghost var vs := Dkg.Round.ValuesAt(fs, FromU32(holder));
    HoldersSorted(holder, n);
    var created := Dkg.Aggregator.Create(holder, Holders(n));
    var agg := created.value;
    DeliverAll(agg, ds, vs);
    var finalized := agg.FinalizeShare();
    FinalizeEntries(agg.Snapshot(), vs);
    share := finalized.value;
    EvalSumPolys(fs, n, t, FromU32(holder), vs);
  }

  /** What the interleaved key generation computes: shares of each coefficient's polynomial A_j, and
      the commitments to the coefficients a_j = A_j(0) that nobody holds. */
  ghost predicate Interleaved(
    innerN: U32, innerT: nat, polys: seq<Poly>, shares: seq<InnerShare>, commitments: seq<Point>)
  {
    && (forall j :: 0 <= j < |polys| ==> |polys[j]| == innerT)
    && |shares| == innerN
    && (forall i :: 0 <= i < innerN ==>
          && shares[i].holder == i + 1
          && shares[i].coefficientShares == Dkg.Round.ValuesAt(polys, FromU32(shares[i].holder)))
    && commitments == Commit(Dkg.Round.ValuesAt(polys, Zero()))
  }

  /** The inner dealers' polynomials, one list per outer coefficient. */
  ghost predicate Randomness(randomness: seq<seq<Poly>>, innerN: nat, innerT: nat) {
    forall j :: 0 <= j < |randomness| ==>
      |randomness[j]| == innerN && forall i :: 0 <= i < innerN ==> |randomness[j][i]| == innerT
  }

  ghost function CoefficientPolys(randomness: seq<seq<Poly>>, innerN: nat, innerT: nat): (fs: seq<Poly>)
    requires Randomness(randomness, innerN, innerT)
    ensures |fs| == |randomness|
    ensures forall j :: 0 <= j < |fs| ==> |fs[j]| == innerT && fs[j] == SumPolys(randomness[j], innerN, innerT)
  {
    seq(|randomness|, j requires 0 <= j < |randomness| => SumPolys(randomness[j], innerN, innerT))
  }

  method DealCoefficient(fs: seq<Poly>, n: U32, t: nat) returns (ds: seq<Dealer>)
    requires |fs| == n && t > 0 && forall i :: 0 <= i < |fs| ==> |fs[i]| == t
    ensures CoefficientDealers(ds, fs, t)
  {
    ds := [];
    for i := 0 to n
      invariant |ds| == i
      invariant forall k {:trigger ds[k]} :: 0 <= k < i ==>
        ValidDealer(ds[k]) && ds[k].index == k + 1 && ds[k].polynomial == fs[k]
    {
      var dealer := NewDealer(i + 1, fs[i]);
      ds := ds + [dealer.value];
    }
  }

  method CommitCoefficient(ds: seq<Dealer>, ghost fs: seq<Poly>, ghost t: nat) returns (c: Point)
    requires CoefficientDealers(ds, fs, t) && t > 0
    ensures c == BaseMul(Eval(SumPolys(fs, |fs|, t), Zero()))
  {
    ghost var vs := Dkg.Round.ValuesAt(fs, Zero());
    c := Identity();
    for i := 0 to |ds|
      invariant c == Point(SumTo(vs, i))
    {
      var c0 := ds[i].commitment.ShareCommitment();
      assert c0.log == vs[i] by {
        EvalAtZero(fs[i]);
        BaseMulLog(fs[i][0]);
      }
      c := AddPoints(c, c0);
    }
    EvalSumPolys(fs, |fs|, t, Zero(), vs);
    BaseMulLog(Eval(SumPolys(fs, |fs|, t), Zero()));
  }

  /** Every coefficient's dealers. */
  method DealAll(innerN: U32, innerT: nat, randomness: seq<seq<Poly>>) returns (coefficientDealers: seq<seq<Dealer>>)
    requires innerT > 0 && Randomness(randomness, innerN, innerT)
    ensures |coefficientDealers| == |randomness|
    ensures forall j :: 0 <= j < |randomness| ==> CoefficientDealers(coefficientDealers[j], randomness[j], innerT)
  {
    coefficientDealers := [];
    for j := 0 to |randomness|
      invariant |coefficientDealers| == j
      invariant forall k {:trigger coefficientDealers[k]} :: 0 <= k < j ==>
        CoefficientDealers(coefficientDealers[k], randomness[k], innerT)
    {
      var ds := DealCoefficient(randomness[j], innerN, innerT);
      coefficientDealers := coefficientDealers + [ds];
    }
  }

  /** The commitment to each coefficient. */
  method CommitAll(coefficientDealers: seq<seq<Dealer>>, ghost randomness: seq<seq<Poly>>, ghost innerN: nat,
                   ghost innerT: nat)
    returns (commitments: seq<Point>)
    requires innerT > 0 && Randomness(randomness, innerN, innerT) && |coefficientDealers| == |randomness|
    requires forall j :: 0 <= j < |randomness| ==> CoefficientDealers(coefficientDealers[j], randomness[j], innerT)
    ensures commitments == Commit(Dkg.Round.ValuesAt(CoefficientPolys(randomness, innerN, innerT), Zero()))
  {
    ghost var secrets := Dkg.Round.ValuesAt(CoefficientPolys(randomness, innerN, innerT), Zero());
    commitments := [];
    for j := 0 to |coefficientDealers|
      invariant |commitments| == j
      invariant forall k {:trigger commitments[k]} :: 0 <= k < j ==> commitments[k] == BaseMul(secrets[k])
    {
      var c := CommitCoefficient(coefficientDealers[j], randomness[j], innerT);
      commitments := commitments + [c];
    }
  }

  /** Every holder's share of every coefficient. */
  method DistributeAll(innerN: U32, ghost innerT: nat, coefficientDealers: seq<seq<Dealer>>,
                       ghost randomness: seq<seq<Poly>>)
    returns (shares: seq<InnerShare>)
    requires Randomness(randomness, innerN, innerT) && |coefficientDealers| == |randomness|
    requires forall j :: 0 <= j < |randomness| ==> CoefficientDealers(coefficientDealers[j], randomness[j], innerT)
    ensures |shares| == innerN
    ensures forall i :: 0 <= i < innerN ==>
              var polys := CoefficientPolys(randomness, innerN, innerT);
              shares[i] == InnerShare(i + 1, Dkg.Round.ValuesAt(polys, FromU32(i + 1)))
  {
    ghost var polys := CoefficientPolys(randomness, innerN, innerT);
    shares := [];
    for i := 0 to innerN
      invariant |shares| == i
      invariant forall k {:trigger shares[k]} :: 0 <= k < i ==>
        shares[k] == InnerShare(k + 1, Dkg.Round.ValuesAt(polys, FromU32(k + 1)))
    {
      var coefficientShares := HolderShares(i + 1, innerN, innerT, coefficientDealers, randomness);
      shares := shares + [InnerShare(i + 1, coefficientShares)];
    }
  }

  method InterleavedDkg(innerN: U32, innerT: nat, randomness: seq<seq<Poly>>)
    returns (shares: seq<InnerShare>, commitments: seq<Point>)
    requires innerT > 0 && Randomness(randomness, innerN, innerT)
    ensures Interleaved(innerN, innerT, CoefficientPolys(randomness, innerN, innerT), shares, commitments)
  {
    var coefficientDealers := DealAll(innerN, innerT, randomness);
    commitments := CommitAll(coefficientDealers, randomness, innerN, innerT);
    shares := DistributeAll(innerN, innerT, coefficientDealers, randomness);
  }

  method HolderShares(holder: U32, innerN: U32, ghost innerT: nat, coefficientDealers: seq<seq<Dealer>>,
                      ghost randomness: seq<seq<Poly>>)
    returns (values: seq<Scalar>)
    requires holder != 0 && innerN != 0 && Randomness(randomness, innerN, innerT)
    requires |coefficientDealers| == |randomness|
    requires forall j :: 0 <= j < |randomness| ==> CoefficientDealers(coefficientDealers[j], randomness[j], innerT)
    ensures values == Dkg.Round.ValuesAt(CoefficientPolys(randomness, innerN, innerT), FromU32(holder))
  {
    ghost var polys := CoefficientPolys(randomness, innerN, innerT);
    values := [];
    for j := 0 to |coefficientDealers|
      invariant |values| == j
      invariant forall k {:trigger values[k]} :: 0 <= k < j ==> values[k] == Eval(polys[k], FromU32(holder))
    {
      var v := AggregateCoefficient(holder, innerN, coefficientDealers[j], randomness[j], innerT);
      values := values + [v];
    }
  }

  // ---- splitting an evaluation ----

  datatype Piece = Piece(holder: U32, value: Scalar)

  method SplitEvaluation(evaluation: Scalar, innerN: U32, tail: seq<Scalar>)
    returns (pieces: seq<Piece>, commitment: DealerCommitment)
    ensures |pieces| == innerN
    ensures forall k :: 0 <= k < innerN ==> pieces[k] == Piece(k + 1, Eval([evaluation] + tail, FromU32(k + 1)))
    ensures commitment == DealerCommitment(1, Commit([evaluation] + tail))
  {
    var coeffs := [evaluation] + tail;
    var committed := FromPolynomial(1, coeffs);
    commitment := committed.value;
    pieces := [];
    for k := 0 to innerN
      invariant |pieces| == k
      invariant forall i {:trigger pieces[i]} :: 0 <= i < k ==> pieces[i] == Piece(i + 1, Eval(coeffs, FromU32(i + 1)))
    {
      var value := EvalByPowers(coeffs, FromU32(k + 1));
      pieces := pieces + [Piece(k + 1, value)];
    }
  }

  /** A piece verifies against the splitting commitment exactly when it is the right value. */
  lemma SplitPieceVerifies(coeffs: Poly, holder: U32, value: Scalar)
    ensures VerifySubshare(DealerCommitment(1, Commit(coeffs)), holder, value) <==>
            holder != 0 && value == Eval(coeffs, FromU32(holder))
  {
    FeldmanCheck(DealerCommitment(1, Commit(coeffs)), holder, value);
    LogsOfCommit(coeffs);
  }

  // ---- combining ----

  method CombineShares(share: InnerShare, position: U32, pieces: seq<Scalar>) returns (sigma: Scalar)
    ensures sigma == Add(Eval(share.coefficientShares, FromU32(position)), Sum(pieces))
  {
    var own := EvalAt(share, position);
    sigma := own;
    AddZero(own);
    for i := 0 to |pieces|
      invariant sigma == Add(own, SumTo(pieces, i))
    {
      AddAssoc(own, SumTo(pieces, i), pieces[i]);
      sigma := Add(sigma, pieces[i]);
    }
  }

  /** The polynomial the inner holders' combined shares lie on: Σ_j A_j·p^j plus the splitting polynomials. */
  function InnerPolynomial(polys: seq<Poly>, splits: seq<Poly>, innerT: nat, position: Scalar): (h: Poly)
    requires forall j :: 0 <= j < |polys| ==> |polys[j]| == innerT
    requires forall i :: 0 <= i < |splits| ==> |splits[i]| == innerT
    ensures |h| == innerT
  {
    PolyAdd(Combination(Powers(position, |polys|), polys, |polys|, innerT), SumPolys(splits, |splits|, innerT))
  }

  lemma InnerPolynomialAt(polys: seq<Poly>, splits: seq<Poly>, innerT: nat, position: Scalar,
                          x: Scalar)
    requires forall j :: 0 <= j < |polys| ==> |polys[j]| == innerT
    requires forall i :: 0 <= i < |splits| ==> |splits[i]| == innerT
    ensures Eval(InnerPolynomial(polys, splits, innerT, position), x) ==
            Add(Eval(Dkg.Round.ValuesAt(polys, x), position), Sum(Dkg.Round.ValuesAt(splits, x)))
  {
    var ps := Powers(position, |polys|);
    EvalAdd(Combination(ps, polys, |polys|, innerT), SumPolys(splits, |splits|, innerT), x);
    EvalCombination(ps, polys, |polys|, innerT, x, Dkg.Round.ValuesAt(polys, x));
    PowersEval(Dkg.Round.ValuesAt(polys, x), position);
    EvalSumPolys(splits, |splits|, innerT, x, Dkg.Round.ValuesAt(splits, x));
  }

  ghost function ConstantTerms(fs: seq<Poly>): (vs: seq<Scalar>)
    requires forall i :: 0 <= i < |fs| ==> fs[i] != []
    ensures |vs| == |fs| && forall i :: 0 <= i < |vs| ==> vs[i] == fs[i][0]
  {
    seq(|fs|, i requires 0 <= i < |fs| => fs[i][0])
  }

  /** What `combine_shares` gives a holder that received its piece of every split. */
  ghost function CombinedShare(shares: seq<InnerShare>, splits: seq<Poly>, position: U32, holder: U32): Scalar
    requires 1 <= holder <= |shares|
  {
    Add(Eval(shares[holder - 1].coefficientShares, FromU32(position)),
        Sum(Dkg.Round.ValuesAt(splits, FromU32(holder))))
  }

  ghost function CombinedShares(shares: seq<InnerShare>, splits: seq<Poly>, position: U32, holders: seq<U32>):
    (vs: seq<Scalar>)
    requires forall k :: 0 <= k < |holders| ==> 1 <= holders[k] <= |shares|
    ensures |vs| == |holders|
    ensures forall k :: 0 <= k < |vs| ==> vs[k] == CombinedShare(shares, splits, position, holders[k])
  {
    seq(|holders|, k requires 0 <= k < |holders| => CombinedShare(shares, splits, position, holders[k]))
  }

  lemma SharesOfHolder(innerN: U32, innerT: nat, polys: seq<Poly>, shares: seq<InnerShare>, commitments: seq<Point>,
                       holder: U32)
    requires Interleaved(innerN, innerT, polys, shares, commitments) && 1 <= holder <= innerN
    ensures |shares| == innerN
    ensures shares[holder - 1].coefficientShares == Dkg.Round.ValuesAt(polys, FromU32(holder))
    ensures forall j :: 0 <= j < |polys| ==> |polys[j]| == innerT
  {
    assert shares[holder - 1].holder == holder;
  }

  /** Key generation composed with splitting: the holders' combined shares lie on one polynomial of
      degree below t_in ... */
  lemma CombinedOnPolynomial(
    innerN: U32, innerT: nat, polys: seq<Poly>, shares: seq<InnerShare>, commitments: seq<Point>,
    splits: seq<Poly>, position: U32, holder: U32)
    requires Interleaved(innerN, innerT, polys, shares, commitments) && 1 <= holder <= innerN
    requires forall k :: 0 <= k < |splits| ==> |splits[k]| == innerT
    ensures |InnerPolynomial(polys, splits, innerT, FromU32(position))| == innerT
    ensures CombinedShare(shares, splits, position, holder) ==
            Eval(InnerPolynomial(polys, splits, innerT, FromU32(position)), FromU32(holder))
  {
    SharesOfHolder(innerN, innerT, polys, shares, commitments, holder);
    InnerPolynomialAt(polys, splits, innerT, FromU32(position), FromU32(holder));
  }

  /** ... whose value at zero is f_p(p) plus the split evaluations. */
  lemma CombinedSecret(
    innerN: U32, innerT: nat, polys: seq<Poly>, shares: seq<InnerShare>, commitments: seq<Point>,
    splits: seq<Poly>, position: U32)
    requires Interleaved(innerN, innerT, polys, shares, commitments) && innerT > 0
    requires forall k :: 0 <= k < |splits| ==> |splits[k]| == innerT
    ensures Eval(InnerPolynomial(polys, splits, innerT, FromU32(position)), Zero()) ==
            Add(Eval(Logs(commitments), FromU32(position)), Sum(ConstantTerms(splits)))
  {
    InnerPolynomialAt(polys, splits, innerT, FromU32(position), Zero());
    LogsOfCommit(Dkg.Round.ValuesAt(polys, Zero()));
    forall k | 0 <= k < |splits|
      ensures Eval(splits[k], Zero()) == splits[k][0]
    {
      EvalAtZero(splits[k]);
    }
    assert Dkg.Round.ValuesAt(splits, Zero()) == ConstantTerms(splits);
  }

  /** So any t_in holders interpolate the nested position's outer share f_p(p) + Σ_i f_i(p). */
  lemma HoldersInterpolateOuterShare(
    innerN: U32, innerT: nat, polys: seq<Poly>, shares: seq<InnerShare>, commitments: seq<Point>,
    splits: seq<Poly>, position: U32, holders: seq<U32>)
    requires Interleaved(innerN, innerT, polys, shares, commitments) && innerT > 0
    requires forall k :: 0 <= k < |splits| ==> |splits[k]| == innerT
    requires Distinct(holders) && innerT <= |holders| && forall k :: 0 <= k < |holders| ==> 1 <= holders[k] <= innerN
    ensures Dot(Coefficients(holders), CombinedShares(shares, splits, position, holders), |holders|) ==
            Add(Eval(Logs(commitments), FromU32(position)), Sum(ConstantTerms(splits)))
  {
    var h := InnerPolynomial(polys, splits, innerT, FromU32(position));
    var sigmas := CombinedShares(shares, splits, position, holders);
    forall k | 0 <= k < |holders|
      ensures sigmas[k] == Shares(h, holders)[k]
    {
      CombinedOnPolynomial(innerN, innerT, polys, shares, commitments, splits, position, holders[k]);
    }
    assert sigmas == Shares(h, holders);
    InterpolatesAtZero(h, holders);
    CombinedSecret(innerN, innerT, polys, shares, commitments, splits, position);
  }
}
