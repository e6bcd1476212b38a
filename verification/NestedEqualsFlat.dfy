/** The nested position answers as one flat signer would, and the outer signature verifies. */
module NestedEqualsFlat {
  import opened Words
  import opened Sequences
  import opened Field
  import opened Group
  import opened Polynomials
  import opened Lagrange
  import opened Sums
  import opened NestedAggregation
  import opened Zf
  import opened NestedSigning

  /** The shares the quorum of an honest round produced, one per holder, in any order. */
  ghost predicate HonestSignatures(r: Request, h: Poly, localKey: Point, approved: Bytes, nonces: seq<InnerNonces>,
                                   sigs: seq<SignatureShare>)
    requires HonestRound(r, h, localKey, approved, nonces)
  {
    && multiset(HoldersOf(sigs)) == multiset(r.active)
    && forall i :: 0 <= i < |sigs| && sigs[i].holder in r.active ==>
         InnerSign(nonces[Position(r.active, sigs[i].holder).value], ShareOf(h, sigs[i].holder), localKey, approved, r)
         == Ok(sigs[i])
  }

  ghost function RoundParams(r: Request, localKey: Point): Params
    requires ParamsFor(r.package, localKey, r.nestedIndex).Ok?
  {
    ParamsFor(r.package, localKey, r.nestedIndex).value
  }

  /** Honest shares are all accepted: the aggregation blames nobody. */
  lemma HonestSignaturesPass(r: Request, h: Poly, localKey: Point, approved: Bytes,
                                                nonces: seq<InnerNonces>, sigs: seq<SignatureShare>)
    requires HonestRound(r, h, localKey, approved, nonces) && HonestSignatures(r, h, localKey, approved, nonces, sigs)
    ensures CompleteAndGood(sigs, r.commitments, PublicShares(h, r.active), RoundParams(r, localKey), r.active)
  {
    SameMultisetSameElements(HoldersOf(sigs), r.active);
    forall i | 0 <= i < |sigs|
      ensures Passes(sigs[i], r.commitments, PublicShares(h, r.active), RoundParams(r, localKey), r.active)
    {
      assert HoldersOf(sigs)[i] in HoldersOf(sigs);
      HonestHolderSigns(r, h, localKey, approved, nonces, Position(r.active, sigs[i].holder).value);
    }
  }

  // ---- the sum of the honest responses ----

  ghost function HonestResponses(r: Request, h: Poly, localKey: Point, nonces: seq<InnerNonces>): (zs: seq<Scalar>)
    requires |nonces| == |r.active| && ParamsFor(r.package, localKey, r.nestedIndex).Ok?
    ensures |zs| == |nonces| && forall i :: 0 <= i < |zs| ==> zs[i] == HonestResponse(r, h, localKey, nonces, i)
  {
    seq(|nonces|, i requires 0 <= i < |nonces| => HonestResponse(r, h, localKey, nonces, i))
  }

  lemma DictatedIsHonest(r: Request, h: Poly, localKey: Point, approved: Bytes, nonces: seq<InnerNonces>, i: nat)
    requires HonestRound(r, h, localKey, approved, nonces) && i < |nonces|
    ensures r.active[i] in r.active
    ensures Dictated(r.commitments, PublicShares(h, r.active), RoundParams(r, localKey), r.active)[r.active[i]] ==
            HonestResponse(r, h, localKey, nonces, i)
  {
    PublicSharesLookup(h, r.active, i);
    PositionInDistinct(r.active, i);
    assert CommitmentOf(r.commitments, r.active[i]) == Some(CommitTo(nonces[i]));
  }

  lemma HonestSumInQuorumOrder(r: Request, h: Poly, localKey: Point, approved: Bytes,
                                                  nonces: seq<InnerNonces>, sigs: seq<SignatureShare>)
    requires HonestRound(r, h, localKey, approved, nonces) && HonestSignatures(r, h, localKey, approved, nonces, sigs)
    ensures Sum(Responses(sigs)) == Sum(HonestResponses(r, h, localKey, nonces))
  {
    var ps, params := PublicShares(h, r.active), RoundParams(r, localKey);
    var m := Dictated(r.commitments, ps, params, r.active);
    HonestSignaturesPass(r, h, localKey, approved, nonces, sigs);
    AggregateUnique(sigs, r.commitments, ps, params, r.active);
    forall i | 0 <= i < |r.active|
      ensures r.active[i] in m && m[r.active[i]] == HonestResponse(r, h, localKey, nonces, i)
    {
      DictatedIsHonest(r, h, localKey, approved, nonces, i);
    }
    SumOverValues(r.active, HonestResponses(r, h, localKey, nonces), m, |r.active|);
  }

  /** d_k + ρ·e_k for each revealed holder, from the logarithms of its commitments. */
  ghost function NonceTerms(cs: seq<InnerCommitments>, rho: Scalar): (m: map<U32, Scalar>)
    ensures forall k :: k in m <==> k in Revealed(cs)
    ensures forall k :: k in m && CommitmentOf(cs, k).Some? ==>
              m[k] == Add(CommitmentOf(cs, k).value.hiding.log, Mul(rho, CommitmentOf(cs, k).value.binding.log))
  {
    map k | k in Revealed(cs) ::
      match CommitmentOf(cs, k)
      case Some(c) => Add(c.hiding.log, Mul(rho, c.binding.log))
      case None => Zero()
  }

  /** Σ_i z_i over Σ_i (g_i + (w·μ_i)·σ_i) == Σ g_i + w·Σ μ_i·σ_i */
  lemma {:induction false} SplitWeighted(zs: seq<Scalar>, gs: seq<Scalar>, w: Scalar,
                                         mus: seq<Scalar>, sigmas: seq<Scalar>, n: nat)
    requires n <= |zs| && n <= |gs| && n <= |mus| && n <= |sigmas|
    requires forall i :: 0 <= i < n ==> zs[i] == Add(gs[i], Mul(Mul(w, mus[i]), sigmas[i]))
    ensures SumTo(zs, n) == Add(SumTo(gs, n), Mul(w, Dot(mus, sigmas, n)))
    decreases n
  {
    if n == 0 {
      MulZero(w);
      AddZero(Zero());
    } else {
      SplitWeighted(zs, gs, w, mus, sigmas, n - 1);
      var t := Mul(mus[n - 1], sigmas[n - 1]);
      MulAssoc(w, mus[n - 1], sigmas[n - 1]);
      AddSwap(SumTo(gs, n - 1), Mul(w, Dot(mus, sigmas, n - 1)), gs[n - 1], Mul(w, t));
      Distrib(w, Dot(mus, sigmas, n - 1), t);
    }
  }

  /** Σ (d_i + ρ·e_i) == Σ d_i + ρ·Σ e_i */
  lemma {:induction false} SplitNonces(gs: seq<Scalar>, ds: seq<Scalar>, es: seq<Scalar>, rho: Scalar, n: nat)
    requires n <= |gs| && n <= |ds| && n <= |es|
    requires forall i :: 0 <= i < n ==> gs[i] == Add(ds[i], Mul(rho, es[i]))
    ensures SumTo(gs, n) == Add(SumTo(ds, n), Mul(rho, SumTo(es, n)))
    decreases n
  {
    if n == 0 {
      MulZero(rho);
      AddZero(Zero());
    } else {
      SplitNonces(gs, ds, es, rho, n - 1);
      AddSwap(SumTo(ds, n - 1), Mul(rho, SumTo(es, n - 1)), ds[n - 1], Mul(rho, es[n - 1]));
      Distrib(rho, SumTo(es, n - 1), es[n - 1]);
    }
  }

  /** g_i = d_i + ρ·e_i */
  function RevealTerms(cs: seq<InnerCommitments>, rho: Scalar): (gs: seq<Scalar>)
    ensures |gs| == |cs|
    ensures forall i :: 0 <= i < |cs| ==> gs[i] == Add(cs[i].hiding.log, Mul(rho, cs[i].binding.log))
  {
    seq(|cs|, i requires 0 <= i < |cs| => Add(cs[i].hiding.log, Mul(rho, cs[i].binding.log)))
  }

  lemma RevealTermsLookup(cs: seq<InnerCommitments>, rho: Scalar, i: nat)
    requires Distinct(Revealed(cs)) && i < |cs|
    ensures var hs, m := Revealed(cs), NonceTerms(cs, rho);
      hs[i] in m && m[hs[i]] == RevealTerms(cs, rho)[i]
  {
    assert Revealed(cs)[i] in Revealed(cs);
    CommitmentInDistinct(cs, i);
  }

  lemma RevealedSum(cs: seq<InnerCommitments>, rho: Scalar)
    requires Distinct(Revealed(cs))
    ensures SumOver(Revealed(cs), NonceTerms(cs, rho), |cs|) == SumTo(RevealTerms(cs, rho), |cs|)
  {
    forall i | 0 <= i < |cs|
      ensures Revealed(cs)[i] in NonceTerms(cs, rho)
              && NonceTerms(cs, rho)[Revealed(cs)[i]] == RevealTerms(cs, rho)[i]
    {
      RevealTermsLookup(cs, rho, i);
    }
    SumOverValues(Revealed(cs), RevealTerms(cs, rho), NonceTerms(cs, rho), |cs|);
  }

  lemma SplitRevealTerms(cs: seq<InnerCommitments>, rho: Scalar)
    ensures SumTo(RevealTerms(cs, rho), |cs|) == Add(Sum(HidingLogs(cs)), Mul(rho, Sum(BindingLogs(cs))))
  {
    SplitNonces(RevealTerms(cs, rho), HidingLogs(cs), BindingLogs(cs), rho, |cs|);
  }

  /** The revealed pair's nonce term is the sum of the holders' terms. */
  lemma RevealedTerms(cs: seq<InnerCommitments>, rho: Scalar)
    requires Distinct(Revealed(cs))
    ensures SumOver(Revealed(cs), NonceTerms(cs, rho), |cs|) ==
            Add(Sum(HidingLogs(cs)), Mul(rho, Sum(BindingLogs(cs))))
  {
    RevealedSum(cs, rho);
    SplitRevealTerms(cs, rho);
  }

  lemma HonestTerms(r: Request, h: Poly, localKey: Point, approved: Bytes, nonces: seq<InnerNonces>)
    requires HonestRound(r, h, localKey, approved, nonces)
    ensures forall k :: k in r.active ==> k in NonceTerms(r.commitments, RoundParams(r, localKey).rho)
    ensures var params := RoundParams(r, localKey);
      Sum(HonestResponses(r, h, localKey, nonces)) ==
      Add(SumOver(r.active, NonceTerms(r.commitments, params.rho), |r.active|),
          Mul(Mul(params.lambda, params.challenge), Eval(h, Zero())))
  {
    var params := RoundParams(r, localKey);
    var m, zs, n := NonceTerms(r.commitments, params.rho), HonestResponses(r, h, localKey, nonces), |r.active|;
    var gs := seq(n, i requires 0 <= i < n =>
      Add(BaseMul(nonces[i].hiding).log, Mul(params.rho, BaseMul(nonces[i].binding).log)));
    var w, sigmas := Mul(params.lambda, params.challenge), Shares(h, r.active);
    forall i | 0 <= i < n
      ensures r.active[i] in m && m[r.active[i]] == gs[i]
      ensures zs[i] == Add(gs[i], Mul(Mul(w, Coefficients(r.active)[i]), sigmas[i]))
    {
      assert CommitmentOf(r.commitments, r.active[i]) == Some(CommitTo(nonces[i]));
      assert r.active[i] in Revealed(r.commitments) by {
        var j :| 0 <= j < |r.commitments| && r.commitments[j] == CommitTo(nonces[i]);
        assert Revealed(r.commitments)[j] == r.active[i];
      }
      BaseMulLog(sigmas[i]);
    }
    SplitWeighted(zs, gs, w, Coefficients(r.active), sigmas, n);
    SumOverValues(r.active, gs, m, n);
    InterpolatesAtZero(h, r.active);
  }

  function NonceCommitment(c: InnerCommitments, rho: Scalar): Point { AddPoints(c.hiding, MulScalar(c.binding, rho)) }

  /** Σ (D_k + ρ·E_k) over the holders that revealed and are not in the quorum: public data. */
  function SilentCommitment(cs: seq<InnerCommitments>, active: seq<U32>, rho: Scalar): Point {
    if cs == [] then Identity()
    else if cs[0].holder in active then SilentCommitment(cs[1..], active, rho)
    else AddPoints(NonceCommitment(cs[0], rho), SilentCommitment(cs[1..], active, rho))
  }

  lemma {:induction false} SilentSum(cs: seq<InnerCommitments>, active: seq<U32>, rho: Scalar, m: map<U32, Scalar>)
    requires forall i :: 0 <= i < |cs| ==> cs[i].holder in m && m[cs[i].holder] == NonceCommitment(cs[i], rho).log
    ensures forall d :: d in Without(Revealed(cs), active) ==> d in m
    ensures var silent := Without(Revealed(cs), active);
      SilentCommitment(cs, active, rho) == Point(SumOver(silent, m, |silent|))
    decreases |cs|
  {
    if cs != [] {
      var h, rest := cs[0].holder, cs[1..];
      assert Revealed(cs)[1..] == Revealed(rest);
      SilentSum(rest, active, rho, m);
      if h !in active {
        SumOverConcat([h], Without(Revealed(rest), active), m);
        AddZero(m[h]);
      }
    }
  }

  /** The response a single signer holding h(0) and the revealed nonce sums would give. */
  ghost function FlatTarget(r: Request, h: Poly, localKey: Point): Scalar
    requires ParamsFor(r.package, localKey, r.nestedIndex).Ok?
    requires PairResult(r.session, r.precommits, r.commitments).Ok?
  {
    var pair := PairResult(r.session, r.precommits, r.commitments).value;
    FlatResponse(pair.hiding.log, pair.binding.log, RoundParams(r, localKey), Eval(h, Zero()))
  }

  /** The revealed nonce terms, split into those of the quorum and those of the silent holders. */
  lemma SplitRevealed(cs: seq<InnerCommitments>, active: seq<U32>, rho: Scalar)
    requires Distinct(Revealed(cs)) && Distinct(active) && forall k :: k in active ==> k in Revealed(cs)
    ensures Add(Sum(HidingLogs(cs)), Mul(rho, Sum(BindingLogs(cs)))) ==
            Add(SumOver(active, NonceTerms(cs, rho), |active|), SilentCommitment(cs, active, rho).log)
  {
    var hs, m, silent := Revealed(cs), NonceTerms(cs, rho), Without(Revealed(cs), active);
    RevealedTerms(cs, rho);
    PartAndRest(hs, active);
    SumOverConcat(active, silent, m);
    SumOverPermutation(hs, active + silent, m);
    forall i | 0 <= i < |cs|
      ensures cs[i].holder in m && m[cs[i].holder] == NonceCommitment(cs[i], rho).log
    {
      assert hs[i] in hs;
      CommitmentInDistinct(cs, i);
    }
    SilentSum(cs, active, rho, m);
  }

  /** The reveals of an honest round are distinct, cover the quorum, and sum to the pair. */
  lemma HonestReveals(r: Request, h: Poly, localKey: Point, approved: Bytes, nonces: seq<InnerNonces>)
    requires HonestRound(r, h, localKey, approved, nonces)
    ensures Distinct(Revealed(r.commitments)) && forall k :: k in r.active ==> k in Revealed(r.commitments)
    ensures PairResult(r.session, r.precommits, r.commitments) ==
            Ok(Pair(Point(Sum(HidingLogs(r.commitments))), Point(Sum(BindingLogs(r.commitments)))))
  {
    AcceptedRevealsDistinct(r.session, r.precommits, r.commitments, |r.commitments|);
    assert Revealed(r.commitments)[..|r.commitments|] == Revealed(r.commitments);
    HonestTerms(r, h, localKey, approved, nonces);
  }

  /** Nested against flat, for any quorum of the revealed holders: the aggregate falls short of the flat
      response by exactly the nonce terms of those who revealed and did not sign. */
  lemma AggregatePlusSilent(r: Request, h: Poly, localKey: Point, approved: Bytes,
                                                nonces: seq<InnerNonces>, sigs: seq<SignatureShare>)
    requires HonestRound(r, h, localKey, approved, nonces) && HonestSignatures(r, h, localKey, approved, nonces, sigs)
    ensures PairResult(r.session, r.precommits, r.commitments).Ok?
    ensures Add(Sum(Responses(sigs)), SilentCommitment(r.commitments, r.active, RoundParams(r, localKey).rho).log) ==
            FlatTarget(r, h, localKey)
  {
    var cs, active, params := r.commitments, r.active, RoundParams(r, localKey);
    HonestReveals(r, h, localKey, approved, nonces);
    HonestSumInQuorumOrder(r, h, localKey, approved, nonces, sigs);
    HonestTerms(r, h, localKey, approved, nonces);
    SplitRevealed(cs, active, params.rho);
    AddRotate(SumOver(active, NonceTerms(cs, params.rho), |active|), SilentCommitment(cs, active, params.rho).log,
              Mul(Mul(params.lambda, params.challenge), Eval(h, Zero())));
  }

  /** Nested equals flat exactly when the silent holders' nonce commitments sum to the identity, which the
      caller can see from the reveals before asking anyone to sign. */
  lemma NestedEqualsFlatIff(r: Request, h: Poly, localKey: Point, approved: Bytes,
                                               nonces: seq<InnerNonces>, sigs: seq<SignatureShare>)
    requires HonestRound(r, h, localKey, approved, nonces) && HonestSignatures(r, h, localKey, approved, nonces, sigs)
    ensures PairResult(r.session, r.precommits, r.commitments).Ok?
    ensures Sum(Responses(sigs)) == FlatTarget(r, h, localKey) <==>
            SilentCommitment(r.commitments, r.active, RoundParams(r, localKey).rho) == Identity()
  {
    AggregatePlusSilent(r, h, localKey, approved, nonces, sigs);
    var z, d := Sum(Responses(sigs)), SilentCommitment(r.commitments, r.active, RoundParams(r, localKey).rho).log;
    AddZero(z);
    if Add(z, d) == z {
      AddComm(z, d);
      AddComm(z, Zero());
      AddCancel(d, Zero(), z);
    }
  }

  lemma {:induction false} NobodySilent(cs: seq<InnerCommitments>, active: seq<U32>, rho: Scalar)
    requires forall k :: k in Revealed(cs) ==> k in active
    ensures SilentCommitment(cs, active, rho) == Identity()
    decreases |cs|
  {
    if cs != [] {
      assert Revealed(cs)[0] in Revealed(cs);
      assert Revealed(cs[1..]) == Revealed(cs)[1..];
      NobodySilent(cs[1..], active, rho);
    }
  }

  /** A quorum that is the whole revealed set answers as the flat signer does. */
  lemma NestedEqualsFlat(r: Request, h: Poly, localKey: Point, approved: Bytes,
                                            nonces: seq<InnerNonces>, sigs: seq<SignatureShare>)
    requires HonestRound(r, h, localKey, approved, nonces) && HonestSignatures(r, h, localKey, approved, nonces, sigs)
    requires forall k :: k in Revealed(r.commitments) ==> k in r.active
    ensures PairResult(r.session, r.precommits, r.commitments).Ok?
    ensures CompleteAndGood(sigs, r.commitments, PublicShares(h, r.active), RoundParams(r, localKey), r.active)
    ensures Sum(Responses(sigs)) == FlatTarget(r, h, localKey)
  {
    HonestSignaturesPass(r, h, localKey, approved, nonces, sigs);
    NobodySilent(r.commitments, r.active, RoundParams(r, localKey).rho);
    NestedEqualsFlatIff(r, h, localKey, approved, nonces, sigs);
  }

  // ---- the outer signature ----

  /** The outer round: each signer's commitments and binding factor, over the signing set. */
  datatype Outer = Outer(indices: seq<U32>, hidings: seq<Point>, bindings: seq<Point>, rhos: seq<Scalar>,
                         challenge: Scalar)

  ghost predicate OuterValid(o: Outer) {
    ValidQuorum(o.indices) && |o.hidings| == |o.bindings| == |o.rhos| == |o.indices|
  }

  /** The group commitment R = Σ (D_i + ρ_i·E_i). */
  function GroupCommitmentUpTo(o: Outer, n: nat): Point
    requires n <= |o.hidings| && n <= |o.bindings| && n <= |o.rhos|
  {
    if n == 0 then Identity()
    else
      AddPoints(GroupCommitmentUpTo(o, n - 1),
                AddPoints(o.hidings[n - 1], MulScalar(o.bindings[n - 1], o.rhos[n - 1])))
  }

  function OuterParams(o: Outer, i: nat): Params
    requires i < |o.indices| == |o.rhos|
  {
    Params(o.rhos[i], o.challenge, Coefficients(o.indices)[i])
  }

  /** Signer i's flat response with its share f(i) of the group secret. */
  function OuterResponse(o: Outer, f: Poly, i: nat): Scalar
    requires i < |o.indices| == |o.rhos| && i < |o.hidings| && i < |o.bindings|
  {
    FlatResponse(o.hidings[i].log, o.bindings[i].log, OuterParams(o, i), Eval(f, FromU32(o.indices[i])))
  }

  lemma {:induction false} OuterSum(o: Outer, f: Poly, zs: seq<Scalar>, n: nat)
    requires OuterValid(o) && n <= |zs| == |o.indices|
    requires forall i :: 0 <= i < n ==> zs[i] == OuterResponse(o, f, i)
    ensures SumTo(zs, n) ==
            Add(GroupCommitmentUpTo(o, n).log,
                Mul(o.challenge, Dot(Coefficients(o.indices), Shares(f, o.indices), n)))
    decreases n
  {
    if n == 0 {
      MulZero(o.challenge);
      AddZero(Zero());
    } else {
      OuterSum(o, f, zs, n - 1);
      var i := n - 1;
      var l, s := Coefficients(o.indices)[i], Shares(f, o.indices)[i];
      var g := Add(o.hidings[i].log, Mul(o.rhos[i], o.bindings[i].log));
      MulComm(l, o.challenge);
      MulAssoc(o.challenge, l, s);
      AddSwap(GroupCommitmentUpTo(o, i).log, Mul(o.challenge, Dot(Coefficients(o.indices), Shares(f, o.indices), i)),
              g, Mul(o.challenge, Mul(l, s)));
      Distrib(o.challenge, Dot(Coefficients(o.indices), Shares(f, o.indices), i), Mul(l, s));
    }
  }

  /** Flat responses of a signing set sum to a Schnorr signature: z·G == R + c·Y. */
  lemma SignatureVerifies(o: Outer, f: Poly, zs: seq<Scalar>)
    requires OuterValid(o) && |zs| == |o.indices| && |f| <= |o.indices|
    requires forall i :: 0 <= i < |zs| ==> zs[i] == OuterResponse(o, f, i)
    ensures BaseMul(Sum(zs)) ==
            AddPoints(GroupCommitmentUpTo(o, |o.indices|), MulScalar(BaseMul(Eval(f, Zero())), o.challenge))
  {
    OuterSum(o, f, zs, |zs|);
    InterpolatesAtZero(f, o.indices);
    BaseMulLog(Sum(zs));
    BaseMulLog(Eval(f, Zero()));
  }

  /** An outer round over the package's signing set, whose entry p is the nested position's: its commitments
      are the revealed pair, its binding factor and the challenge the ones derived from the package. What the
      other signers committed to is left open. */
  ghost predicate OuterOf(o: Outer, p: nat, r: Request, localKey: Point)
    requires ParamsFor(r.package, localKey, r.nestedIndex).Ok?
    requires PairResult(r.session, r.precommits, r.commitments).Ok?
  {
    && OuterValid(o) && p < |o.indices| && o.indices[p] == r.nestedIndex
    && (forall d :: d in o.indices <==> d in IndicesUpTo(r.package.entries, |r.package.entries|).value)
    && Pair(o.hidings[p], o.bindings[p]) == PairResult(r.session, r.precommits, r.commitments).value
    && o.rhos[p] == RoundParams(r, localKey).rho && o.challenge == RoundParams(r, localKey).challenge
  }

  /** End to end: flat shares of the other signers plus the aggregated inner shares of the nested
      position form a signature under the group key. */
  lemma NestedSignatureVerifies(
    r: Request, h: Poly, localKey: Point, approved: Bytes, nonces: seq<InnerNonces>, sigs: seq<SignatureShare>,
    o: Outer, p: nat, f: Poly, zs: seq<Scalar>)
    requires HonestRound(r, h, localKey, approved, nonces) && HonestSignatures(r, h, localKey, approved, nonces, sigs)
    requires forall k :: k in Revealed(r.commitments) ==> k in r.active
    requires PairResult(r.session, r.precommits, r.commitments).Ok? && OuterOf(o, p, r, localKey)
    requires Eval(h, Zero()) == Eval(f, FromU32(r.nestedIndex)) && |f| <= |o.indices| == |zs|
    requires forall i :: 0 <= i < |zs| && i != p ==> zs[i] == OuterResponse(o, f, i)
    requires zs[p] == Sum(Responses(sigs))
    ensures BaseMul(Sum(zs)) ==
            AddPoints(GroupCommitmentUpTo(o, |o.indices|), MulScalar(BaseMul(Eval(f, Zero())), o.challenge))
  {
    NestedEqualsFlat(r, h, localKey, approved, nonces, sigs);
    LambdaOfTheSet(r.package, localKey, r.nestedIndex, o.indices, p);
    assert zs[p] == OuterResponse(o, f, p);
    SignatureVerifies(o, f, zs);
  }
}
