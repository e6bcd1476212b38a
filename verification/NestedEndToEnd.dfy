/** The nested pipeline as a whole: interleaved key generation, splitting, combining, one inner signing
    round, and the outer signature under the group's key. */
module NestedEndToEnd {
  import opened Words
  import opened Sequences
  import opened Field
  import opened Group
  import opened Polynomials
  import opened Commitments
  import opened NestedKeys
  import opened NestedAggregation
  import opened NestedSigning
  import opened NestedEqualsFlat
  import Dkg = DkgAggregator

  /** What the two levels dealt: the nested position's interleaved key generation, the other outer
      dealers' polynomials, and each one's value at the position, split for the inner holders. */
  datatype Dealt = Dealt(
    innerN: U32, innerT: nat, position: U32,
    coefficientPolys: seq<Poly>, shares: seq<InnerShare>, commitments: seq<Point>,
    others: seq<Poly>, splits: seq<Poly>)

  ghost predicate WellDealt(d: Dealt) {
    && d.innerT > 0 && d.commitments != []
    && Interleaved(d.innerN, d.innerT, d.coefficientPolys, d.shares, d.commitments)
    && |d.splits| == |d.others|
    && (forall i :: 0 <= i < |d.splits| ==> |d.splits[i]| == d.innerT)
    && (forall i :: 0 <= i < |d.others| ==> |d.others[i]| == |d.commitments|)
    && (forall i :: 0 <= i < |d.others| ==> d.splits[i][0] == Eval(d.others[i], FromU32(d.position)))
  }

  /** The outer group's polynomial: the nested dealer's plus everybody else's. */
  ghost function GroupPolynomial(d: Dealt): (f: Poly)
    requires WellDealt(d)
    ensures |f| == |d.commitments|
  {
    PolyAdd(Logs(d.commitments), SumPolys(d.others, |d.others|, |d.commitments|))
  }

  /** The polynomial the inner holders' shares lie on. */
  ghost function HolderPolynomial(d: Dealt): (h: Poly)
    requires WellDealt(d)
    ensures |h| == d.innerT
  {
    InnerPolynomial(d.coefficientPolys, d.splits, d.innerT, FromU32(d.position))
  }

  /** The inner holders jointly hold the outer share of the nested position, which none of them knows. */
  lemma HoldersHoldOuterShare(d: Dealt)
    requires WellDealt(d)
    ensures Eval(HolderPolynomial(d), Zero()) == Eval(GroupPolynomial(d), FromU32(d.position))
  {
    var x := FromU32(d.position);
    CombinedSecret(d.innerN, d.innerT, d.coefficientPolys, d.shares, d.commitments, d.splits, d.position);
    assert ConstantTerms(d.splits) == Dkg.Round.ValuesAt(d.others, x);
    EvalSumPolys(d.others, |d.others|, |d.commitments|, x, Dkg.Round.ValuesAt(d.others, x));
    EvalAdd(Logs(d.commitments), SumPolys(d.others, |d.others|, |d.commitments|), x);
  }

  /** The group key is the sum of every outer dealer's constant-term commitment. */
  lemma GroupKeyIsPublished(d: Dealt)
    requires WellDealt(d)
    ensures BaseMul(Eval(GroupPolynomial(d), Zero())) ==
            AddPoints(d.commitments[0], Point(Sum(Dkg.Round.ValuesAt(d.others, Zero()))))
  {
    EvalSumPolys(d.others, |d.others|, |d.commitments|, Zero(), Dkg.Round.ValuesAt(d.others, Zero()));
    EvalAdd(Logs(d.commitments), SumPolys(d.others, |d.others|, |d.commitments|), Zero());
    EvalAtZero(Logs(d.commitments));
    BaseMulLog(Eval(GroupPolynomial(d), Zero()));
  }

  /** Each quorum member signed with the share `combine_shares` gave it. */
  ghost predicate SignedWithCombined(d: Dealt, r: Request, localKey: Point, approved: Bytes,
                                     nonces: seq<InnerNonces>, sigs: seq<SignatureShare>)
    requires |nonces| == |r.active| && forall k :: k in r.active ==> 1 <= k <= |d.shares|
  {
    && multiset(HoldersOf(sigs)) == multiset(r.active)
    && forall i :: 0 <= i < |sigs| && sigs[i].holder in r.active ==>
         var k := sigs[i].holder;
         InnerSign(nonces[Position(r.active, k).value],
                   SecretShare(k, CombinedShare(d.shares, d.splits, d.position, k)), localKey, approved, r)
         == Ok(sigs[i])
  }

  /** Keys dealt through both levels sign: the inner shares are all accepted, and their sum with the other
      signers' flat responses is a Schnorr signature under the group key. */
  lemma NestedPipelineSigns(
    d: Dealt, r: Request, localKey: Point, approved: Bytes, nonces: seq<InnerNonces>, sigs: seq<SignatureShare>,
    o: Outer, p: nat, zs: seq<Scalar>)
    requires WellDealt(d) && r.nestedIndex == d.position
    requires HonestRound(r, HolderPolynomial(d), localKey, approved, nonces)
    requires forall k :: k in r.active ==> 1 <= k <= |d.shares|
    requires SignedWithCombined(d, r, localKey, approved, nonces, sigs)
    requires forall k :: k in Revealed(r.commitments) ==> k in r.active
    requires PairResult(r.session, r.precommits, r.commitments).Ok? && OuterOf(o, p, r, localKey)
    requires |d.commitments| <= |o.indices| == |zs|
    requires forall i :: 0 <= i < |zs| && i != p ==> zs[i] == OuterResponse(o, GroupPolynomial(d), i)
    requires zs[p] == Sum(Responses(sigs))
    ensures CompleteAndGood(sigs, r.commitments, PublicShares(HolderPolynomial(d), r.active),
                            RoundParams(r, localKey), r.active)
    ensures BaseMul(Sum(zs)) ==
            AddPoints(GroupCommitmentUpTo(o, |o.indices|),
                      MulScalar(AddPoints(d.commitments[0], Point(Sum(Dkg.Round.ValuesAt(d.others, Zero())))),
                                o.challenge))
  {
    var h := HolderPolynomial(d);
    forall i | 0 <= i < |sigs| && sigs[i].holder in r.active
      ensures ShareOf(h, sigs[i].holder) ==
              SecretShare(sigs[i].holder, CombinedShare(d.shares, d.splits, d.position, sigs[i].holder))
    {
      CombinedOnPolynomial(d.innerN, d.innerT, d.coefficientPolys, d.shares, d.commitments, d.splits,
                           d.position, sigs[i].holder);
    }
    assert HonestSignatures(r, h, localKey, approved, nonces, sigs);
    HonestSignaturesPass(r, h, localKey, approved, nonces, sigs);
    HoldersHoldOuterShare(d);
    NestedSignatureVerifies(r, h, localKey, approved, nonces, sigs, o, p, GroupPolynomial(d), zs);
    GroupKeyIsPublished(d);
  }
}
