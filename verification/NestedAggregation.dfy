/** Verifying and aggregating the inner holders' responses (`src/nested.rs`), with exact blame. */
module NestedAggregation {
  import opened Words
  import opened Sequences
  import opened Field
  import opened Group
  import opened Polynomials
  import opened Lagrange
  import opened Encoding
  import opened Sums

  datatype InnerCommitments = InnerCommitments(holder: U32, session: Bytes32, hiding: Point, binding: Point)

  datatype SignatureShare = SignatureShare(holder: U32, response: Scalar)

  datatype PublicShare = PublicShare(holder: U32, point: Point)

  /** The outer binding factor, challenge and Lagrange coefficient of the nested position. */
  datatype Params = Params(rho: Scalar, challenge: Scalar, lambda: Scalar)

  datatype Outcome = Aggregated(z: Scalar) | Blame(holders: seq<U32>)

  // ---- one share ----

  function ShareWeight(params: Params, mu: Scalar): Scalar { Mul(Mul(params.lambda, params.challenge), mu) }

  predicate VerifyInnerShare(sig: SignatureShare, c: InnerCommitments, public: Point, params: Params, mu: Scalar) {
    BaseMul(sig.response) ==
    AddPoints(AddPoints(c.hiding, MulScalar(c.binding, params.rho)), MulScalar(public, ShareWeight(params, mu)))
  }

  /** d + ρ·e + (λ·c·μ)·σ, from the logarithms of the public values. */
  function Response(c: InnerCommitments, public: Point, params: Params, mu: Scalar): Scalar {
    Add(Add(c.hiding.log, Mul(params.rho, c.binding.log)), Mul(ShareWeight(params, mu), public.log))
  }

  /** The equation accepts one response only. */
  lemma VerifyInnerShareExact(sig: SignatureShare, c: InnerCommitments, public: Point,
                                                 params: Params, mu: Scalar)
    ensures VerifyInnerShare(sig, c, public, params, mu) <==> sig.response == Response(c, public, params, mu)
  {
    BaseMulLog(sig.response);
  }

  // ---- who is to blame ----

  function CommitmentHolder(c: InnerCommitments): U32 { c.holder }

  function CommitmentOf(cs: seq<InnerCommitments>, holder: U32): (r: Option<InnerCommitments>)
    ensures r.Some? ==> r.value in cs && r.value.holder == holder
    ensures r.None? ==> forall c :: c in cs ==> c.holder != holder
  {
    var r := FirstWith(CommitmentHolder, cs, holder);
    assert r.None? ==> forall c :: c in cs ==> CommitmentHolder(c) != holder;
    r
  }

  function PublicHolder(p: PublicShare): U32 { p.holder }

  function PublicOf(ps: seq<PublicShare>, holder: U32): (r: Option<Point>)
    ensures r.Some? ==> PublicShare(holder, r.value) in ps
    ensures r.None? ==> forall p :: p in ps ==> p.holder != holder
  {
    match FirstWith(PublicHolder, ps, holder)
    case Some(p) => Some(p.point)
    case None =>
      assert forall p :: p in ps ==> PublicHolder(p) != holder;
      None
  }

  function HoldersOf(sigs: seq<SignatureShare>): (hs: seq<U32>)
    ensures |hs| == |sigs| && forall i :: 0 <= i < |hs| ==> hs[i] == sigs[i].holder
  {
    seq(|sigs|, i requires 0 <= i < |sigs| => sigs[i].holder)
  }

  function Responses(sigs: seq<SignatureShare>): (rs: seq<Scalar>)
    ensures |rs| == |sigs| && forall i :: 0 <= i < |rs| ==> rs[i] == sigs[i].response
  {
    seq(|sigs|, i requires 0 <= i < |sigs| => sigs[i].response)
  }

  /** The share is in the quorum, can be checked, and passes. */
  predicate Passes(sig: SignatureShare, cs: seq<InnerCommitments>, ps: seq<PublicShare>, params: Params,
                   active: seq<U32>)
  {
    var pos, c, p := Position(active, sig.holder), CommitmentOf(cs, sig.holder), PublicOf(ps, sig.holder);
    pos.Some? && c.Some? && p.Some? &&
    VerifyInnerShare(sig, c.value, p.value, params, Coefficients(active)[pos.value])
  }

  ghost predicate Missing(sigs: seq<SignatureShare>, active: seq<U32>, k: U32) {
    k in active && k !in HoldersOf(sigs)
  }

  /** Share i comes from outside the quorum or repeats its holder. */
  ghost predicate Misplaced(hs: seq<U32>, active: seq<U32>, i: nat)
    requires i < |hs|
  {
    hs[i] !in active || hs[i] in hs[..i]
  }

  ghost predicate Blamed(sigs: seq<SignatureShare>, cs: seq<InnerCommitments>, ps: seq<PublicShare>,
                         params: Params, active: seq<U32>, k: U32)
  {
    || Missing(sigs, active, k)
    || multiset(HoldersOf(sigs))[k] >= 2
    || exists i :: 0 <= i < |sigs| && sigs[i].holder == k && !Passes(sigs[i], cs, ps, params, active)
  }

  // ---- the aggregation loops ----

  method Note(bad: seq<U32>, k: U32) returns (bad': seq<U32>)
    requires Distinct(bad)
    ensures Distinct(bad') && forall x :: x in bad' <==> x in bad || x == k
  {
    bad' := if k in bad then bad else bad + [k];
  }

  /** Outsiders and repeats, in order of arrival. */
  method BlameMisplaced(hs: seq<U32>, active: seq<U32>) returns (bad: seq<U32>)
    ensures Distinct(bad)
    ensures forall k :: k in bad <==> exists i :: 0 <= i < |hs| && hs[i] == k && Misplaced(hs, active, i)
  {
    bad := [];
    var seen: seq<U32> := [];
    for i := 0 to |hs|
      invariant Distinct(bad) && seen == hs[..i]
      invariant forall k :: k in bad <==> exists j :: 0 <= j < i && hs[j] == k && Misplaced(hs, active, j)
    {
      ghost var before := bad;
      if hs[i] !in active || hs[i] in seen {
        bad := Note(bad, hs[i]);
        assert Misplaced(hs, active, i);
      }
      assert forall k :: k in bad <==> k in before || (k == hs[i] && Misplaced(hs, active, i));
      seen := seen + [hs[i]];
    }
  }

  method BlameMissing(bad0: seq<U32>, hs: seq<U32>, active: seq<U32>) returns (bad: seq<U32>)
    requires Distinct(bad0)
    ensures Distinct(bad) && forall k :: k in bad <==> k in bad0 || (k in active && k !in hs)
  {
    bad := bad0;
    for i := 0 to |active|
      invariant Distinct(bad) && forall k :: k in bad <==> k in bad0 || (k in active[..i] && k !in hs)
    {
      if active[i] !in hs {
        bad := Note(bad, active[i]);
      }
      assert active[..i + 1] == active[..i] + [active[i]];
    }
    assert active[..|active|] == active;
  }

  /** One share checked, or refused for want of a place, a commitment or a public share. */
  method CheckShare(sig: SignatureShare, cs: seq<InnerCommitments>, ps: seq<PublicShare>, params: Params,
                    active: seq<U32>, ls: seq<Scalar>)
    returns (ok: bool)
    requires ls == Coefficients(active)
    ensures ok == Passes(sig, cs, ps, params, active)
  {
    var pos, c, p := Position(active, sig.holder), CommitmentOf(cs, sig.holder), PublicOf(ps, sig.holder);
    match (pos, c, p)
    case (Some(i), Some(commitment), Some(public)) =>
      ok := VerifyInnerShare(sig, commitment, public, params, ls[i]);
    case _ =>
      ok := false;
  }

  ghost function Verdicts(sigs: seq<SignatureShare>, cs: seq<InnerCommitments>, ps: seq<PublicShare>,
                          params: Params, active: seq<U32>): (vs: seq<bool>)
    ensures |vs| == |sigs| && forall i :: 0 <= i < |vs| ==> vs[i] == Passes(sigs[i], cs, ps, params, active)
  {
    seq(|sigs|, i requires 0 <= i < |sigs| => Passes(sigs[i], cs, ps, params, active))
  }

  /** One of the first n shares is k's and fails. */
  ghost predicate Fails(hs: seq<U32>, verdicts: seq<bool>, n: nat, k: U32)
    requires n <= |hs| == |verdicts|
  {
    exists i :: 0 <= i < n && hs[i] == k && !verdicts[i]
  }

  lemma NextShare(hs: seq<U32>, verdicts: seq<bool>, n: nat)
    requires n < |hs| == |verdicts|
    ensures forall k :: Fails(hs, verdicts, n + 1, k) <==> Fails(hs, verdicts, n, k) || (k == hs[n] && !verdicts[n])
  {
    forall k: U32
      ensures Fails(hs, verdicts, n + 1, k) <==> Fails(hs, verdicts, n, k) || (k == hs[n] && !verdicts[n])
    {
      if k == hs[n] && !verdicts[n] {
        assert Fails(hs, verdicts, n + 1, k);
      }
    }
  }

  /** Verifies every share, summing the good ones and blaming the rest. */
  method SumVerified(bad0: seq<U32>, sigs: seq<SignatureShare>, cs: seq<InnerCommitments>, ps: seq<PublicShare>,
                     params: Params, active: seq<U32>, ls: seq<Scalar>, ghost verdicts: seq<bool>)
    returns (bad: seq<U32>, z: Scalar)
    requires Distinct(bad0) && ls == Coefficients(active) && |verdicts| == |sigs|
    requires forall i {:trigger verdicts[i]} :: 0 <= i < |sigs| ==>
               verdicts[i] == Passes(sigs[i], cs, ps, params, active)
    ensures Distinct(bad)
    ensures forall k :: k in bad <==> k in bad0 || Fails(HoldersOf(sigs), verdicts, |sigs|, k)
    ensures AllSet(verdicts, |sigs|) ==> z == Sum(Responses(sigs))
  {
    ghost var hs, zs := HoldersOf(sigs), Responses(sigs);
    bad, z := bad0, Zero();
    for n := 0 to |sigs|
      invariant Distinct(bad)
      invariant forall k :: k in bad <==> k in bad0 || Fails(hs, verdicts, n, k)
      invariant AllSet(verdicts, n) ==> z == SumTo(zs, n)
    {
      NextShare(hs, verdicts, n);
      NextFlag(verdicts, n);
      var ok := CheckShare(sigs[n], cs, ps, params, active, ls);
      if ok {
        z := Add(z, sigs[n].response);
      } else {
        bad := Note(bad, sigs[n].holder);
      }
    }
  }

  method AggregateInnerSharesVerified(sigs: seq<SignatureShare>, cs: seq<InnerCommitments>, ps: seq<PublicShare>,
                                      params: Params, active: seq<U32>)
    returns (r: Outcome)
    ensures !ValidQuorum(active) ==> r == Blame(active)
    ensures ValidQuorum(active) && r.Blame? ==>
              && r.holders != [] && Ascending(r.holders)
              && forall k :: k in r.holders <==> Blamed(sigs, cs, ps, params, active, k)
    ensures ValidQuorum(active) && r.Aggregated? ==>
              && r.z == Sum(Responses(sigs))
              && forall k :: !Blamed(sigs, cs, ps, params, active, k)
  {
    var lagrange := ComputeLagrangeCoefficients(active);
    if lagrange.Err? {
      return Blame(active);
    }
    LagrangeOutcome(active);
    var hs := HoldersOf(sigs);
    var misplaced := BlameMisplaced(hs, active);
    var uncovered := BlameMissing(misplaced, hs, active);
    ghost var verdicts := Verdicts(sigs, cs, ps, params, active);
    var bad, z := SumVerified(uncovered, sigs, cs, ps, params, active, lagrange.value, verdicts);
    forall k: U32
      ensures k in bad <==> Blamed(sigs, cs, ps, params, active, k)
    {
      MisplacedMeansBlamed(sigs, cs, ps, params, active, k);
    }
    if bad == [] {
      forall i | 0 <= i < |sigs|
        ensures verdicts[i]
      {
        assert HoldersOf(sigs)[i] !in bad;
      }
      return Aggregated(z);
    }
    SortFindsDuplicates(bad);
    SameMultisetSameElements(bad, Sort(bad));
    return Blame(Sort(bad));
  }

  lemma {:induction false} RepeatedIff(hs: seq<U32>, k: U32)
    ensures multiset(hs)[k] >= 2 <==> exists i :: 0 <= i < |hs| && hs[i] == k && k in hs[..i]
  {
    if hs != [] {
      var most, n := hs[..|hs| - 1], |hs| - 1;
      RepeatedIff(most, k);
      assert hs == most + [hs[n]];
      assert k in most <==> multiset(most)[k] >= 1;
      assert forall i :: 0 <= i < n ==> hs[..i] == most[..i];
      if multiset(hs)[k] >= 2 {
        if hs[n] == k {
          assert k in hs[..n];
        } else {
          var i :| 0 <= i < |most| && most[i] == k && k in most[..i];
          assert hs[i] == k && k in hs[..i];
        }
      }
    }
  }

  /** The first loop and the other two together name exactly the blamed holders. */
  lemma MisplacedMeansBlamed(sigs: seq<SignatureShare>, cs: seq<InnerCommitments>, ps: seq<PublicShare>,
                             params: Params, active: seq<U32>, k: U32)
    ensures Blamed(sigs, cs, ps, params, active, k) <==>
            || (exists i :: 0 <= i < |sigs| && HoldersOf(sigs)[i] == k && Misplaced(HoldersOf(sigs), active, i))
            || (k in active && k !in HoldersOf(sigs))
            || Fails(HoldersOf(sigs), Verdicts(sigs, cs, ps, params, active), |sigs|, k)
  {
    var hs, verdicts := HoldersOf(sigs), Verdicts(sigs, cs, ps, params, active);
    RepeatedIff(hs, k);
    if Fails(hs, verdicts, |sigs|, k) {
      var i :| 0 <= i < |sigs| && hs[i] == k && !verdicts[i];
      assert sigs[i].holder == k && !Passes(sigs[i], cs, ps, params, active);
    }
    if exists i :: 0 <= i < |sigs| && sigs[i].holder == k && !Passes(sigs[i], cs, ps, params, active) {
      var i :| 0 <= i < |sigs| && sigs[i].holder == k && !Passes(sigs[i], cs, ps, params, active);
      assert hs[i] == k && !verdicts[i];
    }
    if multiset(hs)[k] >= 2 {
      var i :| 0 <= i < |hs| && hs[i] == k && k in hs[..i];
      assert Misplaced(hs, active, i);
    }
    if exists i :: 0 <= i < |sigs| && hs[i] == k && Misplaced(hs, active, i) {
      var i :| 0 <= i < |sigs| && hs[i] == k && Misplaced(hs, active, i);
      if k !in active {
        assert !Passes(sigs[i], cs, ps, params, active);
      }
    }
  }

  // ---- what an accepted aggregate is ----

  /** The shares cover the quorum exactly and each one passes. */
  ghost predicate CompleteAndGood(sigs: seq<SignatureShare>, cs: seq<InnerCommitments>, ps: seq<PublicShare>,
                                  params: Params, active: seq<U32>)
  {
    && multiset(HoldersOf(sigs)) == multiset(active)
    && forall i :: 0 <= i < |sigs| ==> Passes(sigs[i], cs, ps, params, active)
  }

  /** Nobody is blamed exactly when the holders are the quorum, as multisets, and every share passes. */
  lemma NobodyBlamedIff(sigs: seq<SignatureShare>, cs: seq<InnerCommitments>, ps: seq<PublicShare>,
                                           params: Params, active: seq<U32>)
    requires ValidQuorum(active)
    ensures (forall k :: !Blamed(sigs, cs, ps, params, active, k)) <==> CompleteAndGood(sigs, cs, ps, params, active)
  {
    var hs := HoldersOf(sigs);
    if forall k :: !Blamed(sigs, cs, ps, params, active, k) {
      forall i | 0 <= i < |sigs|
        ensures Passes(sigs[i], cs, ps, params, active)
      {
        assert !Blamed(sigs, cs, ps, params, active, sigs[i].holder);
      }
      forall k: U32
        ensures multiset(hs)[k] <= 1 && (k in hs <==> k in active)
      {
        assert !Blamed(sigs, cs, ps, params, active, k);
        if k in hs {
          var i :| 0 <= i < |hs| && hs[i] == k;
          assert Passes(sigs[i], cs, ps, params, active);
        }
      }
      DistinctIffMultiplicity(hs);
      assert Elements(hs) == Elements(active);
      DistinctSameElements(hs, active);
    }
    if CompleteAndGood(sigs, cs, ps, params, active) {
      SameMultisetSameElements(hs, active);
      DistinctIffMultiplicity(active);
      forall k: U32
        ensures !Blamed(sigs, cs, ps, params, active, k)
      {
        assert multiset(active)[k] <= 1;
      }
    }
  }

  /** The responses the public values dictate, by holder. */
  ghost function Dictated(cs: seq<InnerCommitments>, ps: seq<PublicShare>, params: Params, active: seq<U32>):
    (m: map<U32, Scalar>)
    ensures forall k :: k in m <==> k in active
    ensures forall k :: k in active && CommitmentOf(cs, k).Some? && PublicOf(ps, k).Some? ==>
              m[k] == Response(CommitmentOf(cs, k).value, PublicOf(ps, k).value, params,
                               Coefficients(active)[Position(active, k).value])
  {
    map k | k in active ::
      match (CommitmentOf(cs, k), PublicOf(ps, k))
      case (Some(c), Some(p)) => Response(c, p, params, Coefficients(active)[Position(active, k).value])
      case _ => Zero()
  }

  /** An accepted aggregate is the one scalar the public values determine, whatever order the shares came in. */
  lemma AggregateUnique(sigs: seq<SignatureShare>, cs: seq<InnerCommitments>, ps: seq<PublicShare>,
                        params: Params, active: seq<U32>)
    requires CompleteAndGood(sigs, cs, ps, params, active)
    ensures Sum(Responses(sigs)) == SumOver(active, Dictated(cs, ps, params, active), |active|)
  {
    var hs, rs, m := HoldersOf(sigs), Responses(sigs), Dictated(cs, ps, params, active);
    SameMultisetSameElements(hs, active);
    forall i | 0 <= i < |sigs|
      ensures hs[i] in m && m[hs[i]] == rs[i]
    {
      assert hs[i] in hs && Passes(sigs[i], cs, ps, params, active);
      VerifyInnerShareExact(sigs[i], CommitmentOf(cs, hs[i]).value, PublicOf(ps, hs[i]).value, params,
                            Coefficients(active)[Position(active, hs[i]).value]);
    }
    SumOverValues(hs, rs, m, |hs|);
    SumOverPermutation(hs, active, m);
  }
}
