/** `reshare::Aggregator` as the object the sources mutate, against the states of `Reshare`. */
module ReshareAggregator {
  import opened Words
  import opened Field
  import opened Group
  import opened Polynomials
  import opened Lagrange
  import opened Commitments
  import opened Reshare

  class Aggregator {
    const player: U32
    const dealers: seq<U32>
    var subshares: seq<Verified>
    var commitments: seq<DealerCommitment>

    function Snapshot(): State
      reads this
    {
      State(player, dealers, subshares, commitments)
    }

    constructor (player: U32, dealers: seq<U32>)
      ensures Snapshot() == Fresh(player, dealers)
    {
      this.player, this.dealers, subshares, commitments := player, dealers, [], [];
    }

    static method Create(player: U32, dealers: seq<U32>) returns (r: Result<Aggregator>)
      ensures r.Err? ==> CheckedDealerSet(player, dealers) == Err(r.error)
      ensures r.Ok? ==>
                && fresh(r.value)
                && CheckedDealerSet(player, dealers) == Ok(r.value.dealers)
                && r.value.Snapshot() == Fresh(player, r.value.dealers)
                && Valid(r.value.Snapshot())
    {
      CheckedDealerSetOutcome(player, dealers);
      match CheckedDealerSet(player, dealers)
      case Err(e) => return Err(e);
      case Ok(sorted) =>
        var agg := new Aggregator(player, sorted);
        return Ok(agg);
    }

    method Deliver(subshare: SubShare, commitment: DealerCommitment) returns (r: Result<bool>)
      requires Valid(Snapshot())
      modifies this
      ensures r == AddOutcome(old(Snapshot()), Delivery(subshare, commitment))
      ensures Snapshot() == AddSubshare(old(Snapshot()), Delivery(subshare, commitment))
      ensures Valid(Snapshot())
    {
      AddKeepsValid(Snapshot(), Delivery(subshare, commitment));
      if subshare.playerIndex != player {
        return Err(InvalidIndex);
      }
      if subshare.dealerIndex != commitment.dealerIndex {
        return Err(InvalidIndex);
      }
      if subshare.dealerIndex == 0 {
        return Err(InvalidIndex);
      }
      if subshare.dealerIndex !in dealers {
        return Err(UnexpectedDealer(subshare.dealerIndex));
      }
      if commitments != [] && commitments[0].Threshold() != commitment.Threshold() {
        return Err(ThresholdMismatch(commitments[0].Threshold(), commitment.Threshold()));
      }
      if subshare.dealerIndex in Names(subshares) {
        return Ok(false);
      }
      if !VerifySubshare(commitment, player, subshare.value) {
        return Err(InvalidResponse);
      }
      subshares := subshares + [Verified(subshare.dealerIndex, subshare.value)];
      commitments := commitments + [commitment];
      return Ok(true);
    }

    /** Refused deliveries are skipped; the rest are added in order. */
    method AddBatch(ds: seq<Delivery>) returns (added: nat)
      requires Valid(Snapshot())
      modifies this
      ensures Snapshot() == Run(old(Snapshot()), ds)
      ensures Valid(Snapshot()) && |subshares| == old(|subshares|) + added
    {
      added := 0;
      for i := 0 to |ds|
        invariant Snapshot() == Run(old(Snapshot()), ds[..i])
        invariant Valid(Snapshot()) && |subshares| == old(|subshares|) + added
      {
        assert ds[..i + 1][..i] == ds[..i];
        var r := Deliver(ds[i].subshare, ds[i].commitment);
        if r == Ok(true) {
          added := added + 1;
        }
      }
      assert ds[..|ds|] == ds;
    }

    method AggregateShare() returns (r: Result<Scalar>)
      requires Valid(Snapshot())
      ensures !IsComplete(Snapshot()) ==> r == Err(InsufficientContributions(|subshares|, |dealers|))
      ensures IsComplete(Snapshot()) ==> r == Ok(Aggregate(Snapshot()))
    {
      if |subshares| != |dealers| {
        return Err(InsufficientContributions(|subshares|, |dealers|));
      }
      var st := Snapshot();
      var lagrange := ComputeLagrangeCoefficients(dealers);
      LagrangeOutcome(dealers);
      CompleteIffAllDelivered(st);
      var share := WeighContributions(st, lagrange.value, Contributions(st));
      return Ok(share);
    }

    /** F' in the exponent, accumulated coefficient by coefficient. */
    method Polynomial() returns (r: Result<seq<Point>>)
      requires Valid(Snapshot())
      ensures !IsComplete(Snapshot()) ==> r == Err(InsufficientContributions(|subshares|, |dealers|))
      ensures IsComplete(Snapshot()) ==> r == Ok(Commit(Combined(Snapshot())))
    {
      if |subshares| != |dealers| {
        return Err(InsufficientContributions(|subshares|, |dealers|));
      }
      var st := Snapshot();
      var lagrange := ComputeLagrangeCoefficients(dealers);
      LagrangeOutcome(dealers);
      var ps := CombineCommitments(lagrange.value, DealtPoints(st), commitments[0].Threshold(), DealtPolynomials(st));
      return Ok(ps);
    }

    method FinalizeShare(expectedKey: Point) returns (r: Result<Finalized>)
      requires Valid(Snapshot()) && (IsComplete(Snapshot()) ==> NewThreshold(Snapshot()) > 0)
      ensures r == Finalize(Snapshot(), expectedKey)
    {
      var polynomial :- Polynomial();
      if polynomial[0] != expectedKey {
        return Err(InvalidCommitment);
      }
      var aggregated := AggregateShare();
      var share := aggregated.value;
      if !VerifyShare(polynomial, player, share) {
        return Err(InvalidResponse);
      }
      return Ok(Finalized(share, polynomial));
    }
  }

  /** Σ λ_i·σ_i, in dealer-set order. */
  method WeighContributions(st: State, ls: seq<Scalar>, ghost vs: seq<Scalar>) returns (share: Scalar)
    requires |ls| == |vs| == |st.dealers| && forall d :: d in st.dealers ==> d in Names(st.subshares)
    requires forall i {:trigger vs[i]} :: 0 <= i < |vs| ==> vs[i] == SubshareOf(st, st.dealers[i])
    ensures share == Dot(ls, vs, |vs|)
  {
    share := Zero();
    for i := 0 to |st.dealers|
      invariant share == Dot(ls, vs, i)
    {
      share := Add(share, Mul(ls[i], SubshareOf(st, st.dealers[i])));
    }
  }

  /** Coefficient-wise Σ λ_i·C_i, in place over one array. */
  method CombineCommitments(ls: seq<Scalar>, cs: seq<seq<Point>>, t: nat, ghost fs: seq<Poly>) returns (ps: seq<Point>)
    requires |ls| == |cs| == |fs|
    requires forall i :: 0 <= i < |cs| ==> |cs[i]| == t && |fs[i]| == t && fs[i] == Logs(cs[i])
    ensures ps == Commit(Combination(ls, fs, |cs|, t))
  {
    var coefficients := new Point[t](_ => Identity());
    IdentitiesAreZeros(coefficients[..]);
    for i := 0 to |cs|
      invariant Logs(coefficients[..]) == Combination(ls, fs, i, t)
    {
      AddScaled(coefficients, cs[i], ls[i]);
    }
    CommitOfLogs(coefficients[..]);
    ps := coefficients[..];
  }

  lemma IdentitiesAreZeros(ps: seq<Point>)
    requires forall k :: 0 <= k < |ps| ==> ps[k] == Identity()
    ensures Logs(ps) == Zeros(|ps|)
  {}

  method AddScaled(acc: array<Point>, ps: seq<Point>, lambda: Scalar)
    requires acc.Length == |ps|
    modifies acc
    ensures Logs(acc[..]) == PolyAdd(old(Logs(acc[..])), Scale(lambda, Logs(ps)))
  {
    for k := 0 to |ps|
      invariant forall j :: 0 <= j < k ==> acc[j] == AddPoints(old(acc[j]), MulScalar(ps[j], lambda))
      invariant forall j :: k <= j < |ps| ==> acc[j] == old(acc[j])
    {
      acc[k] := AddPoints(acc[k], MulScalar(ps[k], lambda));
    }
    ghost var f, g := old(Logs(acc[..])), Scale(lambda, Logs(ps));
    forall j | 0 <= j < |ps|
      ensures Logs(acc[..])[j] == PolyAdd(f, g)[j]
    {
      PolyAddAt(f, g, j);
      ScaleAt(lambda, Logs(ps), j);
    }
  }
}
