/** The on-chain round state of a reshare (`src/reshare.rs`, `ReshareState`). */
module ReshareRound {
  import opened Words
  import opened Sequences
  import opened Field
  import opened Group
  import opened Polynomials
  import opened Lagrange
  import opened Encoding
  import opened Commitments
  import opened Slots

  datatype Round = Round(targetEpoch: U64, oldThreshold: U32, newThreshold: U32, slots: Table, groupKey: Point)

  datatype Submission = Submission(commitment: DealerCommitment, proof: Proof)

  predicate VerifyPossession(c: DealerCommitment, epoch: U64, proof: Proof) {
    c.coefficients != [] && VerifyIn(proof, Ascii(RESHARE_POK_DOMAIN), c.dealerIndex, epoch, c.coefficients[0])
  }

  /** The checks of `submit_commitment`, in order. */
  function SubmitOutcome(r: Round, s: Submission): Result<bool> {
    var c := s.commitment;
    if !VerifyPossession(c, r.targetEpoch, s.proof) then Err(InvalidProofOfKnowledge(c.dealerIndex))
    else if c.dealerIndex == 0 then Err(InvalidIndex)
    else if c.dealerIndex - 1 >= |r.slots| then Err(InvalidIndex)
    else if c.Threshold() != r.newThreshold then Err(InvalidCommitment)
    else if r.slots[c.dealerIndex - 1].Some? then Ok(false)
    else Ok(true)
  }

  function Submit(r: Round, s: Submission): Round {
    if SubmitOutcome(r, s) == Ok(true)
    then r.(slots := r.slots[s.commitment.dealerIndex - 1 := Some(s.commitment)])
    else r
  }

  function Run(r: Round, ss: seq<Submission>): Round {
    if ss == [] then r else Submit(Run(r, ss[..|ss| - 1]), ss[|ss| - 1])
  }

  ghost predicate Valid(r: Round) { TableValid(r.slots, r.newThreshold) }

  /** r' has every commitment r has. */
  ghost predicate Extends(r: Round, r': Round) {
    && r' == r.(slots := r'.slots)
    && |r'.slots| == |r.slots|
    && forall i :: 0 <= i < |r.slots| && r.slots[i].Some? ==> r'.slots[i] == r.slots[i]
  }

  lemma SubmitKeepsValid(r: Round, s: Submission)
    requires Valid(r)
    ensures Valid(Submit(r, s)) && Extends(r, Submit(r, s))
  {}

  lemma {:induction false} RunKeepsValid(r: Round, ss: seq<Submission>)
    requires Valid(r)
    ensures Valid(Run(r, ss)) && Extends(r, Run(r, ss))
  {
    if ss != [] {
      RunKeepsValid(r, ss[..|ss| - 1]);
      SubmitKeepsValid(Run(r, ss[..|ss| - 1]), ss[|ss| - 1]);
    }
  }

  /** The proof of possession holds for the commitment's own dealer and constant term, in this epoch. */
  ghost predicate Proven(s: Submission, epoch: U64) {
    && s.commitment.coefficients != []
    && Proves(s.proof, Ascii(RESHARE_POK_DOMAIN), s.commitment.dealerIndex, epoch, s.commitment.coefficients[0])
  }

  lemma VerifyPossessionExact(s: Submission, epoch: U64)
    ensures VerifyPossession(s.commitment, epoch, s.proof) <==> Proven(s, epoch)
  {
    if s.commitment.coefficients != [] {
      VerifyInExact(s.proof, Ascii(RESHARE_POK_DOMAIN), s.commitment.dealerIndex, epoch, s.commitment.coefficients[0]);
    }
  }

  /** When each answer of `submit_commitment` is given. */
  lemma SubmitAnswers(r: Round, s: Submission)
    requires Valid(r)
    ensures var res, d, sound :=
        SubmitOutcome(r, s), s.commitment.dealerIndex, s.commitment.Threshold() == r.newThreshold;
      && (res == Err(InvalidProofOfKnowledge(d)) <==> !Proven(s, r.targetEpoch))
      && (res == Err(InvalidIndex) <==> Proven(s, r.targetEpoch) && !(1 <= d <= |r.slots|))
      && (res == Err(InvalidCommitment) <==> Proven(s, r.targetEpoch) && 1 <= d <= |r.slots| && !sound)
      && (res == Ok(false) <==> Proven(s, r.targetEpoch) && sound && Has(r.slots, d))
      && (res == Ok(true) <==> Proven(s, r.targetEpoch) && sound && 1 <= d <= |r.slots| && !Has(r.slots, d))
  {
    VerifyPossessionExact(s, r.targetEpoch);
  }

  /** An honest old shareholder is accepted, for every polynomial of the new threshold and every nonce. */
  lemma HonestDealerCommits(r: Round, d: U32, f: Poly, k: Scalar)
    requires Valid(r) && 1 <= d <= |r.slots| && !Has(r.slots, d) && |f| == r.newThreshold > 0
    ensures SubmitOutcome(r, Submission(DealerCommitment(d, Commit(f)),
                                        ProveIn(Ascii(RESHARE_POK_DOMAIN), d, r.targetEpoch, f[0], k))) == Ok(true)
  {
    var s := Submission(DealerCommitment(d, Commit(f)), ProveIn(Ascii(RESHARE_POK_DOMAIN), d, r.targetEpoch, f[0], k));
    assert s.commitment.coefficients[0] == BaseMul(f[0]);
    ProofCompleteness(Ascii(RESHARE_POK_DOMAIN), d, r.targetEpoch, f[0], k);
    VerifyInExact(s.proof, Ascii(RESHARE_POK_DOMAIN), d, r.targetEpoch, BaseMul(f[0]));
    SubmitAnswers(r, s);
  }

  /** The submission brings a proven commitment of dealer d at the new threshold. */
  ghost predicate Offers(s: Submission, epoch: U64, threshold: U32, d: nat) {
    Proven(s, epoch) && s.commitment.dealerIndex == d && s.commitment.Threshold() == threshold
  }

  ghost predicate Offered(ss: seq<Submission>, r: Round, d: nat) {
    exists s :: s in ss && Offers(s, r.targetEpoch, r.newThreshold, d)
  }

  lemma SubmitExact(r: Round, s: Submission, d: nat)
    requires Valid(r)
    ensures Has(Submit(r, s).slots, d) <==>
            Has(r.slots, d) || (1 <= d <= |r.slots| && Offers(s, r.targetEpoch, r.newThreshold, d))
    ensures Has(Submit(r, s).slots, d) && !Has(r.slots, d) ==> Submit(r, s).slots[d - 1] == Some(s.commitment)
  {
    VerifyPossessionExact(s, r.targetEpoch);
  }

  /** A dealer has committed exactly when it offered a proven commitment: one that cannot open its constant
      term never enters the dealer set. */
  lemma {:induction false} CommittedIffOffered(r: Round, ss: seq<Submission>, d: nat)
    requires Valid(r) && !Has(r.slots, d)
    ensures Has(Run(r, ss).slots, d) <==> 1 <= d <= |r.slots| && Offered(ss, r, d)
    ensures Has(Run(r, ss).slots, d) ==>
              exists s :: s in ss && Offers(s, r.targetEpoch, r.newThreshold, d)
                       && Run(r, ss).slots[d - 1] == Some(s.commitment)
  {
    if ss != [] {
      var most, last := ss[..|ss| - 1], ss[|ss| - 1];
      var mid := Run(r, most);
      RunKeepsValid(r, most);
      CommittedIffOffered(r, most, d);
      SubmitExact(mid, last, d);
      SubmitKeepsValid(mid, last);
      assert ss == most + [last];
      assert Offered(ss, r, d) <==> Offered(most, r, d) || Offers(last, r.targetEpoch, r.newThreshold, d);
      if Has(mid.slots, d) {
        var s :| s in most && Offers(s, r.targetEpoch, r.newThreshold, d) && mid.slots[d - 1] == Some(s.commitment);
        assert s in ss;
      }
    }
  }

  // ---- the deterministic dealer set ----

  predicate HasQuorum(r: Round) { |Committed(r.slots)| >= r.oldThreshold }

  function DealerSet(r: Round): Option<seq<U32>> {
    if HasQuorum(r) then Some(Committed(r.slots)[..r.oldThreshold]) else None
  }

  /** The dealers that hold a slot. */
  ghost function Backers(r: Round): (s: set<nat>)
    ensures forall d :: d in s <==> Has(r.slots, d)
  {
    set d: nat | 1 <= d <= |r.slots| && Has(r.slots, d)
  }

  lemma CountIsBackers(r: Round)
    requires Valid(r)
    ensures |Committed(r.slots)| == |Backers(r)|
  {
    CommittedExact(r.slots, r.newThreshold);
    DistinctCardinality<nat>(Committed(r.slots));
    assert Elements<nat>(Committed(r.slots)) == Backers(r) by {
      forall d: nat
        ensures d in Elements<nat>(Committed(r.slots)) <==> d in Backers(r)
      {
        assert d in Elements<nat>(Committed(r.slots)) <==> d in Committed(r.slots);
      }
    }
  }

  /** There is a dealer set exactly when at least `oldThreshold` dealers have committed, and it is the
      `oldThreshold` smallest of them, ascending. */
  lemma DealerSetIsSmallest(r: Round)
    requires Valid(r)
    ensures DealerSet(r).Some? <==> |Backers(r)| >= r.oldThreshold
    ensures DealerSet(r).Some? ==>
              var ds := DealerSet(r).value;
              && |ds| == r.oldThreshold && Ascending(ds)
              && (forall d :: d in ds ==> Has(r.slots, d))
              && (forall d, e :: d in ds && Has(r.slots, e) && e !in ds ==> d < e)
  {
    CountIsBackers(r);
    if DealerSet(r).Some? {
      PrefixIsSmallest(r, DealerSet(r).value);
    }
  }

  lemma PrefixIsSmallest(r: Round, ds: seq<U32>)
    requires Valid(r) && r.oldThreshold <= |Committed(r.slots)| && ds == Committed(r.slots)[..r.oldThreshold]
    ensures Ascending(ds) && forall d :: d in ds ==> Has(r.slots, d)
    ensures forall d, e :: d in ds && Has(r.slots, e) && e !in ds ==> d < e
  {
    CommittedExact(r.slots, r.newThreshold);
    var all := Committed(r.slots);
    forall d | d in ds
      ensures Has(r.slots, d)
    {
      assert d in all;
    }
    forall d, e | d in ds && Has(r.slots, e) && e !in ds
      ensures d < e
    {
      assert forall k :: 0 <= k < r.oldThreshold ==> all[k] == ds[k] && all[k] in ds;
      var i :| 0 <= i < |ds| && ds[i] == d;
      assert e in all;
      var j :| 0 <= j < |all| && all[j] == e;
      assert all[i] == d;
    }
  }

  /** The dealers of a round that some submission makes an acceptable offer for. */
  ghost function OfferedDealers(ss: seq<Submission>, r: Round): (s: set<nat>)
    ensures forall d :: d in s <==> 1 <= d <= |r.slots| && Offered(ss, r, d)
  {
    set d: nat | 1 <= d <= |r.slots| && Offered(ss, r, d)
  }

  /** When a reshare can proceed, over all runs: as soon as `oldThreshold` dealers have offered a proven
      commitment. */
  lemma QuorumOverRuns(r: Round, ss: seq<Submission>)
    requires Valid(r) && Backers(r) == {}
    ensures DealerSet(Run(r, ss)).Some? <==> |OfferedDealers(ss, r)| >= r.oldThreshold
  {
    RunKeepsValid(r, ss);
    DealerSetIsSmallest(Run(r, ss));
    forall d: nat
      ensures d in Backers(Run(r, ss)) <==> d in OfferedDealers(ss, r)
    {
      if 1 <= d <= |r.slots| {
        assert d !in Backers(r);
        CommittedIffOffered(r, ss, d);
      }
    }
    assert Backers(Run(r, ss)) == OfferedDealers(ss, r);
  }

  /** Later submissions can only lower each member of the dealer set. */
  lemma DealerSetNonIncreasing(r: Round, ss: seq<Submission>, k: nat)
    requires Valid(r) && |Backers(r)| >= r.oldThreshold && k < r.oldThreshold
    ensures Run(r, ss).oldThreshold == r.oldThreshold && DealerSet(r).Some? && DealerSet(Run(r, ss)).Some?
    ensures |DealerSet(r).value| == |DealerSet(Run(r, ss)).value| == r.oldThreshold
    ensures DealerSet(Run(r, ss)).value[k] <= DealerSet(r).value[k]
  {
    var r' := Run(r, ss);
    RunKeepsValid(r, ss);
    CountIsBackers(r);
    CommittedExact(r.slots, r.newThreshold);
    CommittedExact(r'.slots, r'.newThreshold);
    SmallestMonotone(Committed(r.slots), Committed(r'.slots), r.oldThreshold - 1);
    SmallestMonotone(Committed(r.slots), Committed(r'.slots), k);
  }

  // ---- the group key ----

  function ConstantTerms(r: Round, ds: seq<U32>): (vs: seq<Scalar>)
    requires Valid(r) && forall d :: d in ds ==> Has(r.slots, d)
    ensures |vs| == |ds|
    ensures forall i :: 0 <= i < |ds| ==> Has(r.slots, ds[i]) && vs[i] == r.slots[ds[i] - 1].value.ShareCommitment().log
  {
    seq(|ds|, i requires 0 <= i < |ds| && Has(r.slots, ds[i]) && Valid(r) =>
      r.slots[ds[i] - 1].value.ShareCommitment().log)
  }

  /** `verify_group_key` over the dealer set's constant terms. */
  function GroupKeyCheck(r: Round): Result<bool>
    requires Valid(r)
  {
    match DealerSet(r)
    case None => Err(InsufficientContributions(|Committed(r.slots)|, r.oldThreshold))
    case Some(ds) =>
      DealerSetIsSmallest(r);
      match LagrangeResult(ds)
      case Err(e) => Err(e)
      case Ok(ls) =>
        LagrangeOutcome(ds);
        Ok(Point(Dot(ls, ConstantTerms(r, ds), |ds|)) == r.groupKey)
  }

  lemma TermsAreShares(r: Round, f: Poly, ds: seq<U32>)
    requires Valid(r)
    requires forall d :: d in ds ==>
               Has(r.slots, d) && r.slots[d - 1].value.ShareCommitment() == BaseMul(Eval(f, FromU32(d)))
    ensures ConstantTerms(r, ds) == Shares(f, ds)
  {
    forall i | 0 <= i < |ds|
      ensures ConstantTerms(r, ds)[i] == Shares(f, ds)[i]
    {
      assert ds[i] in ds;
      BaseMulLog(Eval(f, FromU32(ds[i])));
    }
  }

  /** When the dealer set's constants are shares of a polynomial, the check says whether the group key is the
      commitment to its value at zero. */
  lemma AnyQuorumVerifies(r: Round, f: Poly)
    requires Valid(r) && |Backers(r)| >= r.oldThreshold > 0 && |f| <= r.oldThreshold
    requires forall d :: DealerSet(r).Some? && d in DealerSet(r).value && Has(r.slots, d) ==>
               r.slots[d - 1].value.ShareCommitment() == BaseMul(Eval(f, FromU32(d)))
    ensures GroupKeyCheck(r) == Ok(r.groupKey == BaseMul(Eval(f, Zero())))
  {
    DealerSetIsSmallest(r);
    var ds := DealerSet(r).value;
    TermsAreShares(r, f, ds);
    LagrangeOutcome(ds);
    InterpolatesAtZero(f, ds);
    BaseMulLog(Eval(f, Zero()));
  }

  /** The check is refused exactly below the old threshold, or when that threshold is zero. */
  lemma KeyCheckAnswers(r: Round)
    requires Valid(r)
    ensures GroupKeyCheck(r).Ok? <==> |Backers(r)| >= r.oldThreshold > 0
    ensures |Backers(r)| < r.oldThreshold ==>
              GroupKeyCheck(r) == Err(InsufficientContributions(|Backers(r)|, r.oldThreshold))
    ensures r.oldThreshold == 0 ==> GroupKeyCheck(r) == Err(EmptyContributions)
  {
    CountIsBackers(r);
    DealerSetIsSmallest(r);
    if DealerSet(r).Some? {
      LagrangeOutcome(DealerSet(r).value);
    }
  }

  method DerivedKey(table: Table, ds: seq<U32>, ls: seq<Scalar>, ghost vs: seq<Scalar>) returns (key: Point)
    requires |ls| == |ds| == |vs|
    requires forall i :: 0 <= i < |ds| ==>
               && Has(table, ds[i]) && table[ds[i] - 1].value.coefficients != []
               && vs[i] == table[ds[i] - 1].value.ShareCommitment().log
    ensures key == Point(Dot(ls, vs, |ds|))
  {
    key := Identity();
    for i := 0 to |ds|
      invariant key == Point(Dot(ls, vs, i))
    {
      key := AddPoints(key, MulScalar(table[ds[i] - 1].value.ShareCommitment(), ls[i]));
    }
  }

  class ReshareState {
    const targetEpoch: U64
    const oldThreshold: U32
    const newThreshold: U32
    const newPlayerCount: U32
    const groupKey: Point
    var commitments: Table

    function Snapshot(): Round
      reads this
    {
      Round(targetEpoch, oldThreshold, newThreshold, commitments, groupKey)
    }

    constructor (targetEpoch: U64, oldDealerCount: U32, oldThreshold: U32, newThreshold: U32,
                 newPlayerCount: U32, groupKey: Point)
      ensures Snapshot() == Round(targetEpoch, oldThreshold, newThreshold, seq(oldDealerCount, i => None), groupKey)
      ensures Valid(Snapshot())
    {
      this.targetEpoch, this.oldThreshold, this.newThreshold := targetEpoch, oldThreshold, newThreshold;
      this.newPlayerCount, this.groupKey := newPlayerCount, groupKey;
      commitments := seq(oldDealerCount, i => None);
    }

    method SubmitCommitment(commitment: DealerCommitment, proof: Proof) returns (res: Result<bool>)
      requires Valid(Snapshot())
      modifies this
      ensures res == SubmitOutcome(old(Snapshot()), Submission(commitment, proof))
      ensures Snapshot() == Submit(old(Snapshot()), Submission(commitment, proof))
      ensures Valid(Snapshot())
    {
      if !VerifyPossession(commitment, targetEpoch, proof) {
        return Err(InvalidProofOfKnowledge(commitment.dealerIndex));
      }
      if commitment.dealerIndex == 0 {
        return Err(InvalidIndex);
      }
      var idx := commitment.dealerIndex - 1;
      if idx >= |commitments| {
        return Err(InvalidIndex);
      }
      if commitment.Threshold() != newThreshold {
        return Err(InvalidCommitment);
      }
      if commitments[idx].Some? {
        return Ok(false);
      }
      commitments := commitments[idx := Some(commitment)];
      return Ok(true);
    }

    method VerifyGroupKey() returns (res: Result<bool>)
      requires Valid(Snapshot())
      ensures res == GroupKeyCheck(Snapshot())
    {
      var r := Snapshot();
      if !HasQuorum(r) {
        return Err(InsufficientContributions(|Committed(r.slots)|, oldThreshold));
      }
      var ds := DealerSet(r).value;
      DealerSetIsSmallest(r);
      var ls :- ComputeLagrangeCoefficients(ds);
      LagrangeOutcome(ds);
      var key := DerivedKey(r.slots, ds, ls, ConstantTerms(r, ds));
      return Ok(key == groupKey);
    }
  }
}
