/** Round 1 of the key generation (`src/dkg.rs`, `DkgState`): commitments and disqualifications,
    interleaved in any order. */
module DkgRound {
  import opened Words
  import opened Sequences
  import opened Field
  import opened Group
  import opened Polynomials
  import opened Encoding
  import opened Commitments
  import opened Slots

  datatype Package = Package(commitment: DealerCommitment, proof: Proof)

  datatype Round = Round(epoch: U64, threshold: U32, participants: U32, slots: Table, disqualified: seq<U32>)

  datatype Event = Submitted(package: Package) | Disqualified(dealer: U32)

  /** `Round1Package::verify`, which indexes the constant term. */
  predicate PackageVerifies(p: Package, epoch: U64)
    requires p.commitment.coefficients != []
  {
    VerifyIn(p.proof, Ascii(DKG_POK_DOMAIN), p.commitment.dealerIndex, epoch, p.commitment.ShareCommitment())
  }

  /** The checks of `submit_commitment`, in order. */
  function SubmitOutcome(r: Round, p: Package): Result<bool>
    requires p.commitment.coefficients != []
  {
    var c := p.commitment;
    if !PackageVerifies(p, r.epoch) then Err(InvalidProofOfKnowledge(c.dealerIndex))
    else if c.dealerIndex in r.disqualified then Err(UnexpectedDealer(c.dealerIndex))
    else if c.dealerIndex == 0 then Err(InvalidIndex)
    else if c.dealerIndex - 1 >= |r.slots| then Err(InvalidIndex)
    else if c.Threshold() != r.threshold then Err(InvalidCommitment)
    else if r.slots[c.dealerIndex - 1].Some? then Ok(false)
    else Ok(true)
  }

  function Submit(r: Round, p: Package): Round
    requires p.commitment.coefficients != []
  {
    if SubmitOutcome(r, p) == Ok(true)
    then r.(slots := r.slots[p.commitment.dealerIndex - 1 := Some(p.commitment)])
    else r
  }

  /** `disqualify` changes the state before it reports an abort. */
  function Disqualify(r: Round, dealer: U32): Round {
    if dealer == 0 || dealer - 1 >= |r.slots| then r
    else
      r.(slots := r.slots[dealer - 1 := None],
         disqualified := if dealer in r.disqualified then r.disqualified else Sort(r.disqualified + [dealer]))
  }

  function DisqualifyOutcome(r: Round, dealer: U32): Result<()>
    requires Valid(r)
  {
    if dealer == 0 || dealer - 1 >= |r.slots| then Err(InvalidIndex)
    else
      var r' := Disqualify(r, dealer);
      DisqualifyKeepsValid(r, dealer);
      NeverUnderflows(r');
      var remaining := r'.participants - |r'.disqualified|;
      if remaining < r.threshold then Err(DkgAborted(remaining, r.threshold)) else Ok(())
  }

  function Step(r: Round, e: Event): Round
    requires e.Submitted? ==> e.package.commitment.coefficients != []
  {
    match e
    case Submitted(p) => Submit(r, p)
    case Disqualified(d) => Disqualify(r, d)
  }

  predicate Callable(es: seq<Event>) {
    forall e :: e in es && e.Submitted? ==> e.package.commitment.coefficients != []
  }

  function Run(r: Round, es: seq<Event>): Round
    requires Callable(es)
  {
    if es == [] then r else Step(Run(r, es[..|es| - 1]), es[|es| - 1])
  }

  function Start(epoch: U64, threshold: U32, participants: U32): Round {
    Round(epoch, threshold, participants, seq(participants, i => None), [])
  }

  /** The invariant of every run. */
  ghost predicate Valid(r: Round) {
    && |r.slots| == r.participants
    && TableValid(r.slots, r.threshold)
    && Ascending(r.disqualified)
    && forall d :: d in r.disqualified ==> 1 <= d <= r.participants && !Has(r.slots, d)
  }

  lemma SubmitKeepsValid(r: Round, p: Package)
    requires Valid(r) && p.commitment.coefficients != []
    ensures Valid(Submit(r, p))
  {}

  lemma SortedInsertion(ds: seq<U32>, d: U32)
    requires Ascending(ds) && d !in ds
    ensures Ascending(Sort(ds + [d]))
    ensures forall x :: x in Sort(ds + [d]) <==> x in ds || x == d
  {
    SortFindsDuplicates(ds + [d]);
    SameMultisetSameElements(ds + [d], Sort(ds + [d]));
  }

  lemma DisqualifyKeepsValid(r: Round, dealer: U32)
    requires Valid(r)
    ensures Valid(Disqualify(r, dealer))
  {
    if dealer !in r.disqualified {
      SortedInsertion(r.disqualified, dealer);
    }
  }

  /** Every reachable round satisfies the invariant, submissions and disqualifications interleaved. */
  lemma {:induction false} EveryRunValid(epoch: U64, threshold: U32, participants: U32, es: seq<Event>)
    requires Callable(es)
    ensures Valid(Run(Start(epoch, threshold, participants), es))
    ensures Run(Start(epoch, threshold, participants), es).epoch == epoch
    ensures Run(Start(epoch, threshold, participants), es).threshold == threshold
    ensures Run(Start(epoch, threshold, participants), es).participants == participants
  {
    if es != [] {
      var before := Run(Start(epoch, threshold, participants), es[..|es| - 1]);
      EveryRunValid(epoch, threshold, participants, es[..|es| - 1]);
      match es[|es| - 1]
      case Submitted(p) => SubmitKeepsValid(before, p);
      case Disqualified(d) => DisqualifyKeepsValid(before, d);
    }
  }

  // ---- what a run depends on ----

  /** The package's proof of possession holds for its own dealer and constant term, in this epoch. */
  ghost predicate Proven(p: Package, epoch: U64) {
    && p.commitment.coefficients != []
    && Proves(p.proof, Ascii(DKG_POK_DOMAIN), p.commitment.dealerIndex, epoch, p.commitment.coefficients[0])
  }

  lemma PackageVerifiesExact(p: Package, epoch: U64)
    requires p.commitment.coefficients != []
    ensures PackageVerifies(p, epoch) <==> Proven(p, epoch)
  {
    VerifyInExact(p.proof, Ascii(DKG_POK_DOMAIN), p.commitment.dealerIndex, epoch, p.commitment.coefficients[0]);
  }

  /** When each answer of `submit_commitment` is given: a repeat is one of a dealer that holds a slot, whatever
      commitment it brings now. */
  lemma SubmitAnswers(r: Round, p: Package)
    requires Valid(r) && p.commitment.coefficients != []
    ensures var res, d, sound := SubmitOutcome(r, p), p.commitment.dealerIndex, p.commitment.Threshold() == r.threshold;
      && (res == Err(InvalidProofOfKnowledge(d)) <==> !Proven(p, r.epoch))
      && (res == Err(UnexpectedDealer(d)) <==> Proven(p, r.epoch) && d in r.disqualified)
      && (res == Err(InvalidIndex) <==> Proven(p, r.epoch) && !(1 <= d <= r.participants))
      && (res == Err(InvalidCommitment) <==>
            Proven(p, r.epoch) && d !in r.disqualified && 1 <= d <= r.participants && !sound)
      && (res == Ok(false) <==> Proven(p, r.epoch) && sound && Has(r.slots, d))
      && (res == Ok(true) <==>
            Proven(p, r.epoch) && sound && 1 <= d <= r.participants && d !in r.disqualified && !Has(r.slots, d))
  {
    PackageVerifiesExact(p, r.epoch);
  }

  /** An honest dealer of the ceremony is accepted, for every polynomial of the threshold and every nonce. */
  lemma HonestDealerCommits(r: Round, d: U32, f: Poly, k: Scalar)
    requires Valid(r) && 1 <= d <= r.participants && d !in r.disqualified && !Has(r.slots, d)
    requires |f| == r.threshold > 0
    ensures SubmitOutcome(r, Package(DealerCommitment(d, Commit(f)),
                                     ProveIn(Ascii(DKG_POK_DOMAIN), d, r.epoch, f[0], k))) == Ok(true)
  {
    var p := Package(DealerCommitment(d, Commit(f)), ProveIn(Ascii(DKG_POK_DOMAIN), d, r.epoch, f[0], k));
    assert p.commitment.coefficients[0] == BaseMul(f[0]);
    ProofCompleteness(Ascii(DKG_POK_DOMAIN), d, r.epoch, f[0], k);
    VerifyInExact(p.proof, Ascii(DKG_POK_DOMAIN), d, r.epoch, BaseMul(f[0]));
    SubmitAnswers(r, p);
  }

  /** The event brings a proven commitment of dealer d at the ceremony threshold. */
  ghost predicate Offers(e: Event, epoch: U64, threshold: U32, d: U32) {
    && e.Submitted? && Proven(e.package, epoch)
    && e.package.commitment.dealerIndex == d && e.package.commitment.Threshold() == threshold
  }

  ghost predicate Offered(es: seq<Event>, epoch: U64, threshold: U32, d: U32) {
    exists e :: e in es && Offers(e, epoch, threshold, d)
  }

  /** One event's effect on dealer d. */
  lemma StepExact(r: Round, e: Event, d: U32)
    requires Valid(r) && (e.Submitted? ==> e.package.commitment.coefficients != [])
    ensures d in Step(r, e).disqualified <==> d in r.disqualified || (e == Disqualified(d) && 1 <= d <= r.participants)
    ensures Has(Step(r, e).slots, d) <==>
            && 1 <= d <= r.participants && e != Disqualified(d)
            && (Has(r.slots, d) || (d !in r.disqualified && Offers(e, r.epoch, r.threshold, d)))
    ensures Has(Step(r, e).slots, d) && Has(r.slots, d) ==> Step(r, e).slots[d - 1] == r.slots[d - 1]
    ensures Has(Step(r, e).slots, d) && !Has(r.slots, d) ==> Step(r, e).slots[d - 1] == Some(e.package.commitment)
  {
    match e
    case Submitted(p) => PackageVerifiesExact(p, r.epoch);
    case Disqualified(dealer) =>
      if dealer !in r.disqualified {
        SortedInsertion(r.disqualified, dealer);
      }
  }

  /** Which dealers end up disqualified, and which committed, does not depend on the order of the events:
      a dealer holds a slot exactly when it offered a proven commitment and was never disqualified. */
  lemma {:induction false} RunExact(epoch: U64, threshold: U32, participants: U32, es: seq<Event>, d: U32)
    requires Callable(es)
    ensures var r := Run(Start(epoch, threshold, participants), es);
      && (d in r.disqualified <==> 1 <= d <= participants && Disqualified(d) in es)
      && (Has(r.slots, d) <==>
            1 <= d <= participants && Disqualified(d) !in es && Offered(es, epoch, threshold, d))
  {
    if es != [] {
      var most, last := es[..|es| - 1], es[|es| - 1];
      EveryRunValid(epoch, threshold, participants, most);
      RunExact(epoch, threshold, participants, most, d);
      StepExact(Run(Start(epoch, threshold, participants), most), last, d);
      assert es == most + [last];
    }
  }

  /** Event i brings dealer d's commitment, and no earlier event does. */
  ghost predicate FirstOffer(es: seq<Event>, i: nat, epoch: U64, threshold: U32, d: U32) {
    i < |es| && Offers(es[i], epoch, threshold, d) && !Offered(es[..i], epoch, threshold, d)
  }

  /** What a slot holds is what its dealer offered, proof and all; the first such offer stays. */
  lemma {:induction false} SlotHoldsOffer(epoch: U64, threshold: U32, participants: U32, es: seq<Event>, d: U32)
    requires Callable(es) && Has(Run(Start(epoch, threshold, participants), es).slots, d)
    ensures exists i: nat :: FirstOffer(es, i, epoch, threshold, d)
                     && Run(Start(epoch, threshold, participants), es).slots[d - 1] == Some(es[i].package.commitment)
  {
    var most, last := es[..|es| - 1], es[|es| - 1];
    var before := Run(Start(epoch, threshold, participants), most);
    EveryRunValid(epoch, threshold, participants, most);
    StepExact(before, last, d);
    if Has(before.slots, d) {
      SlotHoldsOffer(epoch, threshold, participants, most, d);
      var i: nat :| FirstOffer(most, i, epoch, threshold, d) && before.slots[d - 1] == Some(most[i].package.commitment);
      assert es[i] == most[i] && es[..i] == most[..i];
      assert FirstOffer(es, i, epoch, threshold, d);
    } else {
      RunExact(epoch, threshold, participants, most, d);
      RunExact(epoch, threshold, participants, es, d);
      assert es == most + [last];
      assert FirstOffer(es, |most|, epoch, threshold, d);
    }
  }

  // ---- completeness by counting ----

  function AllDealers(n: nat): (s: set<nat>)
    ensures |s| == n && forall d :: d in s <==> 1 <= d <= n
  {
    if n == 0 then {} else AllDealers(n - 1) + {n}
  }

  predicate IsComplete(r: Round) {
    |AllFilled(r.slots)| + |r.disqualified| == r.participants
  }

  lemma CountsAddUp(r: Round)
    requires Valid(r)
    ensures Elements(Committed(r.slots)) !! Elements(r.disqualified)
    ensures |Elements(Committed(r.slots))| == |AllFilled(r.slots)|
    ensures |Elements(r.disqualified)| == |r.disqualified|
    ensures Elements(Committed(r.slots)) <= AllDealers(r.participants)
    ensures Elements(r.disqualified) <= AllDealers(r.participants)
  {
    CommittedExact(r.slots, r.threshold);
    DistinctCardinality(Committed(r.slots));
    DistinctCardinality(r.disqualified);
    forall d | d in r.disqualified
      ensures d !in Committed(r.slots)
    {
      assert !Has(r.slots, d);
    }
  }

  /** The subtraction `num_participants - disqualified.len()` never underflows. */
  lemma NeverUnderflows(r: Round)
    requires Valid(r)
    ensures |r.disqualified| <= r.participants
  {
    CountsAddUp(r);
    SubsetCardinality(Elements(r.disqualified), AllDealers(r.participants));
  }

  /** The dealers that no disqualification among the events names. */
  ghost function Remaining(participants: U32, es: seq<Event>): (s: set<nat>)
    ensures forall q :: q in s <==> 1 <= q <= participants && Disqualified(q) !in es
  {
    set q | q in AllDealers(participants) && Disqualified(q) !in es
  }

  lemma LeftOver(r: Round, left: set<nat>)
    requires Valid(r) && forall q :: q in left <==> 1 <= q <= r.participants && q !in r.disqualified
    ensures |r.disqualified| <= r.participants && r.participants - |r.disqualified| == |left|
  {
    var gone: set<nat> := Elements<nat>(r.disqualified);
    NeverUnderflows(r);
    DistinctCardinality<nat>(r.disqualified);
    assert left !! gone;
    assert AllDealers(r.participants) == left + gone by {
      forall q: nat
        ensures q in AllDealers(r.participants) <==> q in left + gone
      {
        assert q in gone <==> q in r.disqualified;
      }
    }
  }

  lemma RemainingCount(epoch: U64, threshold: U32, participants: U32, es: seq<Event>)
    requires Callable(es)
    ensures var r := Run(Start(epoch, threshold, participants), es);
      |r.disqualified| <= participants && participants - |r.disqualified| == |Remaining(participants, es)|
  {
    var r := Run(Start(epoch, threshold, participants), es);
    EveryRunValid(epoch, threshold, participants, es);
    forall q | 1 <= q <= participants
      ensures q in r.disqualified <==> Disqualified(q) in es
    {
      RunExact(epoch, threshold, participants, es, q);
    }
    LeftOver(r, Remaining(participants, es));
  }

  /** When a disqualification aborts the ceremony, over all runs: exactly when it leaves fewer dealers that no
      complaint has named than the threshold. */
  lemma DisqualifyAnswers(epoch: U64, threshold: U32, participants: U32, es: seq<Event>, d: U32)
    requires Callable(es)
    ensures var r := Run(Start(epoch, threshold, participants), es);
      var left := |Remaining(participants, es + [Disqualified(d)])|;
      && Valid(r)
      && (DisqualifyOutcome(r, d) == Err(InvalidIndex) <==> !(1 <= d <= participants))
      && (DisqualifyOutcome(r, d) == Ok(()) <==> 1 <= d <= participants && left >= threshold)
      && (DisqualifyOutcome(r, d) == Err(DkgAborted(left, threshold)) <==> 1 <= d <= participants && left < threshold)
  {
    var r, after := Run(Start(epoch, threshold, participants), es), es + [Disqualified(d)];
    EveryRunValid(epoch, threshold, participants, es);
    RemainingCount(epoch, threshold, participants, after);
    assert after[..|es|] == es;
    assert Run(Start(epoch, threshold, participants), after) == Disqualify(r, d);
  }

  /** The count says complete exactly when commitments and disqualifications cover all dealers. */
  lemma CompleteIffCovered(r: Round)
    requires Valid(r)
    ensures IsComplete(r) <==> Elements(Committed(r.slots)) + Elements(r.disqualified) == AllDealers(r.participants)
  {
    var c, q, all := Elements(Committed(r.slots)), Elements(r.disqualified), AllDealers(r.participants);
    CountsAddUp(r);
    SubsetCardinality(c + q, all);
    assert |c + q| == |c| + |q|;
  }

  ghost predicate AllCommitted(r: Round) {
    forall d {:trigger Has(r.slots, d)} :: 1 <= d <= r.participants && d !in r.disqualified ==> Has(r.slots, d)
  }

  /** The count says complete exactly when every dealer not disqualified has committed. */
  lemma CompleteIffAllCommitted(r: Round)
    requires Valid(r)
    ensures IsComplete(r) <==> AllCommitted(r)
  {
    var c, q, all := Elements(Committed(r.slots)), Elements(r.disqualified), AllDealers(r.participants);
    CompleteIffCovered(r);
    CommittedExact(r.slots, r.threshold);
    forall d: nat
      ensures d in c + q <==> d in all && (d in r.disqualified || Has(r.slots, d))
    {
      assert d in c <==> d in Committed(r.slots);
      assert d in q <==> d in r.disqualified;
    }
    if c + q == all {
      forall d {:trigger Has(r.slots, d)} | 1 <= d <= r.participants && d !in r.disqualified
        ensures Has(r.slots, d)
      {
        assert d in all;
      }
    }
  }

  // ---- the derived keys ----

  function DealtPolynomials(cs: seq<DealerCommitment>): (fs: seq<Poly>)
    ensures |fs| == |cs| && forall i :: 0 <= i < |fs| ==> fs[i] == cs[i].Polynomial()
  {
    seq(|cs|, i requires 0 <= i < |cs| => cs[i].Polynomial())
  }

  function ValuesAt(fs: seq<Poly>, x: Scalar): (vs: seq<Scalar>)
    ensures |vs| == |fs| && forall i :: 0 <= i < |vs| ==> vs[i] == Eval(fs[i], x)
  {
    seq(|fs|, i requires 0 <= i < |fs| => Eval(fs[i], x))
  }

  /** The sum of the dealt polynomials, whose shares the participants end up holding. */
  function Total(r: Round): (f: Poly)
    requires Valid(r)
    ensures |f| == r.threshold
  {
    FilledValid(r);
    SumPolys(DealtPolynomials(AllFilled(r.slots)), |AllFilled(r.slots)|, r.threshold)
  }

  lemma TotalIsSum(r: Round, x: Scalar)
    requires Valid(r)
    ensures Eval(Total(r), x) == Sum(ValuesAt(DealtPolynomials(AllFilled(r.slots)), x))
  {
    FilledValid(r);
    var fs := DealtPolynomials(AllFilled(r.slots));
    EvalSumPolys(fs, |fs|, r.threshold, x, ValuesAt(fs, x));
  }

  lemma FilledValid(r: Round)
    requires Valid(r)
    ensures forall i :: 0 <= i < |AllFilled(r.slots)| ==>
              |AllFilled(r.slots)[i].coefficients| == r.threshold && AllFilled(r.slots)[i].coefficients != []
  {
    FilledExact(r.slots, r.threshold, |r.slots|);
  }

  method SumConstants(cs: seq<DealerCommitment>) returns (key: Point)
    requires forall i :: 0 <= i < |cs| ==> cs[i].coefficients != []
    ensures key == Point(Sum(ValuesAt(DealtPolynomials(cs), Zero())))
  {
    key := Identity();
    ghost var vs := ValuesAt(DealtPolynomials(cs), Zero());
    for i := 0 to |cs|
      invariant key == Point(SumTo(vs, i))
    {
      EvalAtZero(cs[i].Polynomial());
      key := AddPoints(key, cs[i].ShareCommitment());
    }
  }

  method SumEvaluations(cs: seq<DealerCommitment>, x: Scalar) returns (share: Point)
    ensures share == Point(Sum(ValuesAt(DealtPolynomials(cs), x)))
  {
    share := Identity();
    ghost var vs := ValuesAt(DealtPolynomials(cs), x);
    for i := 0 to |cs|
      invariant share == Point(SumTo(vs, i))
    {
      var term := EvaluateCommitment(cs[i], x);
      share := AddPoints(share, term);
    }
  }

  method DeriveGroupKey(r: Round) returns (res: Result<Point>)
    requires Valid(r)
    ensures !IsComplete(r) ==>
              && |r.disqualified| <= r.participants
              && res == Err(InsufficientContributions(|AllFilled(r.slots)|, r.participants - |r.disqualified|))
    ensures IsComplete(r) ==> res == Ok(BaseMul(Eval(Total(r), Zero())))
  {
    NeverUnderflows(r);
    FilledValid(r);
    if !IsComplete(r) {
      return Err(InsufficientContributions(|AllFilled(r.slots)|, r.participants - |r.disqualified|));
    }
    var key := SumConstants(AllFilled(r.slots));
    TotalIsSum(r, Zero());
    BaseMulLog(key.log);
    return Ok(key);
  }

  method DeriveVerificationShare(r: Round, player: U32) returns (res: Result<Point>)
    requires Valid(r)
    ensures player == 0 ==> res == Err(InvalidIndex)
    ensures player != 0 && !IsComplete(r) ==>
              && |r.disqualified| <= r.participants
              && res == Err(InsufficientContributions(|AllFilled(r.slots)|, r.participants - |r.disqualified|))
    ensures player != 0 && IsComplete(r) ==> res == Ok(BaseMul(Eval(Total(r), FromU32(player))))
  {
    if player == 0 {
      return Err(InvalidIndex);
    }
    NeverUnderflows(r);
    FilledValid(r);
    if !IsComplete(r) {
      return Err(InsufficientContributions(|AllFilled(r.slots)|, r.participants - |r.disqualified|));
    }
    var share := SumEvaluations(AllFilled(r.slots), FromU32(player));
    TotalIsSum(r, FromU32(player));
    BaseMulLog(share.log);
    return Ok(share);
  }

  class DkgState {
    const epoch: U64
    const threshold: U32
    const numParticipants: U32
    var commitments: Table
    var disqualified: seq<U32>

    function Snapshot(): Round
      reads this
    {
      Round(epoch, threshold, numParticipants, commitments, disqualified)
    }

    constructor (epoch: U64, threshold: U32, numParticipants: U32)
      ensures Snapshot() == Start(epoch, threshold, numParticipants) && Valid(Snapshot())
    {
      this.epoch, this.threshold, this.numParticipants := epoch, threshold, numParticipants;
      commitments, disqualified := seq(numParticipants, i => None), [];
    }

    method SubmitCommitment(p: Package) returns (res: Result<bool>)
      requires Valid(Snapshot()) && p.commitment.coefficients != []
      modifies this
      ensures res == SubmitOutcome(old(Snapshot()), p)
      ensures Snapshot() == Submit(old(Snapshot()), p) && Valid(Snapshot())
    {
      SubmitKeepsValid(Snapshot(), p);
      var c := p.commitment;
      if !PackageVerifies(p, epoch) {
        return Err(InvalidProofOfKnowledge(c.dealerIndex));
      }
      if c.dealerIndex in disqualified {
        return Err(UnexpectedDealer(c.dealerIndex));
      }
      if c.dealerIndex == 0 {
        return Err(InvalidIndex);
      }
      var idx := c.dealerIndex - 1;
      if idx >= |commitments| {
        return Err(InvalidIndex);
      }
      if c.Threshold() != threshold {
        return Err(InvalidCommitment);
      }
      if commitments[idx].Some? {
        return Ok(false);
      }
      commitments := commitments[idx := Some(c)];
      return Ok(true);
    }

    method DisqualifyDealer(dealer: U32) returns (res: Result<()>)
      requires Valid(Snapshot())
      modifies this
      ensures res == DisqualifyOutcome(old(Snapshot()), dealer)
      ensures Snapshot() == Disqualify(old(Snapshot()), dealer) && Valid(Snapshot())
    {
      DisqualifyKeepsValid(Snapshot(), dealer);
      if dealer == 0 {
        return Err(InvalidIndex);
      }
      var idx := dealer - 1;
      if idx >= |commitments| {
        return Err(InvalidIndex);
      }
      commitments := commitments[idx := None];
      if dealer !in disqualified {
        disqualified := Sort(disqualified + [dealer]);
      }
      NeverUnderflows(Snapshot());
      var remaining := numParticipants - |disqualified|;
      if remaining < threshold {
        return Err(DkgAborted(remaining, threshold));
      }
      return Ok(());
    }
  }
}
