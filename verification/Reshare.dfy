/** The new custodian's side of a reshare (`src/reshare.rs`, `Aggregator`): collecting verified
    sub-shares from a fixed dealer set, and what finalizing them guarantees. */
module Reshare {
  import opened Words
  import opened Sequences
  import opened Field
  import opened Group
  import opened Polynomials
  import opened Lagrange
  import opened Commitments

  datatype State = State(
    player: U32,
    dealers: seq<U32>,
    subshares: seq<Verified>,
    commitments: seq<DealerCommitment>)

  datatype Delivery = Delivery(subshare: SubShare, commitment: DealerCommitment)

  predicate IsComplete(st: State) { |st.subshares| == |st.dealers| }

  /** The checks of `add_subshare`, in order. */
  function AddOutcome(st: State, d: Delivery): Result<bool> {
    var sub, c := d.subshare, d.commitment;
    if sub.playerIndex != st.player then Err(InvalidIndex)
    else if sub.dealerIndex != c.dealerIndex then Err(InvalidIndex)
    else if sub.dealerIndex == 0 then Err(InvalidIndex)
    else if sub.dealerIndex !in st.dealers then Err(UnexpectedDealer(sub.dealerIndex))
    else if st.commitments != [] && st.commitments[0].Threshold() != c.Threshold() then
      Err(ThresholdMismatch(st.commitments[0].Threshold(), c.Threshold()))
    else if sub.dealerIndex in Names(st.subshares) then Ok(false)
    else if !VerifySubshare(c, st.player, sub.value) then Err(InvalidResponse)
    else Ok(true)
  }

  function AddSubshare(st: State, d: Delivery): State {
    if AddOutcome(st, d) != Ok(true) then st
    else
      st.(subshares := st.subshares + [Verified(d.subshare.dealerIndex, d.subshare.value)],
          commitments := st.commitments + [d.commitment])
  }

  ghost predicate EntryValid(st: State, i: nat)
    requires |st.subshares| == |st.commitments| && i < |st.subshares|
  {
    && st.commitments[i].dealerIndex == st.subshares[i].dealer
    && st.subshares[i].dealer in st.dealers
    && st.commitments[i].Threshold() == st.commitments[0].Threshold()
    && VerifySubshare(st.commitments[i], st.player, st.subshares[i].value)
  }

  /** The invariant of every run. */
  ghost predicate Valid(st: State) {
    && st.player != 0
    && ValidDealerSet(st.dealers)
    && |st.subshares| == |st.commitments|
    && Distinct(Names(st.subshares))
    && forall i :: 0 <= i < |st.subshares| ==> EntryValid(st, i)
  }

  function Fresh(player: U32, dealers: seq<U32>): State { State(player, dealers, [], []) }

  function Run(st: State, ds: seq<Delivery>): State {
    if ds == [] then st else AddSubshare(Run(st, ds[..|ds| - 1]), ds[|ds| - 1])
  }

  lemma AddKeepsValid(st: State, d: Delivery)
    requires Valid(st)
    ensures Valid(AddSubshare(st, d))
  {
    var st' := AddSubshare(st, d);
    if AddOutcome(st, d) == Ok(true) {
      forall i | 0 <= i < |st'.subshares|
        ensures EntryValid(st', i)
      {
        if i < |st.subshares| {
          assert EntryValid(st, i);
        }
      }
      assert Names(st'.subshares) == Names(st.subshares) + [d.subshare.dealerIndex];
    }
  }

  lemma {:induction false} RunKeepsValid(st: State, ds: seq<Delivery>)
    requires Valid(st)
    ensures Valid(Run(st, ds))
    ensures Run(st, ds).player == st.player && Run(st, ds).dealers == st.dealers
  {
    if ds != [] {
      RunKeepsValid(st, ds[..|ds| - 1]);
      AddKeepsValid(Run(st, ds[..|ds| - 1]), ds[|ds| - 1]);
    }
  }

  /** The delivery is to this player, under its dealer's own commitment, from a dealer of the set. */
  ghost predicate Addressed(player: U32, dealers: seq<U32>, d: Delivery) {
    && d.subshare.playerIndex == player
    && d.subshare.dealerIndex == d.commitment.dealerIndex
    && d.subshare.dealerIndex in dealers
  }

  ghost predicate SameThreshold(st: State, d: Delivery) {
    st.commitments != [] ==> st.commitments[0].Threshold() == d.commitment.Threshold()
  }

  /** When each answer of `add_subshare` is given. A repeat is answered as one whatever value it brings; only the
      committed polynomial's value is recorded. */
  lemma AddAnswers(st: State, d: Delivery)
    requires Valid(st)
    ensures var res, i := AddOutcome(st, d), d.subshare.dealerIndex;
      var value := Eval(d.commitment.Polynomial(), FromU32(st.player));
      var fits := Addressed(st.player, st.dealers, d) && SameThreshold(st, d);
      && (res == Ok(true) <==> fits && i !in Names(st.subshares) && d.subshare.value == value)
      && (res == Ok(false) <==> fits && i in Names(st.subshares))
      && (res == Err(InvalidResponse) <==> fits && i !in Names(st.subshares) && d.subshare.value != value)
      && (res.Err? && res.error.ThresholdMismatch? <==>
            Addressed(st.player, st.dealers, d) && !SameThreshold(st, d))
      && (res.Err? && res.error.ThresholdMismatch? ==>
            st.commitments != []
            && res.error == ThresholdMismatch(st.commitments[0].Threshold(), d.commitment.Threshold()))
      && (res == Err(UnexpectedDealer(i)) <==>
            d.subshare.playerIndex == st.player && i == d.commitment.dealerIndex != 0 && i !in st.dealers)
      && (res == Err(InvalidIndex) <==>
            d.subshare.playerIndex != st.player || i != d.commitment.dealerIndex || i == 0)
  {
    FeldmanCheck(d.commitment, st.player, d.subshare.value);
  }

  // ---- counting is delivering ----

  lemma NamesInDealers(st: State)
    requires Valid(st)
    ensures Elements(Names(st.subshares)) <= Elements(st.dealers)
  {
    forall d | d in Names(st.subshares)
      ensures d in st.dealers
    {
      var i :| 0 <= i < |Names(st.subshares)| && Names(st.subshares)[i] == d;
      assert EntryValid(st, i);
    }
  }

  /** The count says complete exactly when every dealer of the set has delivered. */
  lemma CompleteIffAllDelivered(st: State)
    requires Valid(st)
    ensures IsComplete(st) <==> forall d :: d in st.dealers ==> d in Names(st.subshares)
  {
    NamesInDealers(st);
    DistinctCardinality(Names(st.subshares));
    DistinctCardinality(st.dealers);
    SubsetCardinality(Elements(Names(st.subshares)), Elements(st.dealers));
    if IsComplete(st) {
      forall d | d in st.dealers
        ensures d in Names(st.subshares)
      {
        assert d in Elements(Names(st.subshares));
      }
    } else if forall d :: d in st.dealers ==> d in Names(st.subshares) {
      SubsetCardinality(Elements(st.dealers), Elements(Names(st.subshares)));
    }
  }

  function MissingDealers(st: State): (ds: seq<U32>) { Without(st.dealers, Names(st.subshares)) }

  /** The missing dealers are those of the set that nothing was recorded from, ascending. */
  lemma MissingExact(st: State)
    requires Valid(st)
    ensures Ascending(MissingDealers(st))
    ensures forall d :: d in MissingDealers(st) <==>
              d in st.dealers && forall i :: 0 <= i < |st.subshares| ==> st.subshares[i].dealer != d
  {
    WithoutAscending(st.dealers, Names(st.subshares));
    assert forall i :: 0 <= i < |st.subshares| ==> Names(st.subshares)[i] == st.subshares[i].dealer;
  }

  lemma NothingMissingIffComplete(st: State)
    requires Valid(st)
    ensures MissingDealers(st) == [] <==> IsComplete(st)
  {
    CompleteIffAllDelivered(st);
    if MissingDealers(st) != [] {
      assert MissingDealers(st)[0] in MissingDealers(st);
    }
  }

  // ---- aggregation ----

  function Slot(st: State, dealer: U32): (i: nat)
    requires dealer in Names(st.subshares)
    ensures i < |st.subshares| && st.subshares[i].dealer == dealer
  {
    Position(Names(st.subshares), dealer).value
  }

  /** Every dealer's lookup succeeds, so the `expect` in `subshare_of` and `commitment_of` cannot fail. */
  ghost predicate Ready(st: State) { Valid(st) && IsComplete(st) }

  function SubshareOf(st: State, dealer: U32): Scalar
    requires dealer in Names(st.subshares)
  {
    st.subshares[Slot(st, dealer)].value
  }

  function CommitmentOf(st: State, dealer: U32): DealerCommitment
    requires dealer in Names(st.subshares) && |st.commitments| == |st.subshares|
  {
    st.commitments[Slot(st, dealer)]
  }

  function Contributions(st: State): (vs: seq<Scalar>)
    requires Ready(st)
    ensures |vs| == |st.dealers|
  {
    CompleteIffAllDelivered(st);
    seq(|st.dealers|, i requires 0 <= i < |st.dealers| => SubshareOf(st, st.dealers[i]))
  }

  /** The dealers' commitments in dealer-set order. */
  function DealtPoints(st: State): (cs: seq<seq<Point>>)
    requires Ready(st)
    ensures |cs| == |st.dealers|
    ensures forall i :: 0 <= i < |cs| ==> |cs[i]| == NewThreshold(st)
  {
    CompleteIffAllDelivered(st);
    assert forall i :: 0 <= i < |st.dealers| ==> EntryValid(st, Slot(st, st.dealers[i]));
    seq(|st.dealers|, i requires 0 <= i < |st.dealers| => CommitmentOf(st, st.dealers[i]).coefficients)
  }

  function DealtPolynomials(st: State): (fs: seq<Poly>)
    requires Ready(st)
    ensures |fs| == |st.dealers|
    ensures forall i :: 0 <= i < |fs| ==> |fs[i]| == NewThreshold(st) && fs[i] == Logs(DealtPoints(st)[i])
  {
    seq(|st.dealers|, i requires 0 <= i < |st.dealers| => Logs(DealtPoints(st)[i]))
  }

  function NewThreshold(st: State): nat
    requires Ready(st)
  {
    st.commitments[0].Threshold()
  }

  /** s'_j = Σ λ_i·σ_{i,j} */
  function Aggregate(st: State): Scalar
    requires Ready(st)
  {
    Dot(Coefficients(st.dealers), Contributions(st), |st.dealers|)
  }

  /** F' = Σ λ_i·f_i, the polynomial every player of this dealer set ends up on. */
  function Combined(st: State): (f: Poly)
    requires Ready(st)
    ensures |f| == NewThreshold(st)
  {
    Combination(Coefficients(st.dealers), DealtPolynomials(st), |st.dealers|, NewThreshold(st))
  }

  predicate VerifyShare(ps: seq<Point>, player: U32, share: Scalar) {
    if player == 0 then false else BaseMul(share) == EvalPoints(ps, FromU32(player))
  }

  datatype Finalized = Finalized(share: Scalar, polynomial: seq<Point>)

  /** `finalize`; an aggregator over commitments of threshold 0 would index an empty polynomial. */
  function Finalize(st: State, expectedKey: Point): Result<Finalized>
    requires Valid(st) && (IsComplete(st) ==> NewThreshold(st) > 0)
  {
    if !IsComplete(st) then Err(InsufficientContributions(|st.subshares|, |st.dealers|))
    else
      var ps := Commit(Combined(st));
      if ps[0] != expectedKey then Err(InvalidCommitment)
      else if !VerifyShare(ps, st.player, Aggregate(st)) then Err(InvalidResponse)
      else Ok(Finalized(Aggregate(st), ps))
  }

  /** Sub-shares that passed the Feldman check force the aggregated share onto the combined polynomial. */
  lemma AggregateOnCombined(st: State)
    requires Ready(st)
    ensures Aggregate(st) == Eval(Combined(st), FromU32(st.player))
  {
    var fs, vs, x := DealtPolynomials(st), Contributions(st), FromU32(st.player);
    forall i | 0 <= i < |st.dealers|
      ensures vs[i] == Eval(fs[i], x)
    {
      CompleteIffAllDelivered(st);
      var slot := Slot(st, st.dealers[i]);
      assert EntryValid(st, slot);
      FeldmanCheck(st.commitments[slot], st.player, st.subshares[slot].value);
    }
    EvalCombination(Coefficients(st.dealers), fs, |fs|, NewThreshold(st), x, vs);
  }

  lemma VerifyShareExact(f: Poly, player: U32, share: Scalar)
    requires player != 0
    ensures VerifyShare(Commit(f), player, share) <==> share == Eval(f, FromU32(player))
  {
    LogsOfCommit(f);
    EvalPointsLog(Commit(f), FromU32(player));
    BaseMulLog(share);
    BaseMulLog(Eval(f, FromU32(player)));
  }

  /** The key test alone decides a complete aggregator: the last test of `finalize` never fails. */
  lemma KeyTestDecides(st: State, expectedKey: Point)
    requires Ready(st) && NewThreshold(st) > 0
    ensures Finalize(st, expectedKey) ==
            if BaseMul(Eval(Combined(st), Zero())) == expectedKey
            then Ok(Finalized(Eval(Combined(st), FromU32(st.player)), Commit(Combined(st))))
            else Err(InvalidCommitment)
  {
    AggregateOnCombined(st);
    VerifyShareExact(Combined(st), st.player, Aggregate(st));
    EvalAtZero(Combined(st));
  }

  // ---- arrival order ----

  /** Every recorded commitment is the agreed one. */
  ghost predicate FromAgreed(st: State, agreed: map<U32, DealerCommitment>) {
    forall i :: 0 <= i < |st.commitments| ==>
      st.commitments[i].dealerIndex in agreed && st.commitments[i] == agreed[st.commitments[i].dealerIndex]
  }

  ghost predicate DeliversAgreed(ds: seq<Delivery>, agreed: map<U32, DealerCommitment>) {
    forall i :: 0 <= i < |ds| ==>
      ds[i].commitment.dealerIndex in agreed && ds[i].commitment == agreed[ds[i].commitment.dealerIndex]
  }

  lemma {:induction false} RunFromAgreed(st: State, ds: seq<Delivery>, agreed: map<U32, DealerCommitment>)
    requires FromAgreed(st, agreed) && DeliversAgreed(ds, agreed)
    ensures FromAgreed(Run(st, ds), agreed)
  {
    if ds != [] {
      RunFromAgreed(st, ds[..|ds| - 1], agreed);
    }
  }

  /** Players with the same dealers and commitments hold points of the same polynomial. */
  lemma SameCommitmentsSamePolynomial(a: State, b: State, agreed: map<U32, DealerCommitment>)
    requires Ready(a) && Ready(b) && a.dealers == b.dealers
    requires FromAgreed(a, agreed) && FromAgreed(b, agreed)
    ensures NewThreshold(a) == NewThreshold(b)
    ensures Combined(a) == Combined(b)
  {
    CompleteIffAllDelivered(a);
    CompleteIffAllDelivered(b);
    forall i | 0 <= i < |a.dealers|
      ensures DealtPolynomials(a)[i] == DealtPolynomials(b)[i]
      ensures |DealtPolynomials(a)[i]| == NewThreshold(a)
    {
      assert EntryValid(a, Slot(a, a.dealers[i]));
      assert EntryValid(b, Slot(b, b.dealers[i]));
    }
    assert DealtPolynomials(a)[0] == DealtPolynomials(b)[0];
    assert DealtPolynomials(a) == DealtPolynomials(b);
  }

  /** A delivery a fresh aggregator takes: from a dealer of the set, to this player, and passing the check. */
  ghost predicate Good(player: U32, dealers: seq<U32>, d: Delivery) {
    && Addressed(player, dealers, d)
    && VerifySubshare(d.commitment, player, d.subshare.value)
  }

  /** The good deliveries carry commitments of one threshold. */
  ghost predicate Uniform(player: U32, dealers: seq<U32>, ds: seq<Delivery>) {
    forall d, e :: d in ds && e in ds && Good(player, dealers, d) && Good(player, dealers, e) ==>
      d.commitment.Threshold() == e.commitment.Threshold()
  }

  /** The dealers that count as delivered after a run from the start. */
  function Delivered(player: U32, dealers: seq<U32>, ds: seq<Delivery>): set<U32> {
    Elements(Names(Run(Fresh(player, dealers), ds).subshares))
  }

  /** A delivery of the threshold already seen leaves its dealer recorded exactly when it is good. */
  lemma AddRecords(st: State, d: Delivery)
    requires Valid(st)
    requires Good(st.player, st.dealers, d) && st.commitments != [] ==>
               st.commitments[0].Threshold() == d.commitment.Threshold()
    ensures Elements(Names(AddSubshare(st, d).subshares)) ==
            Elements(Names(st.subshares))
            + if Good(st.player, st.dealers, d) then {d.subshare.dealerIndex} else {}
  {
    if AddOutcome(st, d) == Ok(true) {
      assert Names(AddSubshare(st, d).subshares) == Names(st.subshares) + [d.subshare.dealerIndex];
    }
  }

  /** With one threshold, a dealer counts as delivered exactly when some good delivery came from it. */
  lemma {:induction false} DeliveredIff(player: U32, dealers: seq<U32>, ds: seq<Delivery>,
                                        agreed: map<U32, DealerCommitment>, dealer: U32)
    requires player != 0 && ValidDealerSet(dealers)
    requires DeliversAgreed(ds, agreed) && Uniform(player, dealers, ds)
    ensures dealer in Delivered(player, dealers, ds) <==>
            exists d :: d in ds && Good(player, dealers, d) && d.subshare.dealerIndex == dealer
  {
    if ds != [] {
      var st, most, last := Fresh(player, dealers), ds[..|ds| - 1], ds[|ds| - 1];
      var mid := Run(st, most);
      DeliveredIff(player, dealers, most, agreed, dealer);
      RunKeepsValid(st, most);
      RunFromAgreed(st, most, agreed);
      assert ds == most + [last];
      assert Good(player, dealers, last) && mid.commitments != [] ==>
             mid.commitments[0].Threshold() == last.commitment.Threshold() by {
        if mid.commitments != [] {
          var dealer0 := mid.subshares[0].dealer;
          assert EntryValid(mid, 0) && Names(mid.subshares)[0] == dealer0;
          DeliveredIff(player, dealers, most, agreed, dealer0);
          var first :| first in most && Good(player, dealers, first) && first.subshare.dealerIndex == dealer0;
          assert mid.commitments[0] == first.commitment;
        }
      }
      AddRecords(mid, last);
    }
  }

  lemma CompleteMeansUniform(player: U32, dealers: seq<U32>, ds: seq<Delivery>, agreed: map<U32, DealerCommitment>)
    requires player != 0 && ValidDealerSet(dealers) && DeliversAgreed(ds, agreed)
    requires IsComplete(Run(Fresh(player, dealers), ds))
    ensures Uniform(player, dealers, ds)
  {
    var st := Run(Fresh(player, dealers), ds);
    RunKeepsValid(Fresh(player, dealers), ds);
    RunFromAgreed(Fresh(player, dealers), ds, agreed);
    CompleteIffAllDelivered(st);
    forall d | d in ds && Good(player, dealers, d)
      ensures d.commitment.Threshold() == NewThreshold(st)
    {
      assert EntryValid(st, Slot(st, d.subshare.dealerIndex));
    }
  }

  lemma SameElements(ds: seq<Delivery>, other: seq<Delivery>, agreed: map<U32, DealerCommitment>)
    requires DeliversAgreed(ds, agreed) && Elements(ds) == Elements(other)
    ensures DeliversAgreed(other, agreed)
    ensures forall d :: d in ds <==> d in other
  {
    forall d
      ensures d in ds <==> d in other
    {
      assert d in ds <==> d in Elements(ds);
      assert d in other <==> d in Elements(other);
    }
    assert forall i :: 0 <= i < |other| ==> other[i] in ds;
  }

  /** With one threshold, the same deliveries in any order leave the same dealers delivered. */
  lemma SameDeliveriesSameDealers(player: U32, dealers: seq<U32>, ds: seq<Delivery>, other: seq<Delivery>,
                                  agreed: map<U32, DealerCommitment>)
    requires player != 0 && ValidDealerSet(dealers)
    requires DeliversAgreed(ds, agreed) && Uniform(player, dealers, ds) && Elements(ds) == Elements(other)
    ensures Delivered(player, dealers, ds) == Delivered(player, dealers, other)
  {
    SameElements(ds, other, agreed);
    forall d: U32
      ensures d in Delivered(player, dealers, ds) <==> d in Delivered(player, dealers, other)
    {
      DeliveredIff(player, dealers, ds, agreed, d);
      DeliveredIff(player, dealers, other, agreed, d);
    }
  }

  /** With one threshold the outcome does not depend on the order, or the repetition, of the deliveries: neither
      who is still missing, nor what `finalize` answers. */
  lemma ArrivalOrderIrrelevant(player: U32, dealers: seq<U32>, ds: seq<Delivery>, other: seq<Delivery>,
                               agreed: map<U32, DealerCommitment>, expectedKey: Point)
    requires player != 0 && ValidDealerSet(dealers)
    requires DeliversAgreed(ds, agreed) && Uniform(player, dealers, ds) && Elements(ds) == Elements(other)
    ensures var a, b := Run(Fresh(player, dealers), ds), Run(Fresh(player, dealers), other);
      && Valid(a) && Valid(b) && Elements(Names(a.subshares)) == Elements(Names(b.subshares))
      && (IsComplete(a) <==> IsComplete(b))
      && (IsComplete(a) ==> NewThreshold(a) == NewThreshold(b))
      && ((IsComplete(a) ==> NewThreshold(a) > 0) ==> Finalize(a, expectedKey) == Finalize(b, expectedKey))
  {
    var st := Fresh(player, dealers);
    var a, b := Run(st, ds), Run(st, other);
    SameElements(ds, other, agreed);
    RunKeepsValid(st, ds);
    RunKeepsValid(st, other);
    RunFromAgreed(st, ds, agreed);
    RunFromAgreed(st, other, agreed);
    SameDeliveriesSameDealers(player, dealers, ds, other, agreed);
    DistinctSameElements(Names(a.subshares), Names(b.subshares));
    if IsComplete(a) {
      SameCommitmentsSamePolynomial(a, b, agreed);
      if NewThreshold(a) > 0 {
        KeyTestDecides(a, expectedKey);
        KeyTestDecides(b, expectedKey);
      }
    }
  }

  // ---- when the answers are given ----

  /** The dealers that some good delivery came from. */
  ghost function Heard(player: U32, dealers: seq<U32>, ds: seq<Delivery>): (s: set<U32>)
    ensures forall x :: x in s <==>
              x in dealers && exists d :: d in ds && Good(player, dealers, d) && d.subshare.dealerIndex == x
  {
    set x | x in dealers && exists d :: d in ds && Good(player, dealers, d) && d.subshare.dealerIndex == x
  }

  ghost predicate AgreedDealt(dealers: seq<U32>, agreed: map<U32, DealerCommitment>, t: nat) {
    forall d :: d in dealers ==> d in agreed && agreed[d].Threshold() == t
  }

  ghost function AgreedPolynomials(dealers: seq<U32>, agreed: map<U32, DealerCommitment>, t: nat): (fs: seq<Poly>)
    requires AgreedDealt(dealers, agreed, t)
    ensures |fs| == |dealers|
    ensures forall i :: 0 <= i < |fs| ==> |fs[i]| == t && fs[i] == agreed[dealers[i]].Polynomial()
  {
    seq(|dealers|, i requires 0 <= i < |dealers| => agreed[dealers[i]].Polynomial())
  }

  /** Σ λ_i·f_i over the dealer set and the agreed commitments: no aggregator is needed to know it. */
  ghost function AgreedCombination(dealers: seq<U32>, agreed: map<U32, DealerCommitment>, t: nat): (f: Poly)
    requires AgreedDealt(dealers, agreed, t)
    ensures |f| == t
  {
    Combination(Coefficients(dealers), AgreedPolynomials(dealers, agreed, t), |dealers|, t)
  }

  lemma CombinedIsAgreed(st: State, agreed: map<U32, DealerCommitment>)
    requires Ready(st) && FromAgreed(st, agreed)
    ensures AgreedDealt(st.dealers, agreed, NewThreshold(st))
    ensures Combined(st) == AgreedCombination(st.dealers, agreed, NewThreshold(st))
  {
    CompleteIffAllDelivered(st);
    forall d | d in st.dealers
      ensures d in agreed && agreed[d] == CommitmentOf(st, d) && agreed[d].Threshold() == NewThreshold(st)
    {
      assert EntryValid(st, Slot(st, d));
    }
    assert DealtPolynomials(st) == AgreedPolynomials(st.dealers, agreed, NewThreshold(st));
  }

  lemma CompleteIffHeard(player: U32, dealers: seq<U32>, ds: seq<Delivery>, agreed: map<U32, DealerCommitment>)
    requires player != 0 && ValidDealerSet(dealers) && DeliversAgreed(ds, agreed) && Uniform(player, dealers, ds)
    ensures var st := Run(Fresh(player, dealers), ds);
      && |st.subshares| == |Heard(player, dealers, ds)|
      && (IsComplete(st) <==> forall x :: x in dealers ==> x in Heard(player, dealers, ds))
  {
    var st, heard := Run(Fresh(player, dealers), ds), Heard(player, dealers, ds);
    RunKeepsValid(Fresh(player, dealers), ds);
    DistinctCardinality(Names(st.subshares));
    forall x: U32
      ensures x in Elements(Names(st.subshares)) <==> x in heard
    {
      DeliveredIff(player, dealers, ds, agreed, x);
    }
    assert Elements(Names(st.subshares)) == heard;
    CompleteIffAllDelivered(st);
  }

  /** What `finalize` answers, from the deliveries alone, when the good ones carry one threshold. Unless some good
      delivery came from every dealer of the set, it reports how many did; and when one did, the agreed
      commitments and the key decide. */
  lemma FinalizeAnswers(player: U32, dealers: seq<U32>, ds: seq<Delivery>, agreed: map<U32, DealerCommitment>,
                        expectedKey: Point) returns (t: nat)
    requires player != 0 && ValidDealerSet(dealers) && DeliversAgreed(ds, agreed) && Uniform(player, dealers, ds)
    ensures var st, heard := Run(Fresh(player, dealers), ds), Heard(player, dealers, ds);
      && Valid(st)
      && ((exists x :: x in dealers && x !in heard) ==>
            && !IsComplete(st)
            && Finalize(st, expectedKey) == Err(InsufficientContributions(|heard|, |dealers|)))
      && ((forall x :: x in dealers ==> x in heard) ==>
            && AgreedDealt(dealers, agreed, t) && IsComplete(st) && NewThreshold(st) == t
            && var f := AgreedCombination(dealers, agreed, t);
            && (t > 0 ==>
                  Finalize(st, expectedKey) ==
                  if BaseMul(Eval(f, Zero())) != expectedKey then Err(InvalidCommitment)
                  else Ok(Finalized(Eval(f, FromU32(player)), Commit(f)))))
  {
    var st := Run(Fresh(player, dealers), ds);
    RunKeepsValid(Fresh(player, dealers), ds);
    RunFromAgreed(Fresh(player, dealers), ds, agreed);
    CompleteIffHeard(player, dealers, ds, agreed);
    t := if IsComplete(st) then NewThreshold(st) else 0;
    if IsComplete(st) {
      CombinedIsAgreed(st, agreed);
      if t > 0 {
        KeyTestDecides(st, expectedKey);
      }
    }
  }

  /** With several thresholds among the good deliveries no run completes: `finalize` reports what is missing. */
  lemma MixedThresholdsNeverComplete(player: U32, dealers: seq<U32>, ds: seq<Delivery>,
                                     agreed: map<U32, DealerCommitment>, expectedKey: Point)
    requires player != 0 && ValidDealerSet(dealers) && DeliversAgreed(ds, agreed) && !Uniform(player, dealers, ds)
    ensures var st := Run(Fresh(player, dealers), ds);
      && Valid(st) && !IsComplete(st)
      && Finalize(st, expectedKey) ==
         Err(InsufficientContributions(|Delivered(player, dealers, ds)|, |dealers|))
      && |Delivered(player, dealers, ds)| < |dealers|
  {
    var st := Run(Fresh(player, dealers), ds);
    RunKeepsValid(Fresh(player, dealers), ds);
    if IsComplete(st) {
      CompleteMeansUniform(player, dealers, ds, agreed);
    }
    DistinctCardinality(Names(st.subshares));
    DistinctCardinality(dealers);
    NamesInDealers(st);
    SubsetCardinality(Elements(Names(st.subshares)), Elements(dealers));
  }

  lemma {:induction false} FirstStays(player: U32, dealers: seq<U32>, d: Delivery, ds: seq<Delivery>)
    requires player != 0 && ValidDealerSet(dealers) && Good(player, dealers, d)
    ensures var st := Run(Fresh(player, dealers), [d] + ds);
      |st.commitments| == |st.subshares| > 0 && st.commitments[0] == d.commitment
      && st.subshares[0].dealer == d.subshare.dealerIndex
  {
    var st := Fresh(player, dealers);
    if ds == [] {
      assert [d] + ds == [d] && [d][..0] == [];
      assert AddOutcome(Run(st, []), d) == Ok(true);
    } else {
      FirstStays(player, dealers, d, ds[..|ds| - 1]);
      assert ([d] + ds)[..|ds|] == [d] + ds[..|ds| - 1];
    }
  }

  /** Whichever good delivery comes first, every dealer with another threshold stays shut out. */
  lemma FirstThresholdShutsOut(player: U32, dealers: seq<U32>, d: Delivery, ds: seq<Delivery>, e: Delivery,
                               agreed: map<U32, DealerCommitment>)
    requires player != 0 && ValidDealerSet(dealers) && DeliversAgreed([d] + ds, agreed)
    requires Good(player, dealers, d) && e in ds && e.commitment.Threshold() != d.commitment.Threshold()
    ensures d.commitment.dealerIndex in Delivered(player, dealers, [d] + ds)
    ensures e.commitment.dealerIndex !in Delivered(player, dealers, [d] + ds)
  {
    var st := Run(Fresh(player, dealers), [d] + ds);
    FirstStays(player, dealers, d, ds);
    RunKeepsValid(Fresh(player, dealers), [d] + ds);
    RunFromAgreed(Fresh(player, dealers), [d] + ds, agreed);
    assert Names(st.subshares)[0] == d.commitment.dealerIndex;
    assert e in [d] + ds;
    forall i | 0 <= i < |st.subshares|
      ensures st.subshares[i].dealer != e.commitment.dealerIndex
    {
      assert EntryValid(st, i);
    }
  }

  lemma MoveToFront(ds: seq<Delivery>, d: Delivery) returns (rest: seq<Delivery>)
    requires d in ds
    ensures multiset([d] + rest) == multiset(ds)
    ensures forall e :: e in ds && e != d ==> e in rest
  {
    var i :| 0 <= i < |ds| && ds[i] == d;
    rest := ds[..i] + ds[i + 1..];
    assert ds == ds[..i] + [d] + ds[i + 1..];
  }

  /** Two good deliveries of different thresholds: each dealer is shut out by the order that has the other first. */
  lemma MixedThresholdsSplit(player: U32, dealers: seq<U32>, ds: seq<Delivery>, d: Delivery, e: Delivery,
                             agreed: map<U32, DealerCommitment>) returns (other: seq<Delivery>)
    requires player != 0 && ValidDealerSet(dealers) && DeliversAgreed(ds, agreed)
    requires d in ds && e in ds && Good(player, dealers, d)
    requires d.commitment.Threshold() != e.commitment.Threshold()
    ensures multiset(other) == multiset(ds)
    ensures d.commitment.dealerIndex in Delivered(player, dealers, other)
    ensures e.commitment.dealerIndex !in Delivered(player, dealers, other)
  {
    var rest := MoveToFront(ds, d);
    other := [d] + rest;
    Sequences.SameMultisetSameElements(ds, other);
    assert Elements(ds) == Elements(other);
    SameElements(ds, other, agreed);
    FirstThresholdShutsOut(player, dealers, d, rest, e, agreed);
  }

  /** Exactly when the order matters: reordering never changes who has delivered iff the good deliveries carry
      one threshold; and then neither does repeating a delivery. */
  lemma ArrivalOrderIff(player: U32, dealers: seq<U32>, ds: seq<Delivery>, agreed: map<U32, DealerCommitment>)
    requires player != 0 && ValidDealerSet(dealers) && DeliversAgreed(ds, agreed)
    ensures Uniform(player, dealers, ds) <==>
            forall other :: multiset(other) == multiset(ds) ==>
              Delivered(player, dealers, other) == Delivered(player, dealers, ds)
    ensures Uniform(player, dealers, ds) <==>
            forall other :: Elements(other) == Elements(ds) ==>
              Delivered(player, dealers, other) == Delivered(player, dealers, ds)
  {
    forall other | multiset(other) == multiset(ds)
      ensures Elements(other) == Elements(ds)
    {
      Sequences.SameMultisetSameElements(ds, other);
    }
    if Uniform(player, dealers, ds) {
      forall other | Elements(other) == Elements(ds)
        ensures Delivered(player, dealers, other) == Delivered(player, dealers, ds)
      {
        SameDeliveriesSameDealers(player, dealers, ds, other, agreed);
      }
    } else {
      var d, e :| d in ds && e in ds && Good(player, dealers, d) && Good(player, dealers, e)
        && d.commitment.Threshold() != e.commitment.Threshold();
      var dFirst := MixedThresholdsSplit(player, dealers, ds, d, e, agreed);
      var eFirst := MixedThresholdsSplit(player, dealers, ds, e, d, agreed);
      assert Delivered(player, dealers, dFirst) != Delivered(player, dealers, eFirst);
    }
  }

  lemma RunTwo(st: State, d: Delivery, e: Delivery)
    ensures Run(st, [d, e]) == AddSubshare(AddSubshare(st, d), e)
  {
    assert [d, e][..1] == [d] && [d][..0] == [];
    assert Run(st, [d]) == AddSubshare(Run(st, []), d);
  }

  /** For example: two dealers of thresholds 1 and 2, whose deliveries both pass the check. */
  lemma MixedThresholdsDependOnOrder(player: U32)
    requires player != 0
    ensures var one := Delivery(SubShare(1, player, Zero()), DealerCommitment(1, [Identity()]));
      var two := Delivery(SubShare(2, player, Zero()), DealerCommitment(2, [Identity(), Identity()]));
      && Names(Run(Fresh(player, [1, 2]), [one, two]).subshares) == [1]
      && Names(Run(Fresh(player, [1, 2]), [two, one]).subshares) == [2]
  {
    var c, d := DealerCommitment(1, [Identity()]), DealerCommitment(2, [Identity(), Identity()]);
    var one, two := Delivery(SubShare(1, player, Zero()), c), Delivery(SubShare(2, player, Zero()), d);
    var st, x := Fresh(player, [1, 2]), FromU32(player);
    MulZero(x);
    AddZero(Zero());
    assert c.Polynomial() == [Zero()] && d.Polynomial() == [Zero(), Zero()];
    EvalConstant(Zero(), x);
    assert Eval([Zero(), Zero()], x) == Zero() by {
      assert [Zero(), Zero()][1..] == [Zero()];
    }
    FeldmanCheck(c, player, Zero());
    FeldmanCheck(d, player, Zero());
    RunTwo(st, one, two);
    RunTwo(st, two, one);
  }
}
