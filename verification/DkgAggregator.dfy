/** A participant's side of the key generation (`src/dkg.rs`, `Aggregator`), and the end-to-end claim:
    everybody derives the key of the round state and holds a share of the secret behind it. */
module DkgAggregator {
  import opened Words
  import opened Sequences
  import opened Field
  import opened Group
  import opened Polynomials
  import opened Lagrange
  import opened Commitments
  import opened Slots
  import opened Sums
  import Round = DkgRound

  datatype State = State(player: U32, dealers: seq<U32>, subshares: seq<Verified>, constants: seq<Point>)

  datatype Delivery = Delivery(subshare: SubShare, commitment: DealerCommitment)

  predicate IsComplete(st: State) { |st.subshares| == |st.dealers| }

  function AddOutcome(st: State, d: Delivery): Result<bool> {
    var sub, c := d.subshare, d.commitment;
    if sub.playerIndex != st.player then Err(InvalidIndex)
    else if sub.dealerIndex != c.dealerIndex then Err(InvalidIndex)
    else if sub.dealerIndex == 0 then Err(InvalidIndex)
    else if sub.dealerIndex !in st.dealers then Err(UnexpectedDealer(sub.dealerIndex))
    else if sub.dealerIndex in Names(st.subshares) then Ok(false)
    else if !VerifySubshare(c, st.player, sub.value) then Err(InvalidSubShare(sub.dealerIndex))
    else Ok(true)
  }

  /** Storing a delivery indexes its constant term; on a delivery that would be stored without one the
      source stops. */
  predicate Storable(st: State, d: Delivery) { AddOutcome(st, d) == Ok(true) ==> d.commitment.coefficients != [] }

  function AddSubshare(st: State, d: Delivery): State
    requires Storable(st, d)
  {
    if AddOutcome(st, d) != Ok(true) then st
    else
      st.(subshares := st.subshares + [Verified(d.subshare.dealerIndex, d.subshare.value)],
          constants := st.constants + [d.commitment.ShareCommitment()])
  }

  /** Every delivery of the run can be stored when it arrives, if it is accepted. */
  ghost predicate Callable(st: State, ds: seq<Delivery>)
    decreases |ds|, 0
  {
    ds != [] ==> Callable(st, ds[..|ds| - 1]) && Storable(Run(st, ds[..|ds| - 1]), ds[|ds| - 1])
  }

  function Run(st: State, ds: seq<Delivery>): State
    requires Callable(st, ds)
    decreases |ds|, 1
  {
    if ds == [] then st else AddSubshare(Run(st, ds[..|ds| - 1]), ds[|ds| - 1])
  }

  function Fresh(player: U32, dealers: seq<U32>): State { State(player, dealers, [], []) }

  ghost predicate Valid(st: State) {
    && st.player != 0
    && ValidDealerSet(st.dealers)
    && |st.subshares| == |st.constants|
    && Distinct(Names(st.subshares))
    && forall d :: d in Names(st.subshares) ==> d in st.dealers
  }

  /** What was recorded for each dealer comes from its agreed commitment. */
  ghost predicate EntryFrom(st: State, agreed: map<U32, DealerCommitment>, i: nat)
    requires i < |st.subshares| == |st.constants|
  {
    var e := st.subshares[i];
    && e.dealer in agreed && agreed[e.dealer].coefficients != []
    && st.constants[i] == agreed[e.dealer].ShareCommitment()
    && e.value == Eval(agreed[e.dealer].Polynomial(), FromU32(st.player))
  }

  ghost predicate FromAgreed(st: State, agreed: map<U32, DealerCommitment>) {
    |st.subshares| == |st.constants| && forall i :: 0 <= i < |st.subshares| ==> EntryFrom(st, agreed, i)
  }

  ghost predicate DeliversAgreed(ds: seq<Delivery>, agreed: map<U32, DealerCommitment>) {
    forall d :: d in ds ==> d.commitment.dealerIndex in agreed && d.commitment == agreed[d.commitment.dealerIndex]
  }

  lemma AddKeepsValid(st: State, d: Delivery)
    requires Valid(st) && Storable(st, d)
    ensures Valid(AddSubshare(st, d))
  {
    if AddOutcome(st, d) == Ok(true) {
      assert Names(AddSubshare(st, d).subshares) == Names(st.subshares) + [d.subshare.dealerIndex];
    }
  }

  lemma AddKeepsAgreed(st: State, d: Delivery, agreed: map<U32, DealerCommitment>)
    requires FromAgreed(st, agreed) && DeliversAgreed([d], agreed) && Storable(st, d)
    ensures FromAgreed(AddSubshare(st, d), agreed)
  {
    var st' := AddSubshare(st, d);
    assert d in [d];
    FeldmanCheck(d.commitment, st.player, d.subshare.value);
    forall i | 0 <= i < |st'.subshares|
      ensures EntryFrom(st', agreed, i)
    {
      if i < |st.subshares| {
        assert EntryFrom(st, agreed, i);
      }
    }
  }

  lemma {:induction false} RunInvariant(player: U32, dealers: seq<U32>, ds: seq<Delivery>,
                                        agreed: map<U32, DealerCommitment>)
    requires player != 0 && ValidDealerSet(dealers) && Callable(Fresh(player, dealers), ds)
    ensures Valid(Run(Fresh(player, dealers), ds))
    ensures Run(Fresh(player, dealers), ds).player == player && Run(Fresh(player, dealers), ds).dealers == dealers
    ensures DeliversAgreed(ds, agreed) ==> FromAgreed(Run(Fresh(player, dealers), ds), agreed)
  {
    if ds != [] {
      var before := Run(Fresh(player, dealers), ds[..|ds| - 1]);
      RunInvariant(player, dealers, ds[..|ds| - 1], agreed);
      AddKeepsValid(before, ds[|ds| - 1]);
      if DeliversAgreed(ds, agreed) {
        AddKeepsAgreed(before, ds[|ds| - 1], agreed);
      }
    }
  }

  /** When each answer of `add_subshare` is given. A repeat is answered as one whatever value it brings; only the
      committed polynomial's value is recorded. */
  lemma AddAnswers(st: State, d: Delivery)
    requires Valid(st)
    ensures var res, i := AddOutcome(st, d), d.subshare.dealerIndex;
      var value := Eval(d.commitment.Polynomial(), FromU32(st.player));
      var mine := d.subshare.playerIndex == st.player && i == d.commitment.dealerIndex;
      && (res == Ok(true) <==> mine && i in st.dealers && i !in Names(st.subshares) && d.subshare.value == value)
      && (res == Ok(false) <==> mine && i in Names(st.subshares))
      && (res == Err(InvalidSubShare(i)) <==>
            mine && i in st.dealers && i !in Names(st.subshares) && d.subshare.value != value)
      && (res == Err(UnexpectedDealer(i)) <==> mine && i != 0 && i !in st.dealers)
      && (res == Err(InvalidIndex) <==> !mine || i == 0)
  {
    FeldmanCheck(d.commitment, st.player, d.subshare.value);
  }

  ghost predicate Accepted(player: U32, d: Delivery) {
    && d.subshare.playerIndex == player
    && d.subshare.dealerIndex == d.commitment.dealerIndex
    && VerifySubshare(d.commitment, player, d.subshare.value)
  }

  /** A dealer counts as delivered exactly when some delivery from it, to this player, passed the check. */
  lemma {:induction false} DeliveredIff(player: U32, dealers: seq<U32>, ds: seq<Delivery>, dealer: U32)
    requires player != 0 && ValidDealerSet(dealers) && Callable(Fresh(player, dealers), ds) && dealer in dealers
    ensures dealer in Names(Run(Fresh(player, dealers), ds).subshares) <==>
            exists d :: d in ds && Accepted(player, d) && d.subshare.dealerIndex == dealer
  {
    if ds != [] {
      var most, last := ds[..|ds| - 1], ds[|ds| - 1];
      var mid := Run(Fresh(player, dealers), most);
      DeliveredIff(player, dealers, most, dealer);
      RunInvariant(player, dealers, most, map[]);
      assert ds == most + [last];
      assert Names(AddSubshare(mid, last).subshares) ==
             if AddOutcome(mid, last) == Ok(true) then Names(mid.subshares) + [last.subshare.dealerIndex]
             else Names(mid.subshares);
    }
  }

  // ---- the derived values ----

  function Received(st: State): (vs: seq<Scalar>)
    ensures |vs| == |st.subshares| && forall i :: 0 <= i < |vs| ==> vs[i] == st.subshares[i].value
  {
    seq(|st.subshares|, i requires 0 <= i < |st.subshares| => st.subshares[i].value)
  }

  function Finalize(st: State): Result<Scalar> {
    if IsComplete(st) then Ok(Sum(Received(st)))
    else Err(InsufficientContributions(|st.subshares|, |st.dealers|))
  }

  function GroupKey(st: State): Result<Point> {
    if IsComplete(st) then Ok(Point(Sum(Logs(st.constants))))
    else Err(InsufficientContributions(|st.subshares|, |st.dealers|))
  }

  // ---- when the answers are given ----

  /** The dealers of the set from which some delivery was accepted. */
  ghost function Heard(player: U32, dealers: seq<U32>, ds: seq<Delivery>): (s: set<U32>)
    ensures forall x :: x in s <==>
              x in dealers && exists d :: d in ds && Accepted(player, d) && d.subshare.dealerIndex == x
  {
    set x | x in dealers && exists d :: d in ds && Accepted(player, d) && d.subshare.dealerIndex == x
  }

  lemma RecordedIsHeard(player: U32, dealers: seq<U32>, ds: seq<Delivery>)
    requires player != 0 && ValidDealerSet(dealers) && Callable(Fresh(player, dealers), ds)
    ensures var st := Run(Fresh(player, dealers), ds);
      Elements(Names(st.subshares)) == Heard(player, dealers, ds) && |st.subshares| == |Heard(player, dealers, ds)|
  {
    var st := Run(Fresh(player, dealers), ds);
    RunInvariant(player, dealers, ds, map[]);
    DistinctCardinality(Names(st.subshares));
    forall x: U32
      ensures x in Elements(Names(st.subshares)) <==> x in Heard(player, dealers, ds)
    {
      if x in dealers {
        DeliveredIff(player, dealers, ds, x);
      }
    }
    assert Elements(Names(st.subshares)) == Heard(player, dealers, ds);
  }

  /** Over all runs: a participant derives its share, and the key, exactly when an accepted delivery came from
      every dealer of the set; otherwise it is told how many are there and how many are needed. */
  lemma FinalizeAnswers(player: U32, dealers: seq<U32>, ds: seq<Delivery>)
    requires player != 0 && ValidDealerSet(dealers) && Callable(Fresh(player, dealers), ds)
    ensures var st, heard := Run(Fresh(player, dealers), ds), Heard(player, dealers, ds);
      && (Finalize(st).Ok? <==> forall x :: x in dealers ==> x in heard)
      && (GroupKey(st).Ok? <==> forall x :: x in dealers ==> x in heard)
      && (Finalize(st).Err? ==> Finalize(st) == Err(InsufficientContributions(|heard|, |dealers|)))
      && (GroupKey(st).Err? ==> GroupKey(st) == Err(InsufficientContributions(|heard|, |dealers|)))
  {
    var heard := Heard(player, dealers, ds);
    RunInvariant(player, dealers, ds, map[]);
    RecordedIsHeard(player, dealers, ds);
    DistinctCardinality(dealers);
    SubsetCardinality(heard, Elements(dealers));
    if forall x :: x in dealers ==> x in heard {
      assert heard == Elements(dealers);
    } else {
      var x :| x in dealers && x !in heard;
      assert x in Elements(dealers);
    }
  }

  class Aggregator {
    const player: U32
    const dealers: seq<U32>
    var subshares: seq<Verified>
    var constants: seq<Point>

    function Snapshot(): State
      reads this
    {
      State(player, dealers, subshares, constants)
    }

    constructor (player: U32, dealers: seq<U32>)
      ensures Snapshot() == Fresh(player, dealers)
    {
      this.player, this.dealers, subshares, constants := player, dealers, [], [];
    }

    static method Create(player: U32, dealers: seq<U32>) returns (r: Result<Aggregator>)
      ensures r.Err? ==> CheckedDealerSet(player, dealers) == Err(r.error)
      ensures r.Ok? ==>
                && fresh(r.value)
                && CheckedDealerSet(player, dealers) == Ok(r.value.dealers)
                && r.value.Snapshot() == Fresh(player, r.value.dealers)
                && Valid(r.value.Snapshot())
    {
      CheckedDealerSetOutcome(player, dealers);
      match CheckedDealerSet(player, dealers)
      case Err(e) => return Err(e);
      case Ok(sorted) =>
        var agg := new Aggregator(player, sorted);
        return Ok(agg);
    }

    method Deliver(subshare: SubShare, commitment: DealerCommitment) returns (r: Result<bool>)
      requires Valid(Snapshot()) && Storable(Snapshot(), Delivery(subshare, commitment))
      modifies this
      ensures r == AddOutcome(old(Snapshot()), Delivery(subshare, commitment))
      ensures Snapshot() == AddSubshare(old(Snapshot()), Delivery(subshare, commitment))
      ensures Valid(Snapshot())
    {
      AddKeepsValid(Snapshot(), Delivery(subshare, commitment));
      if subshare.playerIndex != player {
        return Err(InvalidIndex);
      }
      if subshare.dealerIndex != commitment.dealerIndex {
        return Err(InvalidIndex);
      }
      if subshare.dealerIndex == 0 {
        return Err(InvalidIndex);
      }
      if subshare.dealerIndex !in dealers {
        return Err(UnexpectedDealer(subshare.dealerIndex));
      }
      if subshare.dealerIndex in Names(subshares) {
        return Ok(false);
      }
      if !VerifySubshare(commitment, player, subshare.value) {
        return Err(InvalidSubShare(subshare.dealerIndex));
      }
      subshares := subshares + [Verified(subshare.dealerIndex, subshare.value)];
      constants := constants + [commitment.ShareCommitment()];
      return Ok(true);
    }

    method FinalizeShare() returns (r: Result<Scalar>)
      ensures r == Finalize(Snapshot())
    {
      if |subshares| != |dealers| {
        return Err(InsufficientContributions(|subshares|, |dealers|));
      }
      ghost var vs := Received(Snapshot());
      var share := Zero();
      for i := 0 to |subshares|
        invariant share == SumTo(vs, i)
      {
        share := Add(share, subshares[i].value);
      }
      return Ok(share);
    }

    method DeriveGroupKey() returns (r: Result<Point>)
      requires Valid(Snapshot())
      ensures r == GroupKey(Snapshot())
    {
      if |subshares| != |dealers| {
        return Err(InsufficientContributions(|subshares|, |dealers|));
      }
      var key := Identity();
      for i := 0 to |constants|
        invariant key == Point(SumTo(Logs(constants), i))
      {
        key := AddPoints(key, constants[i]);
      }
      return Ok(key);
    }
  }

  // ---- end to end ----

  function DealtBy(r: Round.Round, d: int): DealerCommitment
    requires Has(r.slots, d)
  {
    r.slots[d - 1].value
  }

  ghost function AgreedCommitments(r: Round.Round): (m: map<U32, DealerCommitment>)
    requires Round.Valid(r)
    ensures forall d :: d in m <==> Has(r.slots, d)
    ensures forall d :: d in m ==> Has(r.slots, d) && m[d] == DealtBy(r, d)
  {
    CommittedExact(r.slots, r.threshold);
    map d | d in Elements(Committed(r.slots)) :: DealtBy(r, d)
  }

  ghost function Evaluations(r: Round.Round, x: Scalar): (m: map<U32, Scalar>)
    requires Round.Valid(r)
    ensures forall d :: d in m <==> Has(r.slots, d)
    ensures forall d :: d in m ==> Has(r.slots, d) && m[d] == Eval(DealtBy(r, d).Polynomial(), x)
  {
    var agreed := AgreedCommitments(r);
    map d | d in agreed :: Eval(agreed[d].Polynomial(), x)
  }

  /** The dealers that delivered are exactly the qualified ones. */
  lemma DeliveredAreQualified(r: Round.Round, st: State)
    requires Round.Valid(r) && Valid(st) && IsComplete(st) && st.dealers == Committed(r.slots)
    ensures multiset(Names(st.subshares)) == multiset(Committed(r.slots))
    ensures forall d :: d in Names(st.subshares) ==> Has(r.slots, d)
  {
    var ds := Names(st.subshares);
    CommittedExact(r.slots, r.threshold);
    DistinctCardinality(ds);
    DistinctCardinality(st.dealers);
    SubsetCardinality(Elements(ds), Elements(st.dealers));
    DistinctSameElements(ds, st.dealers);
  }

  lemma TotalOverDealers(r: Round.Round, x: Scalar)
    requires Round.Valid(r)
    ensures forall d :: d in Committed(r.slots) ==> d in Evaluations(r, x)
    ensures Eval(Round.Total(r), x) == SumOver(Committed(r.slots), Evaluations(r, x), |Committed(r.slots)|)
  {
    var cs, ds, m := AllFilled(r.slots), Committed(r.slots), Evaluations(r, x);
    var vs := Round.ValuesAt(Round.DealtPolynomials(cs), x);
    CommittedExact(r.slots, r.threshold);
    FilledExact(r.slots, r.threshold, |r.slots|);
    forall i | 0 <= i < |cs|
      ensures ds[i] in m && m[ds[i]] == vs[i]
    {
      assert ds[i] in ds;
    }
    Round.TotalIsSum(r, x);
    SumOverValues(ds, vs, m, |cs|);
  }

  /** In a complete aggregator over the qualified dealers, any per-dealer values sum, in arrival order,
      to the total polynomial's value. */
  lemma ArrivalSum(r: Round.Round, st: State, vs: seq<Scalar>, x: Scalar)
    requires Round.Valid(r) && Valid(st) && IsComplete(st) && st.dealers == Committed(r.slots)
    requires |vs| == |st.subshares|
    requires forall i :: 0 <= i < |vs| && Has(r.slots, Names(st.subshares)[i]) ==>
               vs[i] == Eval(DealtBy(r, Names(st.subshares)[i]).Polynomial(), x)
    ensures Sum(vs) == Eval(Round.Total(r), x)
  {
    var ds, m := Names(st.subshares), Evaluations(r, x);
    DeliveredAreQualified(r, st);
    TotalOverDealers(r, x);
    forall i | 0 <= i < |ds|
      ensures ds[i] in m && m[ds[i]] == vs[i]
    {
      assert ds[i] in ds;
    }
    SumOverValues(ds, vs, m, |ds|);
    SumOverPermutation(ds, st.dealers, m);
  }

  /** Whatever the arrival order: the same key as the round state, and a share of the total polynomial. */
  lemma EndToEnd(r: Round.Round, st: State)
    requires Round.Valid(r) && Round.IsComplete(r)
    requires Valid(st) && IsComplete(st) && st.dealers == Committed(r.slots)
    requires FromAgreed(st, AgreedCommitments(r))
    ensures Finalize(st) == Ok(Eval(Round.Total(r), FromU32(st.player)))
    ensures GroupKey(st) == Ok(BaseMul(Eval(Round.Total(r), Zero())))
  {
    CommittedExact(r.slots, r.threshold);
    forall i | 0 <= i < |st.subshares|
      ensures Has(r.slots, Names(st.subshares)[i])
      ensures var c := DealtBy(r, Names(st.subshares)[i]);
        && Received(st)[i] == Eval(c.Polynomial(), FromU32(st.player))
        && Logs(st.constants)[i] == Eval(c.Polynomial(), Zero())
    {
      assert EntryFrom(st, AgreedCommitments(r), i);
      EvalAtZero(DealtBy(r, Names(st.subshares)[i]).Polynomial());
    }
    ArrivalSum(r, st, Received(st), FromU32(st.player));
    ArrivalSum(r, st, Logs(st.constants), Zero());
    BaseMulLog(Eval(Round.Total(r), Zero()));
  }

  lemma {:induction false} AgreedDeliveriesStorable(r: Round.Round, player: U32, ds: seq<Delivery>)
    requires Round.Valid(r) && DeliversAgreed(ds, AgreedCommitments(r))
    ensures Callable(Fresh(player, Committed(r.slots)), ds)
  {
    if ds != [] {
      var most, last := ds[..|ds| - 1], ds[|ds| - 1];
      AgreedDeliveriesStorable(r, player, most);
      assert last in ds;
      assert Has(r.slots, last.commitment.dealerIndex);
    }
  }

  /** A participant of a complete round, from its deliveries alone: when an accepted delivery of every qualified
      dealer is among them it holds its value of the total polynomial and the round's key; until then neither. */
  lemma ParticipantFinalizes(r: Round.Round, player: U32, ds: seq<Delivery>)
    requires Round.Valid(r) && Round.IsComplete(r) && Committed(r.slots) != [] && player != 0
    requires DeliversAgreed(ds, AgreedCommitments(r))
    ensures Callable(Fresh(player, Committed(r.slots)), ds)
    ensures var st := Run(Fresh(player, Committed(r.slots)), ds);
      var heard, need := Heard(player, Committed(r.slots), ds), Committed(r.slots);
      && Finalize(st) == (if forall x :: x in need ==> x in heard then Ok(Eval(Round.Total(r), FromU32(player)))
                          else Err(InsufficientContributions(|heard|, |need|)))
      && GroupKey(st) == (if forall x :: x in need ==> x in heard then Ok(BaseMul(Eval(Round.Total(r), Zero())))
                          else Err(InsufficientContributions(|heard|, |need|)))
  {
    var need := Committed(r.slots);
    var st := Fresh(player, need);
    CommittedExact(r.slots, r.threshold);
    AgreedDeliveriesStorable(r, player, ds);
    FinalizeAnswers(player, need, ds);
    RunInvariant(player, need, ds, AgreedCommitments(r));
    if Finalize(Run(st, ds)).Ok? {
      EndToEnd(r, Run(st, ds));
    }
  }

  /** Participants that completed over the same agreed round. */
  ghost predicate Participants(r: Round.Round, states: seq<State>) {
    && Round.Valid(r) && Round.IsComplete(r)
    && (forall i :: 0 <= i < |states| ==>
          && Valid(states[i]) && IsComplete(states[i]) && states[i].dealers == Committed(r.slots)
          && FromAgreed(states[i], AgreedCommitments(r)))
    && Distinct(Players(states))
  }

  function Players(states: seq<State>): (ps: seq<U32>)
    ensures |ps| == |states| && forall i :: 0 <= i < |ps| ==> ps[i] == states[i].player
  {
    seq(|states|, i requires 0 <= i < |states| => states[i].player)
  }

  function FinalShares(states: seq<State>): (vs: seq<Scalar>)
    requires forall i :: 0 <= i < |states| ==> IsComplete(states[i])
    ensures |vs| == |states| && forall i :: 0 <= i < |vs| ==> vs[i] == Finalize(states[i]).value
  {
    seq(|states|, i requires 0 <= i < |states| => Finalize(states[i]).value)
  }

  /** Any threshold of the final shares interpolate to the secret behind every participant's key. */
  lemma SharesReconstruct(r: Round.Round, states: seq<State>, i: nat)
    requires Participants(r, states) && r.threshold <= |states| && i < |states|
    ensures GroupKey(states[i]) ==
            Ok(BaseMul(Dot(Coefficients(Players(states)), FinalShares(states), |states|)))
  {
    forall k | 0 <= k < |states|
      ensures FinalShares(states)[k] == Shares(Round.Total(r), Players(states))[k]
    {
      EndToEnd(r, states[k]);
    }
    assert FinalShares(states) == Shares(Round.Total(r), Players(states));
    EndToEnd(r, states[i]);
    InterpolatesAtZero(Round.Total(r), Players(states));
  }
}
