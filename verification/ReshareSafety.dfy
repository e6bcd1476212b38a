/** What a reshare guarantees: whoever the dealers are, players that finalize hold shares of one
    polynomial through the group secret; and honest resharing preserves the secret for ever. */
module ReshareSafety {
  import opened Words
  import opened Sequences
  import opened Field
  import opened Group
  import opened Polynomials
  import opened Lagrange
  import opened Commitments
  import opened Reshare
  import opened Slots
  import Round = ReshareRound

  /** Players that aggregated over one dealer set and commitment set, and whose `finalize` accepted `key`. */
  ghost predicate Committee(states: seq<State>, agreed: map<U32, DealerCommitment>, key: Point) {
    && states != []
    && (forall i :: 0 <= i < |states| ==>
          && Ready(states[i]) && NewThreshold(states[i]) > 0
          && states[i].dealers == states[0].dealers
          && FromAgreed(states[i], agreed)
          && Finalize(states[i], key).Ok?)
    && Distinct(Players(states))
  }

  function Players(states: seq<State>): (ps: seq<U32>)
    ensures |ps| == |states| && forall i :: 0 <= i < |ps| ==> ps[i] == states[i].player
  {
    seq(|states|, i requires 0 <= i < |states| => states[i].player)
  }

  function FinalShares(states: seq<State>, agreed: map<U32, DealerCommitment>, key: Point): (vs: seq<Scalar>)
    requires Committee(states, agreed, key)
    ensures |vs| == |states| && forall i :: 0 <= i < |vs| ==> vs[i] == Finalize(states[i], key).value.share
  {
    seq(|states|, i requires 0 <= i < |states| => Finalize(states[i], key).value.share)
  }

  /** The player aggregated over the dealer set and the commitments of the round's table. */
  ghost predicate AggregatesRound(st: State, r: Round.Round) {
    && Ready(st) && Round.Valid(r) && Round.DealerSet(r) == Some(st.dealers)
    && forall i :: 0 <= i < |st.commitments| ==>
         Has(r.slots, st.commitments[i].dealerIndex)
         && r.slots[st.commitments[i].dealerIndex - 1] == Some(st.commitments[i])
  }

  lemma CombinedAtZero(st: State, r: Round.Round)
    requires AggregatesRound(st, r)
    ensures forall d :: d in st.dealers ==> Has(r.slots, d)
    ensures Eval(Combined(st), Zero()) ==
            Dot(Coefficients(st.dealers), Round.ConstantTerms(r, st.dealers), |st.dealers|)
  {
    Round.DealerSetIsSmallest(r);
    CompleteIffAllDelivered(st);
    var fs, vs := DealtPolynomials(st), Round.ConstantTerms(r, st.dealers);
    forall i | 0 <= i < |st.dealers|
      ensures vs[i] == Eval(fs[i], Zero())
    {
      assert EntryValid(st, Slot(st, st.dealers[i]));
      EvalAtZero(fs[i]);
    }
    EvalCombination(Coefficients(st.dealers), fs, |fs|, NewThreshold(st), Zero(), vs);
  }

  /** The round's key check foretells every player's `finalize`: one accepts exactly when the other does. */
  lemma KeyCheckForetells(st: State, r: Round.Round)
    requires AggregatesRound(st, r)
    ensures NewThreshold(st) == r.newThreshold > 0
    ensures Finalize(st, r.groupKey).Ok? <==> Round.GroupKeyCheck(r) == Ok(true)
  {
    CompleteIffAllDelivered(st);
    assert NewThreshold(st) == r.newThreshold > 0 by {
      assert EntryValid(st, Slot(st, st.dealers[0]));
    }
    CombinedAtZero(st, r);
    LagrangeOutcome(st.dealers);
    BaseMulLog(Eval(Combined(st), Zero()));
    KeyTestDecides(st, r.groupKey);
  }

  /** Arbitrary dealers: every finalized share lies on one polynomial of the new threshold whose value
      at zero is the discrete logarithm of the key, and every player publishes that polynomial. */
  lemma OnePolynomialThroughTheKey(
    states: seq<State>, agreed: map<U32, DealerCommitment>, key: Point, i: nat)
    requires Committee(states, agreed, key) && i < |states|
    ensures |Combined(states[0])| == NewThreshold(states[0])
    ensures Eval(Combined(states[0]), Zero()) == key.log
    ensures Finalize(states[i], key).value.share == Eval(Combined(states[0]), FromU32(states[i].player))
    ensures Finalize(states[i], key).value.polynomial == Commit(Combined(states[0]))
  {
    SameCommitmentsSamePolynomial(states[0], states[i], agreed);
    KeyTestDecides(states[i], key);
    BaseMulLog(Eval(Combined(states[0]), Zero()));
  }

  lemma FinalSharesOnPolynomial(states: seq<State>, agreed: map<U32, DealerCommitment>, key: Point)
    requires Committee(states, agreed, key)
    ensures FinalShares(states, agreed, key) == Shares(Combined(states[0]), Players(states))
  {
    forall i | 0 <= i < |states|
      ensures FinalShares(states, agreed, key)[i] == Shares(Combined(states[0]), Players(states))[i]
    {
      OnePolynomialThroughTheKey(states, agreed, key, i);
    }
  }

  /** Any new threshold of the players reconstruct the secret behind the key. */
  lemma ReshareSafety(states: seq<State>, agreed: map<U32, DealerCommitment>, key: Point)
    requires Committee(states, agreed, key) && NewThreshold(states[0]) <= |states|
    ensures Dot(Coefficients(Players(states)), FinalShares(states, agreed, key), |states|) == key.log
  {
    OnePolynomialThroughTheKey(states, agreed, key, 0);
    FinalSharesOnPolynomial(states, agreed, key);
    InterpolatesAtZero(Combined(states[0]), Players(states));
  }

  // ---- many epochs ----

  datatype Epoch = Epoch(states: seq<State>, agreed: map<U32, DealerCommitment>)

  /** The group key an epoch publishes, as its members read it off the polynomial. */
  function PublishedKey(e: Epoch): Point
    requires e.states != [] && Ready(e.states[0]) && NewThreshold(e.states[0]) > 0
  {
    Commit(Combined(e.states[0]))[0]
  }

  /** Each epoch's members finalized against the key the previous epoch published. */
  ghost predicate Successive(epochs: seq<Epoch>, key: Point)
    decreases |epochs|, 0
  {
    epochs != [] ==>
      var last := epochs[|epochs| - 1];
      && Successive(epochs[..|epochs| - 1], key)
      && Committee(last.states, last.agreed, KeyAfter(epochs[..|epochs| - 1], key))
  }

  ghost function KeyAfter(epochs: seq<Epoch>, key: Point): Point
    requires Successive(epochs, key)
    decreases |epochs|, 1
  {
    if epochs == [] then key else PublishedKey(epochs[|epochs| - 1])
  }

  /** However often the committee and the threshold change, the key never does, and every committee's
      shares still reconstruct the secret behind the first key. */
  lemma {:induction false} KeySurvivesEpochs(epochs: seq<Epoch>, key: Point)
    requires Successive(epochs, key)
    ensures KeyAfter(epochs, key) == key
    ensures epochs != [] ==>
              var last := epochs[|epochs| - 1];
              && Committee(last.states, last.agreed, key)
              && (NewThreshold(last.states[0]) <= |last.states| ==>
                    Dot(Coefficients(Players(last.states)), FinalShares(last.states, last.agreed, key), |last.states|)
                    == key.log)
  {
    if epochs != [] {
      var last := epochs[|epochs| - 1];
      KeySurvivesEpochs(epochs[..|epochs| - 1], key);
      OnePolynomialThroughTheKey(last.states, last.agreed, key, 0);
      EvalAtZero(Combined(last.states[0]));
      BaseMulLog(key.log);
      if NewThreshold(last.states[0]) <= |last.states| {
        ReshareSafety(last.states, last.agreed, key);
      }
    }
  }

  // ---- honest dealers ----

  /** Old shareholders each dealing their own share under a fresh polynomial of the new threshold. */
  datatype Deal = Deal(dealers: seq<U32>, polynomials: seq<Poly>, threshold: nat)

  ghost predicate HonestDeal(previous: Poly, deal: Deal) {
    && ValidDealerSet(deal.dealers) && |deal.dealers| >= |previous| && deal.threshold > 0
    && |deal.polynomials| == |deal.dealers|
    && forall i :: 0 <= i < |deal.dealers| ==>
         && |deal.polynomials[i]| == deal.threshold
         && deal.polynomials[i][0] == Eval(previous, FromU32(deal.dealers[i]))
  }

  ghost function Reshared(deal: Deal): (f: Poly)
    requires |deal.polynomials| == |deal.dealers|
    requires forall i :: 0 <= i < |deal.dealers| ==> |deal.polynomials[i]| == deal.threshold
    ensures |f| == deal.threshold
  {
    Combination(Coefficients(deal.dealers), deal.polynomials, |deal.dealers|, deal.threshold)
  }

  /** Lagrange-combining honestly dealt polynomials keeps the value at zero. */
  lemma ResharedKeepsSecret(previous: Poly, deal: Deal)
    requires HonestDeal(previous, deal)
    ensures Eval(Reshared(deal), Zero()) == Eval(previous, Zero())
  {
    var vs := Shares(previous, deal.dealers);
    forall i | 0 <= i < |deal.dealers|
      ensures vs[i] == Eval(deal.polynomials[i], Zero())
    {
      EvalAtZero(deal.polynomials[i]);
    }
    EvalCombination(Coefficients(deal.dealers), deal.polynomials, |deal.dealers|, deal.threshold, Zero(), vs);
    InterpolatesAtZero(previous, deal.dealers);
  }

  function DealtCommitment(deal: Deal, i: nat): DealerCommitment
    requires i < |deal.dealers| && |deal.polynomials| == |deal.dealers|
  {
    DealerCommitment(deal.dealers[i], Commit(deal.polynomials[i]))
  }

  /** Every complete aggregator over an honest deal finalizes, onto the reshared polynomial. */
  lemma HonestReshareFinalizes(previous: Poly, deal: Deal, st: State)
    requires HonestDeal(previous, deal)
    requires Ready(st) && st.dealers == deal.dealers
    requires forall i :: 0 <= i < |deal.dealers| && deal.dealers[i] in Names(st.subshares) ==>
               CommitmentOf(st, deal.dealers[i]) == DealtCommitment(deal, i)
    ensures NewThreshold(st) == deal.threshold
    ensures Finalize(st, BaseMul(Eval(previous, Zero()))) ==
            Ok(Finalized(Eval(Reshared(deal), FromU32(st.player)), Commit(Reshared(deal))))
  {
    CompleteIffAllDelivered(st);
    forall i | 0 <= i < |st.dealers|
      ensures DealtPolynomials(st)[i] == deal.polynomials[i]
    {
      LogsOfCommit(deal.polynomials[i]);
    }
    assert DealtPolynomials(st) == deal.polynomials;
    assert |DealtPolynomials(st)[0]| == NewThreshold(st);
    assert Combined(st) == Reshared(deal);
    ResharedKeepsSecret(previous, deal);
    KeyTestDecides(st, BaseMul(Eval(previous, Zero())));
  }

  /** A chain of honest reshares, each dealt from the shares of the one before. */
  ghost predicate HonestChain(first: Poly, deals: seq<Deal>)
    decreases |deals|, 0
  {
    deals != [] ==>
      && HonestChain(first, deals[..|deals| - 1])
      && HonestDeal(Current(first, deals[..|deals| - 1]), deals[|deals| - 1])
  }

  ghost function Current(first: Poly, deals: seq<Deal>): Poly
    requires HonestChain(first, deals)
    decreases |deals|, 1
  {
    if deals == [] then first else Reshared(deals[|deals| - 1])
  }

  /** The secret survives any number of honest reshares, over any committees and thresholds. */
  lemma {:induction false} SecretSurvivesHonestChain(first: Poly, deals: seq<Deal>)
    requires HonestChain(first, deals)
    ensures Eval(Current(first, deals), Zero()) == Eval(first, Zero())
  {
    if deals != [] {
      SecretSurvivesHonestChain(first, deals[..|deals| - 1]);
      ResharedKeepsSecret(Current(first, deals[..|deals| - 1]), deals[|deals| - 1]);
    }
  }
}
