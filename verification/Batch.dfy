/** Batch verification of sub-shares by a random linear combination (`src/reshare.rs`,
    `batch_verify_subshares`). The weights are inputs. */
module Batch {
  import opened Words
  import opened Sequences
  import opened Field
  import opened Group
  import opened Polynomials
  import opened Commitments
  import opened Slots

  /** The first commitment of the dealer. */
  function CommitmentFor(cs: seq<DealerCommitment>, dealer: U32): Option<DealerCommitment> {
    FirstWith(DealerIndex, cs, dealer)
  }

  lemma {:induction false} CommitmentForIsFirst(cs: seq<DealerCommitment>, dealer: U32, i: nat)
    requires i < |cs| && cs[i].dealerIndex == dealer && forall j :: 0 <= j < i ==> cs[j].dealerIndex != dealer
    ensures CommitmentFor(cs, dealer) == Some(cs[i])
  {
    if i != 0 {
      CommitmentForIsFirst(cs[1..], dealer, i - 1);
    }
  }

  ghost predicate EntryPaired(player: U32, s: SubShare, cs: seq<DealerCommitment>) {
    player != 0 && s.playerIndex == player && CommitmentFor(cs, s.dealerIndex).Some?
  }

  ghost function PairedFlags(player: U32, subshares: seq<SubShare>, cs: seq<DealerCommitment>): (fs: seq<bool>)
    ensures |fs| == |subshares| && forall i :: 0 <= i < |fs| ==> fs[i] == EntryPaired(player, subshares[i], cs)
  {
    seq(|subshares|, i requires 0 <= i < |subshares| => EntryPaired(player, subshares[i], cs))
  }

  ghost predicate Paired(player: U32, subshares: seq<SubShare>, cs: seq<DealerCommitment>) {
    && |subshares| == |cs| && subshares != []
    && forall i {:trigger subshares[i]} :: 0 <= i < |subshares| ==> EntryPaired(player, subshares[i], cs)
  }

  ghost predicate SubshareValid(player: U32, s: SubShare, cs: seq<DealerCommitment>) {
    var c := CommitmentFor(cs, s.dealerIndex);
    c.Some? && VerifySubshare(c.value, player, s.value)
  }

  function Claimed(subshares: seq<SubShare>): (vs: seq<Scalar>)
    ensures |vs| == |subshares| && forall i :: 0 <= i < |vs| ==> vs[i] == subshares[i].value
  {
    seq(|subshares|, i requires 0 <= i < |subshares| => subshares[i].value)
  }

  function ExpectedAt(player: U32, s: SubShare, cs: seq<DealerCommitment>): Scalar {
    match CommitmentFor(cs, s.dealerIndex)
    case Some(c) => Eval(c.Polynomial(), FromU32(player))
    case None => Zero()
  }

  function Expected(player: U32, subshares: seq<SubShare>, cs: seq<DealerCommitment>): (vs: seq<Scalar>)
    ensures |vs| == |subshares|
    ensures forall i :: 0 <= i < |vs| ==> vs[i] == ExpectedAt(player, subshares[i], cs)
  {
    seq(|subshares|, i requires 0 <= i < |subshares| => ExpectedAt(player, subshares[i], cs))
  }

  ghost predicate Accepts(player: U32, subshares: seq<SubShare>, cs: seq<DealerCommitment>, ws: seq<Scalar>)
    requires |ws| == |subshares|
  {
    && Paired(player, subshares, cs)
    && Dot(ws, Claimed(subshares), |ws|) == Dot(ws, Expected(player, subshares, cs), |ws|)
  }

  /** One entry's commitment evaluated at the player, or nothing where the loop gives up. */
  method EvaluateEntry(player: U32, s: SubShare, cs: seq<DealerCommitment>) returns (r: Option<Point>)
    ensures r.Some? <==> EntryPaired(player, s, cs)
    ensures r.Some? ==> r.value == Point(ExpectedAt(player, s, cs))
  {
    if s.playerIndex != player {
      return None;
    }
    var c := CommitmentFor(cs, s.dealerIndex);
    if c.None? {
      return None;
    }
    var eval := EvaluateAt(c.value, player);
    if eval.Err? {
      return None;
    }
    EvalPointsLog(c.value.coefficients, FromU32(player));
    BaseMulLog(ExpectedAt(player, s, cs));
    return Some(eval.value);
  }

  /** One entry of the loop: its two terms, if it can be paired. */
  method EntryTerms(player: U32, s: SubShare, cs: seq<DealerCommitment>, w: Scalar)
    returns (ok: bool, lhs: Scalar, rhs: Point)
    ensures ok <==> EntryPaired(player, s, cs)
    ensures ok ==> lhs == Mul(w, s.value) && rhs == Point(Mul(w, ExpectedAt(player, s, cs)))
  {
    var eval := EvaluateEntry(player, s, cs);
    if eval.None? {
      return false, Zero(), Identity();
    }
    return true, Mul(w, s.value), MulScalar(eval.value, w);
  }

  /** The loop: Σ w_i·σ_i and Σ w_i·C_i(j), unless some entry cannot be paired. */
  method Accumulate(player: U32, subshares: seq<SubShare>, cs: seq<DealerCommitment>, ws: seq<Scalar>,
                    ghost paired: seq<bool>, ghost claimed: seq<Scalar>, ghost expected: seq<Scalar>)
    returns (ok: bool, lhsExponent: Scalar, rhs: Point)
    requires |ws| == |subshares| == |paired| == |claimed| == |expected|
    requires forall i {:trigger paired[i]} :: 0 <= i < |paired| ==> paired[i] == EntryPaired(player, subshares[i], cs)
    requires forall i {:trigger claimed[i]} :: 0 <= i < |claimed| ==> claimed[i] == subshares[i].value
    requires forall i {:trigger expected[i]} :: 0 <= i < |expected| ==>
               expected[i] == ExpectedAt(player, subshares[i], cs)
    ensures ok <==> AllSet(paired, |paired|)
    ensures ok ==> lhsExponent == Dot(ws, claimed, |ws|) && rhs == Point(Dot(ws, expected, |ws|))
  {
    lhsExponent, rhs := Zero(), Identity();
    for i := 0 to |subshares|
      invariant AllSet(paired, i)
      invariant lhsExponent == Dot(ws, claimed, i) && rhs == Point(Dot(ws, expected, i))
    {
      var found, left, right := EntryTerms(player, subshares[i], cs, ws[i]);
      NextFlag(paired, i);
      if !found {
        return false, lhsExponent, rhs;
      }
      lhsExponent := Add(lhsExponent, left);
      rhs := AddPoints(rhs, right);
    }
    ok := true;
  }

  method BatchVerifySubshares(player: U32, subshares: seq<SubShare>, cs: seq<DealerCommitment>, ws: seq<Scalar>)
    returns (ok: bool)
    requires |ws| == |subshares|
    ensures ok <==> Accepts(player, subshares, cs, ws)
  {
    if |subshares| != |cs| || subshares == [] {
      return false;
    }
    ghost var flags := PairedFlags(player, subshares, cs);
    var paired, lhsExponent, rhs :=
      Accumulate(player, subshares, cs, ws, flags, Claimed(subshares), Expected(player, subshares, cs));
    assert paired <==> Paired(player, subshares, cs);
    BaseMulLog(lhsExponent);
    return paired && BaseMul(lhsExponent) == rhs;
  }

  /** f_i(j): the value dealer i's first commitment holds for the player. */
  ghost predicate Dealt(player: U32, dealer: U32, cs: seq<DealerCommitment>, value: Scalar) {
    exists i :: 0 <= i < |cs| && cs[i].dealerIndex == dealer && value == Eval(cs[i].Polynomial(), FromU32(player))
             && forall j :: 0 <= j < i ==> cs[j].dealerIndex != dealer
  }

  ghost predicate AllDealt(player: U32, subshares: seq<SubShare>, cs: seq<DealerCommitment>, values: seq<Scalar>)
    requires |values| == |subshares|
  {
    forall i :: 0 <= i < |subshares| ==> Dealt(player, subshares[i].dealerIndex, cs, values[i])
  }

  lemma DealtIsExpected(player: U32, s: SubShare, cs: seq<DealerCommitment>, value: Scalar)
    requires Dealt(player, s.dealerIndex, cs, value)
    ensures CommitmentFor(cs, s.dealerIndex).Some? && value == ExpectedAt(player, s, cs)
  {
    var i :| 0 <= i < |cs| && cs[i].dealerIndex == s.dealerIndex
      && value == Eval(cs[i].Polynomial(), FromU32(player))
      && forall j :: 0 <= j < i ==> cs[j].dealerIndex != s.dealerIndex;
    CommitmentForIsFirst(cs, s.dealerIndex, i);
  }

  /** Every sub-share is for the player and from a dealer with a commitment, and there are as many commitments as
      sub-shares. */
  ghost predicate Present(player: U32, subshares: seq<SubShare>, cs: seq<DealerCommitment>) {
    && player != 0 && |subshares| == |cs| > 0
    && forall s :: s in subshares ==> s.playerIndex == player && s.dealerIndex in Indices(cs)
  }

  lemma PairedIff(player: U32, subshares: seq<SubShare>, cs: seq<DealerCommitment>)
    ensures Paired(player, subshares, cs) <==> Present(player, subshares, cs)
  {
    forall i | 0 <= i < |subshares|
      ensures EntryPaired(player, subshares[i], cs) <==>
              player != 0 && subshares[i].playerIndex == player && subshares[i].dealerIndex in Indices(cs)
    {
      CommitmentForSome(cs, subshares[i].dealerIndex);
      assert subshares[i] in subshares;
    }
    if Paired(player, subshares, cs) {
      assert EntryPaired(player, subshares[0], cs);
      forall s | s in subshares
        ensures s.playerIndex == player && s.dealerIndex in Indices(cs)
      {
        var i :| 0 <= i < |subshares| && subshares[i] == s;
      }
    }
  }

  lemma CommitmentForSome(cs: seq<DealerCommitment>, dealer: U32)
    ensures CommitmentFor(cs, dealer).Some? <==> dealer in Indices(cs)
  {
    if CommitmentFor(cs, dealer).Some? {
      var k :| 0 <= k < |cs| && cs[k] == CommitmentFor(cs, dealer).value;
      assert Indices(cs)[k] == DealerIndex(cs[k]);
    }
    if dealer in Indices(cs) {
      var k :| 0 <= k < |cs| && Indices(cs)[k] == dealer;
      assert cs[k] in cs && DealerIndex(cs[k]) == dealer;
    }
  }

  /** A batch that is not paired is refused, whatever the weights. */
  lemma UnpairedRefused(player: U32, subshares: seq<SubShare>, cs: seq<DealerCommitment>, ws: seq<Scalar>)
    requires |ws| == |subshares| && !Present(player, subshares, cs)
    ensures !Accepts(player, subshares, cs, ws)
  {
    PairedIff(player, subshares, cs);
  }

  /** A paired one is accepted exactly when the weighted sums of the claimed values and of the dealt ones agree. */
  lemma BatchAcceptsIff(player: U32, subshares: seq<SubShare>, cs: seq<DealerCommitment>, ws: seq<Scalar>,
                        values: seq<Scalar>)
    requires |ws| == |subshares| == |values| && Present(player, subshares, cs)
    requires AllDealt(player, subshares, cs, values)
    ensures Accepts(player, subshares, cs, ws) <==>
            Dot(ws, Claimed(subshares), |ws|) == Dot(ws, values, |ws|)
  {
    PairedIff(player, subshares, cs);
    forall i | 0 <= i < |subshares|
      ensures values[i] == Expected(player, subshares, cs)[i]
    {
      DealtIsExpected(player, subshares[i], cs, values[i]);
    }
    assert values == Expected(player, subshares, cs);
  }

  /** Complete: good sub-shares are accepted whatever the weights. */
  lemma BatchComplete(
    player: U32, subshares: seq<SubShare>, cs: seq<DealerCommitment>, ws: seq<Scalar>)
    requires |ws| == |subshares| && Present(player, subshares, cs)
    requires forall i :: 0 <= i < |subshares| ==> SubshareValid(player, subshares[i], cs)
    ensures Accepts(player, subshares, cs, ws)
  {
    PairedIff(player, subshares, cs);
    forall i | 0 <= i < |subshares|
      ensures Claimed(subshares)[i] == Expected(player, subshares, cs)[i]
    {
      assert SubshareValid(player, subshares[i], cs);
      FeldmanCheck(CommitmentFor(cs, subshares[i].dealerIndex).value, player, subshares[i].value);
    }
    DotExtensional(ws, Claimed(subshares), ws, Expected(player, subshares, cs), |ws|);
  }

  // ---- soundness ----

  function Errors(a: seq<Scalar>, b: seq<Scalar>): (ds: seq<Scalar>)
    requires |a| == |b|
    ensures |ds| == |a| && forall i :: 0 <= i < |ds| ==> ds[i] == Sub(a[i], b[i])
  {
    seq(|a|, i requires 0 <= i < |a| => Sub(a[i], b[i]))
  }

  lemma EqualIffErrorsCancel(ws: seq<Scalar>, a: seq<Scalar>, b: seq<Scalar>)
    requires |ws| == |a| == |b|
    ensures Dot(ws, a, |ws|) == Dot(ws, b, |ws|) <==> Dot(ws, Errors(a, b), |ws|) == Zero()
  {
    var e := Errors(a, b);
    forall i | 0 <= i < |ws|
      ensures a[i] == Add(b[i], e[i])
    {
      AddSub(a[i], b[i]);
      AddComm(e[i], b[i]);
    }
    DotAdd(ws, b, e, a, |ws|);
    var x, y := Dot(ws, b, |ws|), Dot(ws, e, |ws|);
    AddZero(x);
    AddComm(x, y);
    AddComm(x, Zero());
    if Add(x, y) == x {
      AddCancel(y, Zero(), x);
    }
  }

  /** Changing one weight changes the sum by that term. */
  lemma {:induction false} DotUpdate(ws: seq<Scalar>, e: seq<Scalar>, m: nat, w: Scalar, n: nat)
    requires m < |ws| == |e| && n <= |ws|
    ensures Dot(ws[m := w], e, n) ==
            if m < n then Add(Dot(ws[m := Zero()], e, n), Mul(w, e[m])) else Dot(ws[m := Zero()], e, n)
  {
    if n != 0 {
      DotUpdate(ws, e, m, w, n - 1);
      if m == n - 1 {
        MulZero(e[m]);
        AddZero(Dot(ws[m := Zero()], e, n - 1));
      } else if m < n {
        AddRotate(Dot(ws[m := Zero()], e, n - 1), Mul(w, e[m]), Mul(ws[n - 1], e[n - 1]));
      }
    }
  }

  /** a + w·d == 0 for exactly one w. */
  lemma LinearRoot(a: Scalar, w: Scalar, d: Scalar)
    requires d != Zero()
    ensures Add(a, Mul(w, d)) == Zero() <==> w == Mul(Neg(a), Invert(d))
  {
    var root := Mul(Neg(a), Invert(d));
    MulAssoc(Neg(a), Invert(d), d);
    MulInvert(d);
    MulOne(Neg(a));
    AddNeg(a);
    if Add(a, Mul(w, d)) == Zero() {
      AddComm(a, Mul(w, d));
      AddComm(a, Neg(a));
      AddCancel(Mul(w, d), Neg(a), a);
      MulCancel(w, root, d);
    }
  }

  /** The one weight of sub-share m that hides its error. */
  function HidingWeight(player: U32, subshares: seq<SubShare>, cs: seq<DealerCommitment>, ws: seq<Scalar>, m: nat):
    Scalar
    requires |ws| == |subshares| && m < |ws|
  {
    var e := Errors(Claimed(subshares), Expected(player, subshares, cs));
    Mul(Neg(Dot(ws[m := Zero()], e, |ws|)), Invert(e[m]))
  }

  /** Sound: fix all other weights, and exactly one weight of a bad sub-share makes the check accept. */
  lemma BatchSound(
    player: U32, subshares: seq<SubShare>, cs: seq<DealerCommitment>, ws: seq<Scalar>, m: nat, w: Scalar)
    requires |ws| == |subshares| && m < |ws| && Present(player, subshares, cs)
    requires !SubshareValid(player, subshares[m], cs)
    ensures Accepts(player, subshares, cs, ws[m := w]) <==> w == HidingWeight(player, subshares, cs, ws, m)
  {
    var a, b := Claimed(subshares), Expected(player, subshares, cs);
    var e := Errors(a, b);
    PairedIff(player, subshares, cs);
    assert EntryPaired(player, subshares[m], cs);
    FeldmanCheck(CommitmentFor(cs, subshares[m].dealerIndex).value, player, subshares[m].value);
    SubZeroIff(a[m], b[m]);
    EqualIffErrorsCancel(ws[m := w], a, b);
    DotUpdate(ws, e, m, w, |ws|);
    LinearRoot(Dot(ws[m := Zero()], e, |ws|), w, e[m]);
  }
}
