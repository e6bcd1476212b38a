/** Feldman commitments, sub-shares, dealers and proofs of possession (`src/reshare.rs`, `src/dkg.rs`). */
module Commitments {
  import opened Words
  import opened Sequences
  import opened Field
  import opened Group
  import opened Polynomials
  import opened Encoding

  // ---- commitments ----

  datatype DealerCommitment = DealerCommitment(dealerIndex: U32, coefficients: seq<Point>) {
    function Threshold(): nat { |coefficients| }

    /** The polynomial in the exponent. */
    function Polynomial(): Poly { Logs(coefficients) }

    function ShareCommitment(): Point
      requires coefficients != []
    {
      coefficients[0]
    }
  }

  function DealerIndex(c: DealerCommitment): nat { c.dealerIndex }

  function Logs(ps: seq<Point>): (f: Poly)
    ensures |f| == |ps| && forall i :: 0 <= i < |f| ==> f[i] == ps[i].log
  {
    if ps == [] then [] else [ps[0].log] + Logs(ps[1..])
  }

  /** The commitments g^{a_k} to a polynomial's coefficients. */
  function Commit(f: Poly): (ps: seq<Point>)
    ensures |ps| == |f| && forall i :: 0 <= i < |f| ==> ps[i] == BaseMul(f[i])
  {
    if f == [] then [] else [BaseMul(f[0])] + Commit(f[1..])
  }

  lemma LogsOfCommit(f: Poly)
    ensures Logs(Commit(f)) == f
  {
    forall i | 0 <= i < |f|
      ensures Logs(Commit(f))[i] == f[i]
    {
      BaseMulLog(f[i]);
    }
  }

  lemma CommitOfLogs(ps: seq<Point>)
    ensures Commit(Logs(ps)) == ps
  {
    forall i | 0 <= i < |ps|
      ensures Commit(Logs(ps))[i] == ps[i]
    {
      BaseMulLog(ps[i].log);
    }
  }

  function FromPolynomial(dealerIndex: U32, f: Poly): (r: Result<DealerCommitment>)
    ensures r == Err(InvalidIndex) <==> dealerIndex == 0
    ensures r == Err(EmptyContributions) <==> dealerIndex != 0 && f == []
  {
    if dealerIndex == 0 then Err(InvalidIndex)
    else if f == [] then Err(EmptyContributions)
    else Ok(DealerCommitment(dealerIndex, Commit(f)))
  }

  /** Horner's rule in the group. */
  function EvalPoints(ps: seq<Point>, x: Scalar): Point {
    if ps == [] then Identity() else AddPoints(MulScalar(EvalPoints(ps[1..], x), x), ps[0])
  }

  /** Evaluating a commitment evaluates the committed polynomial in the exponent. */
  lemma {:induction false} EvalPointsLog(ps: seq<Point>, x: Scalar)
    ensures EvalPoints(ps, x) == BaseMul(Eval(Logs(ps), x))
  {
    BaseMulLog(Eval(Logs(ps), x));
    if ps != [] {
      EvalPointsLog(ps[1..], x);
      assert Logs(ps)[1..] == Logs(ps[1..]);
      BaseMulLog(Eval(Logs(ps[1..]), x));
      AddComm(ps[0].log, Mul(x, Eval(Logs(ps[1..]), x)));
    }
  }

  method HornerPoints(ps: seq<Point>, x: Scalar) returns (r: Point)
    ensures r == EvalPoints(ps, x)
  {
    r := Identity();
    for i := |ps| downto 0
      invariant r == EvalPoints(ps[i..], x)
    {
      assert ps[i..][1..] == ps[i + 1..];
      r := AddPoints(MulScalar(r, x), ps[i]);
    }
  }

  method EvaluateCommitment(c: DealerCommitment, x: Scalar) returns (r: Point)
    ensures r == Point(Eval(c.Polynomial(), x))
  {
    r := HornerPoints(c.coefficients, x);
    EvalPointsLog(c.coefficients, x);
    BaseMulLog(Eval(c.Polynomial(), x));
  }

  method HornerScalars(f: Poly, x: Scalar) returns (r: Scalar)
    ensures r == Eval(f, x)
  {
    r := Zero();
    for i := |f| downto 0
      invariant r == Eval(f[i..], x)
    {
      assert f[i..][1..] == f[i + 1..];
      MulComm(r, x);
      AddComm(Mul(x, r), f[i]);
      r := Add(Mul(r, x), f[i]);
    }
  }

  function EvaluateAt(c: DealerCommitment, playerIndex: U32): (r: Result<Point>)
    ensures r == Err(InvalidIndex) <==> playerIndex == 0
    ensures r.Ok? ==> forall v :: r.value == BaseMul(v) <==> VerifySubshare(c, playerIndex, v)
  {
    if playerIndex == 0 then Err(InvalidIndex)
    else Ok(EvalPoints(c.coefficients, FromU32(playerIndex)))
  }

  predicate VerifySubshare(c: DealerCommitment, playerIndex: U32, value: Scalar) {
    if playerIndex == 0 then false
    else BaseMul(value) == EvalPoints(c.coefficients, FromU32(playerIndex))
  }

  /** The Feldman check accepts exactly the committed polynomial's value, at a non-zero index. */
  lemma FeldmanCheck(c: DealerCommitment, playerIndex: U32, value: Scalar)
    ensures VerifySubshare(c, playerIndex, value) <==>
            playerIndex != 0 && value == Eval(c.Polynomial(), FromU32(playerIndex))
  {
    if playerIndex != 0 {
      var y := Eval(c.Polynomial(), FromU32(playerIndex));
      EvalPointsLog(c.coefficients, FromU32(playerIndex));
      BaseMulLog(value);
      BaseMulLog(y);
    }
  }

  // ---- sub-shares ----

  datatype SubShare = SubShare(dealerIndex: U32, playerIndex: U32, value: Scalar)

  function NewSubShare(dealerIndex: U32, playerIndex: U32, value: Scalar): Result<SubShare> {
    if dealerIndex == 0 || playerIndex == 0 then Err(InvalidIndex)
    else Ok(SubShare(dealerIndex, playerIndex, value))
  }

  /** A sub-share an aggregator has verified and keeps. */
  datatype Verified = Verified(dealer: U32, value: Scalar)

  /** Whose sub-shares an aggregator keeps, in order of arrival. */
  function Names(entries: seq<Verified>): (ds: seq<U32>)
    ensures |ds| == |entries|
    ensures forall i :: 0 <= i < |ds| ==> ds[i] == entries[i].dealer
  {
    seq(|entries|, i requires 0 <= i < |entries| => entries[i].dealer)
  }

  // ---- proofs of possession ----

  const RESHARE_POK_DOMAIN := "frostito/reshare-pok/v1"
  const DKG_POK_DOMAIN := "frostito/dkg-pok/v1"

  datatype Proof = Proof(r: Point, z: Scalar)

  function ProofPreimage(domain: Bytes, dealerIndex: U32, epoch: U64, c0: Point, r: Point): Bytes {
    domain + (U32Bytes(dealerIndex) + (U64Bytes(epoch) + (Compress(c0) + Compress(r))))
  }

  function ProofChallenge(domain: Bytes, dealerIndex: U32, epoch: U64, c0: Point, r: Point): Scalar {
    HASH_TO_SCALAR(ProofPreimage(domain, dealerIndex, epoch, c0, r))
  }

  /** A challenge is about one dealer, epoch, constant term and nonce. */
  lemma ProofChallengeDetermines(domain: Bytes, i: U32, epoch: U64, c0: Point, r: Point,
                                               j: U32, epoch': U64, c0': Point, r': Point)
    requires ProofPreimage(domain, i, epoch, c0, r) == ProofPreimage(domain, j, epoch', c0', r')
    ensures i == j && epoch == epoch' && c0 == c0' && r == r'
  {
    var p, p' := Compress(c0) + Compress(r), Compress(c0') + Compress(r');
    SplitEqual(domain, U32Bytes(i) + (U64Bytes(epoch) + p), domain, U32Bytes(j) + (U64Bytes(epoch') + p'));
    SplitEqual(U32Bytes(i), U64Bytes(epoch) + p, U32Bytes(j), U64Bytes(epoch') + p');
    SplitEqual(U64Bytes(epoch), p, U64Bytes(epoch'), p');
    SplitEqual(Compress(c0), Compress(r), Compress(c0'), Compress(r'));
    U32BytesInjective(i, j);
    U64BytesInjective(epoch, epoch');
    CompressInjective(c0, c0');
    CompressInjective(r, r');
  }

  /** The challenges of key generation and of resharing are never computed from the same bytes. */
  lemma ProofDomainsSeparate(i: U32, epoch: U64, c0: Point, r: Point,
                                                j: U32, epoch': U64, c0': Point, r': Point)
    ensures ProofPreimage(Ascii(DKG_POK_DOMAIN), i, epoch, c0, r) !=
            ProofPreimage(Ascii(RESHARE_POK_DOMAIN), j, epoch', c0', r')
  {}

  function ProveIn(domain: Bytes, dealerIndex: U32, epoch: U64, a0: Scalar, k: Scalar): Proof {
    var r := BaseMul(k);
    var e := ProofChallenge(domain, dealerIndex, epoch, BaseMul(a0), r);
    Proof(r, Add(k, Mul(e, a0)))
  }

  predicate VerifyIn(proof: Proof, domain: Bytes, dealerIndex: U32, epoch: U64, c0: Point) {
    var e := ProofChallenge(domain, dealerIndex, epoch, c0, proof.r);
    BaseMul(proof.z) == AddPoints(proof.r, MulScalar(c0, e))
  }

  /** z = log R + e·log C_0, where e is the hash of domain, dealer, epoch, C_0 and R. */
  ghost predicate Proves(proof: Proof, domain: Bytes, dealerIndex: U32, epoch: U64, c0: Point) {
    var e := HASH_TO_SCALAR(ProofPreimage(domain, dealerIndex, epoch, c0, proof.r));
    proof.z == Add(proof.r.log, Mul(e, c0.log))
  }

  lemma VerifyInExact(proof: Proof, domain: Bytes, dealerIndex: U32, epoch: U64, c0: Point)
    ensures VerifyIn(proof, domain, dealerIndex, epoch, c0) <==> Proves(proof, domain, dealerIndex, epoch, c0)
  {
    BaseMulLog(proof.z);
  }

  /** An honest proof verifies, for every nonce. */
  lemma ProofCompleteness(domain: Bytes, dealerIndex: U32, epoch: U64, a0: Scalar, k: Scalar)
    ensures VerifyIn(ProveIn(domain, dealerIndex, epoch, a0, k), domain, dealerIndex, epoch, BaseMul(a0))
  {
    var e := ProofChallenge(domain, dealerIndex, epoch, BaseMul(a0), BaseMul(k));
    BaseMulLog(Add(k, Mul(e, a0)));
    BaseMulLog(k);
    BaseMulLog(a0);
  }

  lemma PreimageNamesDomain(domain: Bytes, i: U32, epoch: U64, c0: Point, r: Point,
                            domain': Bytes, j: U32, epoch': U64, c0': Point, r': Point)
    requires ProofPreimage(domain, i, epoch, c0, r) == ProofPreimage(domain', j, epoch', c0', r')
    ensures domain == domain'
  {
    var rest := U32Bytes(i) + (U64Bytes(epoch) + (Compress(c0) + Compress(r)));
    var rest' := U32Bytes(j) + (U64Bytes(epoch') + (Compress(c0') + Compress(r')));
    assert |rest| == |rest'|;
    SplitEqual(domain, rest, domain', rest');
  }

  /** An honest proof for one dealer, epoch and domain, presented for others: it verifies exactly when the hash
      gives both challenges, or the constant term is zero. */
  lemma ReplayIff(domain: Bytes, i: U32, epoch: U64, a0: Scalar, k: Scalar, domain': Bytes, j: U32, epoch': U64)
    ensures VerifyIn(ProveIn(domain, i, epoch, a0, k), domain', j, epoch', BaseMul(a0)) <==>
            || a0 == Zero()
            || HASH_TO_SCALAR(ProofPreimage(domain, i, epoch, BaseMul(a0), BaseMul(k)))
               == HASH_TO_SCALAR(ProofPreimage(domain', j, epoch', BaseMul(a0), BaseMul(k)))
  {
    var proof := ProveIn(domain, i, epoch, a0, k);
    var e := HASH_TO_SCALAR(ProofPreimage(domain, i, epoch, BaseMul(a0), BaseMul(k)));
    var e' := HASH_TO_SCALAR(ProofPreimage(domain', j, epoch', BaseMul(a0), BaseMul(k)));
    ProofCompleteness(domain, i, epoch, a0, k);
    VerifyInExact(proof, domain, i, epoch, BaseMul(a0));
    VerifyInExact(proof, domain', j, epoch', BaseMul(a0));
    BaseMulLog(a0);
    BaseMulLog(k);
    MulZero(e);
    MulZero(e');
    AddComm(k, Mul(e, a0));
    AddComm(k, Mul(e', a0));
    if Add(k, Mul(e, a0)) == Add(k, Mul(e', a0)) {
      AddCancel(Mul(e, a0), Mul(e', a0), k);
      if a0 != Zero() {
        MulCancel(e, e', a0);
      }
    }
  }

  /** So, short of a collision, a proof cannot be replayed: not by another dealer, not in another epoch, and not
      between key generation and resharing. */
  lemma ProofNotReplayable(domain: Bytes, i: U32, epoch: U64, a0: Scalar, k: Scalar,
                           domain': Bytes, j: U32, epoch': U64)
    requires a0 != Zero()
    requires NoScalarCollision(ProofPreimage(domain, i, epoch, BaseMul(a0), BaseMul(k)),
                               ProofPreimage(domain', j, epoch', BaseMul(a0), BaseMul(k)))
    ensures VerifyIn(ProveIn(domain, i, epoch, a0, k), domain', j, epoch', BaseMul(a0)) <==>
            domain' == domain && j == i && epoch' == epoch
  {
    var c0, r := BaseMul(a0), BaseMul(k);
    ReplayIff(domain, i, epoch, a0, k, domain', j, epoch');
    if VerifyIn(ProveIn(domain, i, epoch, a0, k), domain', j, epoch', c0) {
      PreimageNamesDomain(domain, i, epoch, c0, r, domain', j, epoch', c0, r);
      ProofChallengeDetermines(domain, i, epoch, c0, r, j, epoch', c0, r);
    }
  }

  // ---- dealers ----

  datatype Dealer = Dealer(index: U32, polynomial: Poly, commitment: DealerCommitment)

  ghost predicate ValidDealer(d: Dealer) {
    && d.index != 0 && d.polynomial != []
    && d.commitment == DealerCommitment(d.index, Commit(d.polynomial))
  }

  function NewDealer(index: U32, polynomial: Poly): (r: Result<Dealer>)
    ensures r.Ok? <==> index != 0 && polynomial != []
    ensures r.Ok? ==> ValidDealer(r.value) && r.value.index == index && r.value.polynomial == polynomial
    ensures r == Err(InvalidIndex) <==> index == 0
  {
    if index == 0 then Err(InvalidIndex)
    else if polynomial == [] then Err(ThresholdMismatch(1, 0))
    else
      match FromPolynomial(index, polynomial)
      case Ok(c) => Ok(Dealer(index, polynomial, c))
      case Err(e) => Err(e)
  }

  function SubshareFor(d: Dealer, playerIndex: U32): Result<SubShare> {
    if playerIndex == 0 then Err(InvalidIndex)
    else NewSubShare(d.index, playerIndex, Eval(d.polynomial, FromU32(playerIndex)))
  }

  method GenerateSubshare(d: Dealer, playerIndex: U32) returns (r: Result<SubShare>)
    ensures r == SubshareFor(d, playerIndex)
  {
    if playerIndex == 0 {
      return Err(InvalidIndex);
    }
    var value := HornerScalars(d.polynomial, FromU32(playerIndex));
    return NewSubShare(d.index, playerIndex, value);
  }

  /** An honest dealer's sub-shares pass the check against its own commitment. */
  lemma HonestSubshareVerifies(d: Dealer, playerIndex: U32)
    requires ValidDealer(d) && playerIndex != 0
    ensures SubshareFor(d, playerIndex) == Ok(SubShare(d.index, playerIndex, Eval(d.polynomial, FromU32(playerIndex))))
    ensures VerifySubshare(d.commitment, playerIndex, SubshareFor(d, playerIndex).value.value)
  {
    LogsOfCommit(d.polynomial);
    FeldmanCheck(d.commitment, playerIndex, Eval(d.polynomial, FromU32(playerIndex)));
  }

  // ---- the agreed dealer set of both aggregators ----

  /** `Aggregator::new`: the validated, sorted dealer set. */
  function CheckedDealerSet(playerIndex: U32, dealers: seq<U32>): Result<seq<U32>> {
    if playerIndex == 0 then Err(InvalidIndex)
    else if dealers == [] then Err(EmptyContributions)
    else
      var sorted := Sort(dealers);
      match FirstRepeat(sorted)
      case Some(d) => Err(DuplicateIndex(d))
      case None => if sorted[0] == 0 then Err(InvalidIndex) else Ok(sorted)
  }

  ghost predicate ValidDealerSet(dealers: seq<U32>) {
    dealers != [] && Ascending(dealers) && 0 !in dealers
  }

  lemma CheckedDealerSetOutcome(playerIndex: U32, dealers: seq<U32>)
    ensures CheckedDealerSet(playerIndex, dealers).Ok? <==>
            playerIndex != 0 && dealers != [] && Distinct(dealers) && 0 !in dealers
    ensures CheckedDealerSet(playerIndex, dealers).Ok? ==>
              && ValidDealerSet(CheckedDealerSet(playerIndex, dealers).value)
              && Elements(CheckedDealerSet(playerIndex, dealers).value) == Elements(dealers)
    ensures CheckedDealerSet(playerIndex, dealers) == Err(EmptyContributions) <==> playerIndex != 0 && dealers == []
    ensures CheckedDealerSet(playerIndex, dealers) == Err(InvalidIndex) <==>
            playerIndex == 0 || (Distinct(dealers) && 0 in dealers)
    ensures playerIndex != 0 && !Distinct(dealers) ==>
              exists d :: CheckedDealerSet(playerIndex, dealers) == Err(DuplicateIndex(d))
                       && multiset(dealers)[d] >= 2 && forall x :: x < d ==> multiset(dealers)[x] <= 1
  {
    var sorted := Sort(dealers);
    SortFindsDuplicates(dealers);
    SameMultisetSameElements(dealers, sorted);
    assert Elements(sorted) == Elements(dealers);
    if dealers != [] && Ascending(sorted) {
      assert 0 in sorted ==> sorted[0] == 0;
    }
  }
}
