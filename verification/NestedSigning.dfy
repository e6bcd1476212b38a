/** The inner signing round (`src/nested.rs`): commit, reveal, sign. The sum of the inner responses is
    the response of one flat FROST signer (sections 5.2 and 5.3 of RFC 9591). */
module NestedSigning {
  import opened Words
  import opened Sequences
  import opened Field
  import opened Group
  import opened Polynomials
  import opened Lagrange
  import opened Encoding
  import opened NestedAggregation
  import opened Zf

  datatype InnerNonces = InnerNonces(holder: U32, session: Bytes32, hiding: Scalar, binding: Scalar)

  datatype Precommit = Precommit(holder: U32, digest: Bytes32)

  datatype SecretShare = SecretShare(index: U32, scalar: Scalar)

  datatype Request = Request(
    package: Package,
    nestedIndex: U32,
    session: Bytes32,
    precommits: seq<Precommit>,
    commitments: seq<InnerCommitments>,
    active: seq<U32>,
    innerThreshold: U32)

  function CommitTo(n: InnerNonces): InnerCommitments {
    InnerCommitments(n.holder, n.session, BaseMul(n.hiding), BaseMul(n.binding))
  }

  // ---- the commit-reveal round ----

  const INNER_PRECOMMIT_DOMAIN := "frostito-inner-precommit-v2"

  function PrecommitPreimage(c: InnerCommitments): Bytes {
    Ascii(INNER_PRECOMMIT_DOMAIN) + (U32Bytes(c.holder) + (c.session + (Compress(c.hiding) + Compress(c.binding))))
  }

  function InnerPrecommit(c: InnerCommitments): Bytes32 { SHA512_32(PrecommitPreimage(c)) }

  /** A holder cannot reveal anything but what it committed to, short of a collision. */
  lemma PrecommitBinds(a: InnerCommitments, b: InnerCommitments)
    requires NoCollision(PrecommitPreimage(a), PrecommitPreimage(b))
    ensures InnerPrecommit(a) == InnerPrecommit(b) <==> a == b
  {
    if InnerPrecommit(a) == InnerPrecommit(b) {
      var d := Ascii(INNER_PRECOMMIT_DOMAIN);
      var a2, b2 := Compress(a.hiding) + Compress(a.binding), Compress(b.hiding) + Compress(b.binding);
      SplitEqual(d, U32Bytes(a.holder) + (a.session + a2), d, U32Bytes(b.holder) + (b.session + b2));
      SplitEqual(U32Bytes(a.holder), a.session + a2, U32Bytes(b.holder), b.session + b2);
      SplitEqual(a.session, a2, b.session, b2);
      SplitEqual(Compress(a.hiding), Compress(a.binding), Compress(b.hiding), Compress(b.binding));
      U32BytesInjective(a.holder, b.holder);
      CompressInjective(a.hiding, b.hiding);
      CompressInjective(a.binding, b.binding);
    }
  }

  function PrecommitHolder(p: Precommit): U32 { p.holder }

  function PrecommitOf(ps: seq<Precommit>, holder: U32): (r: Option<Bytes32>)
    ensures r.Some? ==> Precommit(holder, r.value) in ps
    ensures r.None? ==> forall p :: p in ps ==> p.holder != holder
  {
    match FirstWith(PrecommitHolder, ps, holder)
    case Some(p) => Some(p.digest)
    case None =>
      assert forall p :: p in ps ==> PrecommitHolder(p) != holder;
      None
  }

  function Revealed(cs: seq<InnerCommitments>): (hs: seq<U32>)
    ensures |hs| == |cs| && forall i :: 0 <= i < |hs| ==> hs[i] == cs[i].holder
  {
    seq(|cs|, i requires 0 <= i < |cs| => cs[i].holder)
  }

  lemma CommitmentInDistinct(cs: seq<InnerCommitments>, i: nat)
    requires Distinct(Revealed(cs)) && i < |cs|
    ensures CommitmentOf(cs, cs[i].holder) == Some(cs[i])
  {
    forall j, k | 0 <= j < k < |cs|
      ensures CommitmentHolder(cs[j]) != CommitmentHolder(cs[k])
    {
      assert Revealed(cs)[j] != Revealed(cs)[k];
    }
    FirstWithDistinct(CommitmentHolder, cs, i);
  }

  /** Why reveal i is refused, if it is. */
  function RevealError(session: Bytes32, ps: seq<Precommit>, cs: seq<InnerCommitments>, i: nat): Option<Error>
    requires i < |cs|
  {
    var c := cs[i];
    if c.holder == 0 then Some(InvalidIndex)
    else if c.session != session then Some(SessionMismatch)
    else if c.holder in Revealed(cs)[..i] then Some(DuplicateIndex(c.holder))
    else if PrecommitOf(ps, c.holder) != Some(InnerPrecommit(c)) then Some(PrecommitMismatch(c.holder))
    else None
  }

  function FirstRevealError(session: Bytes32, ps: seq<Precommit>, cs: seq<InnerCommitments>, n: nat): Option<Error>
    requires n <= |cs|
  {
    if n == 0 then None
    else
      var before := FirstRevealError(session, ps, cs, n - 1);
      if before.Some? then before else RevealError(session, ps, cs, n - 1)
  }

  function HidingLogs(cs: seq<InnerCommitments>): (vs: seq<Scalar>)
    ensures |vs| == |cs| && forall i :: 0 <= i < |vs| ==> vs[i] == cs[i].hiding.log
  {
    seq(|cs|, i requires 0 <= i < |cs| => cs[i].hiding.log)
  }

  function BindingLogs(cs: seq<InnerCommitments>): (vs: seq<Scalar>)
    ensures |vs| == |cs| && forall i :: 0 <= i < |vs| ==> vs[i] == cs[i].binding.log
  {
    seq(|cs|, i requires 0 <= i < |cs| => cs[i].binding.log)
  }

  datatype Pair = Pair(hiding: Point, binding: Point)

  /** (Σ D_k, Σ E_k) over all reveals. */
  function PairResult(session: Bytes32, ps: seq<Precommit>, cs: seq<InnerCommitments>): Result<Pair> {
    if cs == [] then Err(EmptyContributions)
    else
      match FirstRevealError(session, ps, cs, |cs|)
      case Some(e) => Err(e)
      case None => Ok(Pair(Point(Sum(HidingLogs(cs))), Point(Sum(BindingLogs(cs)))))
  }

  lemma {:induction false} FirstErrorStays(session: Bytes32, ps: seq<Precommit>, cs: seq<InnerCommitments>, m: nat,
                                           n: nat)
    requires m <= n <= |cs| && FirstRevealError(session, ps, cs, m).Some?
    ensures FirstRevealError(session, ps, cs, n) == FirstRevealError(session, ps, cs, m)
    decreases n
  {
    if m < n {
      FirstErrorStays(session, ps, cs, m, n - 1);
    }
  }

  method AggregateInnerCommitmentPair(session: Bytes32, ps: seq<Precommit>, cs: seq<InnerCommitments>)
    returns (r: Result<Pair>)
    ensures r == PairResult(session, ps, cs)
  {
    if cs == [] {
      return Err(EmptyContributions);
    }
    var seen: seq<U32> := [];
    var d, e := Identity(), Identity();
    for i := 0 to |cs|
      invariant seen == Revealed(cs)[..i]
      invariant FirstRevealError(session, ps, cs, i).None?
      invariant d == Point(SumTo(HidingLogs(cs), i)) && e == Point(SumTo(BindingLogs(cs), i))
    {
      var c := cs[i];
      var error := None;
      if c.holder == 0 {
        error := Some(InvalidIndex);
      } else if c.session != session {
        error := Some(SessionMismatch);
      } else if c.holder in seen {
        error := Some(DuplicateIndex(c.holder));
      } else if PrecommitOf(ps, c.holder) != Some(InnerPrecommit(c)) {
        error := Some(PrecommitMismatch(c.holder));
      }
      assert error == RevealError(session, ps, cs, i);
      if error.Some? {
        FirstErrorStays(session, ps, cs, i + 1, |cs|);
        return Err(error.value);
      }
      seen := seen + [c.holder];
      d := AddPoints(d, c.hiding);
      e := AddPoints(e, c.binding);
    }
    return Ok(Pair(d, e));
  }

  /** An accepted reveal set names each holder once. */
  lemma {:induction false} AcceptedRevealsDistinct(session: Bytes32, ps: seq<Precommit>, cs: seq<InnerCommitments>,
                                                   n: nat)
    requires n <= |cs| && FirstRevealError(session, ps, cs, n).None?
    ensures Distinct(Revealed(cs)[..n])
    ensures forall i :: 0 <= i < n ==> RevealError(session, ps, cs, i).None?
    decreases n
  {
    if n != 0 {
      AcceptedRevealsDistinct(session, ps, cs, n - 1);
      assert RevealError(session, ps, cs, n - 1).None?;
      assert Revealed(cs)[..n] == Revealed(cs)[..n - 1] + [Revealed(cs)[n - 1]];
    }
  }

  function VerifyNestedCommitment(package: Package, nestedIndex: U32, session: Bytes32,
                                  ps: seq<Precommit>, cs: seq<InnerCommitments>): Result<()>
  {
    var id :- NestedIdentifier(package.suite, nestedIndex);
    match EntryOf(package.entries, id)
    case None => Err(InvalidIndex)
    case Some(entry) =>
      var pair :- PairResult(session, ps, cs);
      if entry.hiding != pair.hiding || entry.binding != pair.binding then Err(UnexpectedCommitment) else Ok(())
  }

  // ---- signing ----

  /** The first fault of the quorum's first n members. */
  function QuorumError(active: seq<U32>, cs: seq<InnerCommitments>, n: nat): Option<Error>
    requires n <= |active|
  {
    if n == 0 then None
    else
      var before, k := QuorumError(active, cs, n - 1), active[n - 1];
      if before.Some? then before
      else if k == 0 then Some(InvalidIndex)
      else if k in active[..n - 1] then Some(DuplicateIndex(k))
      else if k !in Revealed(cs) then Some(UnknownQuorumMember(k))
      else None
  }

  /** `inner_sign`, all its refusals in order. */
  function InnerSign(nonces: InnerNonces, share: SecretShare, localKey: Point, approved: Bytes, r: Request):
    (res: Result<SignatureShare>)
    ensures res.Ok? ==>
              && r.package.message == approved && nonces.session == r.session
              && res.value.holder == nonces.holder
  {
    if r.package.message != approved then Err(MessageMismatch)
    else if |r.active| < r.innerThreshold then Err(InsufficientContributions(|r.active|, r.innerThreshold))
    else
      var fault := QuorumError(r.active, r.commitments, |r.active|);
      if fault.Some? then Err(fault.value)
      else if nonces.session != r.session then Err(SessionMismatch)
      else
        var mine := CommitmentOf(r.commitments, nonces.holder);
        if mine.None? then Err(UnexpectedCommitment)
        else if mine.value.session != r.session
                || mine.value.hiding != BaseMul(nonces.hiding)
                || mine.value.binding != BaseMul(nonces.binding) then Err(UnexpectedCommitment)
        else
          var _ :- VerifyNestedCommitment(r.package, r.nestedIndex, r.session, r.precommits, r.commitments);
          var params :- ParamsFor(r.package, localKey, r.nestedIndex);
          var lagrange :- LagrangeResult(r.active);
          match Position(r.active, share.index)
          case None => Err(InvalidIndex)
          case Some(pos) =>
            LagrangeOutcome(r.active);
            var rhoE := Mul(params.rho, nonces.binding);
            var weight := ShareWeight(params, lagrange[pos]);
            Ok(SignatureShare(nonces.holder, Add(Add(nonces.hiding, rhoE), Mul(weight, share.scalar))))
  }

  lemma {:induction false} NoQuorumError(active: seq<U32>, cs: seq<InnerCommitments>, n: nat)
    requires n <= |active| && Distinct(active) && 0 !in active && forall k :: k in active ==> k in Revealed(cs)
    ensures QuorumError(active, cs, n).None?
    decreases n
  {
    if n != 0 {
      NoQuorumError(active, cs, n - 1);
    }
  }

  // ---- an honest round ----

  /** One flat signer's response: section 5.2 of RFC 9591. */
  function FlatResponse(d: Scalar, e: Scalar, params: Params, sigma: Scalar): Scalar {
    Add(Add(d, Mul(params.rho, e)), Mul(Mul(params.lambda, params.challenge), sigma))
  }

  /** A quorum of holders of shares of h that signs an agreed request: each approves the message, reveals
      what it committed to, and finds the package carrying the sum of the reveals. */
  ghost predicate HonestRound(r: Request, h: Poly, localKey: Point, approved: Bytes, nonces: seq<InnerNonces>) {
    && r.package.message == approved
    && ValidQuorum(r.active) && r.innerThreshold <= |r.active| && |h| <= r.innerThreshold
    && |nonces| == |r.active|
    && (forall i :: 0 <= i < |nonces| ==>
          && nonces[i].holder == r.active[i] && nonces[i].session == r.session
          && CommitmentOf(r.commitments, r.active[i]) == Some(CommitTo(nonces[i])))
    && VerifyNestedCommitment(r.package, r.nestedIndex, r.session, r.precommits, r.commitments).Ok?
    && ParamsFor(r.package, localKey, r.nestedIndex).Ok?
  }

  function ShareOf(h: Poly, holder: U32): SecretShare { SecretShare(holder, Eval(h, FromU32(holder))) }

  function PublicShares(h: Poly, holders: seq<U32>): (ps: seq<PublicShare>)
    ensures |ps| == |holders|
    ensures forall i :: 0 <= i < |ps| ==> ps[i] == PublicShare(holders[i], BaseMul(Eval(h, FromU32(holders[i]))))
  {
    seq(|holders|, i requires 0 <= i < |holders| => PublicShare(holders[i], BaseMul(Eval(h, FromU32(holders[i])))))
  }

  lemma PublicSharesLookup(h: Poly, holders: seq<U32>, i: nat)
    requires i < |holders|
    ensures PublicOf(PublicShares(h, holders), holders[i]) == Some(BaseMul(Eval(h, FromU32(holders[i]))))
  {
    var ps := PublicShares(h, holders);
    assert ps[i] in ps;
    var found := PublicOf(ps, holders[i]);
    var j :| 0 <= j < |ps| && ps[j] == PublicShare(holders[i], found.value);
  }

  /** The response holder i of an honest round gives. */
  ghost function HonestResponse(r: Request, h: Poly, localKey: Point, nonces: seq<InnerNonces>, i: nat): Scalar
    requires i < |nonces| == |r.active| && ParamsFor(r.package, localKey, r.nestedIndex).Ok?
  {
    var params := ParamsFor(r.package, localKey, r.nestedIndex).value;
    Response(CommitTo(nonces[i]), BaseMul(Eval(h, FromU32(r.active[i]))), params, Coefficients(r.active)[i])
  }

  /** Every holder of an honest round signs, and its share verifies. */
  lemma HonestHolderSigns(r: Request, h: Poly, localKey: Point, approved: Bytes,
                                             nonces: seq<InnerNonces>, i: nat)
    requires HonestRound(r, h, localKey, approved, nonces) && i < |nonces|
    ensures var sig := InnerSign(nonces[i], ShareOf(h, r.active[i]), localKey, approved, r);
      && sig == Ok(SignatureShare(r.active[i], HonestResponse(r, h, localKey, nonces, i)))
      && Passes(sig.value, r.commitments, PublicShares(h, r.active),
                ParamsFor(r.package, localKey, r.nestedIndex).value, r.active)
  {
    var params := ParamsFor(r.package, localKey, r.nestedIndex).value;
    forall k | k in r.active
      ensures k in Revealed(r.commitments)
    {
      var j :| 0 <= j < |r.active| && r.active[j] == k;
      assert nonces[j].holder == k;
      var m :| 0 <= m < |r.commitments| && r.commitments[m] == CommitTo(nonces[j]);
      assert Revealed(r.commitments)[m] == k;
    }
    NoQuorumError(r.active, r.commitments, |r.active|);
    LagrangeOutcome(r.active);
    PositionInDistinct(r.active, i);
    BaseMulLog(nonces[i].hiding);
    BaseMulLog(nonces[i].binding);
    BaseMulLog(Eval(h, FromU32(r.active[i])));
    PublicSharesLookup(h, r.active, i);
    VerifyInnerShareExact(SignatureShare(r.active[i], HonestResponse(r, h, localKey, nonces, i)),
                          CommitTo(nonces[i]), BaseMul(Eval(h, FromU32(r.active[i]))), params,
                          Coefficients(r.active)[i]);
  }
}
