/** Exactly when an inner holder answers a signing request (`src/nested.rs`, `inner_sign` and the checks it
    calls), stated without the order in which the checks run. */
module NestedGuards {
  import opened Words
  import opened Sequences
  import opened Group
  import opened Polynomials
  import opened Lagrange
  import opened Encoding
  import opened NestedAggregation
  import opened Zf
  import opened NestedSigning

  // ---- the reveals ----

  /** Every reveal is of this session, names its holder once, and is what that holder had committed to. */
  ghost predicate RevealsHonoured(session: Bytes32, ps: seq<Precommit>, cs: seq<InnerCommitments>) {
    && cs != [] && Distinct(Revealed(cs))
    && forall i :: 0 <= i < |cs| ==>
         && cs[i].holder != 0 && cs[i].session == session
         && PrecommitOf(ps, cs[i].holder) == Some(InnerPrecommit(cs[i]))
  }

  lemma {:induction false} NoRevealError(session: Bytes32, ps: seq<Precommit>, cs: seq<InnerCommitments>, n: nat)
    requires n <= |cs| && RevealsHonoured(session, ps, cs)
    ensures FirstRevealError(session, ps, cs, n).None?
    decreases n
  {
    if n != 0 {
      NoRevealError(session, ps, cs, n - 1);
      var k := Revealed(cs)[n - 1];
      assert k !in Revealed(cs)[..n - 1];
    }
  }

  /** The pair is formed exactly from honoured reveals, and is the sum over all of them. */
  lemma PairFormedIff(session: Bytes32, ps: seq<Precommit>, cs: seq<InnerCommitments>, pair: Pair)
    ensures PairResult(session, ps, cs) == Ok(pair) <==>
            && RevealsHonoured(session, ps, cs)
            && pair.hiding.log == Sum(HidingLogs(cs)) && pair.binding.log == Sum(BindingLogs(cs))
  {
    if RevealsHonoured(session, ps, cs) {
      NoRevealError(session, ps, cs, |cs|);
    }
    if PairResult(session, ps, cs).Ok? {
      AcceptedRevealsDistinct(session, ps, cs, |cs|);
      assert Revealed(cs)[..|cs|] == Revealed(cs);
      forall i | 0 <= i < |cs|
        ensures cs[i].holder != 0 && cs[i].session == session
        ensures PrecommitOf(ps, cs[i].holder) == Some(InnerPrecommit(cs[i]))
      {
        assert RevealError(session, ps, cs, i).None?;
      }
    }
  }

  // ---- the quorum ----

  lemma {:induction false} QuorumAccepted(active: seq<U32>, cs: seq<InnerCommitments>, n: nat)
    requires n <= |active| && QuorumError(active, cs, n).None?
    ensures Distinct(active[..n]) && 0 !in active[..n] && forall k :: k in active[..n] ==> k in Revealed(cs)
    decreases n
  {
    if n != 0 {
      QuorumAccepted(active, cs, n - 1);
      assert active[..n] == active[..n - 1] + [active[n - 1]];
    }
  }

  ghost predicate QuorumRevealed(r: Request) {
    && ValidQuorum(r.active) && r.innerThreshold <= |r.active|
    && forall k :: k in r.active ==> k in Revealed(r.commitments)
  }

  lemma QuorumIff(r: Request)
    requires r.active != []
    ensures QuorumRevealed(r) <==>
            QuorumError(r.active, r.commitments, |r.active|).None? && r.innerThreshold <= |r.active|
  {
    assert r.active[..|r.active|] == r.active;
    if QuorumError(r.active, r.commitments, |r.active|).None? {
      QuorumAccepted(r.active, r.commitments, |r.active|);
    }
    if QuorumRevealed(r) {
      NoQuorumError(r.active, r.commitments, |r.active|);
    }
  }

  // ---- the package ----

  /** The package's entry for the nested position is the sum of the reveals. */
  ghost predicate EntryIsSum(r: Request) {
    && 0 < r.nestedIndex < 0x1_0000
    && var entry := EntryOf(r.package.entries, IdentifierBytes(r.package.suite, r.nestedIndex));
    && entry.Some?
    && entry.value.hiding == Point(Sum(HidingLogs(r.commitments)))
    && entry.value.binding == Point(Sum(BindingLogs(r.commitments)))
  }

  lemma NestedCommitmentIff(r: Request)
    ensures VerifyNestedCommitment(r.package, r.nestedIndex, r.session, r.precommits, r.commitments).Ok? <==>
            RevealsHonoured(r.session, r.precommits, r.commitments) && EntryIsSum(r)
  {
    var cs := r.commitments;
    PairFormedIff(r.session, r.precommits, cs, Pair(Point(Sum(HidingLogs(cs))), Point(Sum(BindingLogs(cs)))));
    var pair := PairResult(r.session, r.precommits, cs);
    if pair.Ok? {
      PairFormedIff(r.session, r.precommits, cs, pair.value);
    }
  }

  // ---- the answer ----

  /** All that must hold for a holder to answer. */
  ghost predicate MayAnswer(nonces: InnerNonces, share: SecretShare, localKey: Point, approved: Bytes, r: Request) {
    && r.package.message == approved
    && nonces.session == r.session
    && CommitmentOf(r.commitments, nonces.holder) == Some(CommitTo(nonces))
    && QuorumRevealed(r) && share.index in r.active
    && RevealsHonoured(r.session, r.precommits, r.commitments) && EntryIsSum(r)
    && ParamsFor(r.package, localKey, r.nestedIndex).Ok?
  }

  /** A holder answers exactly the requests it may, and then with d + ρ·e + (λ·c·μ)·σ, μ being the
      coefficient of its share's index in the quorum. */
  lemma AnswersIff(nonces: InnerNonces, share: SecretShare, localKey: Point, approved: Bytes, r: Request)
    ensures InnerSign(nonces, share, localKey, approved, r).Ok? <==> MayAnswer(nonces, share, localKey, approved, r)
    ensures MayAnswer(nonces, share, localKey, approved, r) ==>
              var params := ParamsFor(r.package, localKey, r.nestedIndex).value;
              var mu := Coefficients(r.active)[Position(r.active, share.index).value];
              InnerSign(nonces, share, localKey, approved, r) ==
              Ok(SignatureShare(nonces.holder, Response(CommitTo(nonces), BaseMul(share.scalar), params, mu)))
  {
    NestedCommitmentIff(r);
    LagrangeOutcome(r.active);
    BaseMulLog(nonces.hiding);
    BaseMulLog(nonces.binding);
    BaseMulLog(share.scalar);
    if r.active != [] {
      QuorumIff(r);
    }
  }

  // ---- refusals ----

  /** The error is true of reveal i. */
  ghost predicate Against(session: Bytes32, ps: seq<Precommit>, cs: seq<InnerCommitments>, i: nat, e: Error)
    requires i < |cs|
  {
    match e
    case InvalidIndex => cs[i].holder == 0
    case SessionMismatch => cs[i].session != session
    case DuplicateIndex(k) => cs[i].holder == k && exists j :: 0 <= j < i && cs[j].holder == k
    case PrecommitMismatch(k) => cs[i].holder == k && PrecommitOf(ps, k) != Some(InnerPrecommit(cs[i]))
    case _ => false
  }

  lemma {:induction false} RevealErrorJustified(session: Bytes32, ps: seq<Precommit>, cs: seq<InnerCommitments>, n: nat)
    requires n <= |cs| && FirstRevealError(session, ps, cs, n).Some?
    ensures exists i :: 0 <= i < n && Against(session, ps, cs, i, FirstRevealError(session, ps, cs, n).value)
    decreases n
  {
    if FirstRevealError(session, ps, cs, n - 1).Some? {
      RevealErrorJustified(session, ps, cs, n - 1);
    } else {
      if cs[n - 1].holder in Revealed(cs)[..n - 1] {
        var j :| 0 <= j < n - 1 && Revealed(cs)[j] == cs[n - 1].holder;
        assert cs[j].holder == cs[n - 1].holder;
      }
      assert Against(session, ps, cs, n - 1, FirstRevealError(session, ps, cs, n).value);
    }
  }

  /** Refused reveals name the fault: what the error says is true of a reveal, so a holder that is named revealed
      twice, or revealed what it had not committed to. */
  lemma PairRefusalJustified(session: Bytes32, ps: seq<Precommit>, cs: seq<InnerCommitments>)
    ensures PairResult(session, ps, cs) == Err(EmptyContributions) <==> cs == []
    ensures PairResult(session, ps, cs).Err? && cs != [] ==>
              exists i :: 0 <= i < |cs| && Against(session, ps, cs, i, PairResult(session, ps, cs).error)
  {
    if PairResult(session, ps, cs).Err? && cs != [] {
      RevealErrorJustified(session, ps, cs, |cs|);
    }
  }

  /** The error is true of the quorum. */
  ghost predicate AgainstQuorum(active: seq<U32>, cs: seq<InnerCommitments>, e: Error) {
    match e
    case InvalidIndex => 0 in active
    case DuplicateIndex(k) => multiset(active)[k] >= 2
    case UnknownQuorumMember(k) => k in active && k !in Revealed(cs)
    case _ => false
  }

  lemma {:induction false} QuorumErrorJustified(active: seq<U32>, cs: seq<InnerCommitments>, n: nat)
    requires n <= |active| && QuorumError(active, cs, n).Some?
    ensures AgainstQuorum(active, cs, QuorumError(active, cs, n).value)
    decreases n
  {
    if QuorumError(active, cs, n - 1).Some? {
      QuorumErrorJustified(active, cs, n - 1);
    } else {
      var k, most := active[n - 1], active[..n - 1];
      assert active == most + [k] + active[n..];
      assert k in most ==> multiset(most)[k] >= 1;
    }
  }

  /** Why a holder refuses before it looks at the outer round, in order: another message, too few signers, a quorum
      that is none, nonces of another session, and a published set without its own commitment. */
  lemma RefusalJustified(nonces: InnerNonces, share: SecretShare, localKey: Point, approved: Bytes, r: Request)
    ensures var res := InnerSign(nonces, share, localKey, approved, r);
      var quorum := QuorumError(r.active, r.commitments, |r.active|);
      && (r.package.message != approved ==> res == Err(MessageMismatch))
      && (r.package.message == approved && |r.active| < r.innerThreshold ==>
            res == Err(InsufficientContributions(|r.active|, r.innerThreshold)))
      && (r.package.message == approved && |r.active| >= r.innerThreshold && !QuorumFine(r) ==>
            res.Err? && AgainstQuorum(r.active, r.commitments, res.error))
      && (r.package.message == approved && |r.active| >= r.innerThreshold && QuorumFine(r) ==>
            && (nonces.session != r.session ==> res == Err(SessionMismatch))
            && (nonces.session == r.session && CommitmentOf(r.commitments, nonces.holder) != Some(CommitTo(nonces)) ==>
                  res == Err(UnexpectedCommitment)))
  {
    assert r.active[..|r.active|] == r.active;
    if QuorumError(r.active, r.commitments, |r.active|).Some? {
      QuorumErrorJustified(r.active, r.commitments, |r.active|);
    } else {
      QuorumAccepted(r.active, r.commitments, |r.active|);
    }
    if QuorumFine(r) {
      NoQuorumError(r.active, r.commitments, |r.active|);
    }
  }

  /** Distinct non-zero signers that have all revealed. */
  ghost predicate QuorumFine(r: Request) {
    Distinct(r.active) && 0 !in r.active && forall k :: k in r.active ==> k in Revealed(r.commitments)
  }

  // ---- the honest protocol is never refused ----

  function NonceHolders(nonces: seq<InnerNonces>): (hs: seq<U32>)
    ensures |hs| == |nonces| && forall i :: 0 <= i < |hs| ==> hs[i] == nonces[i].holder
  {
    seq(|nonces|, i requires 0 <= i < |nonces| => nonces[i].holder)
  }

  /** Fresh nonces of this session, one pair for each of some holders. */
  ghost predicate FreshNonces(nonces: seq<InnerNonces>, session: Bytes32) {
    ValidQuorum(NonceHolders(nonces)) && forall i :: 0 <= i < |nonces| ==> nonces[i].session == session
  }

  function Published(nonces: seq<InnerNonces>): (cs: seq<InnerCommitments>)
    ensures |cs| == |nonces| && forall i :: 0 <= i < |cs| ==> cs[i] == CommitTo(nonces[i])
  {
    seq(|nonces|, i requires 0 <= i < |nonces| => CommitTo(nonces[i]))
  }

  function Precommitted(nonces: seq<InnerNonces>): (ps: seq<Precommit>)
    ensures |ps| == |nonces|
    ensures forall i :: 0 <= i < |ps| ==> ps[i] == Precommit(nonces[i].holder, InnerPrecommit(CommitTo(nonces[i])))
  {
    seq(|nonces|, i requires 0 <= i < |nonces| => Precommit(nonces[i].holder, InnerPrecommit(CommitTo(nonces[i]))))
  }

  lemma PrecommitFound(nonces: seq<InnerNonces>, i: nat)
    requires Distinct(NonceHolders(nonces)) && i < |nonces|
    ensures PrecommitOf(Precommitted(nonces), nonces[i].holder) == Some(InnerPrecommit(CommitTo(nonces[i])))
  {
    var ps := Precommitted(nonces);
    forall j, k | 0 <= j < k < |ps|
      ensures PrecommitHolder(ps[j]) != PrecommitHolder(ps[k])
    {
      assert NonceHolders(nonces)[j] != NonceHolders(nonces)[k];
    }
    FirstWithDistinct(PrecommitHolder, ps, i);
  }

  /** Commitments published and revealed as precommitted are honoured, and reveal exactly their holders. */
  lemma PublicationHonoured(nonces: seq<InnerNonces>, session: Bytes32)
    requires FreshNonces(nonces, session)
    ensures Revealed(Published(nonces)) == NonceHolders(nonces)
    ensures RevealsHonoured(session, Precommitted(nonces), Published(nonces))
  {
    var cs := Published(nonces);
    assert Revealed(cs) == NonceHolders(nonces);
    forall i | 0 <= i < |cs|
      ensures cs[i].holder != 0 && PrecommitOf(Precommitted(nonces), cs[i].holder) == Some(InnerPrecommit(cs[i]))
    {
      assert NonceHolders(nonces)[i] in NonceHolders(nonces);
      PrecommitFound(nonces, i);
    }
  }

  /** Holders precommit, publish and reveal; a package carries the sum; and a quorum of them is asked to sign.
      That is an honest round, whatever other holders revealed. */
  lemma PublicationIsHonestRound(
    r: Request, h: Poly, localKey: Point, approved: Bytes, published: seq<InnerNonces>, nonces: seq<InnerNonces>)
    requires FreshNonces(published, r.session)
    requires r.commitments == Published(published) && r.precommits == Precommitted(published)
    requires ValidQuorum(r.active) && r.innerThreshold <= |r.active| && |h| <= r.innerThreshold
    requires NonceHolders(nonces) == r.active && forall n :: n in nonces ==> n in published
    requires r.package.message == approved && EntryIsSum(r) && ParamsFor(r.package, localKey, r.nestedIndex).Ok?
    ensures HonestRound(r, h, localKey, approved, nonces)
    ensures Revealed(r.commitments) == NonceHolders(published)
  {
    PublicationHonoured(published, r.session);
    NestedCommitmentIff(r);
    forall i | 0 <= i < |nonces|
      ensures nonces[i].holder == r.active[i] && nonces[i].session == r.session
      ensures CommitmentOf(r.commitments, r.active[i]) == Some(CommitTo(nonces[i]))
    {
      assert NonceHolders(nonces)[i] == r.active[i];
      assert nonces[i] in published;
      var j :| 0 <= j < |published| && published[j] == nonces[i];
      CommitmentInDistinct(r.commitments, j);
    }
  }
}
