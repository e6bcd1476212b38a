/** Layered signing (`src/signer.rs`) over a record of spent sessions (`src/nested.rs`): over any run, one
    share per session and holder. */
module Signer {
  import opened Words
  import opened Sequences
  import opened Field
  import opened Group
  import opened Polynomials
  import opened Lagrange
  import opened Encoding
  import opened NestedAggregation
  import opened Zf
  import opened NestedSigning
  import opened NestedGuards
  import opened NestedEqualsFlat
  import opened SilentHolder
  import opened Context

  // ---- requests ----

  datatype SignRequest = SignRequest(nonces: InnerNonces, nested: Request, message: Bytes)

  function Raw(nonces: InnerNonces, approved: Bytes, nested: Request): SignRequest {
    SignRequest(nonces, nested, approved)
  }

  function Bound(nonces: InnerNonces, ctx: SigningContext, nested: Request): SignRequest {
    SignRequest(nonces, nested, Encode(ctx))
  }

  type Spent = (Bytes32, U32)

  /** What a request spends. */
  function SpendKey(req: SignRequest): Spent { (req.nonces.session, req.nonces.holder) }

  // ---- signers: a holder under any number of spending layers ----

  datatype Signer =
    | Holder(share: SecretShare, key: Point)
    | Spending(store: set<Spent>, inner: Signer)

  /** The signer afterwards, and its answer. A layer records the session before it delegates. */
  function Sign(s: Signer, req: SignRequest): (Signer, Result<SignatureShare>) {
    match s
    case Holder(share, key) => (s, InnerSign(req.nonces, share, key, req.message, req.nested))
    case Spending(store, inner) =>
      if SpendKey(req) in store then (s, Err(SessionSpent))
      else
        var (inner', r) := Sign(inner, req);
        (Spending(store + {SpendKey(req)}, inner'), r)
  }

  /** The holder at the bottom of the stack. */
  function Base(s: Signer): (b: Signer)
    ensures b.Holder?
  {
    match s
    case Holder(_, _) => s
    case Spending(_, inner) => Base(inner)
  }

  /** Some layer has recorded k. */
  predicate Refuses(s: Signer, k: Spent) {
    s.Spending? && (k in s.store || Refuses(s.inner, k))
  }

  /** A stack answers as its bare holder would, unless some layer has recorded the session; and signing
      records exactly the request's session, whatever the holder answers. */
  lemma {:induction false} SignExact(s: Signer, req: SignRequest, k: Spent)
    ensures Sign(s, req).1 == if Refuses(s, SpendKey(req)) then Err(SessionSpent) else Sign(Base(s), req).1
    ensures Base(Sign(s, req).0) == Base(s) && Sign(s, req).0.Spending? == s.Spending?
    ensures Refuses(Sign(s, req).0, k) <==> Refuses(s, k) || (s.Spending? && k == SpendKey(req))
    decreases s
  {
    match s
    case Holder(_, _) =>
    case Spending(store, inner) => SignExact(inner, req, k);
  }

  // ---- runs ----

  function After(s: Signer, reqs: seq<SignRequest>): Signer {
    if reqs == [] then s else Sign(After(s, reqs[..|reqs| - 1]), reqs[|reqs| - 1]).0
  }

  /** The answer to request i of a run. */
  function Answer(s: Signer, reqs: seq<SignRequest>, i: nat): Result<SignatureShare>
    requires i < |reqs|
  {
    Sign(After(s, reqs[..i]), reqs[i]).1
  }

  ghost predicate AskedBefore(reqs: seq<SignRequest>, i: nat, k: Spent)
    requires i <= |reqs|
  {
    exists j :: 0 <= j < i && SpendKey(reqs[j]) == k
  }

  lemma {:induction false} AfterRun(s: Signer, reqs: seq<SignRequest>, k: Spent)
    ensures Base(After(s, reqs)) == Base(s) && After(s, reqs).Spending? == s.Spending?
    ensures Refuses(After(s, reqs), k) <==> Refuses(s, k) || (s.Spending? && AskedBefore(reqs, |reqs|, k))
  {
    if reqs != [] {
      var n := |reqs| - 1;
      AfterRun(s, reqs[..n], k);
      SignExact(After(s, reqs[..n]), reqs[n], k);
      assert AskedBefore(reqs, |reqs|, k) <==> AskedBefore(reqs[..n], n, k) || SpendKey(reqs[n]) == k;
    }
  }

  /** Every answer of every run: refused exactly when the pair was recorded before, otherwise the
      holder's own answer. */
  lemma RunExact(s: Signer, reqs: seq<SignRequest>, i: nat)
    requires s.Spending? && i < |reqs|
    ensures Answer(s, reqs, i) ==
            if Refuses(s, SpendKey(reqs[i])) || AskedBefore(reqs, i, SpendKey(reqs[i])) then Err(SessionSpent)
            else Sign(Base(s), reqs[i]).1
  {
    var k := SpendKey(reqs[i]);
    AfterRun(s, reqs[..i], k);
    SignExact(After(s, reqs[..i]), reqs[i], k);
    assert AskedBefore(reqs[..i], i, k) <==> AskedBefore(reqs, i, k);
  }

  /** At most one share per session and holder, and a recorded pair stays refused. */
  lemma OneSharePerSession(s: Signer, reqs: seq<SignRequest>, i: nat, j: nat)
    requires s.Spending? && i < j < |reqs| && SpendKey(reqs[i]) == SpendKey(reqs[j])
    ensures Answer(s, reqs, j) == Err(SessionSpent)
  {
    RunExact(s, reqs, j);
    assert AskedBefore(reqs, j, SpendKey(reqs[j]));
  }

  /** A share is labelled with the pair it spent, and the signed package carries the approved message. */
  lemma ShareIsLabelled(s: Signer, req: SignRequest)
    requires Sign(s, req).1.Ok?
    ensures Sign(s, req).1.value.holder == SpendKey(req).1
    ensures req.nonces.session == req.nested.session
    ensures req.nested.package.message == req.message
  {
    SignExact(s, req, SpendKey(req));
  }

  /** In a run, shares answered for the same holder come from different sessions. */
  lemma SharesDiffer(s: Signer, reqs: seq<SignRequest>, i: nat, j: nat)
    requires s.Spending? && i < j < |reqs| && Answer(s, reqs, i).Ok? && Answer(s, reqs, j).Ok?
    ensures Answer(s, reqs, i).value.holder == Answer(s, reqs, j).value.holder ==>
              reqs[i].nested.session != reqs[j].nested.session
  {
    ShareIsLabelled(After(s, reqs[..i]), reqs[i]);
    ShareIsLabelled(After(s, reqs[..j]), reqs[j]);
    if SpendKey(reqs[i]) == SpendKey(reqs[j]) {
      OneSharePerSession(s, reqs, i, j);
    }
  }

  // ---- why a pair of nonces answers once ----

  /** Two responses under one pair of nonces, with σ the holder's share and w = λ·c·μ:
      z₁ - z₂ == (ρ₁ - ρ₂)·e + (w₁ - w₂)·σ. */
  lemma TwoResponses(c: InnerCommitments, public: Point, first: Params, firstMu: Scalar, second: Params,
                     secondMu: Scalar)
    ensures Sub(Response(c, public, first, firstMu), Response(c, public, second, secondMu)) ==
            Add(Mul(Sub(first.rho, second.rho), c.binding.log),
                Mul(Sub(ShareWeight(first, firstMu), ShareWeight(second, secondMu)), public.log))
  {
    var d, e, sigma := c.hiding.log, c.binding.log, public.log;
    var w, v := ShareWeight(first, firstMu), ShareWeight(second, secondMu);
    var dr, dw := Sub(first.rho, second.rho), Sub(w, v);
    AddSub(first.rho, second.rho);
    DistribRight(dr, second.rho, e);
    AddSub(w, v);
    DistribRight(dw, v, sigma);
    AddAssoc(d, Mul(dr, e), Mul(second.rho, e));
    AddRotate(d, Mul(dr, e), Mul(second.rho, e));
    AddSwap(Add(d, Mul(second.rho, e)), Mul(dr, e), Mul(v, sigma), Mul(dw, sigma));
    AddComm(Mul(dw, sigma), Mul(v, sigma));
    var z := Response(c, public, second, secondMu);
    AddComm(z, Add(Mul(dr, e), Mul(dw, sigma)));
    AddSub(Add(Mul(dr, e), Mul(dw, sigma)), z);
  }

  /** So (z₁ - z₂)/(w₁ - w₂) is the share exactly when the binding factors' difference contributes nothing. */
  lemma QuotientIsShareIff(c: InnerCommitments, public: Point, first: Params, firstMu: Scalar, second: Params,
                           secondMu: Scalar)
    requires ShareWeight(first, firstMu) != ShareWeight(second, secondMu)
    ensures var dz := Sub(Response(c, public, first, firstMu), Response(c, public, second, secondMu));
      var dw := Sub(ShareWeight(first, firstMu), ShareWeight(second, secondMu));
      Mul(dz, Invert(dw)) == public.log <==> Mul(Sub(first.rho, second.rho), c.binding.log) == Zero()
  {
    var dz := Sub(Response(c, public, first, firstMu), Response(c, public, second, secondMu));
    var dw := Sub(ShareWeight(first, firstMu), ShareWeight(second, secondMu));
    var x := Mul(Sub(first.rho, second.rho), c.binding.log);
    TwoResponses(c, public, first, firstMu, second, secondMu);
    SubZeroIff(ShareWeight(first, firstMu), ShareWeight(second, secondMu));
    MulInvert(dw);
    MulAssoc(dz, Invert(dw), dw);
    MulOne(dz);
    MulComm(dw, public.log);
    if Mul(dz, Invert(dw)) == public.log {
      AddZero(Mul(dw, public.log));
      AddCancel(x, Zero(), Mul(dw, public.log));
    }
    if x == Zero() {
      AddZero(Mul(dw, public.log));
      MulCancel(Mul(dz, Invert(dw)), public.log, dw);
    }
  }

  /** w = λ·c·μ for one holder in one request. */
  ghost function AnswerWeight(share: SecretShare, localKey: Point, r: Request): Scalar
    requires ParamsFor(r.package, localKey, r.nestedIndex).Ok? && share.index in r.active
  {
    ShareWeight(RoundParams(r, localKey), Coefficients(r.active)[Position(r.active, share.index).value])
  }

  /** The quotient an observer computes from the answers to two requests under one pair of nonces. */
  ghost function Quotient(nonces: InnerNonces, share: SecretShare, localKey: Point, first: Request, second: Request):
    Scalar
    requires MayAnswer(nonces, share, localKey, first.package.message, first)
    requires MayAnswer(nonces, share, localKey, second.package.message, second)
  {
    AnswersIff(nonces, share, localKey, first.package.message, first);
    AnswersIff(nonces, share, localKey, second.package.message, second);
    var z := InnerSign(nonces, share, localKey, first.package.message, first).value.response;
    var y := InnerSign(nonces, share, localKey, second.package.message, second).value.response;
    Mul(Sub(z, y), Invert(Sub(AnswerWeight(share, localKey, first), AnswerWeight(share, localKey, second))))
  }

  /** Of two answers of one holder under one pair of nonces: the quotient is its share exactly when the binding
      factors agree or the binding nonce is zero. */
  lemma TwoAnswers(nonces: InnerNonces, share: SecretShare, localKey: Point, first: Request, second: Request)
    requires MayAnswer(nonces, share, localKey, first.package.message, first)
    requires MayAnswer(nonces, share, localKey, second.package.message, second)
    requires AnswerWeight(share, localKey, first) != AnswerWeight(share, localKey, second)
    ensures Quotient(nonces, share, localKey, first, second) == share.scalar <==>
            RoundParams(first, localKey).rho == RoundParams(second, localKey).rho || nonces.binding == Zero()
  {
    var p, q := RoundParams(first, localKey), RoundParams(second, localKey);
    var mu := Coefficients(first.active)[Position(first.active, share.index).value];
    var nu := Coefficients(second.active)[Position(second.active, share.index).value];
    AnswersIff(nonces, share, localKey, first.package.message, first);
    AnswersIff(nonces, share, localKey, second.package.message, second);
    QuotientIsShareIff(CommitTo(nonces), BaseMul(share.scalar), p, mu, q, nu);
    BaseMulLog(share.scalar);
    BaseMulLog(nonces.binding);
    ProductZeroIff(Sub(p.rho, q.rho), nonces.binding);
    SubZeroIff(p.rho, q.rho);
  }

  lemma ProductZeroIff(a: Scalar, b: Scalar)
    ensures Mul(a, b) == Zero() <==> a == Zero() || b == Zero()
  {
    MulZero(a);
    MulZero(b);
    if a != Zero() && b != Zero() {
      MulNonZero(a, b);
    }
  }

  /** Two rounds in which it is not: a lone holder signs two messages under one pair of nonces with e != 0, and
      the binding factors that `frost-core` derives differ. */
  lemma QuotientMisses(session: Bytes32, one: Bytes, two: Bytes, d: Scalar, e: Scalar, localKey: Point, sigma: Scalar)
    requires OuterDerives(session, one, d, e, localKey) && OuterDerives(session, two, d, e, localKey)
    ensures var nonces, share := InnerNonces(1, session, d, e), SecretShare(1, sigma);
      var first, second := LoneRequest(session, one, d, e), LoneRequest(session, two, d, e);
      && MayAnswer(nonces, share, localKey, one, first) && MayAnswer(nonces, share, localKey, two, second)
      && (AnswerWeight(share, localKey, first) != AnswerWeight(share, localKey, second)
          && RoundParams(first, localKey).rho != RoundParams(second, localKey).rho && e != Zero() ==>
            Quotient(nonces, share, localKey, first, second) != sigma)
  {
    var nonces, share := InnerNonces(1, session, d, e), SecretShare(1, sigma);
    var first, second := LoneRequest(session, one, d, e), LoneRequest(session, two, d, e);
    LoneAnswers(session, one, d, e, localKey, sigma);
    LoneAnswers(session, two, d, e, localKey, sigma);
    if AnswerWeight(share, localKey, first) != AnswerWeight(share, localKey, second) {
      TwoAnswers(nonces, share, localKey, first, second);
    }
  }

  lemma LoneAnswers(session: Bytes32, message: Bytes, d: Scalar, e: Scalar, localKey: Point, sigma: Scalar)
    requires OuterDerives(session, message, d, e, localKey)
    ensures MayAnswer(InnerNonces(1, session, d, e), SecretShare(1, sigma), localKey, message,
                      LoneRequest(session, message, d, e))
  {
    var r, nonces := LoneRequest(session, message, d, e), BothNonces(session, d, e)[..1];
    LoneRoundHonest(session, message, d, e, localKey, sigma);
    HonestHolderSigns(r, [sigma], localKey, message, nonces, 0);
    EvalConstant(sigma, FromU32(1));
    AnswersIff(nonces[0], SecretShare(1, sigma), localKey, message, r);
  }

  // ---- what a share is over ----

  /** A stack answers a raw request exactly when no layer has recorded its session and its holder may answer it
      for the bytes given, and records it either way. */
  lemma RawAnsweredIff(s: Signer, nonces: InnerNonces, approved: Bytes, nested: Request)
    ensures var req := Raw(nonces, approved, nested);
      && (Sign(s, req).1.Ok? <==>
            && !Refuses(s, (nonces.session, nonces.holder))
            && MayAnswer(nonces, Base(s).share, Base(s).key, approved, nested))
      && (s.Spending? ==> Refuses(Sign(s, req).0, (nonces.session, nonces.holder)))
  {
    SignExact(s, Raw(nonces, approved, nested), (nonces.session, nonces.holder));
    AnswersIff(nonces, Base(s).share, Base(s).key, approved, nested);
  }

  /** A share for a bound request authorizes one epoch, manifest and message, and no other. */
  lemma BoundToOneContext(s: Signer, nonces: InnerNonces, ctx: SigningContext, nested: Request,
                          other: SigningContext)
    requires Sign(s, Bound(nonces, ctx, nested)).1.Ok?
    requires |ctx.message| < U64_LIMIT && |other.message| < U64_LIMIT
    ensures nested.package.message == Encode(other) <==> other == ctx
  {
    ShareIsLabelled(s, Bound(nonces, ctx, nested));
    if Encode(ctx) == Encode(other) {
      EncodeInjective(ctx, other);
    }
  }

  // ---- the objects ----

  class MemorySpentSessions {
    var spent: set<Spent>

    constructor ()
      ensures spent == {}
    {
      spent := {};
    }

    method Spend(session: Bytes32, holder: U32) returns (r: Result<()>)
      modifies this
      ensures r == if (session, holder) in old(spent) then Err(SessionSpent) else Ok(())
      ensures spent == old(spent) + {(session, holder)}
    {
      var inserted := (session, holder) !in spent;
      spent := spent + {(session, holder)};
      if !inserted {
        return Err(SessionSpent);
      }
      return Ok(());
    }

    predicate IsSpent(session: Bytes32, holder: U32)
      reads this
    {
      (session, holder) in spent
    }
  }

  /** `Spend` wrapped around `Holder`. */
  class SpendingHolder {
    const store: MemorySpentSessions
    const share: SecretShare
    const key: Point

    constructor (store: MemorySpentSessions, share: SecretShare, key: Point)
      ensures this.store == store && this.share == share && this.key == key
    {
      this.store, this.share, this.key := store, share, key;
    }

    ghost function State(): Signer
      reads this, store
    {
      Spending(store.spent, Holder(share, key))
    }

    method SignOnce(req: SignRequest) returns (r: Result<SignatureShare>)
      modifies store
      ensures (State(), r) == Sign(old(State()), req)
      ensures store.IsSpent(req.nonces.session, req.nonces.holder)
    {
      var recorded := store.Spend(req.nonces.session, req.nonces.holder);
      if recorded.Err? {
        assert store.spent == old(store.spent);
        return Err(recorded.error);
      }
      r := InnerSign(req.nonces, share, key, req.message, req.nested);
    }
  }
}
