/** A round in which the nested position does not answer as a flat signer: one holder of two signs, both having
    revealed. */
module SilentHolder {
  import opened Words
  import opened Sequences
  import opened Field
  import opened Group
  import opened Polynomials
  import opened Encoding
  import opened NestedAggregation
  import opened Zf
  import opened NestedSigning
  import opened NestedGuards
  import opened NestedEqualsFlat

  lemma OneSilent(cs: seq<InnerCommitments>, rho: Scalar)
    requires |cs| == 2 && cs[0].holder != cs[1].holder
    requires cs[1].hiding == BaseMul(One()) && cs[1].binding == BaseMul(Zero())
    ensures SilentCommitment(cs, [cs[0].holder], rho) != Identity()
  {
    var active := [cs[0].holder];
    assert SilentCommitment(cs[1..][1..], active, rho) == Identity();
    assert SilentCommitment(cs[1..], active, rho) == AddPoints(NonceCommitment(cs[1], rho), Identity());
    assert cs[0].holder in active;
    BaseMulLog(One());
    BaseMulLog(Zero());
    MulZero(rho);
    AddZero(One());
    ZeroIsNotOne();
  }

  /** Holder 1 with nonces (d, e), holder 2 with nonces (1, 0). */
  function BothNonces(session: Bytes32, d: Scalar, e: Scalar): seq<InnerNonces> {
    [InnerNonces(1, session, d, e), InnerNonces(2, session, One(), Zero())]
  }

  /** A package of the nested position alone, carrying the sum of both reveals. */
  function LonePackage(session: Bytes32, message: Bytes, d: Scalar, e: Scalar): Package {
    var cs := Published(BothNonces(session, d, e));
    Package(LittleEndianSuite, message,
            [PackageEntry(LittleForm(1, IDENTIFIER_SIZE), Point(Sum(HidingLogs(cs))), Point(Sum(BindingLogs(cs))))])
  }

  /** The request to sign it with holder 1 as the whole quorum, at inner threshold 1. */
  function LoneRequest(session: Bytes32, message: Bytes, d: Scalar, e: Scalar): Request {
    var nonces := BothNonces(session, d, e);
    Request(LonePackage(session, message, d, e), 1, session, Precommitted(nonces), Published(nonces), [1], 1)
  }

  /** `frost-core` derives a binding factor and a challenge from the package. */
  predicate OuterDerives(session: Bytes32, message: Bytes, d: Scalar, e: Scalar, localKey: Point) {
    var package := LonePackage(session, message, d, e);
    && OUTER_BINDING(package, localKey, IdentifierBytes(LittleEndianSuite, 1)).Ok?
    && OUTER_CHALLENGE(package, localKey).Ok?
  }

  lemma LoneParams(session: Bytes32, message: Bytes, d: Scalar, e: Scalar, localKey: Point)
    requires OuterDerives(session, message, d, e, localKey)
    ensures var r := LoneRequest(session, message, d, e);
      ParamsFor(r.package, localKey, 1).Ok? && EntryIsSum(r)
  {
    var entries := LonePackage(session, message, d, e).entries;
    IdentifierRoundTrip(1);
    assert IndicesUpTo(entries, 0) == Ok([]);
    assert IndicesUpTo(entries, 1) == Ok([] + [1]);
    ParamsIff(LonePackage(session, message, d, e), localKey, 1);
    assert FirstWith(EntryId, entries, LittleForm(1, IDENTIFIER_SIZE)) == Some(entries[0]);
  }

  lemma LoneRoundHonest(session: Bytes32, message: Bytes, d: Scalar, e: Scalar, localKey: Point, sigma: Scalar)
    requires OuterDerives(session, message, d, e, localKey)
    ensures HonestRound(LoneRequest(session, message, d, e), [sigma], localKey, message, BothNonces(session, d, e)[..1])
  {
    var both := BothNonces(session, d, e);
    assert NonceHolders(both) == [1, 2];
    assert NonceHolders(both[..1]) == [1];
    LoneParams(session, message, d, e, localKey);
    PublicationIsHonestRound(LoneRequest(session, message, d, e), [sigma], localKey, message, both, both[..1]);
  }

  /** In an honest round of one signer, its answer is the whole set of shares. */
  lemma LoneSignature(r: Request, h: Poly, localKey: Point, approved: Bytes, nonces: seq<InnerNonces>)
    returns (sig: SignatureShare)
    requires HonestRound(r, h, localKey, approved, nonces) && |r.active| == 1
    ensures HonestSignatures(r, h, localKey, approved, nonces, [sig])
  {
    HonestHolderSigns(r, h, localKey, approved, nonces, 0);
    sig := InnerSign(nonces[0], ShareOf(h, r.active[0]), localKey, approved, r).value;
    assert HoldersOf([sig]) == r.active;
  }

  /** The holder answers, the round is honest, and the aggregate is not the flat response: for every session,
      message, key, share and nonces of the signing holder from which the outer values can be derived. */
  lemma SilentHolderBreaksEquality(session: Bytes32, message: Bytes, d: Scalar, e: Scalar, localKey: Point,
                                   sigma: Scalar)
    requires OuterDerives(session, message, d, e, localKey)
    ensures var r := LoneRequest(session, message, d, e);
      var nonces := BothNonces(session, d, e)[..1];
      && HonestRound(r, [sigma], localKey, message, nonces)
      && PairResult(r.session, r.precommits, r.commitments).Ok?
      && exists sigs ::
           && HonestSignatures(r, [sigma], localKey, message, nonces, sigs)
           && Sum(Responses(sigs)) != FlatTarget(r, [sigma], localKey)
  {
    LoneRoundHonest(session, message, d, e, localKey, sigma);
    Differs(LoneRequest(session, message, d, e), [sigma], localKey, message, BothNonces(session, d, e)[..1]);
  }

  lemma Differs(r: Request, h: Poly, localKey: Point, approved: Bytes, nonces: seq<InnerNonces>)
    requires HonestRound(r, h, localKey, approved, nonces)
    requires |r.commitments| == 2 && r.active == [r.commitments[0].holder]
    requires r.commitments[0].holder != r.commitments[1].holder
    requires r.commitments[1].hiding == BaseMul(One()) && r.commitments[1].binding == BaseMul(Zero())
    ensures PairResult(r.session, r.precommits, r.commitments).Ok?
    ensures exists sigs ::
              && HonestSignatures(r, h, localKey, approved, nonces, sigs)
              && Sum(Responses(sigs)) != FlatTarget(r, h, localKey)
  {
    var sig := LoneSignature(r, h, localKey, approved, nonces);
    NestedEqualsFlatIff(r, h, localKey, approved, nonces, [sig]);
    OneSilent(r.commitments, RoundParams(r, localKey).rho);
    assert HonestSignatures(r, h, localKey, approved, nonces, [sig])
           && Sum(Responses([sig])) != FlatTarget(r, h, localKey);
  }
}
