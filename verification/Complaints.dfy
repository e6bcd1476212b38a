/** Signed complaints against dealers (`src/dkg.rs`): what a signature binds, and what a verdict means. */
module Complaints {
  import opened Words
  import opened Field
  import opened Group
  import opened Polynomials
  import opened Encoding
  import opened Buffers
  import opened Commitments
  import opened Codecs
  import opened Slots
  import opened Echo
  import Round = DkgRound

  const COMPLAINT_SIG_DOMAIN := "frostito/dkg-complaint/v1"
  const COMMITMENT_DIGEST_DOMAIN := "frostito/sealed/commitment/v1"

  function CommitmentDigest(c: DealerCommitment): Bytes32 {
    SHA512_32(Ascii(COMMITMENT_DIGEST_DOMAIN) + CommitmentBytes(c))
  }

  /** The fixed-width field that carries a scalar. */
  type ScalarField = b: Bytes | |b| == SCALAR_CODEC.size witness ScalarBytes(Zero())

  datatype BadSubShare = BadSubShare(
    dealer: U32,
    recipient: U32,
    session: Bytes32,
    round: Byte,
    subshare: ScalarField,
    agreedDigest: Bytes32,
    sealedDigest: Bytes32)

  datatype Evidence = ForgedProof(package: Round.Package) | Cheated(bad: BadSubShare) {
    function Accused(): U32 {
      if ForgedProof? then package.commitment.dealerIndex else bad.dealer
    }
  }

  datatype Complaint = Complaint(
    epoch: U64,
    session: Bytes32,
    round: Byte,
    accuser: U32,
    accused: U32,
    evidence: Evidence,
    r: Point,
    s: Scalar)

  datatype Verdict = Upheld | Unfounded

  // ---- the signed bytes ----

  function EncodeBad(e: BadSubShare): Bytes {
    U32Bytes(e.dealer) + (U32Bytes(e.recipient) + (e.session +
    ([e.round] + (e.subshare + (e.agreedDigest + e.sealedDigest)))))
  }

  function EncodeEvidence(e: Evidence): Bytes {
    match e
    case ForgedProof(p) =>
      [1] + (Prefixed(CommitmentBytes(p.commitment)) +
             (Prefixed(Compress(p.proof.r)) + Prefixed(ScalarBytes(p.proof.z))))
    case Cheated(bad) => [2] + Prefixed(EncodeBad(bad))
  }

  function Body(epoch: U64, session: Bytes32, round: Byte, accuser: U32, accused: U32, e: Evidence): Bytes {
    Prefixed(Ascii(COMPLAINT_SIG_DOMAIN)) +
    (U64Bytes(epoch) + (session + ([round] + (U32Bytes(accuser) + (U32Bytes(accused) + EncodeEvidence(e))))))
  }

  function BodyOf(c: Complaint): Bytes { Body(c.epoch, c.session, c.round, c.accuser, c.accused, c.evidence) }

  method AppendField(out: Buffer, field: Bytes)
    modifies out
    ensures out.bytes == old(out.bytes) + Prefixed(field)
  {
    out.Extend(U64Bytes(|field| % U64_LIMIT));
    out.Extend(field);
  }

  method EncodeEvidenceInto(e: Evidence, out: Buffer)
    modifies out
    ensures out.bytes == old(out.bytes) + EncodeEvidence(e)
  {
    match e {
      case ForgedProof(p) =>
        var commitment := PrintCommitment(p.commitment);
        out.Extend([1]);
        AppendField(out, commitment);
        AppendField(out, Compress(p.proof.r));
        AppendField(out, ScalarBytes(p.proof.z));
        Flatten4(old(out.bytes), [1], Prefixed(commitment), Prefixed(Compress(p.proof.r)),
                 Prefixed(ScalarBytes(p.proof.z)));
      case Cheated(bad) =>
        out.Extend([2]);
        AppendField(out, EncodeBad(bad));
        Regroup(old(out.bytes), [2], Prefixed(EncodeBad(bad)));
    }
  }

  method BuildBody(c: Complaint) returns (body: Bytes)
    ensures body == BodyOf(c)
  {
    var out := new Buffer();
    AppendField(out, Ascii(COMPLAINT_SIG_DOMAIN));
    out.Extend(U64Bytes(c.epoch));
    out.Extend(c.session);
    out.Extend([c.round]);
    out.Extend(U32Bytes(c.accuser));
    out.Extend(U32Bytes(c.accused));
    EncodeEvidenceInto(c.evidence, out);
    body := out.bytes;
    Flatten7(Prefixed(Ascii(COMPLAINT_SIG_DOMAIN)), U64Bytes(c.epoch), c.session, [c.round],
             U32Bytes(c.accuser), U32Bytes(c.accused), EncodeEvidence(c.evidence));
  }

  lemma Flatten4<T>(a: seq<T>, b: seq<T>, c: seq<T>, d: seq<T>, e: seq<T>)
    ensures a + b + c + d + e == a + (b + (c + (d + e)))
  {}

  lemma Flatten7<T>(a: seq<T>, b: seq<T>, c: seq<T>, d: seq<T>, e: seq<T>, f: seq<T>, g: seq<T>)
    ensures [] + a + b + c + d + e + f + g == a + (b + (c + (d + (e + (f + g)))))
  {}

  /** The length-prefixed fields fit their prefixes. */
  ghost predicate EvidenceFits(e: Evidence) {
    match e
    case ForgedProof(p) =>
      |CommitmentBytes(p.commitment)| < U64_LIMIT && POINT_CODEC.size < U64_LIMIT && SCALAR_CODEC.size < U64_LIMIT
    case Cheated(bad) => |EncodeBad(bad)| < U64_LIMIT
  }

  lemma BadInjective(a: BadSubShare, b: BadSubShare)
    requires EncodeBad(a) == EncodeBad(b)
    ensures a == b
  {
    var a6, b6 := a.agreedDigest + a.sealedDigest, b.agreedDigest + b.sealedDigest;
    var a5, b5 := a.subshare + a6, b.subshare + b6;
    var a4, b4 := [a.round] + a5, [b.round] + b5;
    var a3, b3 := a.session + a4, b.session + b4;
    SplitEqual(U32Bytes(a.dealer), U32Bytes(a.recipient) + a3, U32Bytes(b.dealer), U32Bytes(b.recipient) + b3);
    SplitEqual(U32Bytes(a.recipient), a3, U32Bytes(b.recipient), b3);
    SplitEqual(a.session, a4, b.session, b4);
    SplitEqual([a.round], a5, [b.round], b5);
    SplitEqual(a.subshare, a6, b.subshare, b6);
    SplitEqual(a.agreedDigest, a.sealedDigest, b.agreedDigest, b.sealedDigest);
    U32BytesInjective(a.dealer, b.dealer);
    U32BytesInjective(a.recipient, b.recipient);
    assert [a.round][0] == [b.round][0];
  }

  lemma ForgedInjective(p: Round.Package, q: Round.Package)
    requires EncodeEvidence(ForgedProof(p)) == EncodeEvidence(ForgedProof(q))
    requires EvidenceFits(ForgedProof(p)) && EvidenceFits(ForgedProof(q))
    ensures p == q
  {
    var pz, qz := Prefixed(ScalarBytes(p.proof.z)), Prefixed(ScalarBytes(q.proof.z));
    var pr, qr := Prefixed(Compress(p.proof.r)) + pz, Prefixed(Compress(q.proof.r)) + qz;
    SplitEqual([1], Prefixed(CommitmentBytes(p.commitment)) + pr, [1], Prefixed(CommitmentBytes(q.commitment)) + qr);
    PrefixedSplit(CommitmentBytes(p.commitment), pr, CommitmentBytes(q.commitment), qr);
    PrefixedSplit(Compress(p.proof.r), pz, Compress(q.proof.r), qz);
    PrefixedInjective(ScalarBytes(p.proof.z), ScalarBytes(q.proof.z));
    CommitmentBytesInjective(p.commitment, q.commitment);
    CompressInjective(p.proof.r, q.proof.r);
    ScalarBytesInjective(p.proof.z, q.proof.z);
  }

  lemma PrefixedInjective(a: Bytes, b: Bytes)
    requires Prefixed(a) == Prefixed(b) && |a| < U64_LIMIT && |b| < U64_LIMIT
    ensures a == b
  {
    assert Prefixed(a) + [] == Prefixed(b) + [];
    PrefixedSplit(a, [], b, []);
  }

  /** The tag and the length prefixes make the evidence encoding injective. */
  lemma EvidenceInjective(a: Evidence, b: Evidence)
    requires EncodeEvidence(a) == EncodeEvidence(b) && EvidenceFits(a) && EvidenceFits(b)
    ensures a == b
  {
    assert EncodeEvidence(a)[0] == EncodeEvidence(b)[0];
    if a.ForgedProof? {
      ForgedInjective(a.package, b.package);
    } else {
      SplitEqual([2], Prefixed(EncodeBad(a.bad)), [2], Prefixed(EncodeBad(b.bad)));
      PrefixedInjective(EncodeBad(a.bad), EncodeBad(b.bad));
      BadInjective(a.bad, b.bad);
    }
  }

  /** The signed body determines the ceremony, the round, both parties and the evidence. */
  lemma BodyInjective(a: Complaint, b: Complaint)
    requires BodyOf(a) == BodyOf(b) && EvidenceFits(a.evidence) && EvidenceFits(b.evidence)
    ensures a.epoch == b.epoch && a.session == b.session && a.round == b.round
    ensures a.accuser == b.accuser && a.accused == b.accused && a.evidence == b.evidence
  {
    var d := Prefixed(Ascii(COMPLAINT_SIG_DOMAIN));
    var a5, b5 := U32Bytes(a.accused) + EncodeEvidence(a.evidence), U32Bytes(b.accused) + EncodeEvidence(b.evidence);
    var a4, b4 := U32Bytes(a.accuser) + a5, U32Bytes(b.accuser) + b5;
    var a3, b3 := [a.round] + a4, [b.round] + b4;
    SplitEqual(d, U64Bytes(a.epoch) + (a.session + a3), d, U64Bytes(b.epoch) + (b.session + b3));
    SplitEqual(U64Bytes(a.epoch), a.session + a3, U64Bytes(b.epoch), b.session + b3);
    SplitEqual(a.session, a3, b.session, b3);
    SplitEqual([a.round], a4, [b.round], b4);
    SplitEqual(U32Bytes(a.accuser), a5, U32Bytes(b.accuser), b5);
    SplitEqual(U32Bytes(a.accused), EncodeEvidence(a.evidence), U32Bytes(b.accused), EncodeEvidence(b.evidence));
    U64BytesInjective(a.epoch, b.epoch);
    U32BytesInjective(a.accuser, b.accuser);
    U32BytesInjective(a.accused, b.accused);
    assert [a.round][0] == [b.round][0];
    EvidenceInjective(a.evidence, b.evidence);
  }

  // ---- signing ----

  function ChallengePreimage(r: Point, accuserKey: Point, body: Bytes): Bytes {
    Ascii(COMPLAINT_SIG_DOMAIN) + (Compress(r) + (Compress(accuserKey) + Prefixed(body)))
  }

  function Challenge(r: Point, accuserKey: Point, body: Bytes): Scalar {
    HASH_TO_SCALAR(ChallengePreimage(r, accuserKey, body))
  }

  /** What a signature is over: a challenge computed from the same bytes is about the same nonce, the same
      key and the same complaint. */
  lemma ChallengeBinds(a: Complaint, ka: Point, b: Complaint, kb: Point)
    requires ChallengePreimage(a.r, ka, BodyOf(a)) == ChallengePreimage(b.r, kb, BodyOf(b))
    requires |BodyOf(a)| < U64_LIMIT && |BodyOf(b)| < U64_LIMIT && EvidenceFits(a.evidence) && EvidenceFits(b.evidence)
    ensures ka == kb && a == b.(s := a.s)
  {
    var d := Ascii(COMPLAINT_SIG_DOMAIN);
    var ab, bb := Compress(ka) + Prefixed(BodyOf(a)), Compress(kb) + Prefixed(BodyOf(b));
    SplitEqual(d, Compress(a.r) + ab, d, Compress(b.r) + bb);
    SplitEqual(Compress(a.r), ab, Compress(b.r), bb);
    SplitEqual(Compress(ka), Prefixed(BodyOf(a)), Compress(kb), Prefixed(BodyOf(b)));
    CompressInjective(a.r, b.r);
    CompressInjective(ka, kb);
    PrefixedInjective(BodyOf(a), BodyOf(b));
    BodyInjective(a, b);
  }

  function Sign(epoch: U64, session: Bytes32, round: Byte, accuser: U32, e: Evidence,
                secret: Scalar, k: Scalar): Result<Complaint>
  {
    if accuser == 0 then Err(InvalidIndex)
    else
      var r := BaseMul(k);
      var c := Challenge(r, BaseMul(secret), Body(epoch, session, round, accuser, e.Accused(), e));
      Ok(Complaint(epoch, session, round, accuser, e.Accused(), e, r, Add(k, Mul(c, secret))))
  }

  predicate SignatureHolds(c: Complaint, accuserKey: Point) {
    BaseMul(c.s) == AddPoints(c.r, MulScalar(accuserKey, Challenge(c.r, accuserKey, BodyOf(c))))
  }

  /** A signature of one complaint, put under another one: it holds exactly when the hash gives both challenges,
      or the accuser's secret is zero. */
  lemma TransplantIff(epoch: U64, session: Bytes32, round: Byte, accuser: U32, e: Evidence, secret: Scalar, k: Scalar,
                      other: Complaint)
    requires accuser != 0
    requires var c := Sign(epoch, session, round, accuser, e, secret, k).value; other.r == c.r && other.s == c.s
    ensures var c := Sign(epoch, session, round, accuser, e, secret, k).value;
      SignatureHolds(other, BaseMul(secret)) <==>
      || secret == Zero()
      || HASH_TO_SCALAR(ChallengePreimage(c.r, BaseMul(secret), BodyOf(c)))
         == HASH_TO_SCALAR(ChallengePreimage(c.r, BaseMul(secret), BodyOf(other)))
  {
    var c := Sign(epoch, session, round, accuser, e, secret, k).value;
    var x := HASH_TO_SCALAR(ChallengePreimage(c.r, BaseMul(secret), BodyOf(c)));
    var y := HASH_TO_SCALAR(ChallengePreimage(c.r, BaseMul(secret), BodyOf(other)));
    BaseMulLog(k);
    BaseMulLog(secret);
    BaseMulLog(c.s);
    MulZero(x);
    MulZero(y);
    AddComm(k, Mul(x, secret));
    AddComm(k, Mul(y, secret));
    if Add(k, Mul(x, secret)) == Add(k, Mul(y, secret)) {
      AddCancel(Mul(x, secret), Mul(y, secret), k);
      if secret != Zero() {
        MulCancel(x, y, secret);
      }
    }
  }

  /** So, short of a collision, a signature is good for the one complaint it was made for. */
  lemma SignatureBinds(epoch: U64, session: Bytes32, round: Byte, accuser: U32, e: Evidence, secret: Scalar, k: Scalar,
                       other: Complaint)
    requires accuser != 0 && secret != Zero()
    requires var c := Sign(epoch, session, round, accuser, e, secret, k).value;
      && other.r == c.r && other.s == c.s
      && |BodyOf(c)| < U64_LIMIT && |BodyOf(other)| < U64_LIMIT
      && EvidenceFits(e) && EvidenceFits(other.evidence)
      && NoScalarCollision(ChallengePreimage(c.r, BaseMul(secret), BodyOf(c)),
                           ChallengePreimage(c.r, BaseMul(secret), BodyOf(other)))
    ensures SignatureHolds(other, BaseMul(secret)) <==>
            other == Sign(epoch, session, round, accuser, e, secret, k).value
  {
    var c := Sign(epoch, session, round, accuser, e, secret, k).value;
    TransplantIff(epoch, session, round, accuser, e, secret, k, other);
    if SignatureHolds(other, BaseMul(secret)) {
      ChallengeBinds(c, BaseMul(secret), other, BaseMul(secret));
    }
  }

  /** Equal digests name one commitment, short of a collision. */
  lemma CommitmentDigestBinds(c: DealerCommitment, d: DealerCommitment)
    requires NoCollision(Ascii(COMMITMENT_DIGEST_DOMAIN) + CommitmentBytes(c),
                         Ascii(COMMITMENT_DIGEST_DOMAIN) + CommitmentBytes(d))
    ensures CommitmentDigest(c) == CommitmentDigest(d) <==> c == d
  {
    if CommitmentDigest(c) == CommitmentDigest(d) {
      var domain := Ascii(COMMITMENT_DIGEST_DOMAIN);
      SplitEqual(domain, CommitmentBytes(c), domain, CommitmentBytes(d));
      CommitmentBytesInjective(c, d);
    }
  }

  // ---- verdicts ----

  /** `Round1Package::verify` indexes the constant term of the package it is given. */
  predicate Checkable(e: Evidence) { e.ForgedProof? ==> e.package.commitment.coefficients != [] }

  function Adjudicate(c: Complaint, agreed: Option<Agreed>): Result<Verdict>
    requires Checkable(c.evidence)
  {
    match c.evidence
    case ForgedProof(p) =>
      if p.commitment.dealerIndex != c.accused then Ok(Unfounded)
      else if Round.PackageVerifies(p, c.epoch) then Ok(Unfounded) else Ok(Upheld)
    case Cheated(bad) =>
      if bad.dealer != c.accused || bad.recipient != c.accuser || bad.session != c.session || bad.round != c.round then
        Err(InvalidComplaint)
      else if agreed.None? then Err(InvalidComplaint)
      else if agreed.value.epoch != c.epoch then Err(InvalidComplaint)
      else
        var commitment :- FindCommitment(agreed.value.commitments, bad.dealer);
        if CommitmentDigest(commitment) != bad.agreedDigest then Err(InvalidComplaint)
        else
          match ScalarFromBytes(bad.subshare)
          case None => Err(InvalidComplaint)
          case Some(v) => Ok(if VerifySubshare(commitment, bad.recipient, v) then Unfounded else Upheld)
  }

  function Verify(c: Complaint, epoch: U64, session: Bytes32, accuserKey: Point, agreed: Option<Agreed>):
    Result<Verdict>
    requires Checkable(c.evidence)
  {
    if c.epoch != epoch || c.session != session then Err(InvalidComplaint)
    else if c.accuser == 0 || c.accused == 0 || c.accused != c.evidence.Accused() then Err(InvalidComplaint)
    else if !SignatureHolds(c, accuserKey) then Err(InvalidComplaint)
    else Adjudicate(c, agreed)
  }

  /** Every complaint built by `sign` passes the signature check under the accuser's key, for every nonce. In
      its own ceremony it is refused for naming dealer 0, and otherwise gets what its evidence gets. */
  lemma SignedComplaintVerifies(
    epoch: U64, session: Bytes32, round: Byte, accuser: U32, e: Evidence, secret: Scalar, k: Scalar,
    agreed: Option<Agreed>)
    ensures Sign(epoch, session, round, accuser, e, secret, k).Ok? <==> accuser != 0
    ensures Sign(epoch, session, round, accuser, e, secret, k) == Err(InvalidIndex) <==> accuser == 0
    ensures accuser != 0 ==>
              var c := Sign(epoch, session, round, accuser, e, secret, k).value;
              && c.evidence == e && SignatureHolds(c, BaseMul(secret))
              && (Checkable(e) ==>
                    Verify(c, epoch, session, BaseMul(secret), agreed) ==
                    if e.Accused() == 0 then Err(InvalidComplaint) else Adjudicate(c, agreed))
  {
    if accuser != 0 {
      var c := Sign(epoch, session, round, accuser, e, secret, k).value;
      BaseMulLog(k);
      BaseMulLog(secret);
      BaseMulLog(c.s);
    }
  }

  /** The complaint is of this ceremony, names both parties, accuses whom its evidence accuses, and carries a
      signature of its own bytes under the accuser's key. */
  ghost predicate Authentic(c: Complaint, epoch: U64, session: Bytes32, accuserKey: Point) {
    && c.epoch == epoch && c.session == session
    && c.accuser != 0 && c.accused == c.evidence.Accused() != 0
    && var challenge := HASH_TO_SCALAR(ChallengePreimage(c.r, accuserKey, BodyOf(c)));
    c.s == Add(c.r.log, Mul(challenge, accuserKey.log))
  }

  /** A forged or misdirected complaint is an error and never a verdict, so nobody is flagged over one that it
      did not sign. */
  lemma VerdictMeansAuthentic(c: Complaint, epoch: U64, session: Bytes32, accuserKey: Point, agreed: Option<Agreed>)
    requires Checkable(c.evidence)
    ensures Authentic(c, epoch, session, accuserKey) ==>
              Verify(c, epoch, session, accuserKey, agreed) == Adjudicate(c, agreed)
    ensures !Authentic(c, epoch, session, accuserKey) ==>
              Verify(c, epoch, session, accuserKey, agreed) == Err(InvalidComplaint)
  {
    BaseMulLog(c.s);
  }

  /** The evidence repeats the complaint's own parties, session and round, and the round is of its epoch. */
  ghost predicate Bound(c: Complaint, r: Round.Round)
    requires c.evidence.Cheated?
  {
    var bad := c.evidence.bad;
    && bad.dealer == c.accused && bad.recipient == c.accuser && bad.session == c.session && bad.round == c.round
    && c.epoch == r.epoch
  }

  /** The evidence names the commitment in the accused's slot, and reveals a scalar. */
  ghost predicate NamesSlot(c: Complaint, r: Round.Round) {
    && c.evidence.Cheated? && Has(r.slots, c.accused)
    && c.evidence.bad.agreedDigest ==
       SHA512_32(Ascii(COMMITMENT_DIGEST_DOMAIN) + CommitmentBytes(r.slots[c.accused - 1].value))
    && ScalarFromBytes(c.evidence.bad.subshare).Some?
  }

  /** The scalar revealed is the accuser's value of the accused's committed polynomial. */
  ghost predicate RevealsTrueShare(c: Complaint, r: Round.Round)
    requires NamesSlot(c, r)
  {
    ScalarFromBytes(c.evidence.bad.subshare).value ==
    Eval(r.slots[c.accused - 1].value.Polynomial(), FromU32(c.accuser))
  }

  /** In an agreed round, what becomes of a complaint about a sub-share: a verdict exactly when it is bound to itself
      and names the accused's slot, Unfounded exactly when it then reveals the true sub-share, and Upheld exactly
      when it reveals another scalar. An accused without a slot is named in the error. */
  lemma UpheldIff(c: Complaint, r: Round.Round)
    requires Round.Valid(r) && c.evidence.Cheated? && c.accuser != 0
    ensures var res := Adjudicate(c, Some(AgreedOf(r)));
      && (res == Ok(Upheld) <==> Bound(c, r) && NamesSlot(c, r) && !RevealsTrueShare(c, r))
      && (res == Ok(Unfounded) <==> Bound(c, r) && NamesSlot(c, r) && RevealsTrueShare(c, r))
      && (res == Err(UnexpectedDealer(c.accused)) <==> Bound(c, r) && !Has(r.slots, c.accused))
      && (res == Err(InvalidComplaint) <==> !Bound(c, r) || (Has(r.slots, c.accused) && !NamesSlot(c, r)))
  {
    LookupIsSlot(r, c.accused);
    if NamesSlot(c, r) {
      FeldmanCheck(r.slots[c.accused - 1].value, c.accuser, ScalarFromBytes(c.evidence.bad.subshare).value);
    }
  }

  /** What `verify` answers about a sub-share, in an agreed round: of an authentic complaint, what becomes of its
      evidence; of any other, that it is invalid. */
  lemma VerifiedUpheldIff(c: Complaint, r: Round.Round, session: Bytes32, accuserKey: Point)
    requires Round.Valid(r) && c.evidence.Cheated?
    ensures var res := Verify(c, r.epoch, session, accuserKey, Some(AgreedOf(r)));
      var good := Authentic(c, r.epoch, session, accuserKey) && Bound(c, r);
      && (res == Ok(Upheld) <==> good && NamesSlot(c, r) && !RevealsTrueShare(c, r))
      && (res == Ok(Unfounded) <==> good && NamesSlot(c, r) && RevealsTrueShare(c, r))
      && (res == Err(UnexpectedDealer(c.accused)) <==> good && !Has(r.slots, c.accused))
      && (res == Err(InvalidComplaint) <==> !good || (Has(r.slots, c.accused) && !NamesSlot(c, r)))
  {
    VerdictMeansAuthentic(c, r.epoch, session, accuserKey, Some(AgreedOf(r)));
    if c.accuser != 0 {
      UpheldIff(c, r);
    }
  }

  /** Without the verifier's own agreed set of that epoch there is no verdict about a sub-share. */
  lemma NoVerdictWithoutAgreement(c: Complaint, epoch: U64, session: Bytes32, accuserKey: Point,
                                  agreed: Option<Agreed>)
    requires c.evidence.Cheated? && (agreed.None? || agreed.value.epoch != epoch)
    ensures Verify(c, epoch, session, accuserKey, agreed) == Err(InvalidComplaint)
  {
    VerdictMeansAuthentic(c, epoch, session, accuserKey, agreed);
  }

  /** What `verify` answers about a round-1 proof, whatever agreed set the verifier has: a verdict exactly on an
      authentic complaint, and Unfounded exactly when the package's proof holds for this epoch. */
  lemma VerifiedForgedIff(c: Complaint, epoch: U64, session: Bytes32, accuserKey: Point, agreed: Option<Agreed>)
    requires c.evidence.ForgedProof? && c.evidence.package.commitment.coefficients != []
    ensures var res := Verify(c, epoch, session, accuserKey, agreed);
      && (res == Ok(Unfounded) <==>
            Authentic(c, epoch, session, accuserKey) && Round.Proven(c.evidence.package, epoch))
      && (res == Ok(Upheld) <==>
            Authentic(c, epoch, session, accuserKey) && !Round.Proven(c.evidence.package, epoch))
      && (res == Err(InvalidComplaint) <==> !Authentic(c, epoch, session, accuserKey))
    ensures var p := c.evidence.package;
      && Adjudicate(c, agreed).Ok?
      && (Adjudicate(c, agreed) == Ok(Upheld) <==> p.commitment.dealerIndex == c.accused && !Round.Proven(p, c.epoch))
  {
    Round.PackageVerifiesExact(c.evidence.package, c.epoch);
    VerdictMeansAuthentic(c, epoch, session, accuserKey, agreed);
    Round.PackageVerifiesExact(c.evidence.package, epoch);
  }

  /** The package in the evidence carries no signature of the accused: over any commitment under its index, its
      own agreed one included, and any nonce commitment, everyone who can sign a complaint can build one that is
      upheld, whatever the accused did. */
  lemma AnyoneConvicts(epoch: U64, session: Bytes32, round: Byte, accuser: U32, commitment: DealerCommitment,
                       r: Point, secret: Scalar, k: Scalar, agreed: Option<Agreed>) returns (e: Evidence)
    requires accuser != 0 && commitment.dealerIndex != 0 && commitment.coefficients != []
    ensures e.ForgedProof? && e.package.commitment == commitment && e.package.proof.r == r
    ensures Verify(Sign(epoch, session, round, accuser, e, secret, k).value, epoch, session, BaseMul(secret), agreed)
            == Ok(Upheld)
  {
    var c0 := commitment.ShareCommitment();
    var challenge := HASH_TO_SCALAR(ProofPreimage(Ascii(DKG_POK_DOMAIN), commitment.dealerIndex, epoch, c0, r));
    var z := Add(r.log, Mul(challenge, c0.log));
    e := ForgedProof(Round.Package(commitment, Proof(r, Add(One(), z))));
    assert Add(One(), z) != z by {
      AddZero(z);
      ZeroIsNotOne();
      if Add(One(), z) == Add(Zero(), z) {
        AddCancel(One(), Zero(), z);
      }
    }
    SignedComplaintVerifies(epoch, session, round, accuser, e, secret, k, agreed);
    var c := Sign(epoch, session, round, accuser, e, secret, k).value;
    BaseMulLog(c.s);
    BaseMulLog(secret);
    VerifiedForgedIff(c, epoch, session, BaseMul(secret), agreed);
    assert !Round.Proven(e.package, epoch);
  }

  /** A signed complaint about a package gets the verdict that a round of its epoch would give the package: it is
      upheld exactly when submitting the package would be refused for its proof. */
  lemma ForgedIffRefused(session: Bytes32, round: Byte, accuser: U32, e: Evidence, secret: Scalar, k: Scalar,
                         agreed: Option<Agreed>, r: Round.Round)
    requires accuser != 0 && e.ForgedProof? && e.Accused() != 0 && Checkable(e)
    ensures var c := Sign(r.epoch, session, round, accuser, e, secret, k).value;
      Verify(c, r.epoch, session, BaseMul(secret), agreed) ==
      Ok(if Round.SubmitOutcome(r, e.package) == Err(InvalidProofOfKnowledge(e.Accused())) then Upheld else Unfounded)
  {
    SignedComplaintVerifies(r.epoch, session, round, accuser, e, secret, k, agreed);
  }

  /** A complaint that carries an honestly made proof is unfounded. */
  lemma HonestProofUnfounded(c: Complaint, a0: Scalar, k: Scalar, agreed: Option<Agreed>)
    requires c.evidence.ForgedProof? && c.evidence.package.commitment.coefficients != []
    requires c.evidence.package.commitment.ShareCommitment() == BaseMul(a0)
    requires c.evidence.package.proof ==
             ProveIn(Ascii(DKG_POK_DOMAIN), c.evidence.package.commitment.dealerIndex, c.epoch, a0, k)
    ensures Adjudicate(c, agreed) == Ok(Unfounded)
  {
    ProofCompleteness(Ascii(DKG_POK_DOMAIN), c.evidence.package.commitment.dealerIndex, c.epoch, a0, k);
  }

  /** A true sub-share convicts nobody: what an upheld complaint publishes is not the accuser's share. */
  lemma TrueShareUnfounded(c: Complaint, r: Round.Round, share: SubShare)
    requires Round.Valid(r) && c.evidence.Cheated? && c.accuser != 0
    requires Has(r.slots, c.accused)
    requires VerifySubshare(r.slots[c.accused - 1].value, c.accuser, share.value)
    requires c.evidence.bad.subshare == ScalarBytes(share.value)
    ensures Adjudicate(c, Some(AgreedOf(r))) != Ok(Upheld)
  {
    ScalarRoundTrip(share.value, []);
    FeldmanCheck(r.slots[c.accused - 1].value, c.accuser, share.value);
    assert NamesSlot(c, r) ==> RevealsTrueShare(c, r);
    UpheldIff(c, r);
  }
}
