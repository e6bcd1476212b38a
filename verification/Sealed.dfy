/** Sealed delivery of sub-shares (`src/sealed.rs`), over an ideal Noise_K channel: a message opens for the
    key pair and prologue it was sealed under, and for nothing else. */
module Sealed {
  import opened Words
  import opened Field
  import opened Group
  import opened Polynomials
  import opened Encoding
  import opened Commitments
  import opened Codecs
  import opened Slots
  import opened Echo
  import opened Complaints
  import opened Roster
  import Round = DkgRound
  import Dkg = DkgAggregator

  // ---- the channel ----

  /** The X25519 public key of a static secret. */
  const X25519_PUBLIC: Bytes32 -> Key

  /** Whether Noise accepts a local secret with a remote key. */
  const NOISE_ACCEPTS: (Bytes32, Key) -> bool

  datatype Message =
    | Noise(sender: Key, recipient: Key, prologue: Bytes, plaintext: Bytes, ephemeral: Bytes32)
    | Junk(wire: Bytes)

  /** The bytes of a message on the wire. */
  const WIRE: Message -> Bytes

  function NoiseSeal(secret: Bytes32, remote: Key, prologue: Bytes, plaintext: Bytes, ephemeral: Bytes32):
    Option<Message>
  {
    if NOISE_ACCEPTS(secret, remote) then Some(Noise(X25519_PUBLIC(secret), remote, prologue, plaintext, ephemeral))
    else None
  }

  function NoiseOpen(secret: Bytes32, remote: Key, prologue: Bytes, m: Message): Option<Bytes> {
    if NOISE_ACCEPTS(secret, remote) && m.Noise? && m.sender == remote && m.recipient == X25519_PUBLIC(secret)
       && m.prologue == prologue then Some(m.plaintext)
    else None
  }

  const SEALED_DIGEST_DOMAIN := "frostito/sealed/ciphertext/v1"

  function SealedPreimage(m: Message): Bytes { Ascii(SEALED_DIGEST_DOMAIN) + Prefixed(WIRE(m)) }

  function CiphertextDigest(m: Message): Bytes32 { SHA256(SealedPreimage(m)) }

  /** The digest names the bytes that were delivered. */
  lemma CiphertextDigestBinds(m: Message, n: Message)
    requires NoCollision256(SealedPreimage(m), SealedPreimage(n)) && |WIRE(m)| < U64_LIMIT && |WIRE(n)| < U64_LIMIT
    ensures CiphertextDigest(m) == CiphertextDigest(n) <==> WIRE(m) == WIRE(n)
  {
    if CiphertextDigest(m) == CiphertextDigest(n) {
      var domain := Ascii(SEALED_DIGEST_DOMAIN);
      SplitEqual(domain, Prefixed(WIRE(m)), domain, Prefixed(WIRE(n)));
      PrefixedInjective(WIRE(m), WIRE(n));
    }
  }

  // ---- sealing ----

  datatype SealedSubShare = SealedSubShare(dealer: U32, recipient: U32, message: Message)

  function SealSubshare(secret: Bytes32, roster: SealedRoster, round: Byte, s: SubShare, c: DealerCommitment,
                        ephemeral: Bytes32): Result<SealedSubShare>
  {
    if s.dealerIndex != c.dealerIndex then Err(InvalidIndex)
    else
      var recipient :- PublicKey(roster, s.playerIndex);
      var _ :- PublicKey(roster, s.dealerIndex);
      match NoiseSeal(secret, recipient, Prologue(roster, round), SubSharePlaintext(s) + CommitmentDigest(c), ephemeral)
      case None => Err(SealedOpenFailed(s.dealerIndex))
      case Some(m) => Ok(SealedSubShare(s.dealerIndex, s.playerIndex, m))
  }

  // ---- opening ----

  function OpenSubshare(secret: Bytes32, recipient: U32, roster: SealedRoster, round: Byte, p: SealedSubShare,
                        c: DealerCommitment): Result<SubShare>
  {
    var dealer :- PublicKey(roster, p.dealer);
    if p.recipient != recipient then Err(SealedOpenFailed(p.dealer))
    else
      match NoiseOpen(secret, dealer, Prologue(roster, round), p.message)
      case None => Err(SealedOpenFailed(p.dealer))
      case Some(text) =>
        if |text| != PlaintextSize() + 32 then Err(SealedOpenFailed(p.dealer))
        else
          var s :- ParseSubShare(text[..PlaintextSize()]);
          if s.dealerIndex != p.dealer || s.playerIndex != p.recipient then Err(SealedOpenFailed(p.dealer))
          else if s.dealerIndex != c.dealerIndex || text[PlaintextSize()..] != CommitmentDigest(c) then
            Err(InvalidSubShare(p.dealer))
          else if !VerifySubshare(c, recipient, s.value) then Err(InvalidSubShare(p.dealer))
          else Ok(s)
  }

  datatype Opening = Opened(share: SubShare) | Local(error: Error) | Accusable(bad: BadSubShare) {
    /** `open_subshare_agreed`: the evidence dropped. */
    function Plain(): Result<SubShare> {
      match this
      case Opened(s) => Ok(s)
      case Local(e) => Err(e)
      case Accusable(bad) => Err(InvalidSubShare(bad.dealer))
    }
  }

  function EvidenceOf(recipient: U32, roster: SealedRoster, round: Byte, p: SealedSubShare, s: SubShare,
                      c: DealerCommitment): BadSubShare
  {
    BadSubShare(p.dealer, recipient, roster.session, round, ScalarBytes(s.value), CommitmentDigest(c),
                CiphertextDigest(p.message))
  }

  /** `open_subshare_agreed_with_evidence`: the Feldman check comes before the digest check. */
  function OpenAgreed(secret: Bytes32, recipient: U32, roster: SealedRoster, round: Byte, p: SealedSubShare,
                      agreed: Agreed): Opening
  {
    match (FindCommitment(agreed.commitments, p.dealer), PublicKey(roster, p.dealer))
    case (Err(e), _) => Local(e)
    case (Ok(_), Err(e)) => Local(e)
    case (Ok(c), Ok(dealer)) =>
      if p.recipient != recipient then Local(SealedOpenFailed(p.dealer))
      else
        match NoiseOpen(secret, dealer, Prologue(roster, round), p.message)
        case None => Local(SealedOpenFailed(p.dealer))
        case Some(text) =>
          if |text| != PlaintextSize() + 32 then Local(SealedOpenFailed(p.dealer))
          else
            match ParseSubShare(text[..PlaintextSize()])
            case Err(e) => Local(e)
            case Ok(s) =>
              if s.dealerIndex != p.dealer || s.playerIndex != p.recipient then Local(SealedOpenFailed(p.dealer))
              else if !VerifySubshare(c, recipient, s.value) then
                Accusable(EvidenceOf(recipient, roster, round, p, s, c))
              else if text[PlaintextSize()..] != CommitmentDigest(c) then Local(InvalidSubShare(p.dealer))
              else Opened(s)
  }

  /** A package is sealed exactly for a sub-share under its dealer's own commitment, between two listed participants
      whose keys Noise accepts; and it carries their indices. */
  lemma SealedIff(secret: Bytes32, roster: SealedRoster, round: Byte, s: SubShare, c: DealerCommitment,
                  ephemeral: Bytes32)
    ensures var r := SealSubshare(secret, roster, round, s, c, ephemeral);
      && (r.Ok? <==>
            && s.dealerIndex == c.dealerIndex
            && s.dealerIndex in IndicesOf(roster.participants) && PublicKey(roster, s.playerIndex).Ok?
            && NOISE_ACCEPTS(secret, PublicKey(roster, s.playerIndex).value))
      && (r.Ok? ==> r.value.dealer == s.dealerIndex && r.value.recipient == s.playerIndex)
      && (r == Err(InvalidIndex) <==> s.dealerIndex != c.dealerIndex)
      && (r == Err(UnknownParticipant(s.playerIndex)) <==>
            s.dealerIndex == c.dealerIndex && s.playerIndex !in IndicesOf(roster.participants))
  {
    PublicKeyListed(roster, s.dealerIndex);
    PublicKeyListed(roster, s.playerIndex);
  }

  // ---- what the three outcomes mean ----

  /** The package opens for this recipient and holds sub-share s, under commitment digest tag, addressed
      as its envelope says. */
  ghost predicate Carries(secret: Bytes32, recipient: U32, roster: SealedRoster, round: Byte, p: SealedSubShare,
                          s: SubShare, tag: Bytes32)
  {
    && PublicKey(roster, p.dealer).Ok?
    && NoiseOpen(secret, PublicKey(roster, p.dealer).value, Prologue(roster, round), p.message)
       == Some(SubSharePlaintext(s) + tag)
    && s.dealerIndex == p.dealer != 0
    && s.playerIndex == p.recipient == recipient != 0
  }

  lemma PlaintextSplits(s: SubShare, tag: Bytes32)
    ensures var text := SubSharePlaintext(s) + tag;
      && |text| == PlaintextSize() + 32
      && text[..PlaintextSize()] == SubSharePlaintext(s) && text[PlaintextSize()..] == tag
  {}

  /** The value decides between opening and accusing; the digest only refuses. */
  lemma CarriedDecides(secret: Bytes32, recipient: U32, roster: SealedRoster, round: Byte,
                                          p: SealedSubShare, agreed: Agreed, s: SubShare, tag: Bytes32)
    requires Carries(secret, recipient, roster, round, p, s, tag) && FindCommitment(agreed.commitments, p.dealer).Ok?
    ensures var c := FindCommitment(agreed.commitments, p.dealer).value;
      OpenAgreed(secret, recipient, roster, round, p, agreed) ==
      if s.value != Eval(c.Polynomial(), FromU32(recipient)) then
        Accusable(EvidenceOf(recipient, roster, round, p, s, c))
      else if tag != CommitmentDigest(c) then Local(InvalidSubShare(p.dealer))
      else Opened(s)
  {
    PlaintextSplits(s, tag);
    SubShareCodecExact(SubSharePlaintext(s), s);
    FeldmanCheck(FindCommitment(agreed.commitments, p.dealer).value, recipient, s.value);
  }

  /** A plaintext of the right length that parses and is addressed as the envelope says is a carried sub-share. */
  lemma ParsedIsCarried(secret: Bytes32, recipient: U32, roster: SealedRoster, round: Byte, p: SealedSubShare,
                        text: Bytes)
    requires PublicKey(roster, p.dealer).Ok? && p.recipient == recipient
    requires NoiseOpen(secret, PublicKey(roster, p.dealer).value, Prologue(roster, round), p.message) == Some(text)
    requires |text| == PlaintextSize() + 32 && ParseSubShare(text[..PlaintextSize()]).Ok?
    requires var s := ParseSubShare(text[..PlaintextSize()]).value;
      s.dealerIndex == p.dealer && s.playerIndex == p.recipient
    ensures exists s, tag :: Carries(secret, recipient, roster, round, p, s, tag)
  {
    var s := ParseSubShare(text[..PlaintextSize()]).value;
    SubShareCodecExact(text[..PlaintextSize()], s);
    var rest := text[PlaintextSize()..];
    assert |rest| == 32;
    var tag: Bytes32 := rest;
    assert text == text[..PlaintextSize()] + tag;
    assert Carries(secret, recipient, roster, round, p, s, tag);
  }

  /** Anything that does not carry a sub-share is handled locally: nobody is accused. */
  lemma NothingCarriedNobodyAccused(secret: Bytes32, recipient: U32, roster: SealedRoster, round: Byte,
                                                       p: SealedSubShare, agreed: Agreed)
    requires !OpenAgreed(secret, recipient, roster, round, p, agreed).Local?
    ensures FindCommitment(agreed.commitments, p.dealer).Ok?
    ensures exists s, tag :: Carries(secret, recipient, roster, round, p, s, tag)
  {
    var text := NoiseOpen(secret, PublicKey(roster, p.dealer).value, Prologue(roster, round), p.message).value;
    ParsedIsCarried(secret, recipient, roster, round, p, text);
  }

  /** The package opens for this recipient, and its plaintext has the right length and does not parse. */
  ghost predicate Unparsed(secret: Bytes32, recipient: U32, roster: SealedRoster, round: Byte, p: SealedSubShare,
                           e: Error)
  {
    && p.recipient == recipient && PublicKey(roster, p.dealer).Ok?
    && var text := NoiseOpen(secret, PublicKey(roster, p.dealer).value, Prologue(roster, round), p.message);
    && text.Some? && |text.value| == PlaintextSize() + 32
    && ParseSubShare(text.value[..PlaintextSize()]) == Err(e)
  }

  lemma CarriedIfMisjudged(secret: Bytes32, recipient: U32, roster: SealedRoster, round: Byte, p: SealedSubShare,
                           agreed: Agreed)
    requires OpenAgreed(secret, recipient, roster, round, p, agreed) == Local(InvalidSubShare(p.dealer))
    ensures exists s, tag :: Carries(secret, recipient, roster, round, p, s, tag)
  {
    var text := NoiseOpen(secret, PublicKey(roster, p.dealer).value, Prologue(roster, round), p.message).value;
    ParsedIsCarried(secret, recipient, roster, round, p, text);
  }

  /** Why a package is handled locally when it carries nothing: its dealer has no agreed commitment, or is not on the
      roster; or the package is not a sealed sub-share for this recipient. */
  lemma LocalAnswers(secret: Bytes32, recipient: U32, roster: SealedRoster, round: Byte, p: SealedSubShare,
                     agreed: Agreed)
    requires !(exists s, tag :: Carries(secret, recipient, roster, round, p, s, tag))
    ensures var res := OpenAgreed(secret, recipient, roster, round, p, agreed);
      && res.Local?
      && (p.dealer !in Indices(agreed.commitments) ==> res.error == UnexpectedDealer(p.dealer))
      && (p.dealer in Indices(agreed.commitments) && p.dealer !in IndicesOf(roster.participants) ==>
            res.error == UnknownParticipant(p.dealer))
      && (p.dealer in Indices(agreed.commitments) && p.dealer in IndicesOf(roster.participants) ==>
            res.error == SealedOpenFailed(p.dealer) || Unparsed(secret, recipient, roster, round, p, res.error))
  {
    var res := OpenAgreed(secret, recipient, roster, round, p, agreed);
    FindExact(agreed.commitments, p.dealer);
    PublicKeyListed(roster, p.dealer);
    if !res.Local? {
      NothingCarriedNobodyAccused(secret, recipient, roster, round, p, agreed);
    } else if res.error == InvalidSubShare(p.dealer) {
      CarriedIfMisjudged(secret, recipient, roster, round, p, agreed);
    } else if FindCommitment(agreed.commitments, p.dealer).Ok? && PublicKey(roster, p.dealer).Ok? {
      LocalErrors(secret, recipient, roster, round, p, agreed);
    }
  }

  lemma LocalErrors(secret: Bytes32, recipient: U32, roster: SealedRoster, round: Byte, p: SealedSubShare,
                    agreed: Agreed)
    requires OpenAgreed(secret, recipient, roster, round, p, agreed).Local?
    requires FindCommitment(agreed.commitments, p.dealer).Ok? && PublicKey(roster, p.dealer).Ok?
    ensures var e := OpenAgreed(secret, recipient, roster, round, p, agreed).error;
      || e == SealedOpenFailed(p.dealer) || e == InvalidSubShare(p.dealer)
      || Unparsed(secret, recipient, roster, round, p, e)
  {}

  /** Opening against the caller's commitment accepts exactly what opening against the agreed set accepts,
      when the two commitments are the same. */
  lemma BothOpensAgree(secret: Bytes32, recipient: U32, roster: SealedRoster, round: Byte,
                                          p: SealedSubShare, agreed: Agreed, c: DealerCommitment)
    requires FindCommitment(agreed.commitments, p.dealer) == Ok(c)
    ensures OpenSubshare(secret, recipient, roster, round, p, c).Ok? <==>
            OpenAgreed(secret, recipient, roster, round, p, agreed).Opened?
    ensures OpenSubshare(secret, recipient, roster, round, p, c) ==
            OpenAgreed(secret, recipient, roster, round, p, agreed).Plain()
  {
    FindExact(agreed.commitments, p.dealer);
  }

  /** What opens is a share the aggregators accept. */
  lemma OpenedVerifies(secret: Bytes32, recipient: U32, roster: SealedRoster, round: Byte,
                                          p: SealedSubShare, agreed: Agreed)
    requires OpenAgreed(secret, recipient, roster, round, p, agreed).Opened?
    ensures var s := OpenAgreed(secret, recipient, roster, round, p, agreed).share;
      && FindCommitment(agreed.commitments, p.dealer).Ok?
      && s.dealerIndex == p.dealer && s.playerIndex == recipient
      && VerifySubshare(FindCommitment(agreed.commitments, p.dealer).value, recipient, s.value)
  {}

  /** The aggregator over the agreed dealer set takes every opened share it has not taken yet. */
  lemma OpenedIsTaken(secret: Bytes32, recipient: U32, roster: SealedRoster, round: Byte,
                                         p: SealedSubShare, r: Round.Round, st: Dkg.State)
    requires Round.Valid(r) && OpenAgreed(secret, recipient, roster, round, p, AgreedOf(r)).Opened?
    requires st.player == recipient && st.dealers == Committed(r.slots)
    ensures var s := OpenAgreed(secret, recipient, roster, round, p, AgreedOf(r)).share;
      && s.dealerIndex in Dkg.AgreedCommitments(r)
      && Dkg.AddOutcome(st, Dkg.Delivery(s, Dkg.AgreedCommitments(r)[s.dealerIndex])) ==
         Ok(s.dealerIndex !in Names(st.subshares))
  {
    OpenedVerifies(secret, recipient, roster, round, p, AgreedOf(r));
    NothingCarriedNobodyAccused(secret, recipient, roster, round, p, AgreedOf(r));
    CommittedExact(r.slots, r.threshold);
    AgreedCommitment(r, p.dealer, FindCommitment(AllFilled(r.slots), p.dealer).value);
  }

  /** A package opens only in the roster and round it was sealed for, between the two keys it was sealed between. */
  lemma OpensOnlyInItsCeremony(
    secret: Bytes32, roster: SealedRoster, round: Byte, s: SubShare, c: DealerCommitment, ephemeral: Bytes32,
    opener: Bytes32, remote: Key, roster': SealedRoster, round': Byte)
    requires SealSubshare(secret, roster, round, s, c, ephemeral).Ok?
    requires NoTranscriptCollision(roster, roster')
    requires |roster.participants| < U64_LIMIT && |roster'.participants| < U64_LIMIT
    ensures s.dealerIndex == c.dealerIndex && PublicKey(roster, s.dealerIndex).Ok?
    ensures NoiseOpen(opener, remote, Prologue(roster', round'),
                      SealSubshare(secret, roster, round, s, c, ephemeral).value.message).Some? <==>
            && NOISE_ACCEPTS(opener, remote)
            && roster' == roster && round' == round
            && remote == X25519_PUBLIC(secret) && PublicKey(roster, s.playerIndex) == Ok(X25519_PUBLIC(opener))
  {
    PrologueInjective(roster, round, roster', round');
  }

  /** What the evidence says: which dealer, for whom, in which session and round, what was opened and against which
      commitment, and which delivered bytes. */
  lemma EvidenceNamesPackage(secret: Bytes32, recipient: U32, roster: SealedRoster, round: Byte, p: SealedSubShare,
                             agreed: Agreed)
    requires OpenAgreed(secret, recipient, roster, round, p, agreed).Accusable?
    ensures var bad := OpenAgreed(secret, recipient, roster, round, p, agreed).bad;
      && bad.dealer == p.dealer && bad.recipient == recipient == p.recipient
      && bad.session == roster.session && bad.round == round
      && bad.sealedDigest == SHA256(SealedPreimage(p.message))
      && FindCommitment(agreed.commitments, p.dealer).Ok?
      && bad.agreedDigest == SHA512_32(Ascii(COMMITMENT_DIGEST_DOMAIN)
                                       + CommitmentBytes(FindCommitment(agreed.commitments, p.dealer).value))
      && exists s, tag :: Carries(secret, recipient, roster, round, p, s, tag) && bad.subshare == ScalarBytes(s.value)
  {
    NothingCarriedNobodyAccused(secret, recipient, roster, round, p, agreed);
    var s, tag :| Carries(secret, recipient, roster, round, p, s, tag);
    CarriedDecides(secret, recipient, roster, round, p, agreed, s, tag);
  }

  // ---- evidence stands ----

  /** Evidence from opening a package, signed by its recipient, is upheld by a verifier that holds the same round. */
  lemma EvidenceIsUpheld(
    secret: Bytes32, recipient: U32, roster: SealedRoster, round: Byte, p: SealedSubShare, r: Round.Round,
    identity: Scalar, k: Scalar)
    requires Round.Valid(r) && OpenAgreed(secret, recipient, roster, round, p, AgreedOf(r)).Accusable?
    ensures var bad := OpenAgreed(secret, recipient, roster, round, p, AgreedOf(r)).bad;
      var c := Sign(r.epoch, roster.session, round, recipient, Cheated(bad), identity, k);
      c.Ok? && Verify(c.value, r.epoch, roster.session, BaseMul(identity), Some(AgreedOf(r))) == Ok(Upheld)
  {
    var agreed := AgreedOf(r);
    NothingCarriedNobodyAccused(secret, recipient, roster, round, p, agreed);
    var s, tag :| Carries(secret, recipient, roster, round, p, s, tag);
    CarriedDecides(secret, recipient, roster, round, p, agreed, s, tag);
    var bad := OpenAgreed(secret, recipient, roster, round, p, agreed).bad;
    SignedComplaintVerifies(r.epoch, roster.session, round, recipient, Cheated(bad), identity, k, Some(agreed));
    BadValueUpheld(r, Sign(r.epoch, roster.session, round, recipient, Cheated(bad), identity, k).value, s);
  }

  lemma BadValueUpheld(r: Round.Round, c: Complaint, s: SubShare)
    requires Round.Valid(r) && c.evidence.Cheated? && c.epoch == r.epoch && c.accuser != 0
    requires var bad := c.evidence.bad;
      bad.dealer == c.accused && bad.recipient == c.accuser && bad.session == c.session && bad.round == c.round
    requires FindCommitment(AllFilled(r.slots), c.accused).Ok?
    requires c.evidence.bad.agreedDigest == CommitmentDigest(FindCommitment(AllFilled(r.slots), c.accused).value)
    requires c.evidence.bad.subshare == ScalarBytes(s.value)
    requires s.value != Eval(FindCommitment(AllFilled(r.slots), c.accused).value.Polynomial(), FromU32(c.accuser))
    ensures Adjudicate(c, Some(AgreedOf(r))) == Ok(Upheld)
  {
    ScalarRoundTrip(s.value, []);
    FeldmanCheck(FindCommitment(AllFilled(r.slots), c.accused).value, c.accuser, s.value);
  }

  /** So it is upheld by every verifier whose echo digest matched. */
  lemma EvidenceIsUpheldEverywhere(
    secret: Bytes32, recipient: U32, roster: SealedRoster, round: Byte, p: SealedSubShare, r: Round.Round,
    identity: Scalar, k: Scalar, verifier: Round.Round)
    requires Round.Valid(r) && Round.Valid(verifier) && Round.IsComplete(r) && Round.IsComplete(verifier)
    requires Encodable(AllFilled(r.slots)) && Encodable(AllFilled(verifier.slots))
    requires NoCollision(Preimage(r), Preimage(verifier)) && AgreedOf(r).digest == AgreedOf(verifier).digest
    requires OpenAgreed(secret, recipient, roster, round, p, AgreedOf(r)).Accusable?
    ensures var bad := OpenAgreed(secret, recipient, roster, round, p, AgreedOf(r)).bad;
      var c := Sign(r.epoch, roster.session, round, recipient, Cheated(bad), identity, k);
      && c.Ok?
      && Verify(c.value, verifier.epoch, roster.session, BaseMul(identity), Some(AgreedOf(verifier))) == Ok(Upheld)
  {
    EqualDigestsEqualRounds(r, verifier);
    EvidenceIsUpheld(secret, recipient, roster, round, p, r, identity, k);
  }

  // ---- an honest dealer's round 2 ----

  /** The packages for the first n participants, or the first failure. */
  function Packages(d: Dealer, secret: Bytes32, roster: SealedRoster, round: Byte, ephemerals: seq<Bytes32>, n: nat):
    (r: Result<seq<SealedSubShare>>)
    requires n <= |roster.participants| <= |ephemerals| && 0 !in IndicesOf(roster.participants) && ValidDealer(d)
    ensures r.Ok? ==> |r.value| == n
  {
    if n == 0 then Ok([])
    else
      var before :- Packages(d, secret, roster, round, ephemerals, n - 1);
      var package :- PackageFor(d, secret, roster, round, ephemerals, n - 1);
      Ok(before + [package])
  }

  function PackageFor(d: Dealer, secret: Bytes32, roster: SealedRoster, round: Byte, ephemerals: seq<Bytes32>, i: nat):
    Result<SealedSubShare>
    requires i < |roster.participants| <= |ephemerals| && 0 !in IndicesOf(roster.participants) && ValidDealer(d)
  {
    assert IndicesOf(roster.participants)[i] != 0;
    SealSubshare(secret, roster, round, SubshareFor(d, roster.participants[i].index).value, d.commitment, ephemerals[i])
  }

  method SealRound2(d: Dealer, secret: Bytes32, roster: SealedRoster, round: Byte, ephemerals: seq<Bytes32>)
    returns (r: Result<seq<SealedSubShare>>)
    requires ValidRoster(roster) && |ephemerals| == |roster.participants| && ValidDealer(d)
    ensures r == Packages(d, secret, roster, round, ephemerals, |roster.participants|)
  {
    var out := [];
    for i := 0 to |roster.participants|
      invariant Packages(d, secret, roster, round, ephemerals, i) == Ok(out)
    {
      assert IndicesOf(roster.participants)[i] != 0;
      var subshare := GenerateSubshare(d, roster.participants[i].index);
      var package := SealSubshare(secret, roster, round, subshare.value, d.commitment, ephemerals[i]);
      if package.Err? {
        FailureStays(d, secret, roster, round, ephemerals, i + 1, |roster.participants|);
        return Err(package.error);
      }
      out := out + [package.value];
    }
    return Ok(out);
  }

  lemma {:induction false} FailureStays(d: Dealer, secret: Bytes32, roster: SealedRoster, round: Byte,
                                        ephemerals: seq<Bytes32>, m: nat, n: nat)
    requires m <= n <= |roster.participants| <= |ephemerals| && 0 !in IndicesOf(roster.participants) && ValidDealer(d)
    requires Packages(d, secret, roster, round, ephemerals, m).Err?
    ensures Packages(d, secret, roster, round, ephemerals, n) == Packages(d, secret, roster, round, ephemerals, m)
    decreases n
  {
    if m < n {
      FailureStays(d, secret, roster, round, ephemerals, m, n - 1);
    }
  }

  /** Package i of a finished round 2 is the one sealed for participant i. */
  lemma {:induction false} PackageAt(d: Dealer, secret: Bytes32, roster: SealedRoster, round: Byte,
                                     ephemerals: seq<Bytes32>, n: nat, i: nat)
    requires i < n <= |roster.participants| <= |ephemerals| && 0 !in IndicesOf(roster.participants) && ValidDealer(d)
    requires Packages(d, secret, roster, round, ephemerals, n).Ok?
    ensures PackageFor(d, secret, roster, round, ephemerals, i) ==
            Ok(Packages(d, secret, roster, round, ephemerals, n).value[i])
    decreases n
  {
    var before := Packages(d, secret, roster, round, ephemerals, n - 1);
    var last := PackageFor(d, secret, roster, round, ephemerals, n - 1);
    assert Packages(d, secret, roster, round, ephemerals, n).value == before.value + [last.value];
    if i < n - 1 {
      PackageAt(d, secret, roster, round, ephemerals, n - 1, i);
    }
  }

  /** A sub-share an honest dealer sealed in round 2 opens for its recipient, as the value dealt to it. So
      it never yields evidence. */
  lemma HonestRound2Opens(
    d: Dealer, secret: Bytes32, roster: SealedRoster, round: Byte, ephemerals: seq<Bytes32>, i: nat,
    recipientSecret: Bytes32, agreed: Agreed)
    requires ValidRoster(roster) && |ephemerals| == |roster.participants| && ValidDealer(d)
    requires Packages(d, secret, roster, round, ephemerals, |roster.participants|).Ok? && i < |roster.participants|
    requires PublicKey(roster, d.index) == Ok(X25519_PUBLIC(secret))
    requires roster.participants[i].key == X25519_PUBLIC(recipientSecret)
    requires NOISE_ACCEPTS(recipientSecret, X25519_PUBLIC(secret))
    requires FindCommitment(agreed.commitments, d.index) == Ok(d.commitment)
    ensures var index := roster.participants[i].index;
      && SubshareFor(d, index).Ok?
      && OpenAgreed(recipientSecret, index, roster, round,
                    Packages(d, secret, roster, round, ephemerals, |roster.participants|).value[i], agreed)
         == Opened(SubshareFor(d, index).value)
  {
    var index := roster.participants[i].index;
    var p := Packages(d, secret, roster, round, ephemerals, |roster.participants|).value[i];
    assert IndicesOf(roster.participants)[i] == index;
    var s := SubshareFor(d, index).value;
    PackageAt(d, secret, roster, round, ephemerals, |roster.participants|, i);
    PublicKeyExact(roster, index, X25519_PUBLIC(recipientSecret));
    assert Carries(recipientSecret, index, roster, round, p, s, CommitmentDigest(d.commitment));
    LogsOfCommit(d.polynomial);
    CarriedDecides(recipientSecret, index, roster, round, p, agreed, s, CommitmentDigest(d.commitment));
  }

  /** Round 2 fails only if the dealer is not on the roster or Noise refuses a key. */
  lemma {:induction false} Round2Succeeds(d: Dealer, secret: Bytes32, roster: SealedRoster, round: Byte,
                                          ephemerals: seq<Bytes32>, n: nat)
    requires ValidRoster(roster) && |ephemerals| == |roster.participants| && ValidDealer(d) && n <= |ephemerals|
    requires PublicKey(roster, d.index).Ok?
    requires forall i :: 0 <= i < n ==> NOISE_ACCEPTS(secret, roster.participants[i].key)
    ensures Packages(d, secret, roster, round, ephemerals, n).Ok?
    decreases n
  {
    if n != 0 {
      Round2Succeeds(d, secret, roster, round, ephemerals, n - 1);
      var to := roster.participants[n - 1];
      assert IndicesOf(roster.participants)[n - 1] == to.index;
      PublicKeyExact(roster, to.index, to.key);
    }
  }
}
