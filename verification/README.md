# A verified model of frostito

frostito is a library for collective custody with threshold Schnorr signatures: distributed key generation,
key-preserving resharing, and nested FROST, in which one position of an outer signing group is held by an
inner threshold group. This project models the algebra and the ceremonies of that library in Dafny and
proves what they are for.

The layers, each resting on the ones above it:

| files | what they model |
|---|---|
| `Words`, `Sequences`, `Buffers`, `Sums` | machine words, byte strings, errors, stable sorting and duplicates, byte buffers, sums that do not depend on order |
| `Primes`, `Field`, `Group`, `Polynomials` | the scalar field, the group, polynomials, the bound on roots, interpolation |
| `Lagrange` | the one-inversion, two-pass coefficient algorithm (`src/lagrange.rs`) |
| `Encoding`, `Commitments`, `Codecs`, `Slots` | canonical bytes, Feldman commitments, proofs of possession, the codecs, the slot table of a round |
| `Reshare`, `ReshareAggregator`, `ReshareSafety`, `ReshareRound`, `Batch` | resharing: the aggregator, its guarantees over many epochs, round 1, batch verification (`src/reshare.rs`) |
| `DkgRound`, `DkgAggregator`, `Echo`, `Complaints`, `Tally` | key generation: round 1 with disqualification, the aggregator, the echo round, complaints and their quorum (`src/dkg.rs`) |
| `Roster`, `Sealed` | sealed delivery of sub-shares, and evidence (`src/sealed.rs`) |
| `NestedKeys`, `Zf`, `NestedSigning`, `NestedGuards`, `NestedAggregation`, `NestedEqualsFlat`, `SilentHolder`, `NestedEndToEnd` | nested FROST: keys, the bridge from a signing package, the inner round, blame, equality with a flat signer, the whole pipeline (`src/nested.rs`, `src/zf.rs`) |
| `Context`, `Signer` | epoch-bound messages and layered signing (`src/context.rs`, `src/signer.rs`) |

## How to read the model

**The field and the group are arbitrary.** `Field.ORDER` is a constant without a value, of the type of primes
above 2^32; `Field.FIELD` is a constant without a value, of the type of operations that obey the laws of a
field in which `from_u32` is injective, maps 0 to zero, and `invert` sends zero to zero. So every theorem holds
for each such order and each such field. Both types are shown to be inhabited, by a prime above 2^32 and by the
integers modulo `ORDER`, so the laws are consistent. A point is represented by its logarithm to the generator,
which is what a group of prime order allows; `BaseMul` is `s ↦ s·G`.

**Codecs and hashes are arbitrary too.** `SCALAR_CODEC` and `POINT_CODEC` are any canonical fixed-width codecs:
they have a width, encode injectively, and decode canonical encodings only. The source has 32 bytes for scalars
and 32 or 33 for points. SHA-512 (truncated), SHA-256 and hashing to a scalar are arbitrary functions. Where a
property needs the absence of a collision, it says so about the two inputs concerned and no others.

**Objects and their states.** What the source mutates is a class (`Aggregator`, `DkgState`, `ReshareState`,
`ComplaintTally`, `MemorySpentSessions`, a spending holder, a byte buffer). Each method is proved equal to a step
of a state machine on values, and invariants over all runs are proved about the machine. Loops of the source are
loops here, proved against functions whose properties are then proved as lemmas.

**Inputs.** Random coefficients, nonces, weights and ephemeral keys are parameters, so every statement is for all
of them. The binding factor and the challenge of the outer round are arbitrary functions of the signing package
and the key. Noise_K is an ideal channel: a message opens for the key pair and prologue it was sealed under.

## What the source does where its documentation says otherwise

- `inner_sign` requires the quorum to be part of the revealed holders, not all of them (`src/nested.rs:780-794`),
  while the package's nonces are the sum over all reveals (`src/nested.rs:502-526`). The comment that the aggregate
  is that of a flat signer therefore does not hold for every accepted quorum: `SilentHolder.SilentHolderBreaksEquality`
  builds a round in which it fails. `NestedEqualsFlat.AggregatePlusSilent` gives the exact difference, and
  `NestedEqualsFlat.NestedEqualsFlatIff` the exact condition: the published nonce commitments D_k + ρ·E_k of the
  holders that revealed and did not sign sum to the identity, which a caller can see before asking anyone to sign.
  A quorum that is the whole revealed set always meets it (`NestedEqualsFlat.NestedEqualsFlat`).
- `DealerCommitment::from_bytes` accepts threshold 0 and returns a commitment without a constant term
  (`Codecs.EmptyCommitmentAccepted`), on which `share_commitment` then fails.
- The comment above `SpentSessions` says that `inner_sign` records the session (`src/nested.rs:903`). It does not;
  the `Spending` layer does, before it delegates (`src/signer.rs:226-230`), and the theorems are about that layer.
- The same comment says that two responses under one nonce give σ = (z₁ − z₂)/(w₁ − w₂) (`src/nested.rs:891`). With
  two nonces and a binding factor that is so exactly when (ρ₁ − ρ₂)·e is zero (`Signer.QuotientIsShareIff`,
  `Signer.TwoAnswers`); `Signer.QuotientMisses` builds two rounds in which it fails.
- Sub-shares "can still arrive in any order" (`src/reshare.rs:531`). The first one recorded fixes the threshold of all
  (`src/reshare.rs:629-637`), so a good delivery with another threshold shuts dealers out or is shut out by arrival
  order (`Reshare.FirstThresholdShutsOut`, `Reshare.MixedThresholdsDependOnOrder`). `Reshare.ArrivalOrderIff` gives
  the exact condition, which a caller can check before it delivers anything: any two deliveries that are good carry
  commitments of one threshold. Every run that completes meets it (`Reshare.CompleteMeansUniform`).
- A false accusation of a forged proof is said to be "detected immediately" (`src/dkg.rs:852-856`), and one such verdict
  to be enough (`src/dkg.rs:1294-1297`). The package in the evidence is not signed by the accused, so anyone can build
  one under its index whose proof fails (`Complaints.AnyoneConvicts`). `Complaints.VerifiedForgedIff` gives the exact
  condition, and `Complaints.ForgedIffRefused` says it of the round: the verdict is the round's own check of the
  package in the complaint, so it is about the dealer only where the verifier had that package from the dealer.
- `identifier_to_index` is said to refuse what fits neither byte order rather than take it for another share
  (`src/zf.rs:270-277`). It does not know the suite's order, so the other order's form of an index is taken for that
  index (`Zf.OtherOrderMisread`). `Zf.IndexIsIdentifierIff` and `Zf.SmallIdentifiersExact` give the exact condition: the
  identifier is below 2^32.
- `BadSubShareEvidence::encode` is described as length-prefixed (`src/dkg.rs:831`); it writes fixed-width fields
  without prefixes. It is injective all the same (`Complaints.BadInjective`), and its caller adds a prefix.

## Model

| member | source | states |
|---|---|---|
| Lagrange.ComputeLagrangeCoefficients | src/lagrange.rs:41-120 | the one-inversion, two-pass array algorithm returns the textbook Π j/(j−i) at each position; succeeds exactly on non-empty, distinct, non-zero indices |
| Lagrange.LagrangeOutcome | src/lagrange.rs:41-66 | which index lists are refused and with which error; a reported duplicate is the least index that repeats |
| Lagrange.CommonDenominator | src/lagrange.rs:71-120 | the product of the denominators is never zero, and ξ·d̄⁻¹·ρ_i is the textbook coefficient |
| Lagrange.ForwardPass | src/lagrange.rs:91-94 | the forward loop leaves prefix products in the array |
| Lagrange.BackwardPass | src/lagrange.rs:96-104 | the backward loop turns prefixes into all-but-one products, and its suffix ends as the whole product |
| Lagrange.InterpolatesAtZero | src/lagrange.rs:6-19 | Σ λ_i·f(i) = f(0) for every polynomial of degree below the number of indices |
| Lagrange.CoefficientDependsOnSet | src/lagrange.rs:41-120 | reordering the indices only reorders the coefficients |
| Commitments.EvaluateCommitment | src/reshare.rs:116-130 | Horner's loop in the group computes g^{f(x)} for the committed f |
| Commitments.FeldmanCheck | src/reshare.rs:136-149 | the check accepts exactly the committed polynomial's value, at a non-zero index |
| Commitments.NewDealer | src/dkg.rs:198-222 | a dealer that is built has a non-zero index and publishes the commitments to its own, non-empty polynomial |
| Commitments.GenerateSubshare | src/dkg.rs:256-271 | the dealer's Horner loop yields f(j), tagged with both indices |
| Commitments.HonestSubshareVerifies | src/reshare.rs:365-380 | an honest dealer's sub-shares carry both indices and the polynomial's value, and pass the check against its own commitment |
| Commitments.ProofCompleteness | src/dkg.rs:109-136 | an honest proof of possession verifies, for every domain, epoch and nonce |
| Commitments.ProofChallengeDetermines | src/dkg.rs:70-86 | within a domain, the hashed bytes name one dealer, epoch, constant term and nonce |
| Commitments.ProofDomainsSeparate | src/dkg.rs:103-124 | the bytes hashed for key generation are never those hashed for a reshare |
| Commitments.ReplayIff | src/dkg.rs:70-136 | an honest proof presented for any domain, dealer and epoch verifies exactly when the hash of both sets of bytes is the same scalar, or the constant term is zero |
| Commitments.ProofNotReplayable | src/dkg.rs:70-136 | so, short of a collision, it verifies for its own domain, dealer and epoch and for no others |
| Commitments.CheckedDealerSetOutcome | src/reshare.rs:551-575 | an aggregator is created exactly for a non-zero player and a non-empty set of distinct non-zero dealers, which it keeps sorted; otherwise the error says what is wrong, a repeated dealer being the least one |
| Codecs.CommitmentCodecExact | src/reshare.rs:158-191 | bytes parse at threshold t exactly when they are the encoding of a commitment of threshold t with a non-zero index, and as that one |
| Codecs.CommitmentRefused | src/reshare.rs:168-191 | which refusal is given: index zero at the right length is an invalid index, everything else an invalid commitment |
| Codecs.CommitmentFromBytes | src/reshare.rs:168-191 | the parsing loop over offsets computes the parser of that lemma, errors included |
| Codecs.PrintCommitment | src/reshare.rs:158-165 | the appending loop writes the index and every compressed point, in order |
| Codecs.CommitmentBytesInjective | src/reshare.rs:158-165 | different commitments have different encodings, whatever their thresholds |
| Codecs.EmptyCommitmentAccepted | src/reshare.rs:168-191 | at threshold 0 the parser accepts a commitment without a constant term |
| Codecs.PolynomialCodecExact | src/reshare.rs:491-509 | parsing and printing reshared polynomials undo each other; the empty polynomial is refused |
| Codecs.PolynomialFromBytes | src/reshare.rs:499-509 | the parsing loop computes the parser of that lemma |
| Codecs.SubShareCodecExact | src/reshare.rs:239-269 | plaintext sub-shares parse back exactly; only canonical scalars under non-zero indices are accepted, and a zero index is refused as such |
| Reshare.RunKeepsValid | src/reshare.rs:613-666 | every run of deliveries keeps: one verified entry a dealer, all from the set, all at one threshold |
| Reshare.AddAnswers | src/reshare.rs:613-666 | when each of the six answers to a delivery is given; a repeat is answered as one whatever value it brings |
| Reshare.CompleteIffAllDelivered | src/reshare.rs:596-607 | counting entries decides whether every dealer of the set has delivered, so the lookups of a complete aggregator cannot fail |
| Reshare.NothingMissingIffComplete | src/reshare.rs:601-607 | no dealer is reported missing exactly when the count says complete |
| Reshare.MissingExact | src/reshare.rs:601-607 | the missing dealers are those of the set that nothing is recorded from, in order |
| Reshare.AggregateOnCombined | src/reshare.rs:715-740 | shares that passed the Feldman check force the aggregated share onto the combined polynomial |
| Reshare.KeyTestDecides | src/reshare.rs:755-768 | on a complete aggregator the group-key test alone decides `finalize`: the last share test never fails |
| Reshare.DeliveredIff | src/reshare.rs:613-666 | when the good deliveries (from a dealer of the set, to this player, passing the check) carry one threshold, a dealer counts as delivered exactly when a good delivery came from it |
| Reshare.CompleteMeansUniform | src/reshare.rs:613-666 | a run completes only when all its good deliveries carry one threshold |
| Reshare.ArrivalOrderIrrelevant | src/reshare.rs:613-768 | when the good deliveries carry one threshold: who is missing and what `finalize` answers do not depend on the order or repetition of the deliveries |
| Reshare.FirstThresholdShutsOut | src/reshare.rs:629-637 | whichever good delivery comes first is recorded, and a dealer whose commitment has another threshold is never recorded after it |
| Reshare.ArrivalOrderIff | src/reshare.rs:531-637 | reordering deliveries of agreed commitments never changes who has delivered, exactly when the good deliveries carry one threshold; the same with repetitions |
| Reshare.MixedThresholdsDependOnOrder | src/reshare.rs:629-637 | an input on which the order matters: two dealers of thresholds 1 and 2, each of whom shuts the other out by arriving first |
| Reshare.FinalizeAnswers | src/reshare.rs:613-768 | over all runs, when the good deliveries carry one threshold: unless one came from every dealer of the set, `finalize` reports how many did; when one did, the agreed commitments and the key alone decide |
| Reshare.MixedThresholdsNeverComplete | src/reshare.rs:613-768 | over all runs with several thresholds among the good deliveries, `finalize` reports fewer dealers than it needs |
| Reshare.SameCommitmentsSamePolynomial | src/reshare.rs:729-740 | players with the same dealers and commitments derive the same polynomial |
| ReshareAggregator.Aggregator.Create | src/reshare.rs:551-575 | validates and sorts the dealer set, or names the error |
| ReshareAggregator.Aggregator.Deliver | src/reshare.rs:613-666 | one delivery: the outcome and the whole new state, on the mutable object |
| ReshareAggregator.Aggregator.AddBatch | src/reshare.rs:672-684 | a batch is the run of its deliveries; refused ones are skipped and not counted |
| ReshareAggregator.Aggregator.AggregateShare | src/reshare.rs:715-723 | the accumulator loop computes Σ λ_i·σ_i over the dealer set |
| ReshareAggregator.Aggregator.Polynomial | src/reshare.rs:729-740 | a complete aggregator publishes the commitment to Σ λ_i·f_i |
| ReshareAggregator.CombineCommitments | src/reshare.rs:729-740 | the in-place coefficient loops compute the commitment to Σ λ_i·f_i |
| ReshareAggregator.Aggregator.FinalizeShare | src/reshare.rs:755-768 | the object's `finalize` is the specified one |
| ReshareSafety.OnePolynomialThroughTheKey | src/reshare.rs:755-768 | whatever the dealers did: every share finalized against a key lies on one polynomial of the new threshold whose value at 0 is the key's logarithm, and that polynomial is what each player publishes |
| ReshareSafety.ReshareSafety | src/reshare.rs:613-768 | any new threshold of those shares interpolate to the secret behind the key |
| ReshareSafety.KeySurvivesEpochs | src/reshare.rs:755-768 | over any number of reshares, with any committees and thresholds, the key stays and every committee reconstructs the first secret |
| ReshareSafety.ResharedKeepsSecret | src/reshare.rs:323-350 | Lagrange-combining honestly dealt polynomials keeps the value at 0 |
| ReshareSafety.HonestReshareFinalizes | src/reshare.rs:755-768 | every complete aggregator over an honest deal finalizes, onto the reshared polynomial |
| ReshareSafety.SecretSurvivesHonestChain | src/reshare.rs:323-350 | the secret survives any chain of honest reshares |
| ReshareRound.RunKeepsValid | src/reshare.rs:838-866 | every run of submissions keeps slot i for dealer i+1 at the new threshold |
| ReshareRound.SubmitAnswers | src/reshare.rs:838-866 | when each answer to a submission is given, the proof being the Schnorr equation over the hash of the reshare domain, dealer, epoch, constant term and nonce |
| ReshareRound.HonestDealerCommits | src/reshare.rs:838-866 | an honest old dealer without a slot is accepted, for every polynomial of the new threshold and every nonce |
| ReshareRound.CommittedIffOffered | src/reshare.rs:823-866 | a dealer has committed exactly when it offered a commitment whose proof of possession satisfies that equation, at the new threshold; the slot holds such an offer |
| ReshareRound.DealerSetIsSmallest | src/reshare.rs:874-899 | there is a dealer set exactly when at least t_old dealers hold a slot; it is the t_old smallest of them, ascending |
| ReshareRound.QuorumOverRuns | src/reshare.rs:838-899 | over all runs, there is one exactly when at least t_old dealers have offered a proven commitment |
| ReshareRound.DealerSetNonIncreasing | src/reshare.rs:888-899 | later submissions can only lower each member of the dealer set |
| ReshareRound.AnyQuorumVerifies | src/reshare.rs:902-919 | when the dealer set's constants are shares of a polynomial, the check answers whether the group key commits to its value at 0, whichever quorum committed |
| ReshareRound.KeyCheckAnswers | src/reshare.rs:902-919 | the check answers at all exactly from t_old dealers on, t_old being positive; below, it reports how many there are |
| ReshareSafety.KeyCheckForetells | src/reshare.rs:755-768 | a player that aggregated over the round's dealer set and commitments finalizes against the round's key exactly when the round's own key check (lines 902-919) accepts |
| ReshareRound.ReshareState.constructor | src/reshare.rs:805-821 | the empty round satisfies the invariant |
| ReshareRound.ReshareState.SubmitCommitment | src/reshare.rs:838-866 | one submission: the outcome and the whole new state |
| ReshareRound.ReshareState.VerifyGroupKey | src/reshare.rs:902-919 | the accumulator loop computes the specified check, errors included |
| Batch.BatchVerifySubshares | src/reshare.rs:936-975 | the two accumulators decide: well paired, and Σ w_i·σ_i = Σ w_i·f_i(j) |
| Batch.UnpairedRefused | src/reshare.rs:936-975 | a batch is refused, whatever the weights, unless there are as many commitments as sub-shares and every sub-share is for the player and from a dealer with a commitment |
| Batch.BatchAcceptsIff | src/reshare.rs:936-975 | such a batch is accepted exactly when the weighted sums of the claimed values and of the dealers' first commitments at the player agree |
| Batch.BatchComplete | src/reshare.rs:936-975 | good sub-shares are accepted whatever the weights |
| Batch.BatchSound | src/reshare.rs:936-975 | with the other weights fixed, exactly one weight of a bad sub-share makes the check accept |
| DkgRound.EveryRunValid | src/dkg.rs:523-631 | every reachable round, submissions and disqualifications interleaved: slot i holds dealer i+1 at the ceremony threshold; the disqualified are ascending, in range and hold no slot |
| DkgRound.SubmitAnswers | src/dkg.rs:523-548 | when each answer to a submission is given, the proof being the Schnorr equation over the hash of the domain, dealer, epoch, constant term and nonce |
| DkgRound.HonestDealerCommits | src/dkg.rs:523-548 | an honest dealer that has no slot and was not disqualified is accepted, for every polynomial of the threshold and every nonce |
| DkgRound.RunExact | src/dkg.rs:523-631 | whatever the order of the events, a dealer ends up disqualified exactly when it was named in range, and holds a slot exactly when it offered a proven commitment at the ceremony threshold and was never disqualified |
| DkgRound.SlotHoldsOffer | src/dkg.rs:523-548 | a slot holds the first such offer of its dealer |
| DkgRound.CompleteIffAllCommitted | src/dkg.rs:551-559 | the count says complete exactly when every dealer not disqualified has committed |
| DkgRound.NeverUnderflows | src/dkg.rs:612-631 | the number of participants less the disqualified never underflows |
| DkgRound.DisqualifyAnswers | src/dkg.rs:612-631 | over all runs, a disqualification aborts the ceremony exactly when it leaves fewer dealers never named than the threshold, and reports how many |
| DkgRound.DkgState.constructor | src/dkg.rs:500-508 | the empty round satisfies the invariant |
| DkgRound.DkgState.SubmitCommitment | src/dkg.rs:523-548 | one submission: the outcome and the whole new state |
| DkgRound.DkgState.DisqualifyDealer | src/dkg.rs:612-631 | one disqualification, which changes the state even when it then reports an abort |
| DkgRound.DeriveGroupKey | src/dkg.rs:648-662 | the accumulator loop yields the commitment to the total polynomial at 0, on complete rounds only |
| DkgRound.DeriveVerificationShare | src/dkg.rs:670-687 | the loop over commitments yields the commitment to the total polynomial at the player's index |
| DkgAggregator.RunInvariant | src/dkg.rs:394-433 | every run keeps one entry a dealer, each the agreed polynomial's value at the player |
| DkgAggregator.AddAnswers | src/dkg.rs:394-433 | when each of the five answers to a delivery is given; a repeat is answered as one whatever value it brings |
| DkgAggregator.DeliveredIff | src/dkg.rs:394-433 | a dealer counts as delivered exactly when some delivery from it, to this player, passed the check |
| DkgAggregator.FinalizeAnswers | src/dkg.rs:437-464 | over all runs, a participant derives its share and the key exactly when a delivery from every dealer of the set passed the check; otherwise it is told how many are there and how many are needed |
| DkgAggregator.Aggregator.Create | src/dkg.rs:317-341 | validates and sorts the dealer set, or names the error |
| DkgAggregator.Aggregator.Deliver | src/dkg.rs:394-433 | one delivery: the outcome and the whole new state |
| DkgAggregator.Aggregator.FinalizeShare | src/dkg.rs:457-464 | the accumulator loop sums what was received, in arrival order |
| DkgAggregator.Aggregator.DeriveGroupKey | src/dkg.rs:437-444 | the accumulator loop sums the recorded constant terms |
| DkgAggregator.EndToEnd | src/dkg.rs:394-687 | in any arrival order, a complete aggregator over an agreed round derives the round's own group key and the share its verification share commits to |
| DkgAggregator.ParticipantFinalizes | src/dkg.rs:394-687 | over all runs against a complete round, from the deliveries alone: the participant's value of the total polynomial and the round's key, or how many dealers are still missing |
| DkgAggregator.SharesReconstruct | src/dkg.rs:437-464 | any threshold of the final shares interpolate to the secret behind every participant's key |
| Echo.Round1EchoDigest | src/dkg.rs:1641-1668 | the hashing loop hashes exactly the preimage of the lemmas below |
| Echo.PreimageDetermines | src/dkg.rs:1641-1668 | the hashed bytes determine epoch, threshold, n and the whole commitment set |
| Echo.EchoOrderIrrelevant | src/dkg.rs:1636-1650 | for distinct dealers the listing order does not matter |
| Echo.AgreedRound1 | src/dkg.rs:1609-1633 | a complete round yields its commitments in dealer order with their digest; an incomplete one is refused |
| Echo.AgreedCommitment | src/dkg.rs:1545-1550 | the agreed set names dealer d's commitment exactly when slot d holds it |
| Echo.EqualDigestsEqualRounds | src/dkg.rs:1444-1472 | short of a collision, two complete rounds have equal digests exactly when they are equal: parameters, slots and disqualified dealers |
| Echo.Confirm | src/dkg.rs:1560-1571 | the byte-by-byte comparison accepts exactly the equal digest |
| Echo.ConfirmAll | src/dkg.rs:1560-1593 | accepts exactly enough echoes that all match, with the source's error precedence |
| Echo.EchoAgreement | src/dkg.rs:1422-1472 | participants whose echoes all match hold one round, hence one key and one set of verification shares |
| Complaints.BodyInjective | src/dkg.rs:1055-1075 | the signed body determines epoch, session, round, accuser, accused and evidence |
| Complaints.EvidenceInjective | src/dkg.rs:936-953 | tags and length prefixes make the evidence encoding injective |
| Complaints.BadInjective | src/dkg.rs:832-842 | the fixed-width evidence record determines all its fields |
| Complaints.BuildBody | src/dkg.rs:1057-1075 | the appending encoder writes exactly the body of those lemmas |
| Complaints.EncodeEvidenceInto | src/dkg.rs:936-953 | the tagged, length-prefixed encoder appends exactly the evidence encoding |
| Complaints.ChallengeBinds | src/dkg.rs:1077-1087 | the bytes hashed for a signature name one nonce, one key and one complaint |
| Complaints.TransplantIff | src/dkg.rs:1077-1130 | a signature put under another complaint holds exactly when the hash of both sets of bytes is the same scalar, or the signer's secret is zero |
| Complaints.SignatureBinds | src/dkg.rs:1077-1130 | so, short of a collision, a signature is good for the one complaint it was made for |
| Complaints.CommitmentDigestBinds | src/dkg.rs:733-745 | short of a collision, a commitment digest names one commitment |
| Complaints.SignedComplaintVerifies | src/dkg.rs:1093-1202 | `sign` refuses accuser 0 only; every complaint it builds passes the signature check under the accuser's key, and in its own ceremony `verify` refuses it for accusing dealer 0 and otherwise answers what adjudicating the evidence answers, errors included |
| Complaints.VerdictMeansAuthentic | src/dkg.rs:1157-1207 | `verify` is adjudication for complaints of the ceremony that carry a signature of their own bytes under the accuser's key, and an invalid complaint for all others: never a verdict |
| Complaints.UpheldIff | src/dkg.rs:1219-1271 | when each answer about a sub-share is given in an agreed round: Upheld, Unfounded, no such dealer, or invalid |
| Complaints.VerifiedUpheldIff | src/dkg.rs:1168-1271 | when `verify` gives each of them: Unfounded exactly when an authentic complaint, bound to itself and to the accused's slot, reveals the accuser's value of that polynomial, and Upheld exactly when it reveals another scalar |
| Complaints.NoVerdictWithoutAgreement | src/dkg.rs:1239-1252 | without the verifier's own agreed set of that epoch there is no verdict about a sub-share |
| Complaints.VerifiedForgedIff | src/dkg.rs:1168-1233 | `verify` decides a forged-proof complaint exactly when it is authentic: Upheld when the package's Schnorr equation fails for the epoch, Unfounded when it holds |
| Complaints.AnyoneConvicts | src/dkg.rs:1168-1233 | over any commitment under any dealer's index, and any nonce commitment, every accuser can sign a forged-proof complaint that `verify` upholds, whatever the dealer did |
| Complaints.ForgedIffRefused | src/dkg.rs:1219-1232 | a signed forged-proof complaint is upheld exactly when a round of its epoch would refuse the package for its proof, and is unfounded otherwise |
| Complaints.HonestProofUnfounded | src/dkg.rs:1219-1232 | a complaint that carries an honestly made proof is unfounded |
| Complaints.TrueShareUnfounded | src/dkg.rs:1219-1271 | a complaint that reveals the true sub-share is never upheld |
| Lagrange.ShortOfThreshold | src/dkg.rs:774-792 | shares at t−1 distinct non-zero indices fit every value at 0, each in exactly one polynomial with t coefficients |
| Tally.AccusersExact | src/dkg.rs:1357-1388 | after any run, a dealer's accusers are exactly the others with an upheld complaint against it |
| Tally.OrderIrrelevant | src/dkg.rs:1357-1375 | order and repetition of the findings do not matter |
| Tally.DisqualifiableIff | src/dkg.rs:1391-1402 | a dealer may be disqualified exactly when at least t distinct others, and at least one, accuse it |
| Tally.ComplaintTally.RecordVerdict | src/dkg.rs:1357-1375 | one verdict: the outcome and the whole new state |
| Roster.NewRoster | src/sealed.rs:145-166 | the windows loop over the sorted participants computes the specified roster or error |
| Roster.RosterOutcome | src/sealed.rs:137-166 | a roster is built exactly from a non-empty set of distinct non-zero indices; otherwise the error says what is wrong, a repeated index being the least one |
| Roster.RosterOrderIrrelevant | src/sealed.rs:137-166 | the roster does not depend on the order in which participants were heard from |
| Roster.PublicKeyExact | src/sealed.rs:181-187 | the lookup finds a key exactly when the roster pairs it with the index |
| Roster.PublicKeyListed | src/sealed.rs:181-187 | and fails exactly on an index that is not listed, naming it |
| Roster.HashTranscript | src/sealed.rs:194-204 | the hashing loop hashes exactly the transcript of the lemma below |
| Roster.TranscriptInjective | src/sealed.rs:189-204 | the transcript determines every index, every key and the session |
| Roster.TranscriptBinds | src/sealed.rs:189-204 | short of a collision, the transcript digest names one roster |
| Roster.PrologueInjective | src/sealed.rs:207-214 | short of a collision, a prologue names one roster and one round |
| Sealed.CarriedDecides | src/sealed.rs:535-592 | a package that opens and carries an addressed sub-share is accepted, refused or accusable by its value and its digest, exactly |
| Sealed.SealedIff | src/sealed.rs:300-330 | when a sub-share is sealed and when it is refused: it must be under its dealer's own commitment, between listed participants, with keys Noise accepts |
| Sealed.NothingCarriedNobodyAccused | src/sealed.rs:515-592 | anything else is a local failure: no evidence |
| Sealed.LocalAnswers | src/sealed.rs:535-592 | which local failure: a dealer that is not agreed or not on the roster is named; a plaintext of the right length that does not parse is reported as such, and everything else as a package that did not open |
| Sealed.CiphertextDigestBinds | src/sealed.rs:243-251 | short of a collision, the digest names the bytes that were delivered |
| Sealed.EvidenceNamesPackage | src/sealed.rs:535-592 | evidence names the dealer, the recipient, the session and round, the value opened, the commitment it fails against and the delivered bytes |
| Sealed.BothOpensAgree | src/sealed.rs:348-436 | opening against the caller's commitment and against the agreed set give the same result when the commitments are the same |
| Sealed.OpenedIsTaken | src/sealed.rs:535-592 | the aggregator over the agreed dealers takes every opened share it has not taken yet |
| Sealed.OpensOnlyInItsCeremony | src/sealed.rs:39-51 | a sealed package opens exactly between the two keys, for the roster and the round, it was sealed for |
| Sealed.EvidenceIsUpheld | src/sealed.rs:535-592 | evidence from opening, signed by the recipient for the same epoch, session and round, is upheld |
| Sealed.EvidenceIsUpheldEverywhere | src/dkg.rs:1168-1271 | and by every verifier whose echo digest matched |
| Sealed.SealRound2 | src/sealed.rs:599-618 | the loop seals one package a participant, in roster order, or reports the first failure |
| Sealed.HonestRound2Opens | src/sealed.rs:535-618 | what an honest dealer seals in round 2 opens for its recipient as the value dealt to it, so it never yields evidence |
| Sealed.Round2Succeeds | src/sealed.rs:300-330 | a dealer on the roster, whose keys Noise accepts, completes round 2 |
| NestedKeys.EvalAt | src/nested.rs:86-95 | the running-power loop evaluates the coefficient shares as a polynomial |
| NestedKeys.InterleavedDkg | src/nested.rs:110-164 | the loops give every holder its value of each A_j = Σ_k p_k, and publish the commitments to the A_j(0) |
| NestedKeys.SplitEvaluation | src/nested.rs:171-202 | the pieces are the values of a polynomial through the evaluation, with its commitment |
| NestedKeys.SplitPieceVerifies | src/nested.rs:205-211 | a piece is accepted exactly when it is that value, at a non-zero holder |
| NestedKeys.CombineShares | src/nested.rs:221-231 | the accumulator loop adds the pieces to the holder's own evaluation |
| NestedKeys.CombinedOnPolynomial | src/nested.rs:110-231 | the holders' combined shares lie on one polynomial of degree below t_in |
| NestedKeys.CombinedSecret | src/nested.rs:110-231 | its value at 0 is f_p(p) plus the split evaluations, f_p being the polynomial the published commitments commit to |
| NestedKeys.HoldersInterpolateOuterShare | src/nested.rs:110-231 | any t_in holders interpolate the nested position's outer share |
| Zf.IdentifierExact | src/zf.rs:278-298 | for byte strings of any length: an index is read off exactly the zero-padded little-endian form of a non-zero integer, or the big-endian one where the bytes are no little-endian form |
| Zf.ReadingsDisjoint | src/zf.rs:270-298 | from 8 bytes on the two readings never compete |
| Zf.IdentifierRoundTrip | src/zf.rs:278-298 | every non-zero u32 survives either byte order |
| Zf.IndexIsIdentifierIff | src/zf.rs:270-298 | in either byte order, an accepted index is the integer the identifier stands for exactly when the bytes are its form in the suite's own order |
| Zf.SmallIdentifiersExact | src/zf.rs:270-298 | from 8 bytes on, every non-zero identifier below 2^32 is read as itself; an accepted one is read as itself exactly when it is below 2^32 |
| Zf.OtherOrderMisread | src/zf.rs:270-298 | the other byte order's form of each non-zero u32 is accepted as that u32, although the identifier is a larger integer |
| Zf.InnerParamsFromZf | src/zf.rs:316-369 | the collecting loop and the sort compute the specified parameters, first error included |
| Zf.ParamsIff | src/zf.rs:316-369 | a holder derives parameters exactly from packages that list the nested position, within 16 bits, among distinct signers; the binding factor is that position's, the challenge the package's |
| Zf.ParamsRefused | src/zf.rs:316-334 | which refusal: an identifier that is no index, a position that is not among the signers, or the least index that two identifiers share |
| Zf.LambdaOfTheSet | src/zf.rs:324-334 | the λ a holder derives is the nested index's coefficient in the set of package indices, however listed |
| NestedSigning.AggregateInnerCommitmentPair | src/nested.rs:491-528 | the loop computes (ΣD, ΣE) or the first reveal's error |
| NestedSigning.PrecommitBinds | src/nested.rs:425-454 | short of a collision, a precommitment opens to one reveal only |
| NestedGuards.PairFormedIff | src/nested.rs:491-528 | the pair is formed exactly from reveals that are of the session, distinct and as committed to, and is the sum over all of them |
| NestedGuards.PairRefusalJustified | src/nested.rs:491-528 | a refused reveal set names a true fault: a holder it names revealed twice, or revealed what it had not committed to |
| NestedGuards.NestedCommitmentIff | src/nested.rs:543-569 | the nested entry is accepted exactly when it is that sum |
| NestedGuards.AnswersIff | src/nested.rs:750-847 | exactly which requests a holder answers, and with d + ρ·e + (λ·c·μ)·σ |
| NestedGuards.RefusalJustified | src/nested.rs:750-808 | what a holder answers, in order, to another message, too few signers, a quorum that is none, nonces of another session, and a published set without its own commitment |
| NestedGuards.PublicationIsHonestRound | src/nested.rs:402-569 | holders that precommit, publish and reveal, a package that carries the sum, and any quorum of them form an honest round: the premises of the theorems below can be met |
| NestedSigning.HonestHolderSigns | src/nested.rs:750-847 | in an honest round every holder answers and its share verifies |
| NestedAggregation.VerifyInnerShareExact | src/nested.rs:985-1002 | the verification equation accepts one response only |
| NestedAggregation.AggregateInnerSharesVerified | src/nested.rs:1012-1070 | the loops return the sum when nobody is to blame, and otherwise a non-empty, strictly ascending list of exactly the holders to blame |
| NestedAggregation.NobodyBlamedIff | src/nested.rs:1004-1070 | nobody is to blame exactly when the holders are the quorum, as multisets, and every share verifies |
| NestedAggregation.AggregateUnique | src/nested.rs:1012-1070 | an accepted aggregate is the one scalar the public values determine, in any order |
| NestedEqualsFlat.HonestSignaturesPass | src/nested.rs:1012-1070 | honest shares are all accepted |
| NestedEqualsFlat.AggregatePlusSilent | src/nested.rs:491-528 | for any quorum of the revealed holders, the aggregate plus the logarithm of Σ(D_k + ρ·E_k) over those who revealed and did not sign is the flat response |
| NestedEqualsFlat.NestedEqualsFlatIff | src/nested.rs:750-847 | so nested equals flat exactly when that sum of public commitments is the identity |
| SilentHolder.SilentHolderBreaksEquality | src/nested.rs:780-794 | it fails: a concrete request in which two holders publish, the second with nonces (1, 0), and the first signs alone, is an honest round whose aggregate is not the flat response, for every share, key and message for which the package yields a binding factor and a challenge |
| NestedEqualsFlat.NestedEqualsFlat | src/nested.rs:750-847 | when the quorum is the revealed set, the aggregate is d + ρ·e + λ·c·σ, the response of one flat signer |
| NestedEqualsFlat.SignatureVerifies | src/nested.rs:402-419 | flat responses of a signing set sum to z with z·G = R + c·Y |
| NestedEqualsFlat.NestedSignatureVerifies | src/nested.rs:750-1070 | the aggregated inner shares with the other signers' flat shares form such a signature |
| NestedEndToEnd.HoldersHoldOuterShare | src/nested.rs:110-231 | the holders' polynomial at 0 is the outer group polynomial at the nested position |
| NestedEndToEnd.NestedPipelineSigns | src/nested.rs:110-1070 | keys dealt, split and combined through both levels sign: every inner share is accepted and the signature verifies under the sum of the published constant terms |
| Signer.SignExact | src/signer.rs:208-231 | any stack of spending layers answers as its holder would unless a layer recorded the session, and records exactly the request's session whatever the holder answers |
| Signer.RunExact | src/signer.rs:220-231 | every answer of every run: refused exactly when the pair was recorded before, otherwise the holder's own |
| Signer.OneSharePerSession | src/nested.rs:965-970 | a pair asked for once is refused for ever after, so one share at most per session and holder |
| Signer.SharesDiffer | src/nested.rs:965-970 | two shares of one run for the same holder are of different sessions |
| Signer.TwoResponses | src/nested.rs:884-892 | two responses under one pair of nonces differ by (ρ₁ − ρ₂)·e + (w₁ − w₂)·σ |
| Signer.QuotientIsShareIff | src/nested.rs:884-892 | so the quotient of the differences is the share exactly when (ρ₁ − ρ₂)·e is zero |
| Signer.TwoAnswers | src/nested.rs:884-892 | for any two requests one holder answers under one pair of nonces: the quotient is its share exactly when the two binding factors agree or the binding nonce is zero |
| Signer.QuotientMisses | src/nested.rs:884-892 | two rounds in which it is not the share: a lone holder answers for two messages with a non-zero binding nonce, and the derived binding factors differ |
| Signer.RawAnsweredIff | src/signer.rs:62-72 | a stack answers a `raw` request exactly when no layer recorded its session and the holder may answer it for those bytes; with a spending layer the session is recorded either way |
| Signer.BoundToOneContext | src/signer.rs:74-88 | a share for a `bound` request authorizes exactly one epoch, manifest and message |
| Signer.MemorySpentSessions.Spend | src/nested.rs:965-970 | the insertion and its refusal, on the mutable set |
| Signer.SpendingHolder.SignOnce | src/signer.rs:220-231 | records first, then signs: the object's new state and answer are the specified ones |
| Context.EncodeInto | src/context.rs:110-117 | appends exactly the encoding after what the buffer held |
| Context.EncodeFresh | src/context.rs:103-107 | encoding afresh and appending to an empty buffer are the same |
| Context.EncodePrefixFree | src/context.rs:99-117 | no encoding is the beginning of another's |
| Context.EncodeInjective | src/context.rs:99-117 | different (epoch, manifest, message) triples have different encodings |
| Polynomials.Interpolation | src/lagrange.rs:6-19 | Lagrange's weights evaluate any polynomial of small degree at any point |

## Left out

- DkgAggregator.RunInvariant: about runs in which nothing accepted lacks a constant term; the source stops on the first delivery that does, and up to there the run is modelled.
- Complaints.VerifiedForgedIff: requires a constant term in the package, because the source indexes it; likewise the part of Complaints.SignedComplaintVerifies about verifying.
- DkgRound.DkgState.SubmitCommitment: requires a commitment with a constant term, because the source indexes it before any check.
- ReshareAggregator.Aggregator.FinalizeShare: requires commitments of threshold at least 1; the group-key test of the source indexes the constant term.
- NestedKeys.InterleavedDkg: requires an inner threshold of at least 1; at 0 the source stops in `expect`.
- NestedEqualsFlat.NestedEqualsFlat: each holder's share carries the index its nonces carry; the source looks the coefficient up by the one and labels the answer with the other (`NestedGuards.AnswersIff` keeps the two apart).
- Echo.EqualDigestsEqualRounds: for commitment sets whose count fits 32 bits and whose encodings fit the 64-bit length prefix.
- Context.EncodeInjective: for messages whose length fits the 64-bit prefix; the other encodings with length prefixes say the same.
- Sealed.OpensOnlyInItsCeremony: about the ideal channel, with no SHA-256 collision between the two transcripts.
- Agreement that is the callers' to reach is a premise: equal dealer sets, commitments taken from the agreed set, a reliable broadcast.
- Secrecy, unforgeability and the distribution of keys are not stated; no claim here is probabilistic.
- `frost-core` itself (binding factors, group commitment, challenge, signing) is not part of this model; sections 5.2 and 5.3 of RFC 9591 supply the response and the verification equation.
- Curve arithmetic, point compression and scalar reduction are not part of this model, nor is X25519 key derivation.
- BIP340 parity handling, which the source does not apply in `inner_sign` either.
- Erasing secrets from memory, constant-time comparison (modelled as comparison), printing and formatting.
- Durable storage behind `SpentSessions`, crashes and restarts; the store is the in-memory one.
- Public fields of the source's objects are taken to change through the methods only.
- The lists that `ComplaintTally` and the missing-dealer getters return from ordered maps are sets here, except where their order matters.
- Getters, `all_dealers`, `generate_subshares`, `derive_all_verification_shares`, `below_threshold`: loops over what is modelled.
- The decaf377 ciphersuite of `src/zf.rs:31-250` and the feature flags.
