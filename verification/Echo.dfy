/** The echo round (`src/dkg.rs`): every participant hashes the round-1 set it saw, and participants that
    hold equal hashes hold the same round. */
module Echo {
  import opened Words
  import opened Sequences
  import opened Encoding
  import opened Commitments
  import opened Codecs
  import opened Slots
  import Round = DkgRound

  const ECHO_DIGEST_DOMAIN := "frostito/dkg-round1-echo/v1"

  // ---- the hashed bytes ----

  function Row(c: DealerCommitment): Bytes { U32Bytes(c.dealerIndex) + Prefixed(CommitmentBytes(c)) }

  function Rows(cs: seq<DealerCommitment>): Bytes {
    if cs == [] then [] else Row(cs[0]) + Rows(cs[1..])
  }

  function Header(epoch: U64, threshold: U32, participants: U32, count: nat): (b: Bytes)
    ensures |b| == |Ascii(ECHO_DIGEST_DOMAIN)| + 20
  {
    Ascii(ECHO_DIGEST_DOMAIN) +
    (U64Bytes(epoch) + (U32Bytes(threshold) + (U32Bytes(participants) + U32Bytes(count % U32_LIMIT))))
  }

  function Sorted(cs: seq<DealerCommitment>): (r: seq<DealerCommitment>)
    ensures |r| == |cs|
  {
    SortBy(DealerIndex, cs)
  }

  function EchoPreimage(epoch: U64, threshold: U32, participants: U32, cs: seq<DealerCommitment>): Bytes {
    Header(epoch, threshold, participants, |cs|) + Rows(Sorted(cs))
  }

  method Round1EchoDigest(epoch: U64, threshold: U32, participants: U32, cs: seq<DealerCommitment>)
    returns (digest: Bytes32)
    ensures digest == SHA512_32(EchoPreimage(epoch, threshold, participants, cs))
  {
    var sorted := Sorted(cs);
    var head := Header(epoch, threshold, participants, |sorted|);
    var h := head;
    for i := 0 to |sorted|
      invariant h + Rows(sorted[i..]) == head + Rows(sorted)
    {
      var bytes := PrintCommitment(sorted[i]);
      assert sorted[i..][1..] == sorted[i + 1..];
      AppendRow(h, U32Bytes(sorted[i].dealerIndex), U64Bytes(|bytes| % U64_LIMIT), bytes, Rows(sorted[i + 1..]));
      h := h + U32Bytes(sorted[i].dealerIndex) + U64Bytes(|bytes| % U64_LIMIT) + bytes;
    }
    assert h + [] == h;
    digest := SHA512_32(h);
  }

  lemma AppendRow<T>(h: seq<T>, a: seq<T>, b: seq<T>, c: seq<T>, rest: seq<T>)
    ensures h + a + b + c + rest == h + (a + (b + c) + rest)
  {}

  /** A commitment whose encoding length fits the u64 prefix. */
  ghost predicate Encodable(cs: seq<DealerCommitment>) {
    && |cs| < U32_LIMIT
    && forall i :: 0 <= i < |cs| ==> |CommitmentBytes(cs[i])| < U64_LIMIT
  }

  lemma {:induction false} RowsDetermine(cs: seq<DealerCommitment>, ds: seq<DealerCommitment>)
    requires |cs| == |ds| && Rows(cs) == Rows(ds) && Encodable(cs) && Encodable(ds)
    ensures cs == ds
    decreases |cs|
  {
    if cs != [] {
      var c, d, cr, dr := cs[0], ds[0], Rows(cs[1..]), Rows(ds[1..]);
      Regroup(U32Bytes(c.dealerIndex), Prefixed(CommitmentBytes(c)), cr);
      Regroup(U32Bytes(d.dealerIndex), Prefixed(CommitmentBytes(d)), dr);
      SplitEqual(U32Bytes(c.dealerIndex), Prefixed(CommitmentBytes(c)) + cr,
                 U32Bytes(d.dealerIndex), Prefixed(CommitmentBytes(d)) + dr);
      PrefixedSplit(CommitmentBytes(c), cr, CommitmentBytes(d), dr);
      CommitmentBytesInjective(c, d);
      RowsDetermine(cs[1..], ds[1..]);
      assert cs == [c] + cs[1..] && ds == [d] + ds[1..];
    }
  }

  lemma HeaderDetermines(e: U64, t: U32, n: U32, k: nat, e': U64, t': U32, n': U32, k': nat)
    requires Header(e, t, n, k) == Header(e', t', n', k') && k < U32_LIMIT && k' < U32_LIMIT
    ensures e == e' && t == t' && n == n' && k == k'
  {
    var d := Ascii(ECHO_DIGEST_DOMAIN);
    var c, c' := U32Bytes(k % U32_LIMIT), U32Bytes(k' % U32_LIMIT);
    var m, m' := U32Bytes(n) + c, U32Bytes(n') + c';
    SplitEqual(d, U64Bytes(e) + (U32Bytes(t) + m), d, U64Bytes(e') + (U32Bytes(t') + m'));
    SplitEqual(U64Bytes(e), U32Bytes(t) + m, U64Bytes(e'), U32Bytes(t') + m');
    SplitEqual(U32Bytes(t), m, U32Bytes(t'), m');
    SplitEqual(U32Bytes(n), c, U32Bytes(n'), c');
    U64BytesInjective(e, e');
    U32BytesInjective(t, t');
    U32BytesInjective(n, n');
    U32BytesInjective(k % U32_LIMIT, k' % U32_LIMIT);
  }

  /** The hashed bytes determine the ceremony parameters and the whole commitment set. */
  lemma PreimageDetermines(e: U64, t: U32, n: U32, cs: seq<DealerCommitment>,
                                              e': U64, t': U32, n': U32, ds: seq<DealerCommitment>)
    requires EchoPreimage(e, t, n, cs) == EchoPreimage(e', t', n', ds) && Encodable(cs) && Encodable(ds)
    ensures e == e' && t == t' && n == n' && multiset(cs) == multiset(ds)
  {
    SplitEqual(Header(e, t, n, |cs|), Rows(Sorted(cs)), Header(e', t', n', |ds|), Rows(Sorted(ds)));
    HeaderDetermines(e, t, n, |cs|, e', t', n', |ds|);
    SortedEncodable(cs);
    SortedEncodable(ds);
    RowsDetermine(Sorted(cs), Sorted(ds));
    SortBySorts(DealerIndex, cs);
    SortBySorts(DealerIndex, ds);
  }

  lemma SortedEncodable(cs: seq<DealerCommitment>)
    requires Encodable(cs)
    ensures Encodable(Sorted(cs))
  {
    SortBySorts(DealerIndex, cs);
    SameMultisetSameElements(cs, Sorted(cs));
    forall i | 0 <= i < |cs|
      ensures |CommitmentBytes(Sorted(cs)[i])| < U64_LIMIT
    {
      assert Sorted(cs)[i] in cs;
    }
  }

  lemma EchoSorted(cs: seq<DealerCommitment>, ds: seq<DealerCommitment>)
    requires multiset(cs) == multiset(ds) && Distinct(Indices(cs))
    ensures Sorted(cs) == Sorted(ds)
  {
    SortBySorts(DealerIndex, cs);
    SortBySorts(DealerIndex, ds);
    DistinctKeysSurvive(cs, Sorted(cs));
    SortedUnique(DealerIndex, Sorted(cs), Sorted(ds));
  }

  /** The order in which the commitments are listed does not matter. */
  lemma EchoOrderIrrelevant(e: U64, t: U32, n: U32, cs: seq<DealerCommitment>, ds: seq<DealerCommitment>)
    requires multiset(cs) == multiset(ds) && Distinct(Indices(cs))
    ensures EchoPreimage(e, t, n, cs) == EchoPreimage(e, t, n, ds)
  {
    SameMultisetSameElements(cs, ds);
    EchoSorted(cs, ds);
  }

  lemma DistinctKeysSurvive(cs: seq<DealerCommitment>, ds: seq<DealerCommitment>)
    requires multiset(cs) == multiset(ds) && Distinct(Indices(cs))
    ensures NoTies(DealerIndex, ds)
  {
    assert forall i, j :: 0 <= i < j < |cs| ==> Indices(cs)[i] != Indices(cs)[j];
    assert Distinct(cs);
    PermutationDistinct(cs, ds);
    SameMultisetSameElements(cs, ds);
    forall i, j | 0 <= i < j < |ds|
      ensures DealerIndex(ds[i]) != DealerIndex(ds[j])
    {
      assert ds[i] in cs && ds[j] in cs;
      var p :| 0 <= p < |cs| && cs[p] == ds[i];
      var q :| 0 <= q < |cs| && cs[q] == ds[j];
      assert Indices(cs)[p] != Indices(cs)[q];
    }
  }

  // ---- the agreed set ----

  datatype Agreed = Agreed(epoch: U64, threshold: U32, digest: Bytes32, commitments: seq<DealerCommitment>)

  function Preimage(r: Round.Round): Bytes {
    EchoPreimage(r.epoch, r.threshold, r.participants, AllFilled(r.slots))
  }

  function AgreedOf(r: Round.Round): Agreed {
    Agreed(r.epoch, r.threshold, SHA512_32(Preimage(r)), AllFilled(r.slots))
  }

  method AgreedRound1(r: Round.Round) returns (res: Result<Agreed>)
    requires Round.Valid(r)
    ensures res.Ok? <==> Round.IsComplete(r)
    ensures res.Ok? ==> res.value == AgreedOf(r)
    ensures res.Ok? ==> res.value.epoch == r.epoch && res.value.threshold == r.threshold
    ensures res.Err? ==>
              && |r.disqualified| <= r.participants
              && res.error == InsufficientContributions(|AllFilled(r.slots)|, r.participants - |r.disqualified|)
  {
    Round.NeverUnderflows(r);
    if !Round.IsComplete(r) {
      return Err(InsufficientContributions(|AllFilled(r.slots)|, r.participants - |r.disqualified|));
    }
    var commitments := Sorted(AllFilled(r.slots));
    FilledAlreadySorted(r);
    var digest := Round1EchoDigest(r.epoch, r.threshold, r.participants, commitments);
    return Ok(Agreed(r.epoch, r.threshold, digest, commitments));
  }

  /** Slot order is dealer order. */
  lemma FilledAlreadySorted(r: Round.Round)
    requires Round.Valid(r)
    ensures Sorted(AllFilled(r.slots)) == AllFilled(r.slots)
    ensures Distinct(Indices(AllFilled(r.slots)))
  {
    var cs := AllFilled(r.slots);
    CommittedExact(r.slots, r.threshold);
    SortBySorts(DealerIndex, cs);
    forall i, j | 0 <= i < j < |cs|
      ensures DealerIndex(cs[i]) < DealerIndex(cs[j])
    {
      assert Indices(cs)[i] < Indices(cs)[j];
    }
    SortedUnique(DealerIndex, cs, Sorted(cs));
  }

  function FindCommitment(cs: seq<DealerCommitment>, dealer: U32): (r: Result<DealerCommitment>)
    ensures r.Ok? ==> r.value in cs && r.value.dealerIndex == dealer
    ensures r.Err? ==> r.error == UnexpectedDealer(dealer) && dealer !in Indices(cs)
  {
    match FirstWith(DealerIndex, cs, dealer)
    case Some(c) => Ok(c)
    case None =>
      assert forall i :: 0 <= i < |cs| ==> Indices(cs)[i] == DealerIndex(cs[i]) && cs[i] in cs;
      Err(UnexpectedDealer(dealer))
  }

  lemma FindExact(cs: seq<DealerCommitment>, dealer: U32)
    ensures FindCommitment(cs, dealer).Ok? <==> dealer in Indices(cs)
  {
    if FindCommitment(cs, dealer).Ok? {
      var i :| 0 <= i < |cs| && cs[i] == FindCommitment(cs, dealer).value;
      assert Indices(cs)[i] == dealer;
    }
  }

  /** The agreed set names dealer d's commitment exactly when slot d holds it. */
  lemma AgreedCommitment(r: Round.Round, dealer: U32, c: DealerCommitment)
    requires Round.Valid(r)
    ensures FindCommitment(AllFilled(r.slots), dealer) == Ok(c) <==>
            Has(r.slots, dealer) && r.slots[dealer - 1] == Some(c)
  {
    var cs := AllFilled(r.slots);
    FindExact(cs, dealer);
    FilledExact(r.slots, r.threshold, |r.slots|);
    if FindCommitment(cs, dealer).Ok? {
      var i :| 0 <= i < |cs| && cs[i] == FindCommitment(cs, dealer).value;
    }
  }

  /** So the lookup is the slot. */
  lemma LookupIsSlot(r: Round.Round, dealer: U32)
    requires Round.Valid(r)
    ensures FindCommitment(AllFilled(r.slots), dealer) ==
            if Has(r.slots, dealer) then Ok(r.slots[dealer - 1].value) else Err(UnexpectedDealer(dealer))
  {
    var found := FindCommitment(AllFilled(r.slots), dealer);
    if Has(r.slots, dealer) {
      AgreedCommitment(r, dealer, r.slots[dealer - 1].value);
    } else if found.Ok? {
      AgreedCommitment(r, dealer, found.value);
    }
  }

  // ---- equal digests, equal rounds ----

  lemma SameFilledSameSlots(a: Round.Round, b: Round.Round)
    requires Round.Valid(a) && Round.Valid(b) && a.participants == b.participants
    requires AllFilled(a.slots) == AllFilled(b.slots)
    ensures a.slots == b.slots
  {
    forall i | 0 <= i < |a.slots|
      ensures a.slots[i] == b.slots[i]
    {
      FilledExact(a.slots, a.threshold, |a.slots|);
      FilledExact(b.slots, b.threshold, |b.slots|);
      assert Has(a.slots, i + 1) <==> Has(b.slots, i + 1);
      if Has(a.slots, i + 1) {
        var p :| 0 <= p < |AllFilled(a.slots)| && Indices(AllFilled(a.slots))[p] == i + 1;
        assert AllFilled(a.slots)[p].dealerIndex == i + 1;
      }
    }
  }

  /** A complete round disqualified exactly the dealers that have no commitment. */
  lemma SameSlotsSameDisqualified(a: Round.Round, b: Round.Round)
    requires Round.Valid(a) && Round.Valid(b) && Round.IsComplete(a) && Round.IsComplete(b)
    requires a.participants == b.participants && a.slots == b.slots
    ensures a.disqualified == b.disqualified
  {
    Round.CompleteIffAllCommitted(a);
    Round.CompleteIffAllCommitted(b);
    forall d: nat
      ensures d in Elements<nat>(a.disqualified) <==> d in Elements<nat>(b.disqualified)
    {
      assert d in a.disqualified <==> 1 <= d <= a.participants && !Has(a.slots, d);
      assert d in b.disqualified <==> 1 <= d <= b.participants && !Has(b.slots, d);
    }
    AscendingUnique(a.disqualified, b.disqualified);
  }

  /** Two complete rounds with equal digests are the same round: same parameters, same commitments in the
      same slots, same dealers disqualified. So they derive the same key and the same shares. */
  lemma EqualDigestsEqualRounds(a: Round.Round, b: Round.Round)
    requires Round.Valid(a) && Round.Valid(b) && Round.IsComplete(a) && Round.IsComplete(b)
    requires Encodable(AllFilled(a.slots)) && Encodable(AllFilled(b.slots))
    requires NoCollision(Preimage(a), Preimage(b))
    ensures AgreedOf(a).digest == AgreedOf(b).digest <==> a == b
  {
    if AgreedOf(a).digest == AgreedOf(b).digest {
      PreimageDetermines(a.epoch, a.threshold, a.participants, AllFilled(a.slots),
                         b.epoch, b.threshold, b.participants, AllFilled(b.slots));
      FilledAlreadySorted(a);
      FilledAlreadySorted(b);
      EchoSorted(AllFilled(a.slots), AllFilled(b.slots));
      SameFilledSameSlots(a, b);
      SameSlotsSameDisqualified(a, b);
    }
  }

  // ---- confirming the peers' echoes ----

  method Confirm(agreed: Agreed, peer: Bytes32) returns (r: Result<()>)
    ensures r == if agreed.digest == peer then Ok(()) else Err(EchoMismatch)
  {
    var same := true;
    for i := 0 to 32
      invariant same <==> agreed.digest[..i] == peer[..i]
    {
      same := same && agreed.digest[i] == peer[i];
    }
    assert agreed.digest[..32] == agreed.digest && peer[..32] == peer;
    r := if same then Ok(()) else Err(EchoMismatch);
  }

  method ConfirmAll(agreed: Agreed, peers: seq<Bytes32>, expected: nat) returns (r: Result<()>)
    ensures |peers| < expected ==> r == Err(InsufficientContributions(|peers|, expected))
    ensures |peers| >= expected ==>
              r == if forall p :: p in peers ==> p == agreed.digest then Ok(()) else Err(EchoMismatch)
  {
    if |peers| < expected {
      return Err(InsufficientContributions(|peers|, expected));
    }
    for i := 0 to |peers|
      invariant forall j :: 0 <= j < i ==> peers[j] == agreed.digest
    {
      var confirmed := Confirm(agreed, peers[i]);
      if confirmed.Err? {
        assert peers[i] in peers;
        return confirmed;
      }
    }
    return Ok(());
  }

  ghost function Digests(rounds: seq<Round.Round>): (ds: seq<Bytes32>)
    ensures |ds| == |rounds| && forall k :: 0 <= k < |ds| ==> ds[k] == AgreedOf(rounds[k]).digest
  {
    seq(|rounds|, k requires 0 <= k < |rounds| => AgreedOf(rounds[k]).digest)
  }

  /** Participants whose echoes all match hold one round, and so one group key and one set of
      verification shares, whatever the delivery orders were. */
  lemma EchoAgreement(rounds: seq<Round.Round>, mine: nat)
    requires mine < |rounds|
    requires forall k :: 0 <= k < |rounds| ==>
               && Round.Valid(rounds[k]) && Round.IsComplete(rounds[k]) && Encodable(AllFilled(rounds[k].slots))
               && NoCollision(Preimage(rounds[k]), Preimage(rounds[mine]))
    requires forall d :: d in Digests(rounds) ==> d == AgreedOf(rounds[mine]).digest
    ensures forall k :: 0 <= k < |rounds| ==>
              && rounds[k] == rounds[mine]
              && Round.Total(rounds[k]) == Round.Total(rounds[mine])
  {
    forall k | 0 <= k < |rounds|
      ensures rounds[k] == rounds[mine]
    {
      assert Digests(rounds)[k] in Digests(rounds);
      EqualDigestsEqualRounds(rounds[k], rounds[mine]);
    }
  }
}
