/** The participant set of a sealed round (`src/sealed.rs`, `SealedRoster`) and the prologue that binds a
    package to it. */
module Roster {
  import opened Words
  import opened Sequences
  import opened Encoding

  type Key = Bytes32

  datatype Participant = Participant(index: U32, key: Key)

  datatype SealedRoster = SealedRoster(participants: seq<Participant>, session: Bytes32)

  function IndexOf(p: Participant): nat { p.index }

  function IndicesOf(ps: seq<Participant>): (indices: seq<U32>)
    ensures |indices| == |ps| && forall i :: 0 <= i < |indices| ==> indices[i] == ps[i].index
  {
    seq(|ps|, i requires 0 <= i < |ps| => ps[i].index)
  }

  // ---- building a roster ----

  function RosterOf(ps: seq<Participant>, session: Bytes32): Result<SealedRoster> {
    if ps == [] then Err(EmptyContributions)
    else
      var sorted := SortBy(IndexOf, ps);
      if sorted[0].index == 0 then Err(InvalidIndex)
      else
        match FirstRepeat(IndicesOf(sorted))
        case Some(d) => Err(DuplicateIndex(d))
        case None => Ok(SealedRoster(sorted, session))
  }

  method NewRoster(ps: seq<Participant>, session: Bytes32) returns (r: Result<SealedRoster>)
    ensures r == RosterOf(ps, session)
  {
    if ps == [] {
      return Err(EmptyContributions);
    }
    var sorted := SortBy(IndexOf, ps);
    if sorted[0].index == 0 {
      return Err(InvalidIndex);
    }
    ghost var indices := IndicesOf(sorted);
    for i := 1 to |sorted|
      invariant FirstRepeat(indices) == FirstRepeat(indices[i - 1..])
    {
      assert indices[i - 1..][1..] == indices[i..];
      if sorted[i - 1].index == sorted[i].index {
        return Err(DuplicateIndex(sorted[i - 1].index));
      }
    }
    return Ok(SealedRoster(sorted, session));
  }

  lemma {:induction false} InsertCommutes(p: Participant, ps: seq<Participant>)
    ensures IndicesOf(InsertBy(IndexOf, p, ps)) == InsertBy(Value, p.index, IndicesOf(ps))
  {
    if ps != [] {
      assert IndicesOf(ps)[1..] == IndicesOf(ps[1..]);
      if IndexOf(p) > IndexOf(ps[0]) {
        InsertCommutes(p, ps[1..]);
      }
    }
  }

  /** Sorting the participants sorts their indices. */
  lemma {:induction false} SortCommutes(ps: seq<Participant>)
    ensures IndicesOf(SortBy(IndexOf, ps)) == Sort(IndicesOf(ps))
  {
    if ps != [] {
      SortCommutes(ps[1..]);
      assert IndicesOf(ps)[1..] == IndicesOf(ps[1..]);
      InsertCommutes(ps[0], SortBy(IndexOf, ps[1..]));
    }
  }

  ghost predicate ValidRoster(r: SealedRoster) {
    r.participants != [] && Ascending(IndicesOf(r.participants)) && 0 !in IndicesOf(r.participants)
  }

  lemma SmallestFirst(ps: seq<Participant>)
    requires ps != []
    ensures SortBy(IndexOf, ps)[0].index == 0 <==> 0 in IndicesOf(ps)
  {
    var sorted := SortBy(IndexOf, ps);
    SortBySorts(IndexOf, ps);
    SortCommutes(ps);
    SortBySorts(Value, IndicesOf(ps));
    SameMultisetSameElements(IndicesOf(ps), IndicesOf(sorted));
    assert IndicesOf(sorted)[0] == sorted[0].index;
    if 0 in IndicesOf(sorted) {
      var i :| 0 <= i < |sorted| && IndicesOf(sorted)[i] == 0;
      assert IndexOf(sorted[0]) <= IndexOf(sorted[i]);
    }
  }

  /** A roster is built exactly from a non-empty set of distinct non-zero indices; a reported duplicate
      is the least index that repeats. */
  lemma RosterOutcome(ps: seq<Participant>, session: Bytes32)
    ensures RosterOf(ps, session).Ok? <==> ps != [] && 0 !in IndicesOf(ps) && Distinct(IndicesOf(ps))
    ensures RosterOf(ps, session).Ok? ==>
              && ValidRoster(RosterOf(ps, session).value) && RosterOf(ps, session).value.session == session
              && multiset(RosterOf(ps, session).value.participants) == multiset(ps)
    ensures forall d :: RosterOf(ps, session) == Err(DuplicateIndex(d)) ==>
              multiset(IndicesOf(ps))[d] >= 2 && forall x :: x < d ==> multiset(IndicesOf(ps))[x] <= 1
    ensures RosterOf(ps, session) == Err(EmptyContributions) <==> ps == []
    ensures RosterOf(ps, session) == Err(InvalidIndex) <==> 0 in IndicesOf(ps)
    ensures ps != [] && 0 !in IndicesOf(ps) && !Distinct(IndicesOf(ps)) ==>
              exists d :: RosterOf(ps, session) == Err(DuplicateIndex(d))
  {
    var sorted := SortBy(IndexOf, ps);
    SortBySorts(IndexOf, ps);
    SortCommutes(ps);
    SortFindsDuplicates(IndicesOf(ps));
    SortBySorts(Value, IndicesOf(ps));
    SameMultisetSameElements(IndicesOf(ps), IndicesOf(sorted));
    if ps != [] {
      SmallestFirst(ps);
    }
  }

  /** The roster does not depend on the order in which the participants were heard from. */
  lemma RosterOrderIrrelevant(ps: seq<Participant>, qs: seq<Participant>, session: Bytes32)
    requires multiset(ps) == multiset(qs) && RosterOf(ps, session).Ok?
    ensures RosterOf(qs, session) == RosterOf(ps, session)
  {
    var s, t := SortBy(IndexOf, ps), SortBy(IndexOf, qs);
    SortBySorts(IndexOf, ps);
    SortBySorts(IndexOf, qs);
    RosterOutcome(ps, session);
    SameMultisetSameElements(ps, qs);
    forall i, j | 0 <= i < j < |s|
      ensures IndexOf(s[i]) != IndexOf(s[j])
    {
      assert IndicesOf(s)[i] < IndicesOf(s)[j];
    }
    SortedUnique(IndexOf, s, t);
  }

  // ---- looking a key up ----

  function PublicKey(r: SealedRoster, index: U32): Result<Key> {
    match FirstWith(IndexOf, r.participants, index)
    case Some(p) => Ok(p.key)
    case None => Err(UnknownParticipant(index))
  }

  /** The lookup fails exactly on an index that is not listed, and names it. */
  lemma PublicKeyListed(r: SealedRoster, index: U32)
    ensures PublicKey(r, index).Ok? <==> index in IndicesOf(r.participants)
    ensures PublicKey(r, index).Err? ==> PublicKey(r, index) == Err(UnknownParticipant(index))
  {
    var ps := r.participants;
    if index in IndicesOf(ps) {
      var i :| 0 <= i < |ps| && IndicesOf(ps)[i] == index;
      assert IndexOf(ps[i]) == index && ps[i] in ps;
    }
    if PublicKey(r, index).Ok? {
      var p := FirstWith(IndexOf, ps, index).value;
      var i :| 0 <= i < |ps| && ps[i] == p;
      assert IndicesOf(ps)[i] == IndexOf(p);
    }
  }

  lemma PublicKeyExact(r: SealedRoster, index: U32, key: Key)
    requires Distinct(IndicesOf(r.participants))
    ensures PublicKey(r, index) == Ok(key) <==> Participant(index, key) in r.participants
  {
    var ps := r.participants;
    if Participant(index, key) in ps {
      var i :| 0 <= i < |ps| && ps[i] == Participant(index, key);
      forall j, k | 0 <= j < k < |ps|
        ensures IndexOf(ps[j]) != IndexOf(ps[k])
      {
        assert IndicesOf(ps)[j] != IndicesOf(ps)[k];
      }
      FirstWithDistinct(IndexOf, ps, i);
    }
  }

  // ---- transcript and prologue ----

  const TRANSCRIPT_DOMAIN := "frostito/sealed/transcript/v1"
  const PROLOGUE_DOMAIN := "frostito/sealed/prologue/v1"

  function ParticipantRows(ps: seq<Participant>): (b: Bytes)
    ensures |b| == 36 * |ps|
  {
    if ps == [] then [] else U32Bytes(ps[0].index) + ps[0].key + ParticipantRows(ps[1..])
  }

  function TranscriptPreimage(r: SealedRoster): Bytes {
    Ascii(TRANSCRIPT_DOMAIN) +
    (U64Bytes(|r.participants| % U64_LIMIT) + (ParticipantRows(r.participants) + r.session))
  }

  function Transcript(r: SealedRoster): Bytes32 { SHA256(TranscriptPreimage(r)) }

  method HashTranscript(r: SealedRoster) returns (t: Bytes32)
    ensures t == Transcript(r)
  {
    var ps := r.participants;
    var head := Ascii(TRANSCRIPT_DOMAIN) + U64Bytes(|ps| % U64_LIMIT);
    var h := head;
    for i := 0 to |ps|
      invariant h + ParticipantRows(ps[i..]) == head + ParticipantRows(ps)
    {
      assert ps[i..][1..] == ps[i + 1..];
      NextRow(h, U32Bytes(ps[i].index), ps[i].key, ParticipantRows(ps[i + 1..]));
      h := h + U32Bytes(ps[i].index) + ps[i].key;
    }
    assert h + [] == h;
    FlattenTranscript(Ascii(TRANSCRIPT_DOMAIN), U64Bytes(|ps| % U64_LIMIT), ParticipantRows(ps), r.session);
    h := h + r.session;
    t := SHA256(h);
  }

  lemma NextRow<T>(h: seq<T>, a: seq<T>, b: seq<T>, rest: seq<T>)
    ensures h + (a + b + rest) == h + a + b + rest
  {}

  lemma FlattenTranscript<T>(a: seq<T>, b: seq<T>, c: seq<T>, d: seq<T>)
    ensures a + b + c + d == a + (b + (c + d))
  {}

  lemma {:induction false} RowsInjective(ps: seq<Participant>, qs: seq<Participant>)
    requires |ps| == |qs| && ParticipantRows(ps) == ParticipantRows(qs)
    ensures ps == qs
    decreases |ps|
  {
    if ps != [] {
      var p, q, pr, qr := ps[0], qs[0], ParticipantRows(ps[1..]), ParticipantRows(qs[1..]);
      SplitEqual(U32Bytes(p.index) + p.key, pr, U32Bytes(q.index) + q.key, qr);
      SplitEqual(U32Bytes(p.index), p.key, U32Bytes(q.index), q.key);
      U32BytesInjective(p.index, q.index);
      RowsInjective(ps[1..], qs[1..]);
      assert ps == [p] + ps[1..] && qs == [q] + qs[1..];
    }
  }

  /** The hashed transcript determines the roster: every index, every key and the session. */
  lemma TranscriptInjective(a: SealedRoster, b: SealedRoster)
    requires TranscriptPreimage(a) == TranscriptPreimage(b)
    requires |a.participants| < U64_LIMIT && |b.participants| < U64_LIMIT
    ensures a == b
  {
    var d := Ascii(TRANSCRIPT_DOMAIN);
    var ca, cb := U64Bytes(|a.participants| % U64_LIMIT), U64Bytes(|b.participants| % U64_LIMIT);
    var ra, rb := ParticipantRows(a.participants) + a.session, ParticipantRows(b.participants) + b.session;
    SplitEqual(d, ca + ra, d, cb + rb);
    SplitEqual(ca, ra, cb, rb);
    U64BytesInjective(|a.participants| % U64_LIMIT, |b.participants| % U64_LIMIT);
    SplitEqual(ParticipantRows(a.participants), a.session, ParticipantRows(b.participants), b.session);
    RowsInjective(a.participants, b.participants);
  }

  function Prologue(r: SealedRoster, round: Byte): Bytes {
    Ascii(PROLOGUE_DOMAIN) + (Transcript(r) + (r.session + [round]))
  }

  /** SHA-256 tells the two rosters' transcripts apart. */
  ghost predicate NoTranscriptCollision(a: SealedRoster, b: SealedRoster) {
    NoCollision256(TranscriptPreimage(a), TranscriptPreimage(b))
  }

  /** The transcript digest names one roster: every index, every key and the session. */
  lemma TranscriptBinds(a: SealedRoster, b: SealedRoster)
    requires NoTranscriptCollision(a, b)
    requires |a.participants| < U64_LIMIT && |b.participants| < U64_LIMIT
    ensures Transcript(a) == Transcript(b) <==> a == b
  {
    if Transcript(a) == Transcript(b) {
      TranscriptInjective(a, b);
    }
  }

  /** A prologue names one roster and one round. */
  lemma PrologueInjective(a: SealedRoster, ra: Byte, b: SealedRoster, rb: Byte)
    requires NoTranscriptCollision(a, b)
    requires |a.participants| < U64_LIMIT && |b.participants| < U64_LIMIT
    ensures Prologue(a, ra) == Prologue(b, rb) <==> a == b && ra == rb
  {
    if Prologue(a, ra) == Prologue(b, rb) {
      var d := Ascii(PROLOGUE_DOMAIN);
      SplitEqual(d, Transcript(a) + (a.session + [ra]), d, Transcript(b) + (b.session + [rb]));
      SplitEqual(Transcript(a), a.session + [ra], Transcript(b), b.session + [rb]);
      SplitEqual(a.session, [ra], b.session, [rb]);
      assert [ra][0] == [rb][0];
      TranscriptBinds(a, b);
    }
  }
}
