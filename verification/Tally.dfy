/** Counting distinct accusers (`src/dkg.rs`, `ComplaintTally`): the quorum rule over verdicts that prove a
    scalar wrong but not who sent it. */
module Tally {
  import opened Words
  import opened Sequences
  import opened Complaints

  datatype Finding = Finding(accuser: U32, accused: U32, verdict: Verdict)

  datatype State = State(threshold: U32, upheld: map<U32, set<U32>>, flagged: set<U32>)

  function RecordOutcome(f: Finding): Result<()> {
    if f.accuser == 0 || f.accused == 0 || f.accuser == f.accused then Err(InvalidIndex) else Ok(())
  }

  function Accusers(st: State, accused: U32): set<U32> {
    if accused in st.upheld then st.upheld[accused] else {}
  }

  function Record(st: State, f: Finding): State {
    if RecordOutcome(f).Err? then st
    else
      match f.verdict
      case Upheld => st.(upheld := st.upheld[f.accused := Accusers(st, f.accused) + {f.accuser}])
      case Unfounded => st.(flagged := st.flagged + {f.accuser})
  }

  function Start(threshold: U32): State { State(threshold, map[], {}) }

  function Run(st: State, fs: seq<Finding>): State {
    if fs == [] then st else Record(Run(st, fs[..|fs| - 1]), fs[|fs| - 1])
  }

  predicate Reached(st: State, accused: U32) { |Accusers(st, accused)| >= st.threshold }

  function Disqualifiable(st: State): set<U32> { set d | d in st.upheld && Reached(st, d) }

  ghost predicate Accuses(fs: seq<Finding>, accuser: U32, accused: U32) {
    Finding(accuser, accused, Upheld) in fs && accuser != 0 && accused != 0 && accuser != accused
  }

  /** After any run, in any order and with any repeats, the accusers of a dealer are exactly the others
      with an upheld complaint against it, and no dealer is listed without one. */
  lemma {:induction false} AccusersExact(threshold: U32, fs: seq<Finding>, accuser: U32, accused: U32)
    ensures accuser in Accusers(Run(Start(threshold), fs), accused) <==> Accuses(fs, accuser, accused)
    ensures Run(Start(threshold), fs).threshold == threshold
    ensures accused in Run(Start(threshold), fs).upheld ==> Accusers(Run(Start(threshold), fs), accused) != {}
    ensures accuser in Run(Start(threshold), fs).flagged <==>
            exists d :: Finding(accuser, d, Unfounded) in fs && accuser != 0 && d != 0 && accuser != d
  {
    if fs != [] {
      var most, last := fs[..|fs| - 1], fs[|fs| - 1];
      AccusersExact(threshold, most, accuser, accused);
      assert fs == most + [last];
      if last.verdict == Unfounded && last.accuser == accuser && RecordOutcome(last).Ok? {
        assert Finding(accuser, last.accused, Unfounded) in fs;
      }
    }
  }

  /** The order of the findings, and how often each is repeated, does not matter. */
  lemma OrderIrrelevant(threshold: U32, fs: seq<Finding>, gs: seq<Finding>, accused: U32)
    requires Elements(fs) == Elements(gs)
    ensures Accusers(Run(Start(threshold), fs), accused) == Accusers(Run(Start(threshold), gs), accused)
  {
    forall a: U32
      ensures a in Accusers(Run(Start(threshold), fs), accused) <==> a in Accusers(Run(Start(threshold), gs), accused)
    {
      AccusersExact(threshold, fs, a, accused);
      AccusersExact(threshold, gs, a, accused);
      assert Finding(a, accused, Upheld) in Elements(fs) <==> Finding(a, accused, Upheld) in fs;
      assert Finding(a, accused, Upheld) in Elements(gs) <==> Finding(a, accused, Upheld) in gs;
    }
  }

  /** Enough distinct participants, at least one, each with an upheld complaint. */
  ghost predicate Quorum(coalition: set<U32>, threshold: U32, fs: seq<Finding>, accused: U32) {
    coalition != {} && |coalition| >= threshold && forall a :: a in coalition ==> Accuses(fs, a, accused)
  }

  /** A dealer may be disqualified exactly when a quorum of distinct others accuses it: a coalition smaller
      than the threshold cannot frame a dealer nobody else accuses. */
  lemma DisqualifiableIff(threshold: U32, fs: seq<Finding>, accused: U32)
    ensures accused in Disqualifiable(Run(Start(threshold), fs)) <==>
            exists coalition :: Quorum(coalition, threshold, fs, accused)
  {
    var st := Run(Start(threshold), fs);
    var accusers := Accusers(st, accused);
    forall a: U32
      ensures a in accusers <==> Accuses(fs, a, accused)
    {
      AccusersExact(threshold, fs, a, accused);
    }
    AccusersExact(threshold, fs, accused, accused);
    if accused in Disqualifiable(st) {
      assert Quorum(accusers, threshold, fs, accused);
    }
    if exists coalition :: Quorum(coalition, threshold, fs, accused) {
      var coalition :| Quorum(coalition, threshold, fs, accused);
      SubsetCardinality(coalition, accusers);
      var a :| a in coalition;
      assert a in accusers;
    }
  }

  class ComplaintTally {
    const threshold: U32
    var upheld: map<U32, set<U32>>
    var flagged: set<U32>

    function Snapshot(): State
      reads this
    {
      State(threshold, upheld, flagged)
    }

    constructor (threshold: U32)
      ensures Snapshot() == Start(threshold)
    {
      this.threshold := threshold;
      upheld, flagged := map[], {};
    }

    method RecordVerdict(accuser: U32, accused: U32, verdict: Verdict) returns (r: Result<()>)
      modifies this
      ensures r == RecordOutcome(Finding(accuser, accused, verdict))
      ensures r == Err(InvalidIndex) <==> accuser == 0 || accused == 0 || accuser == accused
      ensures Snapshot() == Record(old(Snapshot()), Finding(accuser, accused, verdict))
    {
      if accuser == 0 || accused == 0 || accuser == accused {
        return Err(InvalidIndex);
      }
      match verdict {
        case Upheld =>
          var accusers := if accused in upheld then upheld[accused] else {};
          upheld := upheld[accused := accusers + {accuser}];
        case Unfounded =>
          flagged := flagged + {accuser};
      }
      return Ok(());
    }
  }
}
