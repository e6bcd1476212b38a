/** The slot table of a round: slot i holds the commitment of dealer i+1, or nothing yet. Both
    `ReshareState` and `DkgState` keep one. */
module Slots {
  import opened Words
  import opened Sequences
  import opened Commitments

  type Table = seq<Option<DealerCommitment>>

  /** Slot i holds only dealer i+1, at the round's threshold. */
  ghost predicate TableValid(table: Table, threshold: nat) {
    forall i :: 0 <= i < |table| && table[i].Some? ==>
      var c := table[i].value;
      c.dealerIndex == i + 1 && c.Threshold() == threshold && c.coefficients != []
  }

  ghost predicate Has(table: Table, d: int) {
    1 <= d <= |table| && table[d - 1].Some?
  }

  /** The commitments of the first n slots, in slot order. */
  function Filled(table: Table, n: nat): (cs: seq<DealerCommitment>)
    requires n <= |table|
    ensures |cs| <= n
  {
    if n == 0 then []
    else Filled(table, n - 1) + if table[n - 1].Some? then [table[n - 1].value] else []
  }

  function AllFilled(table: Table): seq<DealerCommitment> { Filled(table, |table|) }

  function Indices(cs: seq<DealerCommitment>): (ds: seq<U32>)
    ensures |ds| == |cs| && forall i :: 0 <= i < |ds| ==> ds[i] == cs[i].dealerIndex
  {
    seq(|cs|, i requires 0 <= i < |cs| => cs[i].dealerIndex)
  }

  /** The dealers that have committed, ascending. */
  function Committed(table: Table): seq<U32> { Indices(AllFilled(table)) }

  lemma {:induction false} FilledExact(table: Table, threshold: nat, n: nat)
    requires TableValid(table, threshold) && n <= |table|
    ensures Ascending(Indices(Filled(table, n)))
    ensures forall i :: 0 <= i < |Filled(table, n)| ==>
              var c := Filled(table, n)[i];
              1 <= c.dealerIndex <= n && table[c.dealerIndex - 1] == Some(c)
    ensures forall d :: d in Indices(Filled(table, n)) <==> d <= n && Has(table, d)
  {
    if n != 0 {
      var before, now := Filled(table, n - 1), Filled(table, n);
      FilledExact(table, threshold, n - 1);
      assert Has(table, n) <==> table[n - 1].Some?;
      if table[n - 1].Some? {
        assert Indices(now) == Indices(before) + [table[n - 1].value.dealerIndex];
      } else {
        assert now == before;
      }
    }
  }

  lemma CommittedExact(table: Table, threshold: nat)
    requires TableValid(table, threshold)
    ensures Ascending(Committed(table))
    ensures forall d :: d in Committed(table) <==> Has(table, d)
  {
    FilledExact(table, threshold, |table|);
  }
}
