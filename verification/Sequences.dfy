/** Sorting, searching and duplicate-freedom on sequences, as the standard library calls in the
    sources provide them. */
module Sequences {

  import opened Words

  ghost predicate Distinct<T>(s: seq<T>) {
    forall i, j :: 0 <= i < j < |s| ==> s[i] != s[j]
  }

  ghost predicate Ascending(s: seq<nat>) {
    forall i, j :: 0 <= i < j < |s| ==> s[i] < s[j]
  }

  ghost predicate SortedBy<T>(key: T -> nat, s: seq<T>) {
    forall i, j :: 0 <= i < j < |s| ==> key(s[i]) <= key(s[j])
  }

  function Elements<T>(s: seq<T>): set<T> { set x | x in s }

  /** The first n flags are all set. */
  ghost predicate AllSet(flags: seq<bool>, n: nat)
    requires n <= |flags|
  {
    forall i :: 0 <= i < n ==> flags[i]
  }

  lemma NextFlag(flags: seq<bool>, n: nat)
    requires n < |flags|
    ensures AllSet(flags, n + 1) <==> AllSet(flags, n) && flags[n]
    ensures !flags[n] ==> !AllSet(flags, |flags|)
  {}

  // ---- stable sort by key ----

  function InsertBy<T>(key: T -> nat, x: T, s: seq<T>): (r: seq<T>)
    ensures |r| == |s| + 1
  {
    if s == [] then [x]
    else if key(x) <= key(s[0]) then [x] + s
    else [s[0]] + InsertBy(key, x, s[1..])
  }

  function SortBy<T>(key: T -> nat, s: seq<T>): (r: seq<T>)
    ensures |r| == |s|
  {
    if s == [] then [] else InsertBy(key, s[0], SortBy(key, s[1..]))
  }

  lemma {:induction false} InsertByPermutes<T>(key: T -> nat, x: T, s: seq<T>)
    ensures multiset(InsertBy(key, x, s)) == multiset(s) + multiset{x}
  {
    if s != [] {
      assert s == [s[0]] + s[1..];
      if key(x) > key(s[0]) {
        InsertByPermutes(key, x, s[1..]);
      }
    }
  }

  lemma {:induction false} InsertBySorted<T>(key: T -> nat, x: T, s: seq<T>)
    requires SortedBy(key, s)
    ensures SortedBy(key, InsertBy(key, x, s))
  {
    if s != [] && key(x) > key(s[0]) {
      var rest := s[1..];
      var r := InsertBy(key, x, rest);
      InsertBySorted(key, x, rest);
      InsertByPermutes(key, x, rest);
      forall i | 0 <= i < |r|
        ensures key(s[0]) <= key(r[i])
      {
        assert r[i] in multiset(r);
        assert r[i] == x || r[i] in rest;
      }
    }
  }

  lemma {:induction false} SortBySorts<T>(key: T -> nat, s: seq<T>)
    ensures SortedBy(key, SortBy(key, s))
    ensures multiset(SortBy(key, s)) == multiset(s)
  {
    if s != [] {
      SortBySorts(key, s[1..]);
      InsertBySorted(key, s[0], SortBy(key, s[1..]));
      InsertByPermutes(key, s[0], SortBy(key, s[1..]));
      assert s == [s[0]] + s[1..];
    }
  }

  ghost predicate NoTies<T>(key: T -> nat, s: seq<T>) {
    forall i, j :: 0 <= i < j < |s| ==> key(s[i]) != key(s[j])
  }

  lemma SameHead<T>(key: T -> nat, s: seq<T>, t: seq<T>)
    requires SortedBy(key, s) && SortedBy(key, t) && multiset(s) == multiset(t) && s != [] && NoTies(key, s)
    ensures |t| == |s| && s[0] == t[0]
  {
    SameMultisetSameElements(s, t);
    assert t[0] in t && s[0] in s;
    var p :| 0 <= p < |t| && t[p] == s[0];
    var q :| 0 <= q < |s| && s[q] == t[0];
  }

  lemma TailSorted<T>(key: T -> nat, s: seq<T>)
    requires SortedBy(key, s) && s != []
    ensures SortedBy(key, s[1..]) && multiset(s[1..]) == multiset(s) - multiset{s[0]}
    ensures NoTies(key, s) ==> NoTies(key, s[1..])
  {
    assert s == [s[0]] + s[1..];
  }

  /** Sorting by a key without ties has one result. */
  lemma {:induction false} SortedUnique<T>(key: T -> nat, s: seq<T>, t: seq<T>)
    requires SortedBy(key, s) && SortedBy(key, t) && multiset(s) == multiset(t) && NoTies(key, s)
    ensures s == t
    decreases |s|
  {
    SameMultisetSameElements(s, t);
    if s != [] {
      SameHead(key, s, t);
      TailSorted(key, s);
      TailSorted(key, t);
      SortedUnique(key, s[1..], t[1..]);
      assert s == [s[0]] + s[1..] && t == [t[0]] + t[1..];
    }
  }

  lemma SameMultisetSameElements<T>(s: seq<T>, t: seq<T>)
    requires multiset(s) == multiset(t)
    ensures |s| == |t|
    ensures forall x :: x in s <==> x in t
  {
    assert |multiset(s)| == |multiset(t)|;
    forall x: T
      ensures x in s <==> x in t
    {
      assert x in s <==> x in multiset(s);
      assert x in t <==> x in multiset(t);
    }
  }

  // ---- duplicate-free sequences ----

  lemma {:induction false} DistinctIffMultiplicity<T>(s: seq<T>)
    ensures Distinct(s) <==> forall x :: multiset(s)[x] <= 1
  {
    if s != [] {
      var rest := s[1..];
      assert s == [s[0]] + rest;
      DistinctIffMultiplicity(rest);
      if Distinct(s) {
        assert s[0] !in rest;
      }
      if forall x :: multiset(s)[x] <= 1 {
        forall x: T
          ensures multiset(rest)[x] <= 1
        {
          assert multiset(s)[x] <= 1;
        }
        assert multiset(s)[s[0]] <= 1;
        assert s[0] !in rest;
      }
    }
  }

  lemma PermutationDistinct<T>(s: seq<T>, t: seq<T>)
    requires multiset(s) == multiset(t) && Distinct(s)
    ensures Distinct(t)
  {
    DistinctIffMultiplicity(s);
    DistinctIffMultiplicity(t);
  }

  lemma {:induction false} DistinctCardinality<T>(s: seq<T>)
    requires Distinct(s)
    ensures |Elements(s)| == |s|
  {
    if s != [] {
      DistinctCardinality(s[1..]);
      assert Elements(s) == Elements(s[1..]) + {s[0]};
    }
  }

  lemma SubsetCardinality<T>(a: set<T>, b: set<T>)
    requires a <= b
    ensures |a| <= |b|
    ensures |a| == |b| ==> a == b
  {
    assert b == a + (b - a);
  }

  /** Two duplicate-free sequences with the same elements are permutations of each other. */
  lemma DistinctSameElements<T>(s: seq<T>, t: seq<T>)
    requires Distinct(s) && Distinct(t) && Elements(s) == Elements(t)
    ensures multiset(s) == multiset(t) && |s| == |t|
  {
    DistinctIffMultiplicity(s);
    DistinctIffMultiplicity(t);
    forall x: T
      ensures multiset(s)[x] == multiset(t)[x]
    {
      assert x in s <==> x in Elements(s);
      assert x in t <==> x in Elements(t);
      assert x in s <==> x in multiset(s);
      assert x in t <==> x in multiset(t);
    }
    DistinctCardinality(s);
    DistinctCardinality(t);
  }

  function Itself(n: nat): nat { n }

  /** An ascending sequence is determined by its elements. */
  lemma AscendingUnique(s: seq<nat>, t: seq<nat>)
    requires Ascending(s) && Ascending(t)
    requires Elements(s) == Elements(t)
    ensures s == t
  {
    DistinctSameElements(s, t);
    SortedUnique(Itself, s, t);
  }

  /** The elements of s that are not in t, in order. */
  function Without<T(==,!new)>(s: seq<T>, t: seq<T>): (r: seq<T>)
    ensures forall x :: x in r <==> x in s && x !in t
  {
    if s == [] then []
    else if s[0] in t then Without(s[1..], t)
    else [s[0]] + Without(s[1..], t)
  }

  lemma {:induction false} WithoutDistinct<T(!new)>(s: seq<T>, t: seq<T>)
    requires Distinct(s)
    ensures Distinct(Without(s, t))
  {
    if s != [] {
      WithoutDistinct(s[1..], t);
    }
  }

  lemma {:induction false} WithoutAscending(s: seq<U32>, t: seq<U32>)
    requires Ascending(s)
    ensures Ascending(Without(s, t))
  {
    if s != [] {
      var rest := Without(s[1..], t);
      WithoutAscending(s[1..], t);
      forall i | 0 <= i < |rest|
        ensures s[0] < rest[i]
      {
        assert rest[i] in s[1..];
      }
    }
  }

  /** A duplicate-free sequence is any duplicate-free part of it plus the rest. */
  lemma PartAndRest<T(!new)>(s: seq<T>, part: seq<T>)
    requires Distinct(s) && Distinct(part) && forall x :: x in part ==> x in s
    ensures multiset(s) == multiset(part + Without(s, part))
  {
    var rest := Without(s, part);
    WithoutDistinct(s, part);
    assert Elements(s) == Elements(part + rest);
    forall i, j | 0 <= i < j < |part + rest|
      ensures (part + rest)[i] != (part + rest)[j]
    {
      if i < |part| <= j {
        assert part[i] in part && rest[j - |part|] in rest;
      }
    }
    DistinctSameElements(s, part + rest);
  }

  // ---- first match ----

  /** The position of the first occurrence of x, if any. */
  function Position<T(==)>(s: seq<T>, x: T): (p: Option<nat>)
    ensures p.None? <==> x !in s
    ensures p.Some? ==> p.value < |s| && s[p.value] == x && x !in s[..p.value]
  {
    if s == [] then None
    else if s[0] == x then Some(0)
    else
      match Position(s[1..], x)
      case None => None
      case Some(i) =>
        assert s[..i + 1] == [s[0]] + s[1..][..i];
        Some(i + 1)
  }

  lemma PositionInDistinct<T>(s: seq<T>, i: nat)
    requires Distinct(s) && i < |s|
    ensures Position(s, s[i]) == Some(i)
  {}

  /** The first element whose key is k, if any. */
  function FirstWith<T, K(==)>(key: T -> K, s: seq<T>, k: K): (r: Option<T>)
    ensures r.Some? ==> r.value in s && key(r.value) == k
    ensures r.None? ==> forall x :: x in s ==> key(x) != k
  {
    if s == [] then None
    else if key(s[0]) == k then Some(s[0])
    else FirstWith(key, s[1..], k)
  }

  /** Among distinct keys, the lookup finds the element it is asked for. */
  lemma {:induction false} FirstWithDistinct<T, K>(key: T -> K, s: seq<T>, i: nat)
    requires i < |s| && forall j, k :: 0 <= j < k < |s| ==> key(s[j]) != key(s[k])
    ensures FirstWith(key, s, key(s[i])) == Some(s[i])
  {
    if i != 0 {
      FirstWithDistinct(key, s[1..], i - 1);
    }
  }

  // ---- sorted indices and their adjacent duplicates ----

  function Value(x: U32): nat { x }

  function Sort(s: seq<U32>): (r: seq<U32>)
    ensures |r| == |s|
  {
    SortBy(Value, s)
  }

  /** The first index equal to its predecessor. */
  function FirstRepeat(s: seq<U32>): Option<U32> {
    if |s| < 2 then None
    else if s[0] == s[1] then Some(s[1])
    else FirstRepeat(s[1..])
  }

  lemma {:induction false} FirstRepeatNone(s: seq<U32>)
    requires SortedBy(Value, s)
    ensures FirstRepeat(s).None? <==> Ascending(s)
    ensures FirstRepeat(s).None? <==> Distinct(s)
  {
    if |s| >= 2 {
      FirstRepeatNone(s[1..]);
      if s[0] != s[1] {
        assert forall i :: 1 <= i < |s| ==> Value(s[1]) <= Value(s[i]);
        if Ascending(s[1..]) {
          assert s == [s[0]] + s[1..];
        }
      }
    }
  }

  /** The reported duplicate is the least value that occurs twice. */
  lemma {:induction false} FirstRepeatLeast(s: seq<U32>)
    requires SortedBy(Value, s) && FirstRepeat(s).Some?
    ensures multiset(s)[FirstRepeat(s).value] >= 2
    ensures forall x :: x < FirstRepeat(s).value ==> multiset(s)[x] <= 1
    ensures s[0] <= FirstRepeat(s).value
  {
    var rest := s[1..];
    assert s == [s[0]] + rest;
    assert forall i :: 0 <= i < |rest| ==> Value(s[0]) <= Value(rest[i]) && Value(s[1]) <= Value(rest[i]);
    if s[0] == s[1] {
      assert multiset(s)[s[0]] == multiset(rest)[s[0]] + 1;
    } else {
      FirstRepeatLeast(rest);
      assert s[0] !in rest;
    }
  }

  /** Sorting exposes duplicates: the sorted list is strictly ascending or names the least one. */
  lemma SortFindsDuplicates(s: seq<U32>)
    ensures multiset(Sort(s)) == multiset(s)
    ensures FirstRepeat(Sort(s)).None? <==> Distinct(s)
    ensures FirstRepeat(Sort(s)).None? ==> Ascending(Sort(s))
    ensures FirstRepeat(Sort(s)).Some? ==>
              && multiset(s)[FirstRepeat(Sort(s)).value] >= 2
              && forall x :: x < FirstRepeat(Sort(s)).value ==> multiset(s)[x] <= 1
  {
    SortBySorts(Value, s);
    FirstRepeatNone(Sort(s));
    if Distinct(s) {
      PermutationDistinct(s, Sort(s));
    } else if FirstRepeat(Sort(s)).None? {
      PermutationDistinct(Sort(s), s);
    } else {
      FirstRepeatLeast(Sort(s));
    }
  }

  /** Adding elements can only lower the k-th smallest. */
  lemma SmallestMonotone(s: seq<nat>, t: seq<nat>, k: nat)
    requires Ascending(s) && Ascending(t) && Elements(s) <= Elements(t) && k < |s|
    ensures k < |t| && t[k] <= s[k]
  {
    var low := s[..k + 1];
    assert s[k] in Elements(t);
    var p :| 0 <= p < |t| && t[p] == s[k];
    forall x | x in low
      ensures x in t[..p + 1]
    {
      assert x in Elements(t);
      var q :| 0 <= q < |t| && t[q] == x;
      assert q <= p by {
        var i :| 0 <= i < |low| && low[i] == x;
      }
      assert t[..p + 1][q] == x;
    }
    DistinctCardinality(low);
    DistinctCardinality(t[..p + 1]);
    SubsetCardinality(Elements(low), Elements(t[..p + 1]));
  }
}
