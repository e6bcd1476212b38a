/** Sums over dealers, which do not depend on the order of arrival. */
module Sums {
  import opened Words
  import opened Sequences
  import opened Field
  import opened Polynomials

  /** Σ_{i<n} m[ds[i]] */
  ghost function SumOver(ds: seq<U32>, m: map<U32, Scalar>, n: nat): Scalar
    requires n <= |ds| && forall i :: 0 <= i < n ==> ds[i] in m
  {
    if n == 0 then Zero() else Add(SumOver(ds, m, n - 1), m[ds[n - 1]])
  }

  lemma {:induction false} SumOverPrefix(s: seq<U32>, t: seq<U32>, m: map<U32, Scalar>, n: nat)
    requires n <= |s| && n <= |t| && forall i :: 0 <= i < n ==> s[i] == t[i] && s[i] in m
    ensures SumOver(s, m, n) == SumOver(t, m, n)
  {
    if n != 0 {
      SumOverPrefix(s, t, m, n - 1);
    }
  }

  function RemoveAt(t: seq<U32>, p: nat): (r: seq<U32>)
    requires p < |t|
    ensures |r| == |t| - 1
    ensures forall d :: d in r ==> d in t
    ensures multiset(r) == multiset(t) - multiset{t[p]}
  {
    assert t == t[..p] + [t[p]] + t[p + 1..];
    t[..p] + t[p + 1..]
  }

  lemma {:induction false} SumOverRemove(t: seq<U32>, m: map<U32, Scalar>, p: nat)
    requires p < |t| && forall d :: d in t ==> d in m
    ensures SumOver(t, m, |t|) == Add(SumOver(RemoveAt(t, p), m, |t| - 1), m[t[p]])
  {
    var n := |t| - 1;
    if p == n {
      SumOverPrefix(t, RemoveAt(t, p), m, n);
    } else {
      var shorter := t[..n];
      SumOverRemove(shorter, m, p);
      assert RemoveAt(t, p) == RemoveAt(shorter, p) + [t[n]];
      SumOverPrefix(shorter, t, m, n);
      SumOverPrefix(RemoveAt(shorter, p), RemoveAt(t, p), m, n - 1);
      AddRotate(SumOver(RemoveAt(shorter, p), m, n - 1), m[t[p]], m[t[n]]);
    }
  }

  lemma MatchLast(s: seq<U32>, t: seq<U32>) returns (p: nat)
    requires multiset(s) == multiset(t) && s != []
    ensures |s| == |t| && p < |t| && t[p] == s[|s| - 1]
    ensures multiset(s[..|s| - 1]) == multiset(RemoveAt(t, p))
  {
    var n := |s| - 1;
    SameMultisetSameElements(s, t);
    assert s[n] in t;
    p :| 0 <= p < |t| && t[p] == s[n];
    assert s == s[..n] + [s[n]];
  }

  lemma {:induction false} SumOverPermutation(s: seq<U32>, t: seq<U32>, m: map<U32, Scalar>)
    requires multiset(s) == multiset(t)
    requires (forall d :: d in s ==> d in m) && (forall d :: d in t ==> d in m)
    ensures |s| == |t| && SumOver(s, m, |s|) == SumOver(t, m, |t|)
    decreases |s|
  {
    if s == [] {
      SameMultisetSameElements(s, t);
    } else {
      var p := MatchLast(s, t);
      var n := |s| - 1;
      SumOverPrefix(s, s[..n], m, n);
      SumOverPermutation(s[..n], RemoveAt(t, p), m);
      SumOverRemove(t, m, p);
    }
  }

  lemma {:induction false} SumOverValues(ds: seq<U32>, vs: seq<Scalar>, m: map<U32, Scalar>, n: nat)
    requires n <= |ds| == |vs| && forall i :: 0 <= i < n ==> ds[i] in m && m[ds[i]] == vs[i]
    ensures SumOver(ds, m, n) == SumTo(vs, n)
  {
    if n != 0 {
      SumOverValues(ds, vs, m, n - 1);
    }
  }

  lemma {:induction false} SumOverConcat(s: seq<U32>, t: seq<U32>, m: map<U32, Scalar>)
    requires (forall d :: d in s ==> d in m) && (forall d :: d in t ==> d in m)
    ensures forall d :: d in s + t ==> d in m
    ensures SumOver(s + t, m, |s + t|) == Add(SumOver(s, m, |s|), SumOver(t, m, |t|))
    decreases |t|
  {
    if t == [] {
      assert s + t == s;
      AddZero(SumOver(s, m, |s|));
    } else {
      var n := |t| - 1;
      var most := t[..n];
      SumOverConcat(s, most, m);
      SumOverPrefix(s + t, s + most, m, |s| + n);
      SumOverPrefix(t, most, m, n);
      AddAssoc(SumOver(s, m, |s|), SumOver(most, m, n), m[t[n]]);
    }
  }
}
