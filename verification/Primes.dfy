/** Integers modulo a prime: the model that shows the field laws in `Field` can be met.
    Only `Field` uses this module, and only as the witness of its two subset types. */
module Primes {

  ghost predicate IsPrime(p: nat) {
    p > 1 && forall d {:trigger p % d} :: 1 < d < p ==> p % d != 0
  }

  // ---- a prime above every bound (Euclid) ----

  function Factorial(n: nat): (f: nat)
    ensures f >= 1
  {
    if n == 0 then 1 else n * Factorial(n - 1)
  }

  /** The least divisor of `m` that is at least `k`. */
  function LeastDivisor(m: nat, k: nat): (d: nat)
    requires 2 <= k <= m
    ensures k <= d <= m && m % d == 0
    ensures forall e {:trigger m % e} :: k <= e < d ==> m % e != 0
    decreases m - k
  {
    if m % k == 0 then k else LeastDivisor(m, k + 1)
  }

  lemma MultipleAtLeast(k: int, p: int)
    requires k >= 1 && p > 0
    ensures k * p >= p
  {
    assert k * p == (k - 1) * p + p;
    assert (k - 1) * p >= 0;
  }

  lemma DivisionUnique(x: int, p: int, q: int, r: int)
    requires p > 0 && x == q * p + r && 0 <= r < p
    ensures x / p == q && x % p == r
  {
    var q', r' := x / p, x % p;
    SmallMultiple(q - q', p, r' - r) by {
      assert x == p * q' + r';
      assert p * q' == q' * p;
      assert (q - q') * p == q * p - q' * p;
    }
  }

  lemma SmallMultiple(k: int, p: int, d: int)
    requires p > 0 && k * p == d && -p < d < p
    ensures k == 0 && d == 0
  {
    if k >= 1 {
      MultipleAtLeast(k, p);
    } else if k <= -1 {
      assert (-k) * p == -(k * p);
      MultipleAtLeast(-k, p);
    }
  }

  lemma DivisorTransitive(d: nat, e: nat, m: nat)
    requires d > 0 && e > 0 && e % d == 0 && m % e == 0
    ensures m % d == 0
  {
    var a, b := e / d, m / e;
    assert e == a * d && m == b * e;
    assert m == (b * a) * d + 0;
    DivisionUnique(m, d, b * a, 0);
  }

  lemma LeastDivisorIsPrime(m: nat)
    requires m >= 2
    ensures IsPrime(LeastDivisor(m, 2))
  {
    var p := LeastDivisor(m, 2);
    forall d {:trigger p % d} | 1 < d < p
      ensures p % d != 0
    {
      if p % d == 0 {
        DivisorTransitive(d, p, m);
      }
    }
  }

  lemma {:induction false} FactorialDivisible(n: nat, d: nat)
    requires 1 <= d <= n
    ensures Factorial(n) % d == 0
  {
    if d == n {
      assert Factorial(n) == Factorial(n - 1) * n + 0;
      DivisionUnique(Factorial(n), n, Factorial(n - 1), 0);
    } else {
      FactorialDivisible(n - 1, d);
      var q := Factorial(n - 1) / d;
      assert Factorial(n) == n * (q * d);
      assert Factorial(n) == (n * q) * d + 0;
      DivisionUnique(Factorial(n), d, n * q, 0);
    }
  }

  function PrimeAbove(n: nat): (p: nat)
    ensures IsPrime(p) && p > n
  {
    var m := Factorial(n) + 1;
    var p := LeastDivisor(m, 2);
    assert IsPrime(p) by { LeastDivisorIsPrime(m); }
    assert p > n by {
      if p <= n {
        FactorialDivisible(n, p);
        var q := Factorial(n) / p;
        assert m == q * p + 1;
        DivisionUnique(m, p, q, 1);
      }
    }
    p
  }

  // ---- arithmetic modulo p ----

  lemma SameResidue(x: int, y: int, k: int, p: int)
    requires p > 0 && x == y + k * p
    ensures x % p == y % p
  {
    DivisionUnique(x, p, y / p + k, y % p);
  }

  lemma ModAddLeft(x: int, y: int, p: int)
    requires p > 0
    ensures (x % p + y) % p == (x + y) % p
  {
    var q, r := (x % p + y) / p, (x % p + y) % p;
    assert x + y == (x / p + q) * p + r;
    DivisionUnique(x + y, p, x / p + q, r);
  }

  lemma ModMulLeft(x: int, y: int, p: int)
    requires p > 0
    ensures ((x % p) * y) % p == (x * y) % p
  {
    var q, r := ((x % p) * y) / p, ((x % p) * y) % p;
    assert x == (x / p) * p + x % p;
    assert x * y == ((x / p) * y) * p + (x % p) * y;
    assert x * y == ((x / p) * y + q) * p + r;
    DivisionUnique(x * y, p, (x / p) * y + q, r);
  }

  lemma AddAssocMod(a: nat, b: nat, c: nat, p: nat)
    requires p > 0
    ensures ((a + b) % p + c) % p == (a + (b + c) % p) % p
  {
    var q, r := (a + b) / p, (b + c) / p;
    assert (a + b) % p + c == a + b + c - q * p;
    assert a + (b + c) % p == a + b + c - r * p;
    SameResidue((a + b) % p + c, a + (b + c) % p, r - q, p);
  }

  lemma MulAssocMod(a: nat, b: nat, c: nat, p: nat)
    requires p > 0
    ensures (((a * b) % p) * c) % p == (a * ((b * c) % p)) % p
  {
    ModMulLeft(a * b, c, p);
    ModMulLeft(b * c, a, p);
    assert ((b * c) % p) * a == a * ((b * c) % p);
    assert (a * b) * c == (b * c) * a;
  }

  lemma DistribMod(a: nat, b: nat, c: nat, p: nat)
    requires p > 0
    ensures (a * ((b + c) % p)) % p == ((a * b) % p + (a * c) % p) % p
  {
    calc {
      (a * ((b + c) % p)) % p;
      { assert a * ((b + c) % p) == ((b + c) % p) * a; ModMulLeft(b + c, a, p); }
      ((b + c) * a) % p;
      { assert (b + c) * a == a * b + a * c; ModAddLeft(a * b, a * c, p); }
      ((a * b) % p + a * c) % p;
      { ModAddLeft(a * c, (a * b) % p, p); }
      ((a * c) % p + (a * b) % p) % p;
    }
  }

  /** The inverse of a non-zero residue, by descent on `p % a`. */
  function InverseMod(a: nat, p: nat): (b: nat)
    requires IsPrime(p) && 0 < a < p
    ensures b < p && (a * b) % p == 1
    decreases a
  {
    if a == 1 then
      DivisionUnique(1, p, 0, 1);
      1
    else
      assert p % a != 0;
      var r := p % a;
      var s := InverseMod(r, p);
      var b := ((p - p / a) * s) % p;
      assert (a * b) % p == 1 by { InverseStep(a, p, r, s); }
      b
  }

  lemma InverseStep(a: nat, p: nat, r: nat, s: nat)
    requires 1 < a < p && r == p % a && (r * s) % p == 1
    ensures (a * (((p - p / a) * s) % p)) % p == 1
  {
    var q, t, k := p / a, (p - p / a) * s, (r * s) / p;
    calc {
      (a * (t % p)) % p;
      { assert a * (t % p) == (t % p) * a; }
      ((t % p) * a) % p;
      { ModMulLeft(t, a, p); }
      (t * a) % p;
      { InverseProduct(a, p, q, r, s, k); DivisionUnique(t * a, p, s * a - s + k, 1); }
      1;
    }
  }

  lemma InverseProduct(a: int, p: int, q: int, r: int, s: int, k: int)
    requires p == q * a + r && r * s == k * p + 1
    ensures ((p - q) * s) * a == (s * a - s + k) * p + 1
  {
    calc {
      ((p - q) * s) * a;
      (s * a) * p - s * (q * a);
      { assert q * a == p - r; }
      (s * a) * p - s * p + r * s;
      (s * a - s + k) * p + 1;
    }
  }
}
