/** The scalar field and the group of `src/curve.rs`, for an arbitrary prime order.

    `ORDER` and `FIELD` are constants without a value: every theorem holds for each prime above the
    `u32` range and for each choice of operations that obeys the field laws. `Primes` supplies the
    witnesses of the two subset types, so the laws are consistent. */
module Field {
  import opened Words
  import Primes

  function PrimeAboveU32(): (p: nat)
    ensures Primes.IsPrime(p) && p > U32_LIMIT
  {
    var bound := U32_LIMIT;
    Primes.PrimeAbove(bound)
  }

  type PrimeOrder = p: nat | Primes.IsPrime(p) && p > U32_LIMIT witness PrimeAboveU32()

  const ORDER: PrimeOrder

  type Scalar = x: nat | x < ORDER witness 0

  datatype FieldOps = FieldOps(
    zero: Scalar,
    one: Scalar,
    fromU32: U32 -> Scalar,
    add: (Scalar, Scalar) -> Scalar,
    mul: (Scalar, Scalar) -> Scalar,
    neg: Scalar -> Scalar,
    invert: Scalar -> Scalar)

  ghost predicate LawsAt(f: FieldOps, a: Scalar, b: Scalar, c: Scalar) {
    && f.add(a, b) == f.add(b, a)
    && f.add(f.add(a, b), c) == f.add(a, f.add(b, c))
    && f.add(a, f.zero) == a
    && f.add(a, f.neg(a)) == f.zero
    && f.mul(a, b) == f.mul(b, a)
    && f.mul(f.mul(a, b), c) == f.mul(a, f.mul(b, c))
    && f.mul(a, f.one) == a
    && f.mul(a, f.add(b, c)) == f.add(f.mul(a, b), f.mul(a, c))
    && (a != f.zero ==> f.mul(a, f.invert(a)) == f.one)
  }

  ghost predicate InjectiveAt(f: FieldOps, i: U32, j: U32) {
    f.fromU32(i) == f.fromU32(j) ==> i == j
  }

  ghost predicate IsPrimeField(f: FieldOps) {
    && f.zero != f.one
    && f.invert(f.zero) == f.zero
    && f.fromU32(0) == f.zero
    && (forall i, j :: InjectiveAt(f, i, j))
    && (forall a, b, c :: LawsAt(f, a, b, c))
  }

  // ---- the integers modulo ORDER obey the laws ----

  function AddMod(a: Scalar, b: Scalar): Scalar { (a + b) % ORDER }

  function MulMod(a: Scalar, b: Scalar): Scalar { (a * b) % ORDER }

  function NegMod(a: Scalar): Scalar { if a == 0 then 0 else ORDER - a }

  function InvertMod(a: Scalar): Scalar { if a == 0 then 0 else Primes.InverseMod(a, ORDER) }

  lemma AddModLaws(a: Scalar, b: Scalar, c: Scalar)
    ensures AddMod(a, b) == AddMod(b, a)
    ensures AddMod(AddMod(a, b), c) == AddMod(a, AddMod(b, c))
  {
    Primes.AddAssocMod(a, b, c, ORDER);
  }

  lemma NegModLaws(a: Scalar)
    ensures AddMod(a, 0) == a
    ensures AddMod(a, NegMod(a)) == 0
  {
    Primes.DivisionUnique(a, ORDER, 0, a);
    Primes.DivisionUnique(ORDER, ORDER, 1, 0);
  }

  lemma MulModLaws(a: Scalar, b: Scalar, c: Scalar)
    ensures MulMod(a, b) == MulMod(b, a)
    ensures MulMod(MulMod(a, b), c) == MulMod(a, MulMod(b, c))
  {
    assert a * b == b * a;
    Primes.MulAssocMod(a, b, c, ORDER);
  }

  lemma OneModLaws(a: Scalar)
    ensures MulMod(a, 1) == a
  {
    Primes.DivisionUnique(a, ORDER, 0, a);
  }

  lemma DistribModLaws(a: Scalar, b: Scalar, c: Scalar)
    ensures MulMod(a, AddMod(b, c)) == AddMod(MulMod(a, b), MulMod(a, c))
  {
    Primes.DistribMod(a, b, c, ORDER);
  }

  function IntegersModOrder(): (f: FieldOps)
    ensures IsPrimeField(f)
  {
    var f := FieldOps(0, 1, (i: U32) => i, AddMod, MulMod, NegMod, InvertMod);
    assert IsPrimeField(f) by {
      forall a: Scalar, b: Scalar, c: Scalar
        ensures LawsAt(f, a, b, c)
      {
        AddModLaws(a, b, c);
        NegModLaws(a);
        MulModLaws(a, b, c);
        OneModLaws(a);
        DistribModLaws(a, b, c);
      }
    }
    f
  }

  type PrimeField = f: FieldOps | IsPrimeField(f) witness IntegersModOrder()

  const FIELD: PrimeField

  // ---- the operations of the `CurveScalar` trait ----

  function Zero(): Scalar { FIELD.zero }

  function One(): Scalar { FIELD.one }

  function FromU32(i: U32): Scalar { FIELD.fromU32(i) }

  function Add(a: Scalar, b: Scalar): Scalar { FIELD.add(a, b) }

  function Neg(a: Scalar): Scalar { FIELD.neg(a) }

  function Sub(a: Scalar, b: Scalar): Scalar { Add(a, Neg(b)) }

  function Mul(a: Scalar, b: Scalar): Scalar { FIELD.mul(a, b) }

  function Invert(a: Scalar): Scalar { FIELD.invert(a) }

  // ---- laws ----

  lemma ZeroIsNotOne()
    ensures Zero() != One()
  {}

  lemma FromU32Injective(i: U32, j: U32)
    requires i != j
    ensures FromU32(i) != FromU32(j)
  {
    assert InjectiveAt(FIELD, i, j);
  }

  lemma FromU32NonZero(i: U32)
    requires i != 0
    ensures FromU32(i) != Zero()
  {
    FromU32Injective(i, 0);
  }

  lemma AddComm(a: Scalar, b: Scalar)
    ensures Add(a, b) == Add(b, a)
  {
    assert LawsAt(FIELD, a, b, a);
  }

  lemma AddAssoc(a: Scalar, b: Scalar, c: Scalar)
    ensures Add(Add(a, b), c) == Add(a, Add(b, c))
  {
    assert LawsAt(FIELD, a, b, c);
  }

  lemma AddZero(a: Scalar)
    ensures Add(a, Zero()) == a && Add(Zero(), a) == a
  {
    assert LawsAt(FIELD, a, Zero(), a);
  }

  lemma AddNeg(a: Scalar)
    ensures Add(a, Neg(a)) == Zero() && Add(Neg(a), a) == Zero()
  {
    assert LawsAt(FIELD, a, Neg(a), a);
  }

  lemma MulComm(a: Scalar, b: Scalar)
    ensures Mul(a, b) == Mul(b, a)
  {
    assert LawsAt(FIELD, a, b, a);
  }

  lemma MulAssoc(a: Scalar, b: Scalar, c: Scalar)
    ensures Mul(Mul(a, b), c) == Mul(a, Mul(b, c))
  {
    assert LawsAt(FIELD, a, b, c);
  }

  lemma MulOne(a: Scalar)
    ensures Mul(a, One()) == a && Mul(One(), a) == a
  {
    assert LawsAt(FIELD, a, One(), a);
  }

  lemma Distrib(a: Scalar, b: Scalar, c: Scalar)
    ensures Mul(a, Add(b, c)) == Add(Mul(a, b), Mul(a, c))
  {
    assert LawsAt(FIELD, a, b, c);
  }

  lemma MulInvert(a: Scalar)
    requires a != Zero()
    ensures Mul(a, Invert(a)) == One() && Mul(Invert(a), a) == One()
  {
    assert LawsAt(FIELD, a, Invert(a), a);
  }

  // ---- consequences ----

  lemma DistribRight(a: Scalar, b: Scalar, c: Scalar)
    ensures Mul(Add(a, b), c) == Add(Mul(a, c), Mul(b, c))
  {
    Distrib(c, a, b);
    MulComm(Add(a, b), c);
    MulComm(a, c);
    MulComm(b, c);
  }

  /** (a + b) + (c + d) == (a + c) + (b + d) */
  lemma AddSwap(a: Scalar, b: Scalar, c: Scalar, d: Scalar)
    ensures Add(Add(a, b), Add(c, d)) == Add(Add(a, c), Add(b, d))
  {
    AddAssoc(a, b, Add(c, d));
    AddAssoc(b, c, d);
    AddComm(b, c);
    AddAssoc(c, b, d);
    AddAssoc(a, c, Add(b, d));
  }

  lemma AddRotate(a: Scalar, b: Scalar, c: Scalar)
    ensures Add(Add(a, b), c) == Add(Add(a, c), b)
  {
    AddAssoc(a, b, c);
    AddComm(b, c);
    AddAssoc(a, c, b);
  }

  lemma AddSub(a: Scalar, b: Scalar)
    ensures Sub(Add(a, b), b) == a && Add(Sub(a, b), b) == a
  {
    AddAssoc(a, b, Neg(b));
    AddAssoc(a, Neg(b), b);
    AddNeg(b);
    AddZero(a);
  }

  lemma AddCancel(a: Scalar, b: Scalar, c: Scalar)
    requires Add(a, c) == Add(b, c)
    ensures a == b
  {
    AddSub(a, c);
    AddSub(b, c);
  }

  lemma SubZeroIff(a: Scalar, b: Scalar)
    ensures Sub(a, b) == Zero() <==> a == b
  {
    AddNeg(b);
    AddSub(a, b);
    AddZero(b);
  }

  lemma MulZero(a: Scalar)
    ensures Mul(a, Zero()) == Zero() && Mul(Zero(), a) == Zero()
  {
    AddZero(Zero());
    Distrib(a, Zero(), Zero());
    AddZero(Mul(a, Zero()));
    AddCancel(Mul(a, Zero()), Zero(), Mul(a, Zero()));
    MulComm(a, Zero());
  }

  lemma MulNonZero(a: Scalar, b: Scalar)
    requires a != Zero() && b != Zero()
    ensures Mul(a, b) != Zero()
  {
    if Mul(a, b) == Zero() {
      MulInvert(a);
      MulAssoc(Invert(a), a, b);
      MulOne(b);
      MulZero(Invert(a));
    }
  }

  lemma MulCancel(a: Scalar, b: Scalar, c: Scalar)
    requires c != Zero() && Mul(a, c) == Mul(b, c)
    ensures a == b
  {
    MulInvert(c);
    MulAssoc(a, c, Invert(c));
    MulAssoc(b, c, Invert(c));
    MulOne(a);
    MulOne(b);
  }

  lemma MulNeg(a: Scalar, b: Scalar)
    ensures Mul(a, Neg(b)) == Neg(Mul(a, b))
  {
    Distrib(a, b, Neg(b));
    AddNeg(b);
    MulZero(a);
    AddNeg(Mul(a, b));
    AddComm(Mul(a, b), Mul(a, Neg(b)));
    AddComm(Mul(a, b), Neg(Mul(a, b)));
    AddCancel(Mul(a, Neg(b)), Neg(Mul(a, b)), Mul(a, b));
  }

  /** (a·b)·(c·d) == (a·c)·(b·d) */
  lemma MulSwap(a: Scalar, b: Scalar, c: Scalar, d: Scalar)
    ensures Mul(Mul(a, b), Mul(c, d)) == Mul(Mul(a, c), Mul(b, d))
  {
    MulAssoc(a, b, Mul(c, d));
    MulAssoc(b, c, d);
    MulComm(b, c);
    MulAssoc(c, b, d);
    MulAssoc(a, c, Mul(b, d));
  }

  lemma MulRotate(a: Scalar, b: Scalar, c: Scalar)
    ensures Mul(a, Mul(b, c)) == Mul(b, Mul(a, c))
  {
    MulAssoc(a, b, c);
    MulComm(a, b);
    MulAssoc(b, a, c);
  }
}
