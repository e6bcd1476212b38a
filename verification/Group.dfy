/** The curve group (`CurvePoint` in `src/curve.rs`): a group of prime order, so a one-dimensional
    vector space over the scalars. A point is named by its discrete logarithm to the generator. */
module Group {
  import opened Field

  datatype Point = Point(log: Scalar)

  function Identity(): Point { Point(Zero()) }

  function Generator(): Point { Point(One()) }

  function AddPoints(p: Point, q: Point): Point { Point(Add(p.log, q.log)) }

  function MulScalar(p: Point, s: Scalar): Point { Point(Mul(s, p.log)) }

  function BaseMul(s: Scalar): Point { MulScalar(Generator(), s) }

  /** `s ↦ s·G` is a bijection: it hits each point exactly once. */
  lemma BaseMulLog(s: Scalar)
    ensures BaseMul(s) == Point(s)
  {
    MulOne(s);
  }
}
