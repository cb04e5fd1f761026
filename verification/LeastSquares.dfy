/** The normal equations and what they say about the squared residual. */
module LeastSquares {
  import opened Sums
  import opened Matrices

  function Minus(f: Vec, g: Vec): Vec { k => f(k) - g(k) }

  /** A * x - b for an A with n columns. */
  function Residual(A: Mat, x: Vec, b: Vec, n: nat): Vec { Minus(MulVec(A, x, n), b) }

  function SquaredNorm(m: nat, f: Vec): int { Dot(m, f, f) }

  ghost predicate NormalEquations(A: Mat, x: Vec, b: Vec, m: nat, n: nat) {
    forall i :: 0 <= i < n ==> MulVec(Transposed(A), Residual(A, x, b, n), m)(i) == 0
  }

  lemma SquaredNormPlus(m: nat, f: Vec, g: Vec)
    ensures SquaredNorm(m, Plus(f, g)) == SquaredNorm(m, f) + 2 * Dot(m, f, g) + SquaredNorm(m, g)
  {
    DotPlus(m, Plus(f, g), f, g);
    DotSymmetric(m, Plus(f, g), f);
    DotSymmetric(m, Plus(f, g), g);
    DotPlus(m, f, f, g);
    DotPlus(m, g, f, g);
    DotSymmetric(m, g, f);
  }

  /** Moving from x to y adds A * (y - x) to the residual. */
  lemma ResidualShift(A: Mat, x: Vec, y: Vec, b: Vec, n: nat, i: int)
    ensures Residual(A, y, b, n)(i) == Plus(Residual(A, x, b, n), MulVec(A, Minus(y, x), n))(i)
  {
    DotPlus(n, Row(A, i), x, Minus(y, x));
    DotExt(n, Row(A, i), y, Row(A, i), Plus(x, Minus(y, x)));
  }

  lemma ResidualOrthogonal(A: Mat, x: Vec, b: Vec, m: nat, n: nat, z: Vec)
    requires NormalEquations(A, x, b, m, n)
    ensures Dot(m, Residual(A, x, b, n), MulVec(A, z, n)) == 0
  {
    Adjoint(m, n, A, Residual(A, x, b, n), z);
    SumZero(n, Times(MulVec(Transposed(A), Residual(A, x, b, n), m), z));
  }

  /** Pythagoras: the residual of a solution of the normal equations is orthogonal to every A * (y - x). */
  lemma ResidualSplits(A: Mat, x: Vec, y: Vec, b: Vec, m: nat, n: nat)
    requires NormalEquations(A, x, b, m, n)
    ensures SquaredNorm(m, Residual(A, y, b, n))
         == SquaredNorm(m, Residual(A, x, b, n)) + SquaredNorm(m, MulVec(A, Minus(y, x), n))
  {
    var r, d := Residual(A, x, b, n), MulVec(A, Minus(y, x), n);
    forall i | 0 <= i < m ensures Residual(A, y, b, n)(i) == Plus(r, d)(i) {
      ResidualShift(A, x, y, b, n, i);
    }
    DotExt(m, Residual(A, y, b, n), Residual(A, y, b, n), Plus(r, d), Plus(r, d));
    SquaredNormPlus(m, r, d);
    ResidualOrthogonal(A, x, b, m, n, Minus(y, x));
  }

  lemma SquaredNormNonNegative(m: nat, f: Vec)
    ensures 0 <= SquaredNorm(m, f)
    ensures SquaredNorm(m, f) == 0 <==> forall k :: 0 <= k < m ==> f(k) == 0
  {
    SumNonNegative(m, Times(f, f));
    if forall k :: 0 <= k < m ==> f(k) == 0 {
      SumZero(m, Times(f, f));
    } else {
      var k :| 0 <= k < m && f(k) != 0;
      assert Times(f, f)(k) != 0;
    }
  }
}
