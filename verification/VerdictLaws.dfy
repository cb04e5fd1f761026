/** What an OK verdict is worth, and how verdicts of different calls constrain each other. */
module VerdictLaws {
  import opened Sums
  import opened Matrices
  import opened LeastSquares
  import opened RightInverse
  import opened Budgets
  import opened Verifier
  import opened VerifyCalls
  import opened Widths

  // ---------- Least squares ----------

  /** After OK the squared residual of any y exceeds that of x by exactly the squared length of A * (y - x). */
  lemma OkIsLeastSquares(A: seq<int>, aLen: nat, x: seq<int>, xLen: nat, b: seq<int>, bLen: nat, m: nat, n: nat,
                         budget: Budget, y: Vec)
    requires LstsqVerdict(A, aLen, x, xLen, b, bLen, m, n, budget) == OK
    ensures SquaredNorm(m, Residual(RowMajor(A, n), y, Vector(b), n))
         == SquaredNorm(m, Residual(RowMajor(A, n), Vector(x), Vector(b), n))
          + SquaredNorm(m, MulVec(RowMajor(A, n), Minus(y, Vector(x)), n))
    ensures SquaredNorm(m, Residual(RowMajor(A, n), y, Vector(b), n))
         >= SquaredNorm(m, Residual(RowMajor(A, n), Vector(x), Vector(b), n))
    ensures SquaredNorm(m, Residual(RowMajor(A, n), y, Vector(b), n))
         == SquaredNorm(m, Residual(RowMajor(A, n), Vector(x), Vector(b), n))
       <==> IsZero(m, MulVec(RowMajor(A, n), Minus(y, Vector(x)), n))
  {
    var M := RowMajor(A, n);
    assert NormalEquations(M, Vector(x), Vector(b), m, n);
    ResidualSplits(M, Vector(x), y, Vector(b), m, n);
    SquaredNormNonNegative(m, MulVec(M, Minus(y, Vector(x)), n));
  }

  /** The strided second pass computes what transposing A first and multiplying row by row would compute. */
  lemma StridedPassIsTransposedProduct(A: seq<int>, T: seq<int>, R: Vec, m: nat, n: nat)
    requires Holds(T, m, Transposed(RowMajor(A, n)), BeforeInColumns(m, 0, m, n))
    ensures VecFits(RowMajor(T, m), R, n, m) <==> VecFits(Transposed(RowMajor(A, n)), R, n, m)
    ensures EqualVec(n, MulVec(RowMajor(T, m), R, m), MulVec(Transposed(RowMajor(A, n)), R, m))
  {
    var M, N := RowMajor(T, m), Transposed(RowMajor(A, n));
    forall i | 0 <= i < n
      ensures MulVec(M, R, m)(i) == MulVec(N, R, m)(i)
      ensures DotFits(m, Row(M, i), R) == DotFits(m, Row(N, i), R)
    {
      forall k | 0 <= k < m ensures Row(M, i)(k) == Row(N, i)(k) {
        assert BeforeInColumns(m, 0, m, n)(i, k);
      }
      DotExt(m, Row(M, i), R, Row(N, i), R);
      DotFitsExt(m, Row(M, i), R, Row(N, i), R);
    }
  }

  // ---------- Exact solutions ----------

  lemma ZeroVectorFits(n: nat, f: Vec, g: Vec)
    requires IsZero(n, g)
    ensures DotFits(n, f, g) && Dot(n, f, g) == 0
  {
    forall k | 0 <= k < n ensures TermFits(f, g, k) {
      SumZero(k + 1, Times(f, g));
    }
    SumZero(n, Times(f, g));
  }

  /** An exact solution passes the least-squares call too, unless its two passes outspend the default budget. */
  lemma SolutionPassesLstsq(A: seq<int>, aLen: nat, x: seq<int>, xLen: nat, b: seq<int>, bLen: nat, m: nat, n: nat,
                            budget: Budget)
    requires SolutionVerdict(A, aLen, x, xLen, b, bLen, m, n, budget) == OK
    ensures LstsqVerdict(A, aLen, x, xLen, b, bLen, m, n, DEFAULT_BUDGET)
         == if m * n + m * n > OPERATION_BUDGET_PER_CALL then OPS_EXCEEDED else OK
  {
    var M, R := RowMajor(A, n), Residual(RowMajor(A, n), Vector(x), Vector(b), n);
    assert IsZero(m, R);
    forall i | 0 <= i < n
      ensures DotFits(m, Row(Transposed(M), i), R)
      ensures MulVec(Transposed(M), R, m)(i) == 0
    {
      ZeroVectorFits(m, Row(Transposed(M), i), R);
    }
  }

  // ---------- Inverses ----------

  lemma InverseBothWays(A: seq<int>, aLen: nat, X: seq<int>, xLen: nat, n: nat, b: Budget)
    requires InverseVerdict(A, aLen, X, xLen, n, b) == OK
    ensures IsIdentity(n, Product(RowMajor(A, n), RowMajor(X, n), n))
    ensures IsIdentity(n, Product(RowMajor(X, n), RowMajor(A, n), n))
  {
    RightInverseIsLeftInverse(RowMajor(A, n), RowMajor(X, n), n);
  }

  /** Swapping the two matrices of an accepted inverse never makes the answer FAIL. */
  lemma SwappedInverseNeverFails(A: seq<int>, aLen: nat, X: seq<int>, xLen: nat, n: nat, b: Budget, b': Budget)
    requires InverseVerdict(A, aLen, X, xLen, n, b) == OK
    ensures InverseVerdict(X, xLen, A, aLen, n, b')
         == if !Grants(b', InverseCharges(n, aLen, xLen)[0]) then OPS_EXCEEDED
            else if ProductFits(RowMajor(X, n), RowMajor(A, n), n, n, n) then OK
            else OVERFLOW
  {
    InverseBothWays(A, aLen, X, xLen, n, b);
  }

  lemma LeftMeetsRight(Y: Mat, A: Mat, X: Mat, n: nat, i: int, j: int)
    requires IsIdentity(n, Product(Y, A, n)) && IsIdentity(n, Product(A, X, n))
    requires 0 <= i < n && 0 <= j < n
    ensures X(i, j) == Y(i, j)
  {
    LeftInverseUndoes(Y, A, Col(X, j), n);
    forall k | 0 <= k < n ensures MulVec(A, Col(X, j), n)(k) == Unit(j)(k) {
      assert Product(A, X, n)(k, j) == Delta(k, j);
    }
    assert MulVec(Y, MulVec(A, Col(X, j), n), n)(i) == Col(X, j)(i);
    DotExt(n, Row(Y, i), MulVec(A, Col(X, j), n), Row(Y, i), Unit(j));
    DotUnit(n, Row(Y, i), j);
  }

  /** Any two accepted inverses of A are equal, whichever side either of them was checked on. */
  lemma InversesAgree(A: seq<int>, aLen: nat, X: seq<int>, xLen: nat, Y: seq<int>, yLen: nat, n: nat, b: Budget, b': Budget)
    requires InverseVerdict(A, aLen, X, xLen, n, b) == OK
    requires InverseVerdict(A, aLen, Y, yLen, n, b') == OK || InverseVerdict(Y, yLen, A, aLen, n, b') == OK
    ensures forall i, j :: 0 <= i < n && 0 <= j < n ==> RowMajor(X, n)(i, j) == RowMajor(Y, n)(i, j)
  {
    if InverseVerdict(A, aLen, Y, yLen, n, b') == OK {
      InverseBothWays(A, aLen, Y, yLen, n, b');
    }
    forall i, j | 0 <= i < n && 0 <= j < n ensures RowMajor(X, n)(i, j) == RowMajor(Y, n)(i, j) {
      LeftMeetsRight(RowMajor(Y, n), RowMajor(A, n), RowMajor(X, n), n, i, j);
    }
  }

  lemma SolvedByInverse(X: Mat, A: Mat, n: nat, b: Vec, y: Vec)
    requires IsIdentity(n, Product(X, A, n))
    requires EqualVec(n, MulVec(A, y, n), b)
    ensures EqualVec(n, y, MulVec(X, b, n))
  {
    LeftInverseUndoes(X, A, y, n);
    MulVecExt(X, MulVec(A, y, n), b, n);
  }

  /** With an accepted inverse X, an accepted x is X * b and is the only solution of A * y == b. */
  lemma SolutionIsUnique(A: seq<int>, aLen: nat, X: seq<int>, xInvLen: nat, x: seq<int>, xLen: nat, b: seq<int>, bLen: nat,
                         n: nat, budget: Budget, budget': Budget)
    requires InverseVerdict(X, xInvLen, A, aLen, n, budget) == OK || InverseVerdict(A, aLen, X, xInvLen, n, budget) == OK
    requires SolutionVerdict(A, aLen, x, xLen, b, bLen, n, n, budget') == OK
    ensures EqualVec(n, Vector(x), MulVec(RowMajor(X, n), Vector(b), n))
    ensures forall y :: EqualVec(n, MulVec(RowMajor(A, n), y, n), Vector(b)) ==> EqualVec(n, y, Vector(x))
  {
    if InverseVerdict(A, aLen, X, xInvLen, n, budget) == OK {
      InverseBothWays(A, aLen, X, xInvLen, n, budget);
    }
    SolvedByInverse(RowMajor(X, n), RowMajor(A, n), n, Vector(b), Vector(x));
    forall y | EqualVec(n, MulVec(RowMajor(A, n), y, n), Vector(b)) ensures EqualVec(n, y, Vector(x)) {
      SolvedByInverse(RowMajor(X, n), RowMajor(A, n), n, Vector(b), y);
    }
  }

  // ---------- Bounded entries ----------

  ghost predicate BoundedBy(n: nat, f: Vec, c: int) { forall k :: 0 <= k < n ==> -c <= f(k) <= c }

  lemma BoundedProduct(u: int, v: int, a: int, c: int)
    requires -a <= u <= a && -c <= v <= c
    ensures -(a * c) <= u * v <= a * c
  {
    NonNegativeProduct(a - u, c + v);
    NonNegativeProduct(a + u, c - v);
    NonNegativeProduct(a - u, c - v);
    NonNegativeProduct(a + u, c + v);
    assert (a - u) * (c + v) + (a + u) * (c - v) == 2 * (a * c) - 2 * (u * v);
    assert (a - u) * (c - v) + (a + u) * (c + v) == 2 * (a * c) + 2 * (u * v);
  }

  lemma BoundedDot(n: nat, f: Vec, g: Vec, a: int, c: int)
    requires 0 <= a && 0 <= c
    requires BoundedBy(n, f, a) && BoundedBy(n, g, c)
    ensures -(n * (a * c)) <= Dot(n, f, g) <= n * (a * c)
    ensures n * (a * c) <= INT64_MAX ==> DotFits(n, f, g)
  {
    forall k | 0 <= k < n ensures -(a * c) <= Times(f, g)(k) <= a * c {
      BoundedProduct(f(k), g(k), a, c);
    }
    NonNegativeProduct(a, c);
    SumBounded(n, Times(f, g), a * c);
    if n * (a * c) <= INT64_MAX {
      forall k | 0 <= k < n ensures TermFits(f, g, k) {
        SumBounded(k + 1, Times(f, g), a * c);
        ProductMonotone(k + 1, n, a * c);
        ProductMonotone(1, n, a * c);
        assert -(a * c) <= Times(f, g)(k) <= a * c;
      }
    }
  }

  lemma BoundedVecFits(A: Mat, x: Vec, m: nat, n: nat, a: int, c: int)
    requires 0 <= a && 0 <= c && n * (a * c) <= INT64_MAX
    requires BoundedBy(n, x, c) && forall i :: 0 <= i < m ==> BoundedBy(n, Row(A, i), a)
    ensures VecFits(A, x, m, n) && BoundedBy(m, MulVec(A, x, n), n * (a * c))
  {
    forall i | 0 <= i < m
      ensures DotFits(n, Row(A, i), x) && -(n * (a * c)) <= MulVec(A, x, n)(i) <= n * (a * c)
    {
      assert BoundedBy(n, Row(A, i), a);
      BoundedDot(n, Row(A, i), x, a, c);
    }
  }

  lemma BoundedResidual(M: Mat, v: Vec, w: Vec, m: nat, n: nat, alpha: nat, beta: nat, gamma: nat)
    requires forall i :: 0 <= i < m ==> BoundedBy(n, Row(M, i), alpha)
    requires BoundedBy(n, v, beta) && BoundedBy(m, w, gamma) && n * (alpha * beta) <= INT64_MAX
    ensures VecFits(M, v, m, n) && BoundedBy(m, Residual(M, v, w, n), n * (alpha * beta) + gamma)
  {
    BoundedVecFits(M, v, m, n, alpha, beta);
    forall i | 0 <= i < m
      ensures -(n * (alpha * beta) + gamma) <= Residual(M, v, w, n)(i) <= n * (alpha * beta) + gamma
    {
      assert -(gamma as int) <= w(i) <= gamma;
      assert Residual(M, v, w, n)(i) == MulVec(M, v, n)(i) - w(i);
    }
  }

  /**
   * Entries bounded by alpha, beta and gamma that leave head room in both passes: the least-squares call
   * then never overflows, and within its sizes and budget it decides the normal equations.
   */
  lemma BoundedLstsqIsDecided(A: seq<int>, aLen: nat, x: seq<int>, xLen: nat, b: seq<int>, bLen: nat, m: nat, n: nat,
                              budget: Budget, alpha: nat, beta: nat, gamma: nat)
    requires forall i, j :: 0 <= i < m && 0 <= j < n ==> -(alpha as int) <= RowMajor(A, n)(i, j) <= alpha
    requires BoundedBy(n, Vector(x), beta) && BoundedBy(m, Vector(b), gamma)
    requires n * (alpha * beta) + gamma <= INT64_MAX
    requires m * (alpha * (n * (alpha * beta) + gamma)) <= INT64_MAX
    ensures LstsqVerdict(A, aLen, x, xLen, b, bLen, m, n, budget) ==
      if SystemShape(m, n, aLen, xLen, bLen) != OK then SystemShape(m, n, aLen, xLen, bLen)
      else if !Grants(budget, SolutionCharges(m, n, aLen, xLen, bLen)[0])
           || !Grants(Charged(budget, SolutionCharges(m, n, aLen, xLen, bLen)[0]), SolutionCharges(m, n, aLen, xLen, bLen)[0])
        then OPS_EXCEEDED
      else if NormalEquations(RowMajor(A, n), Vector(x), Vector(b), m, n) then OK
      else FAIL
  {
    var M, v, w := RowMajor(A, n), Vector(x), Vector(b);
    var R, rho := Residual(M, v, w, n), n * (alpha * beta) + gamma;
    NonNegativeProduct(alpha, beta);
    NonNegativeProduct(n, alpha * beta);
    forall i | 0 <= i < m ensures BoundedBy(n, Row(M, i), alpha) {}
    BoundedResidual(M, v, w, m, n, alpha, beta, gamma);
    assert VecFits(Transposed(M), R, n, m) by {
      forall j | 0 <= j < n ensures BoundedBy(m, Row(Transposed(M), j), alpha) {}
      BoundedVecFits(Transposed(M), R, n, m, alpha, rho);
    }
    assert AllFit(R, m);
  }
}
