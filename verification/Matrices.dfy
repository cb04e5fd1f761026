/** Integer matrices as functions of row and column, and the algebra behind the verdicts. */
module Matrices {
  import opened Sums

  type Mat = (int, int) -> int

  function Dot(n: nat, f: Vec, g: Vec): int { Sum(n, Times(f, g)) }

  function Row(A: Mat, i: int): Vec { k => A(i, k) }

  function Col(A: Mat, j: int): Vec { k => A(k, j) }

  function Transposed(A: Mat): Mat { (i, j) => A(j, i) }

  /** A * x for an A with n columns. */
  function MulVec(A: Mat, x: Vec, n: nat): Vec { i => Dot(n, Row(A, i), x) }

  /** A * B for an A with n columns and a B with n rows. */
  function Product(A: Mat, B: Mat, n: nat): Mat { (i, j) => Dot(n, Row(A, i), Col(B, j)) }

  function Delta(i: int, j: int): int { if i == j then 1 else 0 }

  function Unit(j: int): Vec { i => Delta(i, j) }

  ghost predicate EqualVec(n: nat, f: Vec, g: Vec) { forall k :: 0 <= k < n ==> f(k) == g(k) }

  ghost predicate IsIdentity(n: nat, A: Mat) {
    forall i, j :: 0 <= i < n && 0 <= j < n ==> A(i, j) == Delta(i, j)
  }

  /** A row-major buffer with n columns, read as a matrix. */
  function RowMajor(s: seq<int>, n: nat): Mat {
    (i, j) => if 0 <= i * n + j < |s| then s[i * n + j] else 0
  }

  function Vector(s: seq<int>): Vec { k => if 0 <= k < |s| then s[k] else 0 }

  lemma DotExt(n: nat, f: Vec, g: Vec, f': Vec, g': Vec)
    requires EqualVec(n, f, f') && EqualVec(n, g, g')
    ensures Dot(n, f, g) == Dot(n, f', g')
  {
    SumExt(n, Times(f, g), Times(f', g'));
  }

  lemma DotPlus(n: nat, f: Vec, g: Vec, h: Vec)
    ensures Dot(n, f, Plus(g, h)) == Dot(n, f, g) + Dot(n, f, h)
  {
    SumPlus(n, Times(f, g), Times(f, h));
    SumExt(n, Times(f, Plus(g, h)), Plus(Times(f, g), Times(f, h)));
  }

  lemma DotScaled(n: nat, f: Vec, c: int, g: Vec)
    ensures Dot(n, f, Scaled(c, g)) == c * Dot(n, f, g)
  {
    SumScaled(n, c, Times(f, g));
    SumExt(n, Times(f, Scaled(c, g)), Scaled(c, Times(f, g)));
  }

  lemma DotSymmetric(n: nat, f: Vec, g: Vec)
    ensures Dot(n, f, g) == Dot(n, g, f)
  {
    SumExt(n, Times(f, g), Times(g, f));
  }

  lemma DotUnit(n: nat, f: Vec, j: nat)
    requires j < n
    ensures Dot(n, f, Unit(j)) == f(j)
  {
    SumSingle(n, j, Times(f, Unit(j)));
  }

  lemma IdentityActs(n: nat, A: Mat, x: Vec)
    requires IsIdentity(n, A)
    ensures EqualVec(n, MulVec(A, x, n), x)
  {
    forall i | 0 <= i < n ensures MulVec(A, x, n)(i) == x(i) {
      DotExt(n, Row(A, i), x, Unit(i), x);
      DotSymmetric(n, Unit(i), x);
      DotUnit(n, x, i);
    }
  }

  function TripleTerms(a: Vec, B: Mat, x: Vec): Mat { (k, j) => a(k) * (B(k, j) * x(j)) }

  lemma TripleColumn(a: Vec, B: Mat, x: Vec, n: nat, j: int)
    ensures InnerSums(n, Flipped(TripleTerms(a, B, x)))(j) == Dot(n, a, Col(B, j)) * x(j)
  {
    var h := Flipped(TripleTerms(a, B, x));
    var f: Vec := k => h(j, k);
    SumScaled(n, x(j), Times(a, Col(B, j)));
    forall k | 0 <= k < n ensures f(k) == Scaled(x(j), Times(a, Col(B, j)))(k) {
      assert TripleTerms(a, B, x)(k, j) == a(k) * (B(k, j) * x(j));
      Reassociate(a(k), B(k, j), x(j));
    }
    SumExt(n, f, Scaled(x(j), Times(a, Col(B, j))));
  }

  lemma Reassociate(a: int, b: int, c: int)
    ensures a * (b * c) == c * (a * b)
  {}

  /** (A * B) * x == A * (B * x), for an A with n columns and a B with p. */
  lemma MulVecAssociative(A: Mat, B: Mat, x: Vec, n: nat, p: nat, i: int)
    ensures MulVec(Product(A, B, n), x, p)(i) == MulVec(A, MulVec(B, x, p), n)(i)
  {
    var h := TripleTerms(Row(A, i), B, x);
    SumSwap(n, p, h);
    forall k | 0 <= k < n ensures InnerSums(p, h)(k) == Times(Row(A, i), MulVec(B, x, p))(k) {
      SumScaled(p, A(i, k), Times(Row(B, k), x));
      SumExt(p, j => h(k, j), Scaled(A(i, k), Times(Row(B, k), x)));
    }
    SumExt(n, InnerSums(p, h), Times(Row(A, i), MulVec(B, x, p)));
    forall j | 0 <= j < p ensures InnerSums(n, Flipped(h))(j) == Times(Row(Product(A, B, n), i), x)(j) {
      TripleColumn(Row(A, i), B, x, n, j);
    }
    SumExt(p, InnerSums(n, Flipped(h)), Times(Row(Product(A, B, n), i), x));
  }

  /** A left inverse undoes A on every vector. */
  lemma LeftInverseUndoes(X: Mat, A: Mat, x: Vec, n: nat)
    requires IsIdentity(n, Product(X, A, n))
    ensures EqualVec(n, MulVec(X, MulVec(A, x, n), n), x)
  {
    IdentityActs(n, Product(X, A, n), x);
    forall i | 0 <= i < n ensures MulVec(X, MulVec(A, x, n), n)(i) == x(i) {
      MulVecAssociative(X, A, x, n, n, i);
    }
  }

  lemma MulVecExt(A: Mat, x: Vec, y: Vec, n: nat)
    requires EqualVec(n, x, y)
    ensures forall i :: MulVec(A, x, n)(i) == MulVec(A, y, n)(i)
  {
    forall i ensures MulVec(A, x, n)(i) == MulVec(A, y, n)(i) {
      DotExt(n, Row(A, i), x, Row(A, i), y);
    }
  }

  /** f . (A * x) == (A^T * f) . x, for an m by n matrix A. */
  lemma Adjoint(m: nat, n: nat, A: Mat, f: Vec, x: Vec)
    ensures Dot(m, f, MulVec(A, x, n)) == Dot(n, MulVec(Transposed(A), f, m), x)
  {
    var F: Mat := (i, k) => f(k);
    MulVecAssociative(F, A, x, m, n, 0);
    DotExt(m, f, MulVec(A, x, n), Row(F, 0), MulVec(A, x, n));
    forall j | 0 <= j < n ensures Row(Product(F, A, m), 0)(j) == MulVec(Transposed(A), f, m)(j) {
      DotSymmetric(m, f, Col(A, j));
      DotExt(m, f, Col(A, j), Row(F, 0), Col(A, j));
      DotExt(m, Col(A, j), f, Row(Transposed(A), j), f);
    }
    DotExt(n, Row(Product(F, A, m), 0), x, MulVec(Transposed(A), f, m), x);
  }
}
