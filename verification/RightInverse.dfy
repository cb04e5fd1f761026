/** Over the integers a right inverse of a square matrix is also a left inverse. */
module RightInverse {
  import opened Sums
  import opened Matrices

  function Unskip(p: int, j: int): int { if j < p then j else j - 1 }

  /** Equation f after elimination of unknown p with the help of equation g. */
  function EliminatedRow(f: Vec, g: Vec, p: int): Vec {
    j => g(p) * f(Skip(p, j)) + -f(p) * g(Skip(p, j))
  }

  /** The equations left when the last one eliminates unknown p from the others. */
  function Eliminated(rows: seq<Vec>, g: Vec, p: int): (reduced: seq<Vec>)
    ensures |reduced| == |rows|
    ensures forall r :: 0 <= r < |rows| ==> reduced[r] == EliminatedRow(rows[r], g, p)
  {
    if rows == [] then [] else Eliminated(rows[..|rows| - 1], g, p) + [EliminatedRow(rows[|rows| - 1], g, p)]
  }

  /** Extends a solution w of the eliminated system by the value -s that unknown p must take. */
  function BackSubstituted(a: int, s: int, p: int, w: Vec): Vec {
    j => if j == p then -s else a * w(Unskip(p, j))
  }

  lemma BackSubstitutedSkips(a: int, s: int, k: nat, p: nat, w: Vec)
    requires p < k
    ensures EqualVec(k - 1, Skipping(p, BackSubstituted(a, s, p, w)), Scaled(a, w))
  {
    forall j | 0 <= j < k - 1 ensures Skipping(p, BackSubstituted(a, s, p, w))(j) == Scaled(a, w)(j) {
      assert Unskip(p, Skip(p, j)) == j;
    }
  }

  lemma SkippingDot(k: nat, p: nat, f: Vec, v: Vec)
    requires p < k
    ensures Dot(k, f, v) == Dot(k - 1, Skipping(p, f), Skipping(p, v)) + f(p) * v(p)
  {
    SumSkipping(k, p, Times(f, v));
    SumExt(k - 1, Skipping(p, Times(f, v)), Times(Skipping(p, f), Skipping(p, v)));
  }

  lemma BackSubstitution(f: Vec, v: Vec, k: nat, p: nat, a: int, w: Vec)
    requires p < k && EqualVec(k - 1, Skipping(p, v), Scaled(a, w))
    ensures Dot(k, f, v) == a * Dot(k - 1, Skipping(p, f), w) + f(p) * v(p)
  {
    assert Dot(k - 1, Skipping(p, f), Skipping(p, v)) == Dot(k - 1, Skipping(p, f), Scaled(a, w)) by {
      DotExt(k - 1, Skipping(p, f), Skipping(p, v), Skipping(p, f), Scaled(a, w));
    }
    assert Dot(k - 1, Skipping(p, f), Scaled(a, w)) == a * Dot(k - 1, Skipping(p, f), w) by {
      DotScaled(k - 1, Skipping(p, f), a, w);
    }
    SkippingDot(k, p, f, v);
  }

  lemma EliminatedDot(f: Vec, g: Vec, k: nat, p: nat, w: Vec)
    ensures Dot(k, EliminatedRow(f, g, p), w)
         == g(p) * Dot(k, Skipping(p, f), w) + -f(p) * Dot(k, Skipping(p, g), w)
  {
    var f', g' := Skipping(p, f), Skipping(p, g);
    DotSymmetric(k, EliminatedRow(f, g, p), w);
    DotPlus(k, w, Scaled(g(p), f'), Scaled(-f(p), g'));
    DotScaled(k, w, g(p), f');
    DotScaled(k, w, -f(p), g');
    DotSymmetric(k, w, f');
    DotSymmetric(k, w, g');
    DotExt(k, w, EliminatedRow(f, g, p), w, Plus(Scaled(g(p), f'), Scaled(-f(p), g')));
  }

  lemma CrossTerms(a: int, c: int, D: int, s: int, t: int)
    requires t == -s
    ensures a * D + c * t == a * D + -c * s
    ensures a == c && D == s ==> a * D + c * t == 0
  {}

  lemma PivotSolved(g: Vec, v: Vec, k: nat, p: nat, w: Vec)
    requires p < k && EqualVec(k - 1, Skipping(p, v), Scaled(g(p), w))
    requires v(p) == -Dot(k - 1, Skipping(p, g), w)
    ensures Dot(k, g, v) == 0
  {
    BackSubstitution(g, v, k, p, g(p), w);
    var s := Dot(k - 1, Skipping(p, g), w);
    CrossTerms(g(p), g(p), s, s, v(p));
  }

  /** The extension of w solves the pivot equation g, and f too if w solves the eliminated f. */
  lemma EliminatedSolves(f: Vec, g: Vec, v: Vec, k: nat, p: nat, w: Vec)
    requires p < k && EqualVec(k - 1, Skipping(p, v), Scaled(g(p), w))
    requires v(p) == -Dot(k - 1, Skipping(p, g), w)
    ensures Dot(k, g, v) == 0
    ensures Dot(k, f, v) == Dot(k - 1, EliminatedRow(f, g, p), w)
  {
    PivotSolved(g, v, k, p, w);
    BackSubstitution(f, v, k, p, g(p), w);
    EliminatedDot(f, g, k - 1, p, w);
    CrossTerms(g(p), f(p), Dot(k - 1, Skipping(p, f), w), Dot(k - 1, Skipping(p, g), w), v(p));
  }

  predicate IsZero(k: nat, f: Vec) { forall j :: 0 <= j < k ==> f(j) == 0 }

  predicate Solves(k: nat, f: Vec, v: Vec) { Dot(k, f, v) == 0 }

  lemma NonZeroMultiple(k: nat, v: Vec, p: nat, a: int, w: Vec)
    requires p < k && EqualVec(k - 1, Skipping(p, v), Scaled(a, w))
    requires a != 0 && !IsZero(k - 1, w)
    ensures !IsZero(k, v)
  {
    var j :| 0 <= j < k - 1 && w(j) != 0;
    assert Skipping(p, v)(j) == a * w(j) != 0;
    assert v(Skip(p, j)) != 0;
  }

  lemma ZeroIsSolved(k: nat, g: Vec, v: Vec)
    requires IsZero(k, g)
    ensures Solves(k, g, v)
  {
    SumZero(k, Times(g, v));
  }

  /** A homogeneous integer system with more unknowns than equations has a non-zero integer solution. */
  lemma {:induction false} HomogeneousSolution(rows: seq<Vec>, k: nat) returns (v: Vec)
    requires |rows| < k
    ensures !IsZero(k, v)
    ensures forall r :: 0 <= r < |rows| ==> Solves(k, rows[r], v)
    decreases |rows|
  {
    if rows == [] {
      v := Unit(0);
      assert v(0) != 0;
    } else {
      var last := |rows| - 1;
      var front, g := rows[..last], rows[last];
      if IsZero(k, g) {
        v := HomogeneousSolution(front, k);
        ZeroIsSolved(k, g, v);
      } else {
        var p :| 0 <= p < k && g(p) != 0;
        var w := HomogeneousSolution(Eliminated(front, g, p), k - 1);
        v := Extension(front, g, k, p, w);
      }
      AllRowsSolved(rows, k, v);
    }
  }

  lemma AllRowsSolved(rows: seq<Vec>, k: nat, v: Vec)
    requires rows != [] && Solves(k, rows[|rows| - 1], v)
    requires var front := rows[..|rows| - 1]; forall r :: 0 <= r < |front| ==> Solves(k, front[r], v)
    ensures forall r :: 0 <= r < |rows| ==> Solves(k, rows[r], v)
  {
    forall r | 0 <= r < |rows| ensures Solves(k, rows[r], v) {
      var front := rows[..|rows| - 1];
      assert r < |front| ==> rows[r] == front[r];
    }
  }

  /** From a solution of the eliminated system to one of the whole system. */
  lemma Extension(front: seq<Vec>, g: Vec, k: nat, p: nat, w: Vec) returns (v: Vec)
    requires p < k && g(p) != 0 && !IsZero(k - 1, w)
    requires forall r :: 0 <= r < |front| ==> Solves(k - 1, Eliminated(front, g, p)[r], w)
    ensures !IsZero(k, v) && Solves(k, g, v)
    ensures forall r :: 0 <= r < |front| ==> Solves(k, front[r], v)
  {
    v := BackSubstituted(g(p), Dot(k - 1, Skipping(p, g), w), p, w);
    BackSubstitutedSkips(g(p), Dot(k - 1, Skipping(p, g), w), k, p, w);
    NonZeroMultiple(k, v, p, g(p), w);
    EliminatedSolves(g, g, v, k, p, w);
    forall r | 0 <= r < |front| ensures Solves(k, front[r], v) {
      EliminatedSolves(front[r], g, v, k, p, w);
      assert Solves(k - 1, Eliminated(front, g, p)[r], w);
    }
  }

  /** Row r of the columns of X with one more vector w beside them. */
  function BorderedRow(f: Vec, last: int, n: nat): Vec { c => if c < n then f(c) else last }

  function Bordered(X: Mat, w: Vec, n: nat, m: nat): (rows: seq<Vec>)
    ensures |rows| == m
    ensures forall r :: 0 <= r < m ==> rows[r] == BorderedRow(Row(X, r), w(r), n)
  {
    if m == 0 then [] else Bordered(X, w, n, m - 1) + [BorderedRow(Row(X, m - 1), w(m - 1), n)]
  }

  lemma BorderedDot(f: Vec, last: int, n: nat, v: Vec)
    ensures Dot(n + 1, BorderedRow(f, last, n), v) == Dot(n, f, v) + last * v(n)
  {
    DotExt(n, BorderedRow(f, last, n), v, f, v);
    assert Dot(n + 1, BorderedRow(f, last, n), v) == Dot(n, BorderedRow(f, last, n), v) + Times(BorderedRow(f, last, n), v)(n);
  }

  lemma BorderedSolution(X: Mat, w: Vec, n: nat, v: Vec, r: int)
    requires Solves(n + 1, BorderedRow(Row(X, r), w(r), n), v)
    ensures MulVec(X, v, n)(r) == Scaled(-v(n), w)(r)
  {
    BorderedDot(Row(X, r), w(r), n, v);
    assert w(r) * v(n) == v(n) * w(r);
  }

  lemma InjectiveOnZero(A: Mat, X: Mat, n: nat, u: Vec)
    requires IsIdentity(n, Product(A, X, n))
    requires IsZero(n, MulVec(X, u, n))
    ensures IsZero(n, u)
  {
    LeftInverseUndoes(A, X, u, n);
    forall i | 0 <= i < n ensures u(i) == 0 {
      SumZero(n, Times(Row(A, i), MulVec(X, u, n)));
    }
  }

  /** If A * X == I then some non-zero multiple of any w is in the image of X. */
  lemma ImageContainsMultiple(A: Mat, X: Mat, n: nat, w: Vec) returns (c: int, u: Vec)
    requires IsIdentity(n, Product(A, X, n))
    ensures c != 0
    ensures EqualVec(n, MulVec(X, u, n), Scaled(c, w))
  {
    var v := HomogeneousSolution(Bordered(X, w, n, n), n + 1);
    c, u := -v(n), v;
    forall r | 0 <= r < n ensures MulVec(X, u, n)(r) == Scaled(c, w)(r) {
      assert Solves(n + 1, Bordered(X, w, n, n)[r], v);
      BorderedSolution(X, w, n, v, r);
    }
    if c == 0 {
      forall r | 0 <= r < n ensures MulVec(X, u, n)(r) == 0 {
        assert Scaled(c, w)(r) == 0;
      }
      InjectiveOnZero(A, X, n, u);
      assert false;
    }
  }

  lemma Cancel(c: int, a: int, b: int)
    requires c != 0 && c * a == c * b
    ensures a == b
  {}

  /** X * A leaves every vector unchanged. */
  lemma RightInverseFixesVector(A: Mat, X: Mat, n: nat, w: Vec)
    requires IsIdentity(n, Product(A, X, n))
    ensures EqualVec(n, MulVec(X, MulVec(A, w, n), n), w)
  {
    var c, u := ImageContainsMultiple(A, X, n, w);
    var Aw := MulVec(A, w, n);
    LeftInverseUndoes(A, X, u, n);
    forall k | 0 <= k < n ensures u(k) == Scaled(c, Aw)(k) {
      DotExt(n, Row(A, k), MulVec(X, u, n), Row(A, k), Scaled(c, w));
      DotScaled(n, Row(A, k), c, w);
    }
    forall i | 0 <= i < n ensures MulVec(X, Aw, n)(i) == w(i) {
      DotExt(n, Row(X, i), u, Row(X, i), Scaled(c, Aw));
      DotScaled(n, Row(X, i), c, Aw);
      assert MulVec(X, u, n)(i) == c * MulVec(X, Aw, n)(i);
      assert MulVec(X, u, n)(i) == Scaled(c, w)(i);
      Cancel(c, MulVec(X, Aw, n)(i), w(i));
    }
  }

  lemma RightInverseIsLeftInverse(A: Mat, X: Mat, n: nat)
    requires IsIdentity(n, Product(A, X, n))
    ensures IsIdentity(n, Product(X, A, n))
  {
    forall i, j | 0 <= i < n && 0 <= j < n ensures Product(X, A, n)(i, j) == Delta(i, j) {
      RightInverseFixesVector(A, X, n, Unit(j));
      forall k | 0 <= k < n ensures MulVec(A, Unit(j), n)(k) == Col(A, j)(k) {
        DotUnit(n, Row(A, k), j);
      }
      MulVecExt(X, MulVec(A, Unit(j), n), Col(A, j), n);
      assert MulVec(X, Col(A, j), n)(i) == Product(X, A, n)(i, j);
    }
  }
}
