/** Every verdict of the three verify calls on any budget, from the entries, the sizes and the lengths alone. */
module Decisions {
  import opened Sums
  import opened Matrices
  import opened LeastSquares
  import opened Budgets
  import opened Verifier
  import opened VerifyCalls
  import opened VerdictLaws
  import opened Widths

  /** What an initialised budget, or a NULL one, allows. */
  const FRESH := Budget(100000000, 0, false)

  lemma FreshIsDefault()
    ensures DEFAULT_BUDGET == FRESH
  {
  }

  // ---------- Plain arithmetic ----------

  function Cell(s: seq<int>, k: int): int { if 0 <= k < |s| then s[k] else 0 }

  /** The first k terms of row i of A, which has n columns, times x. */
  function RowTimes(A: seq<int>, n: nat, i: int, x: seq<int>, k: nat): int {
    if k == 0 then 0 else RowTimes(A, n, i, x, k - 1) + Cell(A, i * n + (k - 1)) * Cell(x, k - 1)
  }

  /** (A * x - b) at i. */
  function Rest(A: seq<int>, n: nat, x: seq<int>, b: seq<int>, i: int): int { RowTimes(A, n, i, x, n) - Cell(b, i) }

  /** The first k terms of column i of A times A * x - b. */
  function ColumnTimes(A: seq<int>, n: nat, i: int, x: seq<int>, b: seq<int>, k: nat): int {
    if k == 0 then 0 else ColumnTimes(A, n, i, x, b, k - 1) + Cell(A, (k - 1) * n + i) * Rest(A, n, x, b, k - 1)
  }

  /** The first k terms of row i of A times column j of X, both n by n. */
  function CellTimes(A: seq<int>, X: seq<int>, n: nat, i: int, j: int, k: nat): int {
    if k == 0 then 0 else CellTimes(A, X, n, i, j, k - 1) + Cell(A, i * n + (k - 1)) * Cell(X, (k - 1) * n + j)
  }

  predicate InRange(v: int) { -0x8000_0000_0000_0000 <= v <= 0x7FFF_FFFF_FFFF_FFFF }

  /** Product k of row i, and the sum that it completes, are in range. */
  predicate RowStep(A: seq<int>, n: nat, i: int, x: seq<int>, k: nat) {
    InRange(Cell(A, i * n + k) * Cell(x, k)) && InRange(RowTimes(A, n, i, x, k + 1))
  }

  predicate ColumnStep(A: seq<int>, n: nat, i: int, x: seq<int>, b: seq<int>, k: nat) {
    InRange(Cell(A, k * n + i) * Rest(A, n, x, b, k)) && InRange(ColumnTimes(A, n, i, x, b, k + 1))
  }

  predicate CellStep(A: seq<int>, X: seq<int>, n: nat, i: int, j: int, k: nat) {
    InRange(Cell(A, i * n + k) * Cell(X, k * n + j)) && InRange(CellTimes(A, X, n, i, j, k + 1))
  }

  ghost predicate RowsInRange(A: seq<int>, x: seq<int>, m: nat, n: nat) {
    forall i, k: nat :: 0 <= i < m && k < n ==> RowStep(A, n, i, x, k)
  }

  ghost predicate RestInRange(A: seq<int>, x: seq<int>, b: seq<int>, m: nat, n: nat) {
    forall i :: 0 <= i < m ==> InRange(Rest(A, n, x, b, i))
  }

  ghost predicate ColumnsInRange(A: seq<int>, x: seq<int>, b: seq<int>, m: nat, n: nat) {
    forall i, k: nat :: 0 <= i < n && k < m ==> ColumnStep(A, n, i, x, b, k)
  }

  ghost predicate CellsInRange(A: seq<int>, X: seq<int>, n: nat) {
    forall i, j, k: nat :: 0 <= i < n && 0 <= j < n && k < n ==> CellStep(A, X, n, i, j, k)
  }

  ghost predicate Solved(A: seq<int>, x: seq<int>, b: seq<int>, m: nat, n: nat) {
    forall i :: 0 <= i < m ==> Rest(A, n, x, b, i) == 0
  }

  ghost predicate Balanced(A: seq<int>, x: seq<int>, b: seq<int>, m: nat, n: nat) {
    forall i :: 0 <= i < n ==> ColumnTimes(A, n, i, x, b, m) == 0
  }

  ghost predicate Inverts(A: seq<int>, X: seq<int>, n: nat) {
    forall i, j :: 0 <= i < n && 0 <= j < n ==> CellTimes(A, X, n, i, j, n) == if i == j then 1 else 0
  }

  // ---------- The same sums in the terms of the verdicts ----------

  lemma {:induction false} RowTimesIsDot(A: seq<int>, n: nat, i: int, x: seq<int>, k: nat)
    ensures RowTimes(A, n, i, x, k) == Dot(k, Row(RowMajor(A, n), i), Vector(x))
  {
    if k > 0 {
      RowTimesIsDot(A, n, i, x, k - 1);
    }
  }

  lemma RestIsResidual(A: seq<int>, n: nat, x: seq<int>, b: seq<int>, i: int)
    ensures Rest(A, n, x, b, i) == Residual(RowMajor(A, n), Vector(x), Vector(b), n)(i)
  {
    RowTimesIsDot(A, n, i, x, n);
    assert Residual(RowMajor(A, n), Vector(x), Vector(b), n)(i)
        == MulVec(RowMajor(A, n), Vector(x), n)(i) - Vector(b)(i);
  }

  ghost predicate IsRest(A: seq<int>, n: nat, x: seq<int>, b: seq<int>, R: Vec) {
    forall i :: Rest(A, n, x, b, i) == R(i)
  }

  lemma {:induction false} ColumnTimesIsDot(A: seq<int>, n: nat, i: int, x: seq<int>, b: seq<int>, k: nat, R: Vec)
    requires IsRest(A, n, x, b, R)
    ensures ColumnTimes(A, n, i, x, b, k) == Dot(k, Row(Transposed(RowMajor(A, n)), i), R)
  {
    if k > 0 {
      ColumnTimesIsDot(A, n, i, x, b, k - 1, R);
      assert Rest(A, n, x, b, k - 1) == R(k - 1);
    }
  }

  lemma {:induction false} CellTimesIsDot(A: seq<int>, X: seq<int>, n: nat, i: int, j: int, k: nat)
    ensures CellTimes(A, X, n, i, j, k) == Dot(k, Row(RowMajor(A, n), i), Col(RowMajor(X, n), j))
  {
    if k > 0 {
      CellTimesIsDot(A, X, n, i, j, k - 1);
    }
  }

  lemma RowStepFits(A: seq<int>, n: nat, i: int, x: seq<int>, k: nat)
    ensures RowStep(A, n, i, x, k) <==> TermFits(Row(RowMajor(A, n), i), Vector(x), k)
  {
    RowTimesIsDot(A, n, i, x, k + 1);
    assert Row(RowMajor(A, n), i)(k) == Cell(A, i * n + k) && Vector(x)(k) == Cell(x, k);
  }

  lemma ColumnStepFits(A: seq<int>, n: nat, i: int, x: seq<int>, b: seq<int>, k: nat, R: Vec)
    requires IsRest(A, n, x, b, R)
    ensures ColumnStep(A, n, i, x, b, k) <==> TermFits(Row(Transposed(RowMajor(A, n)), i), R, k)
  {
    ColumnTimesIsDot(A, n, i, x, b, k + 1, R);
    assert Row(Transposed(RowMajor(A, n)), i)(k) == Cell(A, k * n + i) && R(k) == Rest(A, n, x, b, k);
  }

  lemma CellStepFits(A: seq<int>, X: seq<int>, n: nat, i: int, j: int, k: nat)
    ensures CellStep(A, X, n, i, j, k) <==> TermFits(Row(RowMajor(A, n), i), Col(RowMajor(X, n), j), k)
  {
    CellTimesIsDot(A, X, n, i, j, k + 1);
    assert Row(RowMajor(A, n), i)(k) == Cell(A, i * n + k) && Col(RowMajor(X, n), j)(k) == Cell(X, k * n + j);
  }

  lemma RowsInRangeFit(A: seq<int>, x: seq<int>, m: nat, n: nat)
    ensures RowsInRange(A, x, m, n) <==> VecFits(RowMajor(A, n), Vector(x), m, n)
  {
    forall i, k: nat | 0 <= i < m && k < n
      ensures RowStep(A, n, i, x, k) <==> TermFits(Row(RowMajor(A, n), i), Vector(x), k)
    {
      RowStepFits(A, n, i, x, k);
    }
  }

  lemma ColumnsInRangeFit(A: seq<int>, x: seq<int>, b: seq<int>, m: nat, n: nat, R: Vec)
    requires IsRest(A, n, x, b, R)
    ensures ColumnsInRange(A, x, b, m, n) <==> VecFits(Transposed(RowMajor(A, n)), R, n, m)
  {
    forall i, k: nat | 0 <= i < n && k < m
      ensures ColumnStep(A, n, i, x, b, k) <==> TermFits(Row(Transposed(RowMajor(A, n)), i), R, k)
    {
      ColumnStepFits(A, n, i, x, b, k, R);
    }
  }

  lemma CellsInRangeFit(A: seq<int>, X: seq<int>, n: nat)
    ensures CellsInRange(A, X, n) <==> ProductFits(RowMajor(A, n), RowMajor(X, n), n, n, n)
  {
    var M, N := RowMajor(A, n), RowMajor(X, n);
    forall i | 0 <= i < n ensures RowFits(M, N, i, n, n) <==> CellsOfRow(A, X, n, i) {
      forall j | 0 <= j < n ensures DotFits(n, Row(M, i), Col(N, j)) <==> CellSteps(A, X, n, i, j) {
        CellStepsFit(A, X, n, i, j);
      }
    }
    CellsByRow(A, X, n);
  }

  ghost predicate CellSteps(A: seq<int>, X: seq<int>, n: nat, i: int, j: int) {
    forall k: nat :: k < n ==> CellStep(A, X, n, i, j, k)
  }

  ghost predicate CellsOfRow(A: seq<int>, X: seq<int>, n: nat, i: int) {
    forall j :: 0 <= j < n ==> CellSteps(A, X, n, i, j)
  }

  lemma CellStepsFit(A: seq<int>, X: seq<int>, n: nat, i: int, j: int)
    ensures CellSteps(A, X, n, i, j) <==> DotFits(n, Row(RowMajor(A, n), i), Col(RowMajor(X, n), j))
  {
    forall k: nat | k < n
      ensures CellStep(A, X, n, i, j, k) <==> TermFits(Row(RowMajor(A, n), i), Col(RowMajor(X, n), j), k)
    {
      CellStepFits(A, X, n, i, j, k);
    }
  }

  lemma CellsByRow(A: seq<int>, X: seq<int>, n: nat)
    ensures CellsInRange(A, X, n) <==> forall i :: 0 <= i < n ==> CellsOfRow(A, X, n, i)
  {
    if forall i :: 0 <= i < n ==> CellsOfRow(A, X, n, i) {
      forall i, j, k: nat | 0 <= i < n && 0 <= j < n && k < n ensures CellStep(A, X, n, i, j, k) {
        assert CellsOfRow(A, X, n, i) && CellSteps(A, X, n, i, j);
      }
    }
  }

  lemma SolvedIsEqual(A: seq<int>, x: seq<int>, b: seq<int>, m: nat, n: nat)
    ensures Solved(A, x, b, m, n) <==> EqualVec(m, MulVec(RowMajor(A, n), Vector(x), n), Vector(b))
  {
    forall i | 0 <= i < m
      ensures Rest(A, n, x, b, i) == 0 <==> MulVec(RowMajor(A, n), Vector(x), n)(i) == Vector(b)(i)
    {
      RowTimesIsDot(A, n, i, x, n);
    }
  }

  lemma BalancedIsZero(A: seq<int>, x: seq<int>, b: seq<int>, m: nat, n: nat, R: Vec)
    requires IsRest(A, n, x, b, R)
    ensures Balanced(A, x, b, m, n) <==> AllZeroVec(n, MulVec(Transposed(RowMajor(A, n)), R, m))
  {
    forall i | 0 <= i < n
      ensures ColumnTimes(A, n, i, x, b, m) == MulVec(Transposed(RowMajor(A, n)), R, m)(i)
    {
      ColumnTimesIsDot(A, n, i, x, b, m, R);
    }
  }

  lemma InvertsIsIdentity(A: seq<int>, X: seq<int>, n: nat)
    ensures Inverts(A, X, n) <==> IsIdentity(n, Product(RowMajor(A, n), RowMajor(X, n), n))
  {
    forall i, j | 0 <= i < n && 0 <= j < n
      ensures CellTimes(A, X, n, i, j, n) == Product(RowMajor(A, n), RowMajor(X, n), n)(i, j)
    {
      CellTimesIsDot(A, X, n, i, j, n);
    }
  }

  // ---------- Every verdict ----------

  /** The sizes that the limits admit. */
  predicate SizesAdmitted(m: nat, n: nat) { 1 <= m <= 65536 && 1 <= n <= 65536 && m * n <= 268435456 }

  predicate SystemAdmitted(m: nat, n: nat, aLen: nat, xLen: nat, bLen: nat) {
    SizesAdmitted(m, n) && m * n <= aLen && n <= xLen && m <= bLen
  }

  predicate InverseAdmitted(n: nat, aLen: nat, xLen: nat) { SizesAdmitted(n, n) && n * n <= aLen && n * n <= xLen }

  /** The refusals that the sizes and lengths alone decide, for verdicts v of a system. */
  predicate RefusesBySize(v: Verdict, m: nat, n: nat, buffersSuffice: bool) {
    (v == DIMENSION_MISMATCH <==> m == 0 || n == 0)
    && (v == DIMS_EXCEEDED <==> m > 0 && n > 0 && (m > 65536 || n > 65536))
    && (v == CELLS_EXCEEDED <==> 1 <= m <= 65536 && 1 <= n <= 65536 && m * n > 268435456)
    && (v == BUFFER_OVERFLOW <==> SizesAdmitted(m, n) && !buffersSuffice)
    && v != NULL_INPUT
  }

  /** A x = b: each verdict of the call on any budget, and when it is given. */
  lemma SolutionDecided(A: seq<int>, aLen: nat, x: seq<int>, xLen: nat, b: seq<int>, bLen: nat, m: nat, n: nat,
                         s: Budget, room: int)
    requires room == s.maxOperations - s.operationCount
    ensures var v := SolutionVerdict(A, aLen, x, xLen, b, bLen, m, n, s);
            var admitted := SystemAdmitted(m, n, aLen, xLen, bLen);
            var served := admitted && m * n <= room;
            && RefusesBySize(v, m, n, m * n <= aLen && n <= xLen && m <= bLen)
            && (v == OPS_EXCEEDED <==> admitted && m * n > room)
            && (v == OVERFLOW <==> served && !RowsInRange(A, x, m, n))
            && (v == OK <==> served && RowsInRange(A, x, m, n) && Solved(A, x, b, m, n))
            && (v == FAIL <==> served && RowsInRange(A, x, m, n) && !Solved(A, x, b, m, n))
  {
    RowsInRangeFit(A, x, m, n);
    SolvedIsEqual(A, x, b, m, n);
  }

  /** The stages of the least-squares call on any budget, each of which may end it. */
  function Staged(shape: Verdict, cost: nat, room: int, first: bool, second: bool, balanced: bool): Verdict {
    if shape != OK then shape
    else if cost > room then OPS_EXCEEDED
    else if !first then OVERFLOW
    else if 2 * cost > room then OPS_EXCEEDED
    else if !second then OVERFLOW
    else if balanced then OK
    else FAIL
  }

  /** Each verdict of the least-squares call on any budget, when A x - b is or is not computed in range, its second
      pass is or is not, and the second pass gives zero or not. */
  predicate LstsqAnswers(v: Verdict, m: nat, n: nat, aLen: nat, xLen: nat, bLen: nat, first: bool, second: bool,
                         balanced: bool, room: int) {
    var admitted := SystemAdmitted(m, n, aLen, xLen, bLen);
    var begun := admitted && m * n <= room;
    var halfway := begun && first;
    var served := halfway && 2 * (m * n) <= room;
    RefusesBySize(v, m, n, m * n <= aLen && n <= xLen && m <= bLen)
    && (v == OPS_EXCEEDED <==> (admitted && !begun) || (halfway && !served))
    && (v == OVERFLOW <==> (begun && !halfway) || (served && !second))
    && (v == OK <==> served && second && balanced)
    && (v == FAIL <==> served && second && !balanced)
  }

  lemma StagedAnswers(m: nat, n: nat, aLen: nat, xLen: nat, bLen: nat, first: bool, second: bool, balanced: bool,
                      room: int)
    ensures LstsqAnswers(Staged(SystemShape(m, n, aLen, xLen, bLen), m * n, room, first, second, balanced),
                         m, n, aLen, xLen, bLen, first, second, balanced, room)
  {
  }

  lemma RoomGrants(s: Budget, room: int, cost: nat)
    requires room == s.maxOperations - s.operationCount && cost <= 268435456
    ensures Grants(s, cost) <==> cost <= room
    ensures cost <= room ==> (Grants(Charged(s, cost), cost) <==> 2 * cost <= room)
  {
  }

  lemma SecondStage(M: Mat, R: Vec, m: nat, n: nat, cost: nat, s: Budget, room: int)
    requires room == s.maxOperations - s.operationCount && cost <= 268435456 && cost <= room
    ensures SecondPassVerdict(M, R, m, n, cost, Charged(s, cost))
      == Staged(OK, cost, room, true, VecFits(Transposed(M), R, n, m), AllZeroVec(n, MulVec(Transposed(M), R, m)))
  {
    RoomGrants(s, room, cost);
  }

  lemma LstsqStages(A: seq<int>, aLen: nat, x: seq<int>, xLen: nat, b: seq<int>, bLen: nat, m: nat, n: nat, M: Mat,
                    R: Vec, s: Budget, room: int)
    requires room == s.maxOperations - s.operationCount
    requires M == RowMajor(A, n) && R == Residual(M, Vector(x), Vector(b), n)
    ensures LstsqVerdict(A, aLen, x, xLen, b, bLen, m, n, s)
      == Staged(SystemShape(m, n, aLen, xLen, bLen), m * n, room, VecFits(M, Vector(x), m, n) && AllFit(R, m),
                VecFits(Transposed(M), R, n, m), AllZeroVec(n, MulVec(Transposed(M), R, m)))
  {
    var cost := m * n;
    if SystemShape(m, n, aLen, xLen, bLen) == OK {
      RoomGrants(s, room, cost);
      if cost <= room {
        SecondStage(M, R, m, n, cost, s, room);
      }
    }
  }

  /** A^T (A x - b) = 0: each verdict of the call on any budget, and when it is given. */
  lemma LstsqDecided(A: seq<int>, aLen: nat, x: seq<int>, xLen: nat, b: seq<int>, bLen: nat, m: nat, n: nat,
                      s: Budget, room: int)
    returns (v: Verdict)
    requires room == s.maxOperations - s.operationCount
    ensures v == LstsqVerdict(A, aLen, x, xLen, b, bLen, m, n, s)
    ensures LstsqAnswers(v, m, n, aLen, xLen, bLen, RowsInRange(A, x, m, n) && RestInRange(A, x, b, m, n),
                         ColumnsInRange(A, x, b, m, n), Balanced(A, x, b, m, n), room)
  {
    var R := Residual(RowMajor(A, n), Vector(x), Vector(b), n);
    forall i ensures Rest(A, n, x, b, i) == R(i) {
      RestIsResidual(A, n, x, b, i);
    }
    RowsInRangeFit(A, x, m, n);
    RestInRangeFits(A, x, b, m, n, R);
    ColumnsInRangeFit(A, x, b, m, n, R);
    BalancedIsZero(A, x, b, m, n, R);
    v := LstsqVerdict(A, aLen, x, xLen, b, bLen, m, n, s);
    LstsqStages(A, aLen, x, xLen, b, bLen, m, n, RowMajor(A, n), R, s, room);
    StagedAnswers(m, n, aLen, xLen, bLen, RowsInRange(A, x, m, n) && RestInRange(A, x, b, m, n),
                  ColumnsInRange(A, x, b, m, n), Balanced(A, x, b, m, n), room);
  }

  lemma RestInRangeFits(A: seq<int>, x: seq<int>, b: seq<int>, m: nat, n: nat, R: Vec)
    requires IsRest(A, n, x, b, R)
    ensures RestInRange(A, x, b, m, n) <==> AllFit(R, m)
  {
    forall i | 0 <= i < m ensures InRange(Rest(A, n, x, b, i)) <==> Fits(R(i)) {
      assert Rest(A, n, x, b, i) == R(i);
    }
  }

  /** A X = I: each verdict of the call on any budget, and when it is given. */
  lemma InverseDecided(A: seq<int>, aLen: nat, X: seq<int>, xLen: nat, n: nat, s: Budget, room: int)
    requires room == s.maxOperations - s.operationCount
    ensures var v := InverseVerdict(A, aLen, X, xLen, n, s);
            var admitted := InverseAdmitted(n, aLen, xLen);
            var served := admitted && n * n * n <= room;
            && RefusesBySize(v, n, n, n * n <= aLen && n * n <= xLen)
            && (v == OPS_EXCEEDED <==> admitted && n * n * n > room)
            && (v == OVERFLOW <==> served && !CellsInRange(A, X, n))
            && (v == OK <==> served && CellsInRange(A, X, n) && Inverts(A, X, n))
            && (v == FAIL <==> served && CellsInRange(A, X, n) && !Inverts(A, X, n))
  {
    CellsInRangeFit(A, X, n);
    InvertsIsIdentity(A, X, n);
  }

  // ---------- Every charge ----------

  /** What a call that charges once charges. */
  lemma ChargesOnce(aLen: nat, xLen: nat, bLen: nat, m: nat, n: nat)
    ensures InverseCharges(n, aLen, xLen) == if InverseAdmitted(n, aLen, xLen) then [n * n * n] else []
    ensures SolutionCharges(m, n, aLen, xLen, bLen) == if SystemAdmitted(m, n, aLen, xLen, bLen) then [m * n] else []
  {
  }

  /** The least-squares call charges a second time if A x - b was computed. */
  lemma ChargesTwice(A: seq<int>, aLen: nat, x: seq<int>, xLen: nat, b: seq<int>, bLen: nat, m: nat, n: nat,
                     s: Budget, room: int, cost: nat)
    requires room == s.maxOperations - s.operationCount && cost == m * n
    ensures LstsqCharges(A, aLen, x, xLen, b, bLen, m, n, s)
      == if !SystemAdmitted(m, n, aLen, xLen, bLen) then []
         else if cost <= room && RowsInRange(A, x, m, n) && RestInRange(A, x, b, m, n) then [cost, cost]
         else [cost]
  {
    var M, R := RowMajor(A, n), Residual(RowMajor(A, n), Vector(x), Vector(b), n);
    forall i ensures Rest(A, n, x, b, i) == R(i) {
      RestIsResidual(A, n, x, b, i);
    }
    RowsInRangeFit(A, x, m, n);
    RestInRangeFits(A, x, b, m, n, R);
    var once := SolutionCharges(m, n, aLen, xLen, bLen);
    ChargesOnce(aLen, xLen, bLen, m, n);
    if once != [] {
      RoomGrants(s, room, cost);
    }
    Doubled(once, cost, cost <= room && VecFits(M, Vector(x), m, n) && AllFit(R, m));
  }

  lemma Doubled(once: seq<Size>, cost: nat, again: bool)
    requires once == [] || once == [cost]
    ensures (if once == [] || !again then once else once + once) == if once == [] then [] else if again then [cost, cost] else [cost]
  {
  }

  /** What one charge leaves: it is added unless the sum leaves 64 bits; a sum past the limit raises the flag. */
  lemma ChargeDecided(s: Budget, cost: Size)
    ensures Charged(s, cost)
      == if s.operationCount + cost > 0xFFFF_FFFF_FFFF_FFFF then Budget(s.maxOperations, s.operationCount, true)
         else Budget(s.maxOperations, s.operationCount + cost,
                     s.exceeded || s.operationCount + cost > s.maxOperations)
  {
  }

  /** A run of charges makes them one after the other. */
  lemma ChargesInTurn(s: Budget, cost: Size, more: seq<Size>)
    ensures ChargeAll(s, []) == s && ChargeAll(s, [cost] + more) == ChargeAll(Charged(s, cost), more)
  {
    assert ([cost] + more)[1..] == more;
  }

  // ---------- Head room ----------

  predicate Within(v: int, c: nat) { -(c as int) <= v <= c }

  /** Entries so small that neither pass can overflow. */
  ghost predicate HeadRoom(A: seq<int>, x: seq<int>, b: seq<int>, m: nat, n: nat, alpha: nat, beta: nat, gamma: nat) {
    (forall k :: Within(Cell(A, k), alpha)) && (forall k :: Within(Cell(x, k), beta)) && (forall k :: Within(Cell(b, k), gamma))
    && n * (alpha * beta) + gamma <= 0x7FFF_FFFF_FFFF_FFFF
    && m * (alpha * (n * (alpha * beta) + gamma)) <= 0x7FFF_FFFF_FFFF_FFFF
  }

  /** Within the limits, the budget and head room, the least-squares call decides the normal equations. */
  lemma LstsqDecidedWithHeadRoom(A: seq<int>, aLen: nat, x: seq<int>, xLen: nat, b: seq<int>, bLen: nat, m: nat, n: nat,
                                 alpha: nat, beta: nat, gamma: nat)
    requires 1 <= m <= 65536 && 1 <= n <= 65536 && m * n <= 268435456
    requires m * n <= aLen && n <= xLen && m <= bLen && 2 * (m * n) <= 100000000
    requires HeadRoom(A, x, b, m, n, alpha, beta, gamma)
    ensures LstsqVerdict(A, aLen, x, xLen, b, bLen, m, n, FRESH)
            == if Balanced(A, x, b, m, n) then OK else FAIL
  {
    HeadRoomSuffices(A, x, b, m, n, alpha, beta, gamma);
    var v := LstsqDecided(A, aLen, x, xLen, b, bLen, m, n, FRESH, 100000000);
    assert v == if Balanced(A, x, b, m, n) then OK else FAIL;
  }

  lemma HeadRoomSuffices(A: seq<int>, x: seq<int>, b: seq<int>, m: nat, n: nat, alpha: nat, beta: nat, gamma: nat)
    requires HeadRoom(A, x, b, m, n, alpha, beta, gamma)
    ensures RowsInRange(A, x, m, n) && RestInRange(A, x, b, m, n) && ColumnsInRange(A, x, b, m, n)
  {
    var M, v, w := RowMajor(A, n), Vector(x), Vector(b);
    var R, rho := Residual(M, v, w, n), n * (alpha * beta) + gamma;
    forall i ensures Rest(A, n, x, b, i) == R(i) {
      RestIsResidual(A, n, x, b, i);
    }
    HeadRoomBounds(A, x, b, m, n, alpha, beta, gamma);
    NonNegativeProduct(alpha, beta);
    NonNegativeProduct(n, alpha * beta);
    forall i | 0 <= i < m ensures BoundedBy(n, Row(M, i), alpha) {}
    BoundedResidual(M, v, w, m, n, alpha, beta, gamma);
    forall i | 0 <= i < n ensures BoundedBy(m, Row(Transposed(M), i), alpha) {}
    BoundedVecFits(Transposed(M), R, n, m, alpha, rho);
    RowsInRangeFit(A, x, m, n);
    RestInRangeFits(A, x, b, m, n, R);
    ColumnsInRangeFit(A, x, b, m, n, R);
  }

  lemma HeadRoomBounds(A: seq<int>, x: seq<int>, b: seq<int>, m: nat, n: nat, alpha: nat, beta: nat, gamma: nat)
    requires HeadRoom(A, x, b, m, n, alpha, beta, gamma)
    ensures forall i, j :: 0 <= i < m && 0 <= j < n ==> -(alpha as int) <= RowMajor(A, n)(i, j) <= alpha
    ensures BoundedBy(n, Vector(x), beta) && BoundedBy(m, Vector(b), gamma)
  {
    forall i, j | 0 <= i < m && 0 <= j < n ensures -(alpha as int) <= RowMajor(A, n)(i, j) <= alpha {
      assert Within(Cell(A, i * n + j), alpha);
    }
    forall k | 0 <= k < n ensures -(beta as int) <= Vector(x)(k) <= beta {
      assert Within(Cell(x, k), beta);
    }
    forall k | 0 <= k < m ensures -(gamma as int) <= Vector(b)(k) <= gamma {
      assert Within(Cell(b, k), gamma);
    }
  }

  /** Within the limits, the budget and head room, the solution call decides A x = b. */
  lemma SolutionDecidedWithHeadRoom(A: seq<int>, aLen: nat, x: seq<int>, xLen: nat, b: seq<int>, bLen: nat, m: nat,
                                    n: nat, alpha: nat, beta: nat, gamma: nat)
    requires 1 <= m <= 65536 && 1 <= n <= 65536 && m * n <= 268435456
    requires m * n <= aLen && n <= xLen && m <= bLen && m * n <= 100000000
    requires HeadRoom(A, x, b, m, n, alpha, beta, gamma)
    ensures SolutionVerdict(A, aLen, x, xLen, b, bLen, m, n, FRESH)
            == if forall i :: 0 <= i < m ==> RowTimes(A, n, i, x, n) == Cell(b, i) then OK else FAIL
  {
    HeadRoomSuffices(A, x, b, m, n, alpha, beta, gamma);
    SolutionDecided(A, aLen, x, xLen, b, bLen, m, n, FRESH, 100000000);
    assert forall i :: Rest(A, n, x, b, i) == 0 <==> RowTimes(A, n, i, x, n) == Cell(b, i);
  }

  /** Within the limits, the budget and head room, the inverse call decides A X = I. */
  lemma InverseDecidedWithHeadRoom(A: seq<int>, aLen: nat, X: seq<int>, xLen: nat, n: nat, alpha: nat, beta: nat)
    requires 1 <= n && n * n * n <= 100000000 && n * n <= aLen && n * n <= xLen && n <= 65536 && n * n <= 268435456
    requires (forall k :: Within(Cell(A, k), alpha)) && (forall k :: Within(Cell(X, k), beta))
    requires n * (alpha * beta) <= 0x7FFF_FFFF_FFFF_FFFF
    ensures InverseVerdict(A, aLen, X, xLen, n, FRESH) == if Inverts(A, X, n) then OK else FAIL
  {
    forall i, j, k: nat | 0 <= i < n && 0 <= j < n && k < n ensures CellStep(A, X, n, i, j, k) {
      CellSmall(A, X, n, i, j, alpha, beta);
      CellStepsFit(A, X, n, i, j);
    }
    InverseDecided(A, aLen, X, xLen, n, FRESH, 100000000);
  }

  lemma CellSmall(A: seq<int>, X: seq<int>, n: nat, i: int, j: int, alpha: nat, beta: nat)
    requires (forall k :: Within(Cell(A, k), alpha)) && (forall k :: Within(Cell(X, k), beta))
    requires n * (alpha * beta) <= 0x7FFF_FFFF_FFFF_FFFF
    ensures DotFits(n, Row(RowMajor(A, n), i), Col(RowMajor(X, n), j))
  {
    var f, g := Row(RowMajor(A, n), i), Col(RowMajor(X, n), j);
    forall k | 0 <= k < n ensures -(alpha as int) <= f(k) <= alpha && -(beta as int) <= g(k) <= beta {
      assert f(k) == Cell(A, i * n + k) && g(k) == Cell(X, k * n + j);
    }
    BoundedDot(n, f, g, alpha, beta);
  }
}
