/** The three verify calls: what each one charges and which verdict it returns. */
module VerifyCalls {
  import opened Sums
  import opened Matrices
  import opened LeastSquares
  import opened Budgets
  import opened Verifier
  import opened Widths

  // ---------- Guards ----------

  function CheckDimensions(n: Size, m: Size): Verdict {
    if n > MAX_MATRIX_DIM || m > MAX_MATRIX_DIM then DIMS_EXCEEDED else OK
  }

  function CheckMatrixCells(rows: Size, cols: Size): Verdict {
    if rows > 0 && cols > SIZE_MAX / rows then OVERFLOW
    else if rows * cols > MAX_MATRIX_CELLS then CELLS_EXCEEDED
    else OK
  }

  function ValidateMatrixBuffer(data: array?<Int64>, rows: Size, cols: Size, capacity: Size): Verdict {
    if data == null then NULL_INPUT
    else if rows > 0 && cols > SIZE_MAX / rows then OVERFLOW
    else if rows * cols > capacity then BUFFER_OVERFLOW
    else OK
  }

  /** Once the dimensions have passed, no size computation can overflow any more. */
  lemma SizesCannotOverflow(rows: Size, cols: Size)
    requires rows <= MAX_MATRIX_DIM && cols <= MAX_MATRIX_DIM
    ensures rows > 0 ==> cols <= SIZE_MAX / rows
    ensures rows * cols <= 0x1_0000_0000
  {
    ProductMonotone(rows, MAX_MATRIX_DIM, cols);
    if rows > 0 {
      ProductGuard(rows, cols);
    }
  }

  /** The verdict of the size checks on an m by n matrix in a buffer of aLen elements, or OK. */
  function ShapeVerdict(m: nat, n: nat, aLen: nat): Verdict {
    if m == 0 || n == 0 then DIMENSION_MISMATCH
    else if m > MAX_MATRIX_DIM || n > MAX_MATRIX_DIM then DIMS_EXCEEDED
    else if m * n > MAX_MATRIX_CELLS then CELLS_EXCEEDED
    else if m * n > aLen then BUFFER_OVERFLOW
    else OK
  }

  function SystemShape(m: nat, n: nat, aLen: nat, xLen: nat, bLen: nat): Verdict {
    if ShapeVerdict(m, n, aLen) != OK then ShapeVerdict(m, n, aLen)
    else if n > xLen || m > bLen then BUFFER_OVERFLOW
    else OK
  }

  function InverseShape(n: nat, aLen: nat, xLen: nat): Verdict {
    if ShapeVerdict(n, n, aLen) != OK then ShapeVerdict(n, n, aLen)
    else if n * n > xLen then BUFFER_OVERFLOW
    else OK
  }

  lemma ShapeBounds(m: nat, n: nat, aLen: nat)
    requires ShapeVerdict(m, n, aLen) == OK
    ensures m * n <= MAX_MATRIX_CELLS
    ensures m * n * n <= MAX_MATRIX_CELLS * MAX_MATRIX_DIM
  {
    ProductMonotone(m * n, MAX_MATRIX_CELLS, n);
    ProductMonotone(n, MAX_MATRIX_DIM, MAX_MATRIX_CELLS);
  }

  /** The checks that open every verify call, on non-null buffers. */
  method CheckShape(A: array<Int64>, aLen: Size, m: Size, n: Size) returns (r: Verdict)
    ensures r == ShapeVerdict(m, n, aLen)
  {
    if m == 0 || n == 0 {
      return DIMENSION_MISMATCH;
    }
    r := CheckDimensions(m, n);
    if r != OK {
      return;
    }
    SizesCannotOverflow(m, n);
    r := CheckMatrixCells(m, n);
    if r != OK {
      return;
    }
    r := ValidateMatrixBuffer(A, m, n, aLen);
  }

  method CheckVector(v: array<Int64>, vLen: Size, n: Size) returns (r: Verdict)
    requires n <= MAX_MATRIX_DIM
    ensures r == if n > vLen then BUFFER_OVERFLOW else OK
  {
    r := ValidateMatrixBuffer(v, 1, n, vLen);
  }

  method CheckSystem(A: array<Int64>, aLen: Size, x: array<Int64>, xLen: Size, b: array<Int64>, bLen: Size,
                     m: Size, n: Size) returns (r: Verdict)
    ensures r == SystemShape(m, n, aLen, xLen, bLen)
    ensures r == OK ==> m * n <= MAX_MATRIX_CELLS
  {
    r := CheckShape(A, aLen, m, n);
    if r != OK {
      return;
    }
    ShapeBounds(m, n, aLen);
    r := CheckVector(x, xLen, n);
    if r != OK {
      return;
    }
    r := CheckVector(b, bLen, m);
  }

  // ---------- What the calls decide ----------

  function InverseCharges(n: nat, aLen: nat, xLen: nat): seq<Size> {
    if InverseShape(n, aLen, xLen) != OK then [] else ShapeBounds(n, n, aLen); [n * n * n]
  }

  ghost function InverseVerdict(A: seq<int>, aLen: nat, X: seq<int>, xLen: nat, n: nat, b: Budget): Verdict {
    if InverseShape(n, aLen, xLen) != OK then InverseShape(n, aLen, xLen)
    else if !Grants(b, InverseCharges(n, aLen, xLen)[0]) then OPS_EXCEEDED
    else if !ProductFits(RowMajor(A, n), RowMajor(X, n), n, n, n) then OVERFLOW
    else if IsIdentity(n, Product(RowMajor(A, n), RowMajor(X, n), n)) then OK
    else FAIL
  }

  function SolutionCharges(m: nat, n: nat, aLen: nat, xLen: nat, bLen: nat): seq<Size> {
    if SystemShape(m, n, aLen, xLen, bLen) != OK then [] else [m * n]
  }

  ghost function SolutionVerdict(A: seq<int>, aLen: nat, x: seq<int>, xLen: nat, b: seq<int>, bLen: nat,
                                 m: nat, n: nat, budget: Budget): Verdict {
    if SystemShape(m, n, aLen, xLen, bLen) != OK then SystemShape(m, n, aLen, xLen, bLen)
    else if !Grants(budget, SolutionCharges(m, n, aLen, xLen, bLen)[0]) then OPS_EXCEEDED
    else if !VecFits(RowMajor(A, n), Vector(x), m, n) then OVERFLOW
    else if EqualVec(m, MulVec(RowMajor(A, n), Vector(x), n), Vector(b)) then OK
    else FAIL
  }

  ghost predicate AllFit(R: Vec, m: nat) { forall i :: 0 <= i < m ==> Fits(R(i)) }

  ghost predicate AllZeroVec(n: nat, f: Vec) { forall i :: 0 <= i < n ==> f(i) == 0 }

  /** The second pass, on a residual R that fits: charge, transposed product, comparison with zero. */
  ghost function SecondPassVerdict(M: Mat, R: Vec, m: nat, n: nat, cost: Size, budget: Budget): Verdict {
    if !Grants(budget, cost) then OPS_EXCEEDED
    else if !VecFits(Transposed(M), R, n, m) then OVERFLOW
    else if AllZeroVec(n, MulVec(Transposed(M), R, m)) then OK
    else FAIL
  }

  /** The second charge is made only if the first product and the residual are computed. */
  ghost function LstsqCharges(A: seq<int>, aLen: nat, x: seq<int>, xLen: nat, b: seq<int>, bLen: nat,
                              m: nat, n: nat, budget: Budget): seq<Size> {
    var first := SolutionCharges(m, n, aLen, xLen, bLen);
    if first == [] || !Grants(budget, first[0])
       || !VecFits(RowMajor(A, n), Vector(x), m, n)
       || !AllFit(Residual(RowMajor(A, n), Vector(x), Vector(b), n), m)
    then first
    else first + first
  }

  ghost function LstsqVerdict(A: seq<int>, aLen: nat, x: seq<int>, xLen: nat, b: seq<int>, bLen: nat,
                              m: nat, n: nat, budget: Budget): Verdict {
    if SystemShape(m, n, aLen, xLen, bLen) != OK then SystemShape(m, n, aLen, xLen, bLen)
    else
      var M, v, cost := RowMajor(A, n), Vector(x), SolutionCharges(m, n, aLen, xLen, bLen)[0];
      var R := Residual(M, v, Vector(b), n);
      if !Grants(budget, cost) then OPS_EXCEEDED
      else if !VecFits(M, v, m, n) || !AllFit(R, m) then OVERFLOW
      else SecondPassVerdict(M, R, m, n, cost, Charged(budget, cost))
  }

  // ---------- The calls ----------

  method IsIdentityMatrix(product: array<Int64>, ghost P: Mat, n: nat) returns (isIdentity: bool)
    requires Holds(product[..], n, P, Before(n, 0, n))
    ensures isIdentity <==> IsIdentity(n, P)
  {
    isIdentity := true;
    var i := 0;
    while i < n && isIdentity
      invariant i <= n
      invariant isIdentity ==> forall r, c :: 0 <= r < i && 0 <= c < n ==> P(r, c) == Delta(r, c)
      invariant !isIdentity ==> !IsIdentity(n, P)
    {
      var j := 0;
      while j < n
        invariant j <= n && isIdentity
        invariant forall r, c :: 0 <= r < i && 0 <= c < n ==> P(r, c) == Delta(r, c)
        invariant forall c :: 0 <= c < j ==> P(i, c) == Delta(i, c)
      {
        assert Before(n, 0, n)(i, j);
        var expected := if i == j then 1 else 0;
        if product[i * n + j] != expected {
          assert P(i, j) != Delta(i, j);
          isIdentity := false;
          break;
        }
        j := j + 1;
      }
      i := i + 1;
    }
  }

  method VerifyInv(A: array?<Int64>, aLen: Size, X: array?<Int64>, xLen: Size, n: Size, budget: ResourceBudget?)
    returns (r: Verdict)
    requires (A != null ==> aLen <= A.Length) && (X != null ==> xLen <= X.Length)
    modifies budget
    ensures A == null || X == null ==>
      r == NULL_INPUT && (budget != null ==> budget.State() == old(budget.State()) && budget.muladds == old(budget.muladds))
    ensures A != null && X != null ==>
      r == InverseVerdict(A[..], aLen, X[..], xLen, n, old(StateOf(budget)))
    ensures A != null && X != null && budget != null ==>
      budget.State() == ChargeAll(old(budget.State()), InverseCharges(n, aLen, xLen))
      && budget.muladds <= old(budget.muladds) + Granted(old(budget.State()), InverseCharges(n, aLen, xLen))
  {
    if A == null || X == null {
      return NULL_INPUT;
    }
    var b: ResourceBudget;
    if budget == null {
      b := new ResourceBudget();
    } else {
      b := budget;
    }
    r := CheckShape(A, aLen, n, n);
    if r != OK {
      return;
    }
    ShapeBounds(n, n, aLen);
    SizesCannotOverflow(n, n);
    r := ValidateMatrixBuffer(X, n, n, xLen);
    if r != OK {
      return;
    }
    var product := new Int64[n * n];
    r := MatrixMultWithBudget(A, X, product, n, n, n, b);
    if r != OK {
      return;
    }
    var isIdentity := IsIdentityMatrix(product, Product(RowMajor(A[..], n), RowMajor(X[..], n), n), n);
    r := if isIdentity then OK else FAIL;
  }

  method VerifySol(A: array?<Int64>, aLen: Size, x: array?<Int64>, xLen: Size, b: array?<Int64>, bLen: Size,
                   m: Size, n: Size, budget: ResourceBudget?) returns (r: Verdict)
    requires (A != null ==> aLen <= A.Length) && (x != null ==> xLen <= x.Length) && (b != null ==> bLen <= b.Length)
    modifies budget
    ensures A == null || x == null || b == null ==>
      r == NULL_INPUT && (budget != null ==> budget.State() == old(budget.State()) && budget.muladds == old(budget.muladds))
    ensures A != null && x != null && b != null ==>
      r == SolutionVerdict(A[..], aLen, x[..], xLen, b[..], bLen, m, n, old(StateOf(budget)))
    ensures A != null && x != null && b != null && budget != null ==>
      var costs := SolutionCharges(m, n, aLen, xLen, bLen);
      budget.State() == ChargeAll(old(budget.State()), costs)
      && budget.muladds <= old(budget.muladds) + Granted(old(budget.State()), costs)
  {
    if A == null || x == null || b == null {
      return NULL_INPUT;
    }
    var charged: ResourceBudget;
    if budget == null {
      charged := new ResourceBudget();
    } else {
      charged := budget;
    }
    r := CheckSystem(A, aLen, x, xLen, b, bLen, m, n);
    if r != OK {
      return;
    }
    var product := new Int64[m];
    r := MatrixVecMultWithBudget(A, x, product, m, n, charged);
    if r != OK {
      return;
    }
    var equal := MatrixEqual(product, b, m);
    ghost var P := MulVec(RowMajor(A[..], n), Vector(x[..]), n);
    assert forall k :: 0 <= k < m ==> product[..m][k] == P(k) && b[..m][k] == Vector(b[..])(k);
    assert product[..m] == b[..m] <==> EqualVec(m, P, Vector(b[..]));
    r := if equal then OK else FAIL;
  }

  method SubtractChecked(ax: array<Int64>, b: array<Int64>, residual: array<Int64>, m: nat, ghost R: Vec)
    returns (r: Verdict)
    requires m <= ax.Length && m <= b.Length && m <= residual.Length && residual != ax && residual != b
    requires forall i :: 0 <= i < m ==> R(i) == ax[i] as int - b[i] as int
    modifies residual
    ensures r == if AllFit(R, m) then OK else OVERFLOW
    ensures r == OK ==> forall i :: 0 <= i < m ==> residual[i] == R(i)
  {
    var i := 0;
    while i < m
      invariant i <= m
      invariant ax[..] == old(ax[..]) && b[..] == old(b[..])
      invariant forall k :: 0 <= k < m ==> R(k) == ax[k] as int - b[k] as int
      invariant forall k :: 0 <= k < i ==> Fits(R(k)) && residual[k] == R(k)
    {
      var difference: int := ax[i] as int - b[i] as int;
      assert R(i) == difference;
      if !Fits(difference) {
        return OVERFLOW;
      }
      residual[i] := difference;
      i := i + 1;
    }
    return OK;
  }

  /** The second pass of the least-squares call: column i of A against the residual, for each i. */
  method TransposedLoops(A: array<Int64>, ghost M: Mat, residual: array<Int64>, ghost R: Vec, result: array<Int64>,
                         m: nat, n: nat) returns (r: Verdict, ghost steps: nat)
    requires Stores(A[..], m, n, M) && Strides(residual[..], 0, 1, m, R)
    requires n <= result.Length && result != A && result != residual
    modifies result
    ensures r == if VecFits(Transposed(M), R, n, m) then OK else OVERFLOW
    ensures r == OK ==> forall i :: 0 <= i < n ==> result[i] == MulVec(Transposed(M), R, m)(i)
    ensures steps <= n * m
  {
    steps := 0;
    var i := 0;
    while i < n
      invariant i <= n && steps <= i * m
      invariant Stores(A[..], m, n, M) && Strides(residual[..], 0, 1, m, R)
      invariant forall k :: 0 <= k < i ==> result[k] == MulVec(Transposed(M), R, m)(k)
      invariant VecFits(Transposed(M), R, i, m)
    {
      assert ColStrides(A[..], i, m, n, M);
      assert Strides(A[..], i, n, m, Row(Transposed(M), i)) by {
        forall k | 0 <= k < m ensures HasTerm(A[..], i, n, Row(Transposed(M), i), k) {
          assert HasTerm(A[..], i, n, Col(M, i), k);
        }
      }
      ghost var more;
      r, more := Accumulate(A, i, n, Row(Transposed(M), i), residual, 0, 1, R, m, result, i);
      StepBound(i, n, m, steps, more);
      steps := steps + more;
      if r != OK {
        VecFitsNever(Transposed(M), R, i, n, m);
        return;
      }
      VecFitsMore(Transposed(M), R, i, i + 1, m);
      i := i + 1;
    }
    return OK, steps;
  }

  method AllZero(v: array<Int64>, n: nat) returns (allZero: bool)
    requires n <= v.Length
    ensures allZero <==> forall i :: 0 <= i < n ==> v[i] == 0
  {
    for i := 0 to n
      invariant forall k :: 0 <= k < i ==> v[k] == 0
    {
      if v[i] != 0 {
        return false;
      }
    }
    return true;
  }

  method SecondPass(A: array<Int64>, ghost M: Mat, residual: array<Int64>, ghost R: Vec, m: Size, n: Size, cost: Size,
                    budget: ResourceBudget) returns (r: Verdict)
    requires Stores(A[..], m, n, M) && Strides(residual[..], 0, 1, m, R) && cost == n * m
    modifies budget
    ensures r == SecondPassVerdict(M, R, m, n, cost, old(budget.State()))
    ensures budget.State() == Charged(old(budget.State()), cost)
    ensures budget.muladds <= old(budget.muladds) + if Grants(old(budget.State()), cost) then cost else 0
  {
    var result := new Int64[n];
    r := budget.AddOperationCost(cost);
    if r != OK {
      return;
    }
    ghost var steps;
    r, steps := TransposedLoops(A, M, residual, R, result, m, n);
    budget.muladds := budget.muladds + steps;
    if r != OK {
      return;
    }
    var allZero := AllZero(result, n);
    ZeroTransfer(result[..], n, MulVec(Transposed(M), R, m));
    r := if allZero then OK else FAIL;
  }

  /** Everything after the first product of the least-squares call. */
  method ResidualPass(A: array<Int64>, ghost M: Mat, ax: array<Int64>, b: array<Int64>, ghost R: Vec, m: Size, n: Size,
                      cost: Size, budget: ResourceBudget) returns (r: Verdict)
    requires Stores(A[..], m, n, M) && cost == n * m && m <= ax.Length && m <= b.Length
    requires forall i :: 0 <= i < m ==> R(i) == ax[i] as int - b[i] as int
    modifies budget
    ensures r == if AllFit(R, m) then SecondPassVerdict(M, R, m, n, cost, old(budget.State())) else OVERFLOW
    ensures budget.State() == if AllFit(R, m) then Charged(old(budget.State()), cost) else old(budget.State())
    ensures budget.muladds <=
      old(budget.muladds) + if AllFit(R, m) && Grants(old(budget.State()), cost) then cost else 0
  {
    var residual := new Int64[m];
    r := SubtractChecked(ax, b, residual, m, R);
    if r != OK {
      return;
    }
    assert Strides(residual[..], 0, 1, m, R) by {
      forall k | 0 <= k < m ensures HasTerm(residual[..], 0, 1, R, k) {}
    }
    r := SecondPass(A, M, residual, R, m, n, cost, budget);
  }

  lemma ZeroTransfer(s: seq<int>, n: nat, f: Vec)
    requires n <= |s| && forall i :: 0 <= i < n ==> s[i] == f(i)
    ensures (forall i :: 0 <= i < n ==> s[i] == 0) <==> AllZeroVec(n, f)
  {
    if AllZeroVec(n, f) {
      assert forall i :: 0 <= i < n ==> f(i) == 0;
    }
  }

  lemma TwoCharges(b: Budget, cost: Size)
    ensures ChargeAll(b, [cost]) == Charged(b, cost)
    ensures Granted(b, [cost]) == if Grants(b, cost) then cost else 0
    ensures ChargeAll(b, [cost] + [cost]) == Charged(Charged(b, cost), cost)
    ensures Granted(b, [cost] + [cost]) ==
      Granted(b, [cost]) + if Grants(Charged(b, cost), cost) then cost else 0
  {
    ChargeAllConcat(b, [cost], [cost]);
    assert [cost][1..] == [];
  }

  method VerifyLstsq(A: array?<Int64>, aLen: Size, x: array?<Int64>, xLen: Size, b: array?<Int64>, bLen: Size,
                     m: Size, n: Size, budget: ResourceBudget?) returns (r: Verdict)
    requires (A != null ==> aLen <= A.Length) && (x != null ==> xLen <= x.Length) && (b != null ==> bLen <= b.Length)
    modifies budget
    ensures A == null || x == null || b == null ==>
      r == NULL_INPUT && (budget != null ==> budget.State() == old(budget.State()) && budget.muladds == old(budget.muladds))
    ensures A != null && x != null && b != null ==>
      r == LstsqVerdict(A[..], aLen, x[..], xLen, b[..], bLen, m, n, old(StateOf(budget)))
    ensures A != null && x != null && b != null && budget != null ==>
      var costs := LstsqCharges(A[..], aLen, x[..], xLen, b[..], bLen, m, n, old(budget.State()));
      budget.State() == ChargeAll(old(budget.State()), costs)
      && budget.muladds <= old(budget.muladds) + Granted(old(budget.State()), costs)
  {
    if A == null || x == null || b == null {
      return NULL_INPUT;
    }
    var charged: ResourceBudget;
    if budget == null {
      charged := new ResourceBudget();
    } else {
      charged := budget;
    }
    r := CheckSystem(A, aLen, x, xLen, b, bLen, m, n);
    if r != OK {
      return;
    }
    TwoCharges(charged.State(), m * n);
    ghost var M := RowMajor(A[..], n);
    ghost var R := Residual(M, Vector(x[..]), Vector(b[..]), n);
    var ax := new Int64[m];
    r := MatrixVecMultWithBudget(A, x, ax, m, n, charged);
    if r != OK {
      return;
    }
    StoresRowMajor(A[..], m, n);
    r := ResidualPass(A, M, ax, b, R, m, n, m * n, charged);
  }
}
