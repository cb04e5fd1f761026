/** The exact matrix verifier's products: overflow-checked accumulation, their charges, transposition and comparison. */
module Verifier {
  import opened Sums
  import opened Matrices
  import opened Budgets
  import opened Widths

  predicate Fits(v: int) { INT64_MIN <= v <= INT64_MAX }

  /** Two's complement wrap-around, which the overflow builtins leave behind. */
  function Wrapped(v: int): Int64 { (v - INT64_MIN) % 0x1_0000_0000_0000_0000 + INT64_MIN }

  // ---------- When is a product free of overflow? ----------

  /** Term k of f . g, and the partial sum that it completes, fit an int64. */
  predicate TermFits(f: Vec, g: Vec, k: nat) { Fits(f(k) * g(k)) && Fits(Dot(k + 1, f, g)) }

  /** Every term and every left-to-right partial sum of f . g fits an int64. */
  ghost predicate DotFits(n: nat, f: Vec, g: Vec) { forall k :: 0 <= k < n ==> TermFits(f, g, k) }

  ghost predicate VecFits(A: Mat, x: Vec, m: nat, n: nat) {
    forall i :: 0 <= i < m ==> DotFits(n, Row(A, i), x)
  }

  ghost predicate RowFits(A: Mat, B: Mat, i: int, n: nat, p: nat) {
    forall j :: 0 <= j < p ==> DotFits(n, Row(A, i), Col(B, j))
  }

  ghost predicate ProductFits(A: Mat, B: Mat, m: nat, n: nat, p: nat) {
    forall i :: 0 <= i < m ==> RowFits(A, B, i, n, p)
  }

  // ---------- Row-major buffers ----------

  lemma NonNegativeProduct(a: int, b: int)
    requires 0 <= a && 0 <= b
    ensures 0 <= a * b
  {}

  lemma ProductMonotone(a: int, b: int, n: int)
    requires a <= b && 0 <= n
    ensures a * n <= b * n
  {
    NonNegativeProduct(b - a, n);
    assert (b - a) * n == b * n - a * n;
  }

  lemma IndexBound(i: int, j: int, m: int, n: int)
    requires 0 <= i < m && 0 <= j < n
    ensures 0 <= i * n + j < m * n
  {
    ProductMonotone(i + 1, m, n);
    NonNegativeProduct(i, n);
    assert (i + 1) * n == i * n + n;
  }

  lemma Separated(i: int, i': int, n: int)
    requires 0 <= n
    ensures i < i' ==> i * n + n <= i' * n
  {
    if i < i' {
      ProductMonotone(i + 1, i', n);
      assert (i + 1) * n == i * n + n;
    }
  }

  lemma IndexInjective(i: int, j: int, i': int, j': int, n: int)
    requires 0 <= j < n && 0 <= j' < n
    requires i * n + j == i' * n + j'
    ensures i == i' && j == j'
  {
    Separated(i, i', n);
    Separated(i', i, n);
  }

  type Cells = (int, int) -> bool

  /** The cells of an m by p matrix that a row-by-row scan has finished when it reaches cell (i, j). */
  function Before(i: int, j: int, p: int): Cells {
    (r, c) => 0 <= r && 0 <= c < p && (r < i || (r == i && c < j))
  }

  /** The same for a column-by-column scan of an n by m matrix that reaches row j of column i. */
  function BeforeInColumns(i: int, j: int, m: int, n: int): Cells {
    (r, c) => 0 <= r < n && 0 <= c < m && (c < i || (c == i && r < j))
  }

  /** The buffer s, of row width w, holds T at the given cells. */
  ghost predicate Holds(s: seq<int>, w: int, T: Mat, cells: Cells) {
    forall r, c :: cells(r, c) ==> 0 <= c < w && 0 <= r * w + c < |s| && s[r * w + c] == T(r, c)
  }

  lemma PutCell(s: seq<int>, w: int, T: Mat, r: int, c: int, v: int, cells: Cells, cells': Cells)
    requires Holds(s, w, T, cells)
    requires 0 <= c < w && 0 <= r * w + c < |s| && v == T(r, c)
    requires forall i, j :: cells'(i, j) ==> cells(i, j) || (i == r && j == c)
    ensures Holds(s[r * w + c := v], w, T, cells')
  {
    forall i, j | cells'(i, j)
      ensures 0 <= j < w && 0 <= i * w + j < |s| && s[r * w + c := v][i * w + j] == T(i, j)
    {
      if i * w + j == r * w + c {
        IndexInjective(i, j, r, c, w);
      }
    }
  }

  // ---------- Arithmetic ----------

  /** What a multiply-add leaves in the accumulator, whether or not it overflows. */
  function After(c: int, product: int): int { if Fits(product) then Wrapped(c + product) else c }

  method CheckedMulAdd(c: Int64, a: Int64, b: Int64) returns (r: Verdict, c': Int64)
    ensures r == if Fits(a * b) && Fits(c + a * b) then OK else OVERFLOW
    ensures r == OK ==> c' == c + a * b
    ensures c' == After(c, a * b)
  {
    var product := a * b;
    if !Fits(product) {
      return OVERFLOW, c;
    }
    if !Fits(c + product) {
      return OVERFLOW, Wrapped(c + product);
    }
    return OK, c + product;
  }

  lemma DotFitsExt(n: nat, f: Vec, g: Vec, f': Vec, g': Vec)
    requires EqualVec(n, f, f') && EqualVec(n, g, g')
    ensures DotFits(n, f, g) == DotFits(n, f', g')
  {
    forall k | 0 <= k < n ensures TermFits(f, g, k) == TermFits(f', g', k) {
      assert f(k) == f'(k) && g(k) == g'(k);
      DotExt(k + 1, f, g, f', g');
    }
  }

  lemma DotFitsStep(k: nat, f: Vec, g: Vec)
    ensures Dot(k + 1, f, g) == Dot(k, f, g) + f(k) * g(k)
    ensures DotFits(k + 1, f, g) <==> DotFits(k, f, g) && Fits(f(k) * g(k)) && Fits(Dot(k, f, g) + f(k) * g(k))
  {
    assert Dot(k + 1, f, g) == Dot(k, f, g) + Times(f, g)(k);
    assert TermFits(f, g, k) <==> Fits(f(k) * g(k)) && Fits(Dot(k, f, g) + f(k) * g(k));
  }

  lemma DotFitsNever(k: nat, n: nat, f: Vec, g: Vec)
    requires k <= n && !DotFits(k, f, g)
    ensures !DotFits(n, f, g)
  {}

  /** The accumulation of f . g overflows at multiply-add number k, which leaves v in the accumulator. */
  ghost predicate StopsAt(k: nat, n: nat, f: Vec, g: Vec, v: int) {
    0 < k <= n && DotFits(k - 1, f, g) && !DotFits(k, f, g) && v == After(Dot(k - 1, f, g), f(k - 1) * g(k - 1))
  }

  /** Element start + k * step of the buffer exists and is f(k). */
  predicate HasTerm(s: seq<int>, start: int, step: int, f: Vec, k: int) {
    0 <= start + k * step < |s| && s[start + k * step] == f(k)
  }

  /** Walking the buffer from start in strides of step reads f(0), ..., f(n - 1). */
  ghost predicate Strides(s: seq<int>, start: int, step: int, n: nat, f: Vec) {
    forall k :: 0 <= k < n ==> HasTerm(s, start, step, f, k)
  }

  /** One round of the accumulation loop, on the partial sum c. */
  method AccumulateTerm(A: array<Int64>, a0: int, da: int, ghost f: Vec, B: array<Int64>, b0: int, db: int, ghost g: Vec,
                        k: nat, ghost n: nat, c: Int64) returns (r: Verdict, c': Int64)
    requires HasTerm(A[..], a0, da, f, k) && HasTerm(B[..], b0, db, g, k)
    requires k < n && c == Dot(k, f, g) && DotFits(k, f, g)
    ensures r == OK || r == OVERFLOW
    ensures r == OK ==> DotFits(k + 1, f, g) && c' == Dot(k + 1, f, g)
    ensures r == OVERFLOW ==> !DotFits(n, f, g) && StopsAt(k + 1, n, f, g, c')
  {
    DotFitsStep(k, f, g);
    r, c' := CheckedMulAdd(c, A[a0 + k * da], B[b0 + k * db]);
    if r == OVERFLOW {
      DotFitsNever(k + 1, n, f, g);
    }
  }

  /** The accumulation loop of every product: result[d] := 0, then n checked multiply-adds. */
  method Accumulate(A: array<Int64>, a0: int, da: int, ghost f: Vec, B: array<Int64>, b0: int, db: int, ghost g: Vec,
                    n: nat, result: array<Int64>, d: nat) returns (r: Verdict, ghost steps: nat)
    requires Strides(A[..], a0, da, n, f) && Strides(B[..], b0, db, n, g)
    requires d < result.Length && result != A && result != B
    modifies result
    ensures r == if DotFits(n, f, g) then OK else OVERFLOW
    ensures r == OK ==> result[d] == Dot(n, f, g)
    ensures r == OVERFLOW ==> StopsAt(steps, n, f, g, result[d])
    ensures r == OK ==> steps == n
    ensures forall t :: 0 <= t < result.Length && t != d ==> result[t] == old(result[t])
    ensures steps <= n
  {
    result[d] := 0;
    steps := 0;
    var k := 0;
    while k < n
      invariant k == steps <= n
      invariant Strides(A[..], a0, da, n, f) && Strides(B[..], b0, db, n, g)
      invariant DotFits(k, f, g)
      invariant result[d] == Dot(k, f, g)
      invariant forall t :: 0 <= t < result.Length && t != d ==> result[t] == old(result[t])
    {
      assert HasTerm(A[..], a0, da, f, k) && HasTerm(B[..], b0, db, g, k);
      steps := steps + 1;
      var c;
      r, c := AccumulateTerm(A, a0, da, f, B, b0, db, g, k, n, result[d]);
      result[d] := c;
      if r != OK {
        return;
      }
      k := k + 1;
    }
    return OK, steps;
  }

  // ---------- Products and their charges ----------

  /** The verdict of a product routine, given whether a budget was passed and whether the product fits. */
  function MultVerdict(budgeted: bool, b: Budget, cost: nat, fits: bool): Verdict {
    if budgeted && cost > SIZE_MAX then OVERFLOW
    else if budgeted && !Grants(b, cost) then OPS_EXCEEDED
    else if fits then OK
    else OVERFLOW
  }

  /** A cost that does not fit a size_t is never charged. */
  function MultCharges(cost: nat): seq<Size> { if cost > SIZE_MAX then [] else [cost] }

  /** The state a call starts from: a NULL budget stands for a fresh default one. */
  ghost function StateOf(budget: ResourceBudget?): Budget
    reads budget
  {
    if budget == null then DEFAULT_BUDGET else budget.State()
  }

  lemma ProductGuard(m: Size, n: Size)
    requires m > 0
    ensures n > SIZE_MAX / m <==> m * n > SIZE_MAX
  {
    var q := SIZE_MAX / m;
    assert q * m <= SIZE_MAX < q * m + m;
    if n <= q {
      ProductMonotone(n, q, m);
    } else {
      ProductMonotone(q + 1, n, m);
      assert (q + 1) * m == q * m + m;
    }
  }

  /** The budget prologue of the matrix-vector product: charge m * n unless that wraps. */
  method ChargeProduct(m: Size, n: Size, budget: ResourceBudget?) returns (r: Verdict)
    modifies budget
    ensures r == MultVerdict(budget != null, old(StateOf(budget)), m * n, true)
    ensures budget != null ==> budget.State() == ChargeAll(old(budget.State()), MultCharges(m * n))
    ensures budget != null ==> budget.muladds == old(budget.muladds)
  {
    if budget != null {
      if m > 0 {
        ProductGuard(m, n);
      }
      if m > 0 && n > SIZE_MAX / m {
        return OVERFLOW;
      }
      r := budget.AddOperationCost(m * n);
      return;
    }
    return OK;
  }

  ghost predicate RowStrides(s: seq<int>, i: int, n: nat, M: Mat) { Strides(s, i * n, 1, n, Row(M, i)) }

  ghost predicate ColStrides(s: seq<int>, j: int, m: nat, n: nat, M: Mat) { Strides(s, j, n, m, Col(M, j)) }

  /** The buffer holds the m by n matrix M, row after row. */
  ghost predicate Stores(s: seq<int>, m: nat, n: nat, M: Mat) {
    && (forall i :: 0 <= i < m ==> RowStrides(s, i, n, M))
    && (forall j :: 0 <= j < n ==> ColStrides(s, j, m, n, M))
  }

  lemma StoresRowMajor(s: seq<int>, m: nat, n: nat)
    requires m * n <= |s|
    ensures Stores(s, m, n, RowMajor(s, n))
  {
    var M := RowMajor(s, n);
    forall i | 0 <= i < m ensures RowStrides(s, i, n, M) {
      forall k | 0 <= k < n ensures HasTerm(s, i * n, 1, Row(M, i), k) {
        IndexBound(i, k, m, n);
      }
    }
    forall j | 0 <= j < n ensures ColStrides(s, j, m, n, M) {
      forall k | 0 <= k < m ensures HasTerm(s, j, n, Col(M, j), k) {
        IndexBound(k, j, m, n);
      }
    }
  }

  lemma VectorStrides(s: seq<int>, n: nat)
    requires n <= |s|
    ensures Strides(s, 0, 1, n, Vector(s))
  {
    forall k | 0 <= k < n ensures HasTerm(s, 0, 1, Vector(s), k) {}
  }

  lemma StepBound(i: nat, m: nat, n: nat, steps: nat, more: nat)
    requires i < m && steps <= i * n && more <= n
    ensures steps + more <= (i + 1) * n <= m * n
  {
    ProductMonotone(i + 1, m, n);
    assert (i + 1) * n == i * n + n;
  }

  /** The first i cells of the buffer are those of P. */
  ghost predicate RowsDone(s: seq<int>, P: Vec, i: nat) {
    i <= |s| && forall k :: 0 <= k < i ==> s[k] == P(k)
  }

  /** One row of the matrix-vector product. */
  method VecMultRow(A: array<Int64>, ghost M: Mat, x: array<Int64>, ghost v: Vec, ghost P: Vec, result: array<Int64>,
                    ghost m: nat, n: nat, i: nat) returns (r: Verdict, ghost at: nat)
    requires Stores(A[..], m, n, M) && Strides(x[..], 0, 1, n, v)
    requires i < m <= result.Length && result != A && result != x
    requires P(i) == Dot(n, Row(M, i), v) && RowsDone(result[..], P, i)
    modifies result
    ensures r == if DotFits(n, Row(M, i), v) then OK else OVERFLOW
    ensures RowsDone(result[..], P, if r == OK then i + 1 else i)
    ensures r == OVERFLOW ==> StopsAt(at, n, Row(M, i), v, result[i])
    ensures forall t :: i < t < result.Length ==> result[t] == old(result[t])
    ensures at <= n
  {
    assert RowStrides(A[..], i, n, M);
    r, at := Accumulate(A, i * n, 1, Row(M, i), x, 0, 1, v, n, result, i);
  }

  lemma VecFitsMore(M: Mat, v: Vec, i: nat, next: nat, n: nat)
    requires next == i + 1 && VecFits(M, v, i, n) && DotFits(n, Row(M, i), v)
    ensures VecFits(M, v, next, n)
  {
  }

  lemma VecFitsNever(M: Mat, v: Vec, i: nat, m: nat, n: nat)
    requires i < m && !DotFits(n, Row(M, i), v)
    ensures !VecFits(M, v, m, n)
  {
  }

  /** The loops of the matrix-vector product, which stop in the first row that overflows. */
  method VecMultLoops(A: array<Int64>, ghost M: Mat, x: array<Int64>, ghost v: Vec, ghost P: Vec, result: array<Int64>,
                      m: nat, n: nat)
    returns (r: Verdict, ghost steps: nat, ghost stop: nat, ghost at: nat)
    requires Stores(A[..], m, n, M) && Strides(x[..], 0, 1, n, v)
    requires m <= result.Length && result != A && result != x && P == MulVec(M, v, n)
    modifies result
    ensures r == if VecFits(M, v, m, n) then OK else OVERFLOW
    ensures VecFits(M, v, stop, n) && if r == OK then stop == m else stop < m && !DotFits(n, Row(M, stop), v)
    ensures RowsDone(result[..], P, stop)
    ensures r == OVERFLOW ==> StopsAt(at, n, Row(M, stop), v, result[stop])
    ensures forall t :: 0 <= t < result.Length && (t > stop || t >= m) ==> result[t] == old(result[t])
    ensures steps <= m * n
  {
    steps, stop, at := 0, m, 0;
    var i := 0;
    while i < m
      invariant i <= m && steps <= i * n
      invariant Stores(A[..], m, n, M) && Strides(x[..], 0, 1, n, v)
      invariant RowsDone(result[..], P, i) && VecFits(M, v, i, n)
      invariant forall t :: i <= t < result.Length ==> result[t] == old(result[t])
    {
      r, at := VecMultRow(A, M, x, v, P, result, m, n, i);
      StepBound(i, m, n, steps, at);
      steps := steps + at;
      if r != OK {
        VecFitsNever(M, v, i, m, n);
        stop := i;
        return;
      }
      VecFitsMore(M, v, i, i + 1, n);
      i := i + 1;
    }
    return OK, steps, m, at;
  }

  method MatrixVecMultWithBudget(A: array?<Int64>, x: array?<Int64>, result: array?<Int64>,
                                 m: Size, n: Size, budget: ResourceBudget?) returns (r: Verdict)
    requires A != null && x != null && result != null ==>
      m * n <= A.Length && n <= x.Length && m <= result.Length && result != A && result != x
    modifies result, budget
    ensures A == null || x == null || result == null ==>
      r == NULL_INPUT && (budget != null ==> budget.State() == old(budget.State()) && budget.muladds == old(budget.muladds))
    ensures A != null && x != null && result != null ==>
      r == MultVerdict(budget != null, old(StateOf(budget)), m * n, VecFits(RowMajor(A[..], n), Vector(x[..]), m, n))
    ensures A != null && x != null && result != null && r == OK ==>
      forall k :: 0 <= k < m ==> result[k] == MulVec(RowMajor(A[..], n), Vector(x[..]), n)(k)
    ensures result != null ==> forall t :: m <= t < result.Length ==> result[t] == old(result[t])
    ensures budget != null && r != NULL_INPUT ==>
      budget.State() == ChargeAll(old(budget.State()), MultCharges(m * n))
      && budget.muladds <= old(budget.muladds) + Granted(old(budget.State()), MultCharges(m * n))
  {
    if A == null || x == null || result == null {
      return NULL_INPUT;
    }
    r := ChargeProduct(m, n, budget);
    if r != OK {
      return;
    }
    ghost var steps, stop, at;
    StoresRowMajor(A[..], m, n);
    VectorStrides(x[..], n);
    ghost var P := MulVec(RowMajor(A[..], n), Vector(x[..]), n);
    r, steps, stop, at := VecMultLoops(A, RowMajor(A[..], n), x, Vector(x[..]), P, result, m, n);
    if budget != null {
      budget.muladds := budget.muladds + steps;
    }
  }

  /** What the prologue of the matrix product compares with SIZE_MAX: m * n first, then m * n * p. */
  function MultCost(m: nat, n: nat, p: nat): nat { if m * n > SIZE_MAX then m * n else m * n * p }

  method ChargeMatrixProduct(m: Size, n: Size, p: Size, budget: ResourceBudget?) returns (r: Verdict)
    modifies budget
    ensures r == MultVerdict(budget != null, old(StateOf(budget)), MultCost(m, n, p), true)
    ensures budget != null ==> budget.State() == ChargeAll(old(budget.State()), MultCharges(MultCost(m, n, p)))
    ensures budget != null ==> budget.muladds == old(budget.muladds)
  {
    if budget != null {
      if m > 0 {
        ProductGuard(m, n);
      }
      if m > 0 && n > SIZE_MAX / m {
        return OVERFLOW;
      }
      var mn: Size := m * n;
      if mn > 0 {
        ProductGuard(mn, p);
      }
      if mn > 0 && p > SIZE_MAX / mn {
        return OVERFLOW;
      }
      r := budget.AddOperationCost(mn * p);
      return;
    }
    return OK;
  }

  /** One cell of the matrix product, accumulated in place. */
  method MultCell(A: array<Int64>, ghost M: Mat, B: array<Int64>, ghost N: Mat, result: array<Int64>,
                  ghost m: nat, n: nat, p: nat, i: nat, j: nat) returns (r: Verdict, ghost steps: nat)
    requires Stores(A[..], m, n, M) && Stores(B[..], n, p, N)
    requires i < m && j < p && m * p <= result.Length && result != A && result != B
    requires Holds(result[..], p, Product(M, N, n), Before(i, j, p))
    modifies result
    ensures r == if DotFits(n, Row(M, i), Col(N, j)) then OK else OVERFLOW
    ensures r == OK ==> Holds(result[..], p, Product(M, N, n), Before(i, j + 1, p))
    ensures forall t :: m * p <= t < result.Length ==> result[t] == old(result[t])
    ensures steps <= n
  {
    IndexBound(i, j, m, p);
    assert RowStrides(A[..], i, n, M) && ColStrides(B[..], j, n, p, N);
    r, steps := Accumulate(A, i * n, 1, Row(M, i), B, j, p, Col(N, j), n, result, i * p + j);
    if r == OK {
      var v := Product(M, N, n)(i, j);
      assert result[..] == old(result[..])[i * p + j := v];
      PutCell(old(result[..]), p, Product(M, N, n), i, j, v, Before(i, j, p), Before(i, j + 1, p));
    }
  }

  /** One row of the matrix product. */
  method MultRow(A: array<Int64>, ghost M: Mat, B: array<Int64>, ghost N: Mat, result: array<Int64>,
                 ghost m: nat, n: nat, p: nat, i: nat) returns (r: Verdict, ghost steps: nat)
    requires Stores(A[..], m, n, M) && Stores(B[..], n, p, N)
    requires i < m && m * p <= result.Length && result != A && result != B
    requires Holds(result[..], p, Product(M, N, n), Before(i, 0, p))
    modifies result
    ensures r == if RowFits(M, N, i, n, p) then OK else OVERFLOW
    ensures r == OK ==> Holds(result[..], p, Product(M, N, n), Before(i + 1, 0, p))
    ensures forall t :: m * p <= t < result.Length ==> result[t] == old(result[t])
    ensures steps <= p * n
  {
    steps := 0;
    var j := 0;
    while j < p
      invariant j <= p && steps <= j * n
      invariant Stores(A[..], m, n, M) && Stores(B[..], n, p, N)
      invariant RowFits(M, N, i, n, j)
      invariant Holds(result[..], p, Product(M, N, n), Before(i, j, p))
      invariant forall t :: m * p <= t < result.Length ==> result[t] == old(result[t])
    {
      ghost var more;
      r, more := MultCell(A, M, B, N, result, m, n, p, i, j);
      StepBound(j, p, n, steps, more);
      steps := steps + more;
      if r != OK {
        return;
      }
      j := j + 1;
    }
    return OK, steps;
  }

  /** The loops of the matrix product. */
  method MultLoops(A: array<Int64>, ghost M: Mat, B: array<Int64>, ghost N: Mat, result: array<Int64>,
                   m: nat, n: nat, p: nat, ghost pn: nat) returns (r: Verdict, ghost steps: nat)
    requires Stores(A[..], m, n, M) && Stores(B[..], n, p, N) && pn == p * n
    requires m * p <= result.Length && result != A && result != B
    modifies result
    ensures r == if ProductFits(M, N, m, n, p) then OK else OVERFLOW
    ensures r == OK ==> Holds(result[..], p, Product(M, N, n), Before(m, 0, p))
    ensures forall t :: m * p <= t < result.Length ==> result[t] == old(result[t])
    ensures steps <= m * pn
  {
    steps := 0;
    var i := 0;
    while i < m
      invariant i <= m && steps <= i * pn
      invariant Stores(A[..], m, n, M) && Stores(B[..], n, p, N)
      invariant ProductFits(M, N, i, n, p)
      invariant Holds(result[..], p, Product(M, N, n), Before(i, 0, p))
      invariant forall t :: m * p <= t < result.Length ==> result[t] == old(result[t])
    {
      ghost var more;
      r, more := MultRow(A, M, B, N, result, m, n, p, i);
      StepBound(i, m, pn, steps, more);
      steps := steps + more;
      if r != OK {
        return;
      }
      i := i + 1;
    }
    return OK, steps;
  }

  lemma CostOrder(m: nat, n: nat, p: nat)
    ensures m * (p * n) == m * n * p
  {}

  method MatrixMultWithBudget(A: array?<Int64>, B: array?<Int64>, result: array?<Int64>,
                              m: Size, n: Size, p: Size, budget: ResourceBudget?) returns (r: Verdict)
    requires A != null && B != null && result != null ==>
      m * n <= A.Length && n * p <= B.Length && m * p <= result.Length && result != A && result != B
    modifies result, budget
    ensures A == null || B == null || result == null ==>
      r == NULL_INPUT && (budget != null ==> budget.State() == old(budget.State()) && budget.muladds == old(budget.muladds))
    ensures A != null && B != null && result != null ==>
      r == MultVerdict(budget != null, old(StateOf(budget)), MultCost(m, n, p),
                       ProductFits(RowMajor(A[..], n), RowMajor(B[..], p), m, n, p))
    ensures A != null && B != null && result != null && r == OK ==>
      Holds(result[..], p, Product(RowMajor(A[..], n), RowMajor(B[..], p), n), Before(m, 0, p))
    ensures result != null ==> forall t :: m * p <= t < result.Length ==> result[t] == old(result[t])
    ensures budget != null && r != NULL_INPUT ==>
      budget.State() == ChargeAll(old(budget.State()), MultCharges(MultCost(m, n, p)))
      && budget.muladds <= old(budget.muladds) + Granted(old(budget.State()), MultCharges(MultCost(m, n, p)))
  {
    if A == null || B == null || result == null {
      return NULL_INPUT;
    }
    r := ChargeMatrixProduct(m, n, p, budget);
    if r != OK {
      return;
    }
    ghost var steps;
    StoresRowMajor(A[..], m, n);
    StoresRowMajor(B[..], n, p);
    r, steps := MultLoops(A, RowMajor(A[..], n), B, RowMajor(B[..], p), result, m, n, p, p * n);
    CostOrder(m, n, p);
    if budget != null {
      budget.muladds := budget.muladds + steps;
    }
  }

  /** A finished column is the start of the next one. */
  lemma ColumnDone(s: seq<int>, m: nat, n: nat, T: Mat, i: nat, next: nat)
    requires next == i + 1 && Holds(s, m, T, BeforeInColumns(i, n, m, n))
    ensures Holds(s, m, T, BeforeInColumns(next, 0, m, n))
  {
    forall r, c | BeforeInColumns(next, 0, m, n)(r, c)
      ensures 0 <= c < m && 0 <= r * m + c < |s| && s[r * m + c] == T(r, c)
    {
      assert BeforeInColumns(i, n, m, n)(r, c);
    }
  }

  method TransposeCell(A: array<Int64>, ghost M: Mat, result: array<Int64>, m: nat, n: nat, i: nat, j: nat, ghost size: nat)
    requires i < m && j < n && size == m * n <= A.Length && size <= result.Length && result != A && M == RowMajor(A[..], n)
    requires Holds(result[..], m, Transposed(M), BeforeInColumns(i, j, m, n))
    modifies result
    ensures Holds(result[..], m, Transposed(M), BeforeInColumns(i, j + 1, m, n))
    ensures forall t :: size <= t < result.Length ==> result[t] == old(result[t])
  {
    IndexBound(i, j, m, n);
    IndexBound(j, i, n, m);
    var v := A[i * n + j];
    PutCell(result[..], m, Transposed(M), j, i, v, BeforeInColumns(i, j, m, n), BeforeInColumns(i, j + 1, m, n));
    result[j * m + i] := v;
  }

  method MatrixTranspose(A: array?<Int64>, result: array?<Int64>, m: Size, n: Size) returns (r: Verdict)
    requires A != null && result != null ==> m * n <= A.Length && m * n <= result.Length && result != A
    modifies result
    ensures r == if A == null || result == null then NULL_INPUT else OK
    ensures A != null && result != null ==>
      Holds(result[..], m, Transposed(RowMajor(A[..], n)), BeforeInColumns(m, 0, m, n))
    ensures result != null ==> forall t :: m * n <= t < result.Length ==> result[t] == old(result[t])
  {
    if A == null || result == null {
      return NULL_INPUT;
    }
    ghost var M, size := RowMajor(A[..], n), m * n;
    var i := 0;
    while i < m
      invariant i <= m && A[..] == old(A[..])
      invariant Holds(result[..], m, Transposed(M), BeforeInColumns(i, 0, m, n))
      invariant forall t :: size <= t < result.Length ==> result[t] == old(result[t])
    {
      var j := 0;
      while j < n
        invariant j <= n && A[..] == old(A[..])
        invariant Holds(result[..], m, Transposed(M), BeforeInColumns(i, j, m, n))
        invariant forall t :: size <= t < result.Length ==> result[t] == old(result[t])
      {
        TransposeCell(A, M, result, m, n, i, j, size);
        j := j + 1;
      }
      ghost var done := i;
      i := i + 1;
      ColumnDone(result[..], m, n, Transposed(M), done, i);
    }
    return OK;
  }

  method MatrixEqual(A: array?<Int64>, B: array?<Int64>, nelems: Size) returns (equal: bool)
    requires A != null && B != null ==> nelems <= A.Length && nelems <= B.Length
    ensures equal <==> A != null && B != null && A[..nelems] == B[..nelems]
  {
    if A == null || B == null {
      return false;
    }
    for i := 0 to nelems
      invariant A[..i] == B[..i]
    {
      if A[i] != B[i] {
        assert A[..nelems][i] != B[..nelems][i];
        return false;
      }
    }
    return true;
  }
}
