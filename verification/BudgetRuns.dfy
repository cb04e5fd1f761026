/** Any sequence of verify calls on one budget: what they answer, what they charge and how much work they do. */
module BudgetRuns {
  import opened Budgets
  import opened VerifyCalls
  import opened Widths

  datatype Kind = Inverse | Solution | LeastSquares

  /** One call. An inverse has the candidate in x and its size in n; it uses neither b nor m. */
  datatype Request = Request(kind: Kind, A: array?<Int64>, aLen: Size, x: array?<Int64>, xLen: Size,
                             b: array?<Int64>, bLen: Size, m: Size, n: Size)

  /** The lengths that the caller declares are really there. */
  predicate Honest(q: Request) {
    (q.A != null ==> q.aLen <= q.A.Length) && (q.x != null ==> q.xLen <= q.x.Length)
    && (q.b != null ==> q.bLen <= q.b.Length)
  }

  /** What the buffers of a call hold; None for a null pointer. */
  datatype Input = Input(kind: Kind, A: Option<seq<int>>, aLen: Size, x: Option<seq<int>>, xLen: Size,
                         b: Option<seq<int>>, bLen: Size, m: Size, n: Size)

  ghost function Contents(a: array?<Int64>): Option<seq<int>>
    reads a
  {
    if a == null then None else Some(a[..])
  }

  ghost function Read(q: Request): Input
    reads q.A, q.x, q.b
  {
    Input(q.kind, Contents(q.A), q.aLen, Contents(q.x), q.xLen, Contents(q.b), q.bLen, q.m, q.n)
  }

  predicate HasNull(q: Input) { q.A.None? || q.x.None? || (!q.kind.Inverse? && q.b.None?) }

  /** What a call charges to a budget in state s. */
  ghost function Charges(q: Input, s: Budget): seq<Size> {
    if HasNull(q) then []
    else
      match q.kind
      case Inverse => InverseCharges(q.n, q.aLen, q.xLen)
      case Solution => SolutionCharges(q.m, q.n, q.aLen, q.xLen, q.bLen)
      case LeastSquares => LstsqCharges(q.A.value, q.aLen, q.x.value, q.xLen, q.b.value, q.bLen, q.m, q.n, s)
  }

  /** What it answers. */
  ghost function Answer(q: Input, s: Budget): Verdict {
    if HasNull(q) then NULL_INPUT
    else
      match q.kind
      case Inverse => InverseVerdict(q.A.value, q.aLen, q.x.value, q.xLen, q.n, s)
      case Solution => SolutionVerdict(q.A.value, q.aLen, q.x.value, q.xLen, q.b.value, q.bLen, q.m, q.n, s)
      case LeastSquares => LstsqVerdict(q.A.value, q.aLen, q.x.value, q.xLen, q.b.value, q.bLen, q.m, q.n, s)
  }

  /** The charges of a whole run, each call starting from the budget that the calls before it left. */
  ghost function AllCharges(qs: seq<Input>, s: Budget): seq<Size> {
    if qs == [] then []
    else
      var before := AllCharges(qs[..|qs| - 1], s);
      before + Charges(qs[|qs| - 1], ChargeAll(s, before))
  }

  ghost function AllAnswers(qs: seq<Input>, s: Budget): seq<Verdict> {
    if qs == [] then []
    else
      var front := qs[..|qs| - 1];
      AllAnswers(front, s) + [Answer(qs[|qs| - 1], ChargeAll(s, AllCharges(front, s)))]
  }

  lemma AllChargesSnoc(qs: seq<Input>, i: nat, s: Budget)
    requires i < |qs|
    ensures var before := AllCharges(qs[..i], s); var more := Charges(qs[i], ChargeAll(s, before));
            AllCharges(qs[..i + 1], s) == before + more
            && ChargeAll(s, before + more) == ChargeAll(ChargeAll(s, before), more)
            && Granted(s, before + more) == Granted(s, before) + Granted(ChargeAll(s, before), more)
    ensures AllAnswers(qs[..i + 1], s)
            == AllAnswers(qs[..i], s) + [Answer(qs[i], ChargeAll(s, AllCharges(qs[..i], s)))]
  {
    assert qs[..i + 1][..i] == qs[..i];
    var before := AllCharges(qs[..i], s);
    ChargeAllConcat(s, before, Charges(qs[i], ChargeAll(s, before)));
  }

  /** Each call of a run gets an answer, and it is the verdict of its kind on the budget that the calls before it left. */
  lemma EachAnswered(qs: seq<Input>, i: nat, s: Budget, before: Budget)
    requires i < |qs| && before == ChargeAll(s, AllCharges(qs[..i], s))
    ensures |AllAnswers(qs, s)| == |qs|
    ensures var q, r := qs[i], AllAnswers(qs, s)[i];
      if q.A.None? || q.x.None? || (q.b.None? && q.kind != Inverse) then r == NULL_INPUT
      else
        match q.kind
        case Inverse => r == InverseVerdict(q.A.value, q.aLen, q.x.value, q.xLen, q.n, before)
        case Solution => r == SolutionVerdict(q.A.value, q.aLen, q.x.value, q.xLen, q.b.value, q.bLen, q.m, q.n, before)
        case LeastSquares => r == LstsqVerdict(q.A.value, q.aLen, q.x.value, q.xLen, q.b.value, q.bLen, q.m, q.n, before)
  {
    AllAnswered(qs, i, s);
  }

  lemma {:induction false} AllAnswered(qs: seq<Input>, i: nat, s: Budget)
    requires i < |qs|
    ensures |AllAnswers(qs, s)| == |qs| && AllAnswers(qs, s)[i] == Answer(qs[i], ChargeAll(s, AllCharges(qs[..i], s)))
  {
    var front := qs[..|qs| - 1];
    if i < |front| {
      AllAnswered(front, i, s);
      assert front[..i] == qs[..i];
    } else if front != [] {
      AllAnswered(front, 0, s);
    }
  }

  /** Any run of calls on one budget, from any state with its flag down: what the calls are granted stays within what
      was left of the limit, and the flag ends up raised exactly when some charge was refused. */
  lemma SharedBudget(qs: seq<Input>, s: Budget)
    requires !s.exceeded
    ensures Granted(s, AllCharges(qs, s)) <= if s.operationCount <= s.maxOperations then s.maxOperations - s.operationCount else 0
    ensures ChargeAll(s, AllCharges(qs, s)).exceeded
            <==> exists i :: 0 <= i < |AllCharges(qs, s)| && Refused(s, AllCharges(qs, s), i)
  {
    GrantedWithinLimit(s, AllCharges(qs, s));
    ExceededIffRefused(s, AllCharges(qs, s));
  }

  /** Once the count of a budget has passed its limit, no run of calls on it decides anything any more. */
  lemma {:induction false} ExhaustedNeverDecides(qs: seq<Input>, s: Budget)
    requires s.operationCount > s.maxOperations
    ensures forall r :: r in AllAnswers(qs, s) ==> r != OK && r != FAIL
  {
    if qs != [] {
      var front, last := qs[..|qs| - 1], qs[|qs| - 1];
      ExhaustedNeverDecides(front, s);
      CountNeverFalls(s, AllCharges(front, s));
      ExhaustedRefuses(last, ChargeAll(s, AllCharges(front, s)));
    }
  }

  lemma ExhaustedRefuses(q: Input, s: Budget)
    requires s.operationCount > s.maxOperations
    ensures Answer(q, s) != OK && Answer(q, s) != FAIL
  {
  }

  method Call(q: Request, budget: ResourceBudget) returns (r: Verdict)
    requires Honest(q)
    modifies budget
    ensures r == Answer(Read(q), old(budget.State()))
    ensures budget.State() == ChargeAll(old(budget.State()), Charges(Read(q), old(budget.State())))
    ensures budget.muladds <= old(budget.muladds) + Granted(old(budget.State()), Charges(Read(q), old(budget.State())))
  {
    match q.kind
    case Inverse => r := VerifyInv(q.A, q.aLen, q.x, q.xLen, q.n, budget);
    case Solution => r := VerifySol(q.A, q.aLen, q.x, q.xLen, q.b, q.bLen, q.m, q.n, budget);
    case LeastSquares => r := VerifyLstsq(q.A, q.aLen, q.x, q.xLen, q.b, q.bLen, q.m, q.n, budget);
  }

  /** The requests, as their buffers stand, are these inputs. */
  ghost predicate Shows(requests: seq<Request>, inputs: seq<Input>)
    reads set q | q in requests :: q.A, set q | q in requests :: q.x, set q | q in requests :: q.b
  {
    |inputs| == |requests| && forall i :: 0 <= i < |requests| ==> Read(requests[i]) == inputs[i]
  }

  /** Whatever is verified on one initialised budget, no more multiply-adds are carried out than its limit, and its
      flag ends up raised exactly when some charge of the run was refused. */
  method Serve(requests: seq<Request>, ghost inputs: seq<Input>, budget: ResourceBudget) returns (answers: seq<Verdict>)
    requires Shows(requests, inputs) && forall q :: q in requests ==> Honest(q)
    requires budget.State() == DEFAULT_BUDGET && budget.muladds == 0
    modifies budget
    ensures Shows(requests, inputs) && answers == AllAnswers(inputs, DEFAULT_BUDGET)
    ensures budget.State() == ChargeAll(DEFAULT_BUDGET, AllCharges(inputs, DEFAULT_BUDGET))
    ensures budget.muladds <= Granted(DEFAULT_BUDGET, AllCharges(inputs, DEFAULT_BUDGET)) <= OPERATION_BUDGET_PER_CALL
    ensures budget.budgetExceeded <==>
              exists i :: 0 <= i < |AllCharges(inputs, DEFAULT_BUDGET)|
                          && Refused(DEFAULT_BUDGET, AllCharges(inputs, DEFAULT_BUDGET), i)
  {
    answers := [];
    for i := 0 to |requests|
      invariant Shows(requests, inputs)
      invariant answers == AllAnswers(inputs[..i], DEFAULT_BUDGET)
      invariant budget.State() == ChargeAll(DEFAULT_BUDGET, AllCharges(inputs[..i], DEFAULT_BUDGET))
      invariant budget.muladds <= Granted(DEFAULT_BUDGET, AllCharges(inputs[..i], DEFAULT_BUDGET))
    {
      AllChargesSnoc(inputs, i, DEFAULT_BUDGET);
      assert Read(requests[i]) == inputs[i];
      var r := Call(requests[i], budget);
      assert Read(requests[i]) == inputs[i];
      answers := answers + [r];
    }
    assert inputs[..|requests|] == inputs;
    SharedBudget(inputs, DEFAULT_BUDGET);
  }
}
