/** Verdicts, machine sizes and the operation budget that several verify calls may share. */
module Budgets {
  import opened Widths

  const MAX_MATRIX_DIM := 65536
  const MAX_MATRIX_CELLS := 268435456
  const OPERATION_BUDGET_PER_CALL := 100000000

  datatype Verdict =
    | OK | FAIL | OVERFLOW | DIMENSION_MISMATCH | NULL_INPUT | BUFFER_OVERFLOW
    | DIMS_EXCEEDED | CELLS_EXCEEDED | OPS_EXCEEDED

  datatype Budget = Budget(maxOperations: Size, operationCount: Size, exceeded: bool)

  const DEFAULT_BUDGET := Budget(OPERATION_BUDGET_PER_CALL, 0, false)

  /** The sum of count and cost does not fit a size_t; such a charge leaves the count alone. */
  predicate Wraps(b: Budget, cost: Size) { b.operationCount + cost > SIZE_MAX }

  predicate Grants(b: Budget, cost: Size) { b.operationCount + cost <= b.maxOperations }

  function Charged(b: Budget, cost: Size): Budget {
    if Wraps(b, cost) then b.(exceeded := true)
    else b.(operationCount := b.operationCount + cost, exceeded := b.exceeded || !Grants(b, cost))
  }

  function ChargeAll(b: Budget, costs: seq<Size>): Budget
    decreases costs
  {
    if costs == [] then b else ChargeAll(Charged(b, costs[0]), costs[1..])
  }

  /** What a run of charges was allowed to spend. */
  function Granted(b: Budget, costs: seq<Size>): nat
    decreases costs
  {
    if costs == [] then 0
    else (if Grants(b, costs[0]) then costs[0] else 0) + Granted(Charged(b, costs[0]), costs[1..])
  }

  /** Whether charge i of a run is refused. */
  predicate Refused(b: Budget, costs: seq<Size>, i: nat)
    requires i < |costs|
  {
    !Grants(ChargeAll(b, costs[..i]), costs[i])
  }

  lemma {:induction false} ChargeAllConcat(b: Budget, xs: seq<Size>, ys: seq<Size>)
    ensures ChargeAll(b, xs + ys) == ChargeAll(ChargeAll(b, xs), ys)
    ensures Granted(b, xs + ys) == Granted(b, xs) + Granted(ChargeAll(b, xs), ys)
    decreases xs
  {
    if xs == [] {
      assert xs + ys == ys;
    } else {
      assert (xs + ys)[1..] == xs[1..] + ys;
      ChargeAllConcat(Charged(b, xs[0]), xs[1..], ys);
    }
  }

  /** Whatever is charged, in whatever order, no more than the limit is ever granted. */
  lemma {:induction false} GrantedWithinLimit(b: Budget, costs: seq<Size>)
    ensures Granted(b, costs) <= if b.operationCount <= b.maxOperations then b.maxOperations - b.operationCount else 0
    decreases costs
  {
    if costs != [] {
      GrantedWithinLimit(Charged(b, costs[0]), costs[1..]);
    }
  }

  /** The flag is raised exactly when some charge of the run was refused. */
  lemma {:induction false} ExceededIffRefused(b: Budget, costs: seq<Size>)
    requires !b.exceeded
    ensures ChargeAll(b, costs).exceeded <==> exists i :: 0 <= i < |costs| && Refused(b, costs, i)
  {
    if costs != [] {
      var last := |costs| - 1;
      var front := costs[..last];
      assert costs == front + [costs[last]];
      ChargeAllConcat(b, front, [costs[last]]);
      assert ChargeAll(ChargeAll(b, front), [costs[last]]) == Charged(ChargeAll(b, front), costs[last]);
      ExceededIffRefused(b, front);
      forall i | 0 <= i < last ensures Refused(b, costs, i) == Refused(b, front, i) {
        assert costs[..i] == front[..i];
      }
      assert Refused(b, costs, last) == !Grants(ChargeAll(b, front), costs[last]);
      if ChargeAll(b, front).exceeded {
        var i :| 0 <= i < |front| && Refused(b, front, i);
        assert Refused(b, costs, i);
      }
    }
  }

  /** A refusal bars every later charge exactly when the sum did not wrap, or the count was past the limit already. */
  lemma RefusalPermanentIff(b: Budget, cost: Size)
    requires !Grants(b, cost)
    ensures (forall costs :: Granted(Charged(b, cost), costs) == 0
                          && forall i :: 0 <= i < |costs| ==> Refused(Charged(b, cost), costs, i))
       <==> !Wraps(b, cost) || b.operationCount > b.maxOperations
  {
    var b' := Charged(b, cost);
    if Wraps(b, cost) && b.operationCount <= b.maxOperations {
      var free: seq<Size> := [0];
      assert free[..0] == [];
      assert !Refused(b', free, 0);
    } else {
      forall costs: seq<Size>
        ensures Granted(b', costs) == 0
        ensures forall i :: 0 <= i < |costs| ==> Refused(b', costs, i)
      {
        GrantedWithinLimit(b', costs);
        forall i | 0 <= i < |costs| ensures Refused(b', costs, i) {
          CountNeverFalls(b', costs[..i]);
        }
      }
    }
  }

  lemma {:induction false} CountNeverFalls(b: Budget, costs: seq<Size>)
    ensures ChargeAll(b, costs).operationCount >= b.operationCount
    ensures ChargeAll(b, costs).maxOperations == b.maxOperations
    decreases costs
  {
    if costs != [] {
      CountNeverFalls(Charged(b, costs[0]), costs[1..]);
    }
  }

  /** The mutable budget that callers pass by pointer. */
  class ResourceBudget {
    var maxOperations: Size
    var operationCount: Size
    var budgetExceeded: bool
    // The number of multiply-add steps carried out on this budget's account.
    ghost var muladds: nat

    constructor ()
      ensures State() == DEFAULT_BUDGET
      ensures muladds == 0
    {
      maxOperations := OPERATION_BUDGET_PER_CALL;
      operationCount := 0;
      budgetExceeded := false;
      muladds := 0;
    }

    ghost function State(): Budget
      reads this
    {
      Budget(maxOperations, operationCount, budgetExceeded)
    }

    method AddOperationCost(cost: Size) returns (r: Verdict)
      modifies this`operationCount, this`budgetExceeded
      ensures State() == Charged(old(State()), cost)
      ensures r == if Grants(old(State()), cost) then OK else OPS_EXCEEDED
      ensures r == OK <==> old(operationCount) + cost <= maxOperations
      ensures operationCount
        == if old(operationCount) + cost <= 0xFFFF_FFFF_FFFF_FFFF then old(operationCount) + cost else old(operationCount)
      ensures budgetExceeded <==> old(budgetExceeded) || r != OK
    {
      if cost > 0 && operationCount > SIZE_MAX - cost {
        budgetExceeded := true;
        return OPS_EXCEEDED;
      }
      operationCount := operationCount + cost;
      if operationCount > maxOperations {
        budgetExceeded := true;
        return OPS_EXCEEDED;
      }
      return OK;
    }
  }
}
