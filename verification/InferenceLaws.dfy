/** What inference depends on, how it composes over concatenated programs, and how it frames a deeper stack. */
module InferenceLaws {
  import opened Obligations
  import opened TypeInference
  import opened Widths

  // ---------- Invariants of a run ----------

  /** Obligations so far: numbered by position, in program order, each at a VERIFY_INV instruction before pc. */
  ghost predicate WellPlaced(mem: Memory, pc: nat, obls: seq<Obligation>) {
    |obls| <= pc
    && (forall i :: 0 <= i < |obls| ==> PlacedAt(mem, pc, obls, i))
    && (forall i, j :: 0 <= i < j < |obls| ==> obls[i].startPc < obls[j].startPc)
  }

  ghost predicate PlacedAt(mem: Memory, pc: nat, obls: seq<Obligation>, i: nat)
    requires i < |obls|
  {
    var o := obls[i];
    o.id == i && o.kind == Inverse && o.startPc < pc && mem(o.startPc) == VERIFY_INV && o.endPc == o.startPc + 1
  }

  function StackOf(r: Outcome): seq<StackValue> { if r.Failed? then [] else r.stack }

  function OblsOf(r: Outcome): seq<Obligation> { if r.Failed? then [] else r.obls }

  lemma StepKeepsWellPlaced(mem: Memory, pc: nat, stack: seq<StackValue>, obls: seq<Obligation>)
    requires WellPlaced(mem, pc, obls)
    ensures var r := Step(mem, pc, stack, obls);
            r.StepOk? ==> WellPlaced(mem, r.pc, r.obls) && (|stack| <= MAX_DEPTH ==> |r.stack| <= MAX_DEPTH)
  {
    var r := Step(mem, pc, stack, obls);
    if r.StepOk? {
      assert r.obls == obls || r.obls == obls + [Obligation(|obls|, Inverse, pc, pc + 1)];
      forall i | 0 <= i < |r.obls| ensures PlacedAt(mem, r.pc, r.obls, i) {
        if i < |obls| {
          assert PlacedAt(mem, pc, obls, i);
        }
      }
      forall i, j | 0 <= i < j < |r.obls| ensures r.obls[i].startPc < r.obls[j].startPc {
        assert PlacedAt(mem, pc, obls, i);
      }
    }
  }

  lemma {:induction false} InferKeepsWellPlaced(mem: Memory, len: nat, pc: nat, stack: seq<StackValue>,
                                                obls: seq<Obligation>)
    requires pc <= len && |stack| <= MAX_DEPTH && WellPlaced(mem, pc, obls)
    ensures var r := Infer(mem, len, pc, stack, obls);
            |StackOf(r)| <= MAX_DEPTH && WellPlaced(mem, len, OblsOf(r))
    decreases len - pc
  {
    if pc < len && mem(pc) != HALT {
      var r := Step(mem, pc, stack, obls);
      StepKeepsWellPlaced(mem, pc, stack, obls);
      if r.StepOk? && r.pc <= len {
        InferKeepsWellPlaced(mem, len, r.pc, r.stack, r.obls);
      }
    } else {
      WellPlacedLater(mem, pc, len, obls);
    }
  }

  lemma WellPlacedLater(mem: Memory, pc: nat, later: nat, obls: seq<Obligation>)
    requires WellPlaced(mem, pc, obls) && pc <= later
    ensures WellPlaced(mem, later, obls)
  {
    forall i | 0 <= i < |obls| ensures PlacedAt(mem, later, obls, i) {
      assert PlacedAt(mem, pc, obls, i);
    }
  }

  /** The obligations of a successful inference are numbered 0, 1, 2, ... and name VERIFY_INV instructions in order. */
  lemma ObligationsAreDense(mem: Memory, len: nat, initial: seq<StackValue>)
    ensures var r := InferProgram(mem, len, initial);
            |StackOf(r)| <= MAX_DEPTH && WellPlaced(mem, len, OblsOf(r))
            && forall i :: 0 <= i < |OblsOf(r)| ==> OblsOf(r)[i].id == i
  {
    var r := InferProgram(mem, len, initial);
    if !r.Failed? {
      InferKeepsWellPlaced(mem, len, 0, initial, []);
      forall i | 0 <= i < |OblsOf(r)| ensures OblsOf(r)[i].id == i {
        assert PlacedAt(mem, len, OblsOf(r), i);
      }
    }
  }

  // ---------- Only bytes of the program matter ----------

  ghost predicate AgreeBelow(a: Memory, b: Memory, len: nat) { forall i: nat :: i < len ==> a(i) == b(i) }

  /** A step that cannot belong to a successful inference of len bytes. */
  predicate Rejected(r: StepResult, len: nat) { r.StepError? || r.pc > len }

  /** Operands are read before the length is checked, but a step that read past the end is refused by that check. */
  lemma StepIsLocal(a: Memory, b: Memory, len: nat, pc: nat, stack: seq<StackValue>, obls: seq<Obligation>)
    requires AgreeBelow(a, b, len) && pc < len
    ensures var r, s := Step(a, pc, stack, obls), Step(b, pc, stack, obls);
            r == s || (Rejected(r, len) && Rejected(s, len))
  {
  }

  lemma {:induction false} InferIsLocal(a: Memory, b: Memory, len: nat, pc: nat, stack: seq<StackValue>,
                                        obls: seq<Obligation>)
    requires AgreeBelow(a, b, len) && pc <= len
    ensures Infer(a, len, pc, stack, obls) == Infer(b, len, pc, stack, obls)
    decreases len - pc
  {
    if pc < len && a(pc) != HALT {
      StepIsLocal(a, b, len, pc, stack, obls);
      var r := Step(a, pc, stack, obls);
      if !Rejected(r, len) {
        InferIsLocal(a, b, len, r.pc, r.stack, r.obls);
      }
    }
  }

  /** Success, final stack and obligations depend only on the bytes below the program's length. */
  lemma OutcomeIsLocal(a: Memory, b: Memory, len: nat, initial: seq<StackValue>)
    requires AgreeBelow(a, b, len)
    ensures InferProgram(a, len, initial) == InferProgram(b, len, initial)
  {
    if len != 0 && |initial| <= MAX_DEPTH {
      InferIsLocal(a, b, len, 0, initial, []);
    }
  }

  // ---------- Concatenation ----------

  type Program = seq<Octet>

  ghost predicate Stored(mem: Memory, p: Program) { forall i: nat :: i < |p| ==> mem(i) == p[i] }

  function Shifted(mem: Memory, d: nat): Memory { (i: nat) => mem(i + d) }

  /** The memory low shows the bytes of mem from d on. */
  ghost predicate IsShift(low: Memory, mem: Memory, d: nat) { forall i: nat {:trigger low(i)} :: low(i) == mem(i + d) }

  /** An obligation of the second program as it appears behind k obligations and d bytes of the first. */
  function Moved(o: Obligation, k: nat, d: nat): Obligation {
    Obligation((o.id + k) % TWO32, o.kind, (o.startPc + d) % TWO32, (o.endPc + d) % TWO32)
  }

  function Renumber(obls: seq<Obligation>, k: nat, d: nat): seq<Obligation> {
    seq(|obls|, i requires 0 <= i < |obls| => Moved(obls[i], k, d))
  }

  /** The obligations of the first program, then those of the second, moved. */
  function Joined(first: seq<Obligation>, d: nat, obls: seq<Obligation>): seq<Obligation> {
    first + Renumber(obls, |first|, d)
  }

  function Behind(first: seq<Obligation>, d: nat, r: Outcome): Outcome {
    match r
    case Failed => Failed
    case Halted(stack, obls) => Halted(stack, Joined(first, d, obls))
    case Finished(stack, obls) => Finished(stack, Joined(first, d, obls))
  }

  /** A program that runs to its end hands its state to whatever bytes follow. */
  lemma {:induction false} InferContinues(mem: Memory, len: nat, total: nat, pc: nat, stack: seq<StackValue>,
                                          obls: seq<Obligation>)
    requires pc <= len <= total && Infer(mem, len, pc, stack, obls).Finished?
    ensures var r := Infer(mem, len, pc, stack, obls);
            Infer(mem, total, pc, stack, obls) == Infer(mem, total, len, r.stack, r.obls)
    decreases len - pc
  {
    if pc < len {
      var r := Step(mem, pc, stack, obls);
      InferContinues(mem, len, total, r.pc, r.stack, r.obls);
    }
  }

  function StepBehind(first: seq<Obligation>, d: nat, r: StepResult): StepResult {
    match r
    case StepError => StepError
    case StepOk(pc, stack, obls) => StepOk(pc + d, stack, Joined(first, d, obls))
  }

  lemma MovedIsNext(first: seq<Obligation>, obls: seq<Obligation>, whole: seq<Obligation>, d: nat, pc: nat, at: nat)
    requires |whole| == |first| + |obls| < TWO32 && at == pc + d && at + 1 < TWO32
    ensures Moved(NextInverse(obls, pc, pc + 1), |first|, d) == NextInverse(whole, at, at + 1)
  {
  }

  lemma JoinedAppends(first: seq<Obligation>, obls: seq<Obligation>, d: nat, last: Obligation)
    ensures Joined(first, d, obls + [last]) == Joined(first, d, obls) + [Moved(last, |first|, d)]
  {
    assert Renumber(obls + [last], |first|, d) == Renumber(obls, |first|, d) + [Moved(last, |first|, d)];
  }

  lemma ReadShifted(low: Memory, mem: Memory, d: nat, p: nat)
    requires IsShift(low, mem, d)
    ensures ReadU32(low, p) == ReadU32(mem, p + d)
  {
    assert low(p + 1) == mem(p + d + 1) && low(p + 2) == mem(p + d + 2) && low(p + 3) == mem(p + d + 3);
  }

  /** Moving an instruction by d bytes changes neither its size nor what it pushes. */
  lemma DecodingShifts(low: Memory, mem: Memory, d: nat, pc: nat, at: nat)
    requires IsShift(low, mem, d) && at == pc + d
    ensures low(pc) == mem(at)
    ensures Payload(low, pc) == Payload(mem, at) && Literal(low, pc) == Literal(mem, at)
  {
    ReadShifted(low, mem, d, pc + 1);
    ReadShifted(low, mem, d, pc + 5);
  }

  function EmitBehind(first: seq<Obligation>, d: nat, r: Option<seq<Obligation>>): Option<seq<Obligation>> {
    if r.None? then None else Some(Joined(first, d, r.value))
  }

  lemma EmitInRange(op: Octet, pc: nat, obls: seq<Obligation>)
    requires |obls| <= pc < MAX_PC
    ensures Emit(op, pc, obls) == Some(if op == VERIFY_INV then obls + [NextInverse(obls, pc, pc + 1)] else obls)
  {
  }

  lemma EmitShifts(op: Octet, pc: nat, d: nat, at: nat, first: seq<Obligation>, obls: seq<Obligation>)
    requires |first| <= d && |obls| <= pc && at == pc + d && at < MAX_PC
    ensures Emit(op, at, Joined(first, d, obls)) == EmitBehind(first, d, Emit(op, pc, obls))
  {
    EmitInRange(op, pc, obls);
    EmitInRange(op, at, Joined(first, d, obls));
    JoinedAppends(first, obls, d, NextInverse(obls, pc, pc + 1));
    MovedIsNext(first, obls, Joined(first, d, obls), d, pc, at);
  }

  ghost predicate StepsAgree(first: seq<Obligation>, d: nat, len: nat, total: nat, r: StepResult, s: StepResult) {
    (StepBehind(first, d, r) == s || Rejected(r, len)) && (Rejected(r, len) <==> Rejected(s, total))
  }

  lemma StepShifts(low: Memory, mem: Memory, d: nat, len: nat, total: nat, pc: nat, at: nat, stack: seq<StackValue>,
                   first: seq<Obligation>, obls: seq<Obligation>, whole: seq<Obligation>)
    requires IsShift(low, mem, d) && total == len + d && at == pc + d && whole == Joined(first, d, obls)
    requires pc < len && total <= MAX_PC && |first| <= d && |obls| <= pc
    ensures StepsAgree(first, d, len, total, Step(low, pc, stack, obls), Step(mem, at, stack, whole))
  {
    DecodingShifts(low, mem, d, pc, at);
    EmitShifts(mem(at), pc, d, at, first, obls);
  }

  ghost predicate InfersTo(mem: Memory, len: nat, pc: nat, stack: seq<StackValue>, obls: seq<Obligation>, out: Outcome)
    requires pc <= len
  {
    Infer(mem, len, pc, stack, obls) == out
  }

  /** What inference makes of a step, given what it makes of the rest. */
  function Resumed(r: StepResult, len: nat, rest: Outcome): Outcome { if Rejected(r, len) then Failed else rest }

  lemma InfersStep(mem: Memory, len: nat, pc: nat, stack: seq<StackValue>, obls: seq<Obligation>, r: StepResult,
                   rest: Outcome)
    requires pc < len && mem(pc) != HALT && r == Step(mem, pc, stack, obls)
    requires !Rejected(r, len) ==> InfersTo(mem, len, r.pc, r.stack, r.obls, rest)
    ensures InfersTo(mem, len, pc, stack, obls, Resumed(r, len, rest))
  {
  }

  /** One step on either side, once the rest is known to agree. */
  lemma OutcomesAgree(first: seq<Obligation>, d: nat, len: nat, total: nat, r: StepResult, s: StepResult, x: Outcome,
                      y: Outcome)
    requires StepsAgree(first, d, len, total, r, s)
    requires !Rejected(r, len) ==> y == Behind(first, d, x)
    ensures Resumed(s, total, y) == Behind(first, d, Resumed(r, len, x))
  {
  }

  lemma StepsMatch(first: seq<Obligation>, d: nat, len: nat, total: nat, r: StepResult, s: StepResult)
    requires StepsAgree(first, d, len, total, r, s) && !Rejected(r, len)
    ensures !Rejected(s, total) && s.pc == r.pc + d && s.stack == r.stack && s.obls == Joined(first, d, r.obls)
  {
    assert s == StepOk(r.pc + d, r.stack, Joined(first, d, r.obls));
  }

  lemma AtEnd(mem: Memory, len: nat, pc: nat, stack: seq<StackValue>, obls: seq<Obligation>)
    requires pc <= len && (pc == len || mem(pc) == HALT)
    ensures InfersTo(mem, len, pc, stack, obls, if pc == len then Finished(stack, obls) else Halted(stack, obls))
  {
  }

  /** Inferring mem from at = pc + d is inferring low from pc, with its obligations moved behind the first ones. */
  lemma {:induction false} InferShifts(low: Memory, mem: Memory, d: nat, len: nat, total: nat, pc: nat, at: nat,
                                       stack: seq<StackValue>, first: seq<Obligation>, obls: seq<Obligation>,
                                       whole: seq<Obligation>)
    returns (x: Outcome)
    requires IsShift(low, mem, d) && total == len + d && at == pc + d && whole == Joined(first, d, obls)
    requires pc <= len && total <= MAX_PC && |first| <= d && |obls| <= pc
    ensures InfersTo(low, len, pc, stack, obls, x) && InfersTo(mem, total, at, stack, whole, Behind(first, d, x))
    decreases len - pc
  {
    assert low(pc) == mem(at);
    if pc == len || low(pc) == HALT {
      x := if pc == len then Finished(stack, obls) else Halted(stack, obls);
      AtEnd(low, len, pc, stack, obls);
      AtEnd(mem, total, at, stack, whole);
    } else {
      var r, s := Step(low, pc, stack, obls), Step(mem, at, stack, whole);
      StepShifts(low, mem, d, len, total, pc, at, stack, first, obls, whole);
      x := Failed;
      if !Rejected(r, len) {
        StepsMatch(first, d, len, total, r, s);
        x := InferShifts(low, mem, d, len, total, r.pc, s.pc, r.stack, first, r.obls, s.obls);
      }
      InfersStep(low, len, pc, stack, obls, r, x);
      InfersStep(mem, total, at, stack, whole, s, Behind(first, d, x));
      OutcomesAgree(first, d, len, total, r, s, x, Behind(first, d, x));
      x := Resumed(r, len, x);
    }
  }

  lemma StoredHalves(p: Program, q: Program, mp: Memory, mq: Memory, mem: Memory, low: Memory)
    requires Stored(mp, p) && Stored(mq, q) && Stored(mem, p + q) && IsShift(low, mem, |p|)
    ensures AgreeBelow(mp, mem, |p|) && AgreeBelow(low, mq, |q|)
  {
    forall i: nat | i < |p| ensures mp(i) == mem(i) {
      assert (p + q)[i] == p[i];
    }
    forall i: nat | i < |q| ensures low(i) == mq(i) {
      assert (p + q)[i + |p|] == q[i];
    }
  }

  /** The bytes after the first d are inferred as a program of their own, started where the first d end. */
  ghost predicate GoesOn(low: Memory, mem: Memory, d: nat, len: nat, total: nat, initial: seq<StackValue>, r: Outcome)
    requires !r.Failed?
  {
    InferProgram(mem, total, initial) == Behind(r.obls, d, InferProgram(low, len, r.stack))
  }

  /** A program that runs to its end hands its state to whatever bytes follow. */
  lemma ProgramContinues(mem: Memory, d: nat, total: nat, initial: seq<StackValue>, r: Outcome, y: Outcome)
    requires r == InferProgram(mem, d, initial) && r.Finished? && d <= total
    requires InfersTo(mem, total, d, r.stack, r.obls, y)
    ensures InferProgram(mem, total, initial) == y && |r.stack| <= MAX_DEPTH && |r.obls| <= d
  {
    InferKeepsWellPlaced(mem, d, 0, initial, []);
    InferContinues(mem, d, total, 0, initial, []);
  }

  lemma InferOnwards(low: Memory, mem: Memory, d: nat, len: nat, total: nat, initial: seq<StackValue>, r: Outcome)
    requires IsShift(low, mem, d) && total == d + len
    requires r == InferProgram(mem, d, initial) && r.Finished? && len != 0 && total <= MAX_PC
    ensures GoesOn(low, mem, d, len, total, initial, r)
  {
    InferKeepsWellPlaced(mem, d, 0, initial, []);
    assert Joined(r.obls, d, []) == r.obls;
    var x := InferShifts(low, mem, d, len, total, 0, d, r.stack, r.obls, [], r.obls);
    ProgramContinues(mem, d, total, initial, r, Behind(r.obls, d, x));
    ProgramIs(low, len, r.stack, x);
  }

  lemma ProgramIs(mem: Memory, len: nat, initial: seq<StackValue>, x: Outcome)
    requires len != 0 && |initial| <= MAX_DEPTH && InfersTo(mem, len, 0, initial, [], x)
    ensures InferProgram(mem, len, initial) == x
  {
  }

  /** Inference is compositional: if p runs exactly to its end, inferring p followed by q is inferring q from the
      stack that p leaves, with q's obligations numbered on from p's and its positions moved behind p. */
  lemma InferConcatenation(p: Program, q: Program, mp: Memory, mq: Memory, mem: Memory, initial: seq<StackValue>)
    requires Stored(mp, p) && Stored(mq, q) && Stored(mem, p + q)
    requires q != [] && |p + q| <= MAX_PC
    requires InferProgram(mp, |p|, initial).Finished?
    ensures var r := InferProgram(mp, |p|, initial);
            InferProgram(mem, |p + q|, initial) == Behind(r.obls, |p|, InferProgram(mq, |q|, r.stack))
  {
    var low := Shifted(mem, |p|);
    StoredHalves(p, q, mp, mq, mem, low);
    OutcomeIsLocal(mp, mem, |p|, initial);
    InferOnwards(low, mem, |p|, |q|, |p + q|, initial, InferProgram(mem, |p|, initial));
    OutcomeIsLocal(low, mq, |q|, InferProgram(mp, |p|, initial).stack);
  }

  // ---------- A deeper stack ----------

  /** The greatest depth that inference reaches from here. */
  function Peak(mem: Memory, len: nat, pc: nat, stack: seq<StackValue>, obls: seq<Obligation>): (d: nat)
    requires pc <= len
    ensures d >= |stack|
    decreases len - pc
  {
    if pc == len || mem(pc) == HALT then |stack|
    else
      match Step(mem, pc, stack, obls)
      case StepError => |stack|
      case StepOk(next, stack', obls') =>
        if next > len then |stack|
        else
          var rest := Peak(mem, len, next, stack', obls');
          if rest > |stack| then rest else |stack|
  }

  function Above(base: seq<StackValue>, r: Outcome): Outcome {
    match r
    case Failed => Failed
    case Halted(stack, obls) => Halted(base + stack, obls)
    case Finished(stack, obls) => Finished(base + stack, obls)
  }

  lemma EffectFrame(op: Octet, literal: StackValue, base: seq<StackValue>, stack: seq<StackValue>)
    requires Effect(op, literal, stack).Some?
    ensures var r := base + Effect(op, literal, stack).value;
            Effect(op, literal, base + stack) == if |r| <= MAX_DEPTH then Some(r) else None
  {
    var n := Operands(op);
    var rest, args := stack[..|stack| - n], stack[|stack| - n..];
    var results := Rule(op, literal, args).value;
    assert (base + stack)[|base + stack| - n..] == args;
    assert (base + stack)[..|base + stack| - n] + results == base + (rest + results);
  }

  lemma StepFrame(mem: Memory, pc: nat, base: seq<StackValue>, stack: seq<StackValue>, obls: seq<Obligation>)
    requires Step(mem, pc, stack, obls).StepOk?
    ensures var r := Step(mem, pc, stack, obls);
            Step(mem, pc, base + stack, obls)
            == if |base + r.stack| <= MAX_DEPTH then StepOk(r.pc, base + r.stack, r.obls) else StepError
  {
    EffectFrame(mem(pc), Literal(mem, pc), base, stack);
  }

  lemma {:induction false} InferFrame(mem: Memory, len: nat, pc: nat, base: seq<StackValue>,
                                      stack: seq<StackValue>, obls: seq<Obligation>)
    requires pc <= len && |base + stack| <= MAX_DEPTH
    requires !Infer(mem, len, pc, stack, obls).Failed?
    ensures Infer(mem, len, pc, base + stack, obls)
            == if |base| + Peak(mem, len, pc, stack, obls) <= MAX_DEPTH
               then Above(base, Infer(mem, len, pc, stack, obls)) else Failed
    decreases len - pc
  {
    if pc < len && mem(pc) != HALT {
      var r := Step(mem, pc, stack, obls);
      StepFrame(mem, pc, base, stack, obls);
      if |base + r.stack| <= MAX_DEPTH {
        InferFrame(mem, len, r.pc, base, r.stack, r.obls);
      }
    }
  }

  /** Values put below the initial stack stay untouched and change nothing else, unless depth 256 is passed. */
  lemma DeeperStack(mem: Memory, len: nat, base: seq<StackValue>, initial: seq<StackValue>)
    requires !InferProgram(mem, len, initial).Failed?
    ensures InferProgram(mem, len, base + initial)
            == if |base| + Peak(mem, len, 0, initial, []) <= MAX_DEPTH
               then Above(base, InferProgram(mem, len, initial)) else Failed
  {
    if |base + initial| <= MAX_DEPTH {
      InferFrame(mem, len, 0, base, initial, []);
    }
  }
}
