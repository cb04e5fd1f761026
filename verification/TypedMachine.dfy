/** The stack machine that the types describe, and why a program that inference accepts does not get stuck in it. */
module TypedMachine {
  import opened Obligations
  import opened TypeInference
  import opened InferenceLaws
  import Sums
  import opened Widths

  datatype Raw =
    | ScalarV(x: int)
    | VectorV(elements: seq<int>)
    | MatrixV(rows: Size, cols: Size, entries: seq<seq<int>>)
    | ProofV(rows: Size, cols: Size)

  predicate Sized(v: Raw) {
    match v
    case VectorV(elements) => |elements| <= SIZE_MAX
    case MatrixV(rows, cols, entries) => |entries| == rows && forall i :: 0 <= i < rows ==> |entries[i]| == cols
    case _ => true
  }

  type Value = v: Raw | Sized(v) witness ScalarV(0)

  function TypeOf(v: Value): StackValue {
    match v
    case ScalarV(_) => StackValue(Scalar, 1, 1)
    case VectorV(elements) => StackValue(Vector, 1, |elements|)
    case MatrixV(rows, cols, _) => StackValue(Matrix, rows, cols)
    case ProofV(rows, cols) => StackValue(Proof, rows, cols)
  }

  function Types(stack: seq<Value>): (r: seq<StackValue>)
    ensures |r| == |stack|
  {
    seq(|stack|, i requires 0 <= i < |stack| => TypeOf(stack[i]))
  }

  // ---------- Decoding literals ----------

  /** Eight bytes, least significant first, as a signed 64-bit number. */
  function ReadI64(mem: Memory, p: nat): int {
    var v := ReadU32(mem, p) + TWO32 * ReadU32(mem, p + 4);
    if v < 0x8000_0000_0000_0000 then v else v - 0x1_0000_0000_0000_0000
  }

  function LiteralValue(mem: Memory, pc: nat): Value {
    if mem(pc) == PUSH_VECTOR then
      VectorV(seq(ReadU32(mem, pc + 1), i requires 0 <= i => ReadI64(mem, pc + 5 + 8 * i)))
    else if mem(pc) == PUSH_MATRIX then
      var m, n := ReadU32(mem, pc + 1), ReadU32(mem, pc + 5);
      MatrixV(m, n, seq(m, i => seq(n, j requires 0 <= j => EntryAt(mem, pc, n, i, j))))
    else ScalarV(ReadI64(mem, pc + 1))
  }

  /** Entry (i, j) of a matrix literal with n columns, laid out row by row. */
  function EntryAt(mem: Memory, pc: nat, n: U32, i: int, j: int): int {
    var k := 8 * (i * n + j);
    if k < 0 then 0 else ReadI64(mem, pc + 9 + k)
  }

  /** The bytes an instruction really takes, with no reduction modulo 2^32. */
  function TrueLength(mem: Memory, pc: nat): nat {
    HeadLength(mem(pc)) + TruePayload(mem, pc)
  }

  function TruePayload(mem: Memory, pc: nat): nat {
    if mem(pc) == PUSH_VECTOR then 8 * ReadU32(mem, pc + 1)
    else if mem(pc) == PUSH_MATRIX then 8 * Area(ReadU32(mem, pc + 1), ReadU32(mem, pc + 5))
    else 0
  }

  function Area(m: nat, n: nat): nat { m * n }

  // ---------- The machine ----------

  function AddOrSub(op: Octet, x: int, y: int): int { if op == ADD then x + y else x - y }

  function Combined(op: Octet, a: Value, b: Value): Option<Value> {
    match (a, b)
    case (ScalarV(x), ScalarV(y)) => Some(ScalarV(AddOrSub(op, x, y)))
    case (VectorV(xs), VectorV(ys)) =>
      if |xs| != |ys| then None
      else Some(VectorV(seq(|xs|, i requires 0 <= i < |xs| && |xs| == |ys| => AddOrSub(op, xs[i], ys[i]))))
    case _ => None
  }

  function Entry(m: seq<seq<int>>, i: int, j: int): int {
    if 0 <= i < |m| && 0 <= j < |m[i]| then m[i][j] else 0
  }

  function Multiplied(a: Value, b: Value): Option<Value> {
    match (a, b)
    case (MatrixV(m, n, x), MatrixV(k, p, y)) =>
      if n != k then None
      else Some(MatrixV(m, p, seq(m, i => seq(p, j => Sums.Sum(n, t => Entry(x, i, t) * Entry(y, t, j))))))
    case _ => None
  }

  /** What an instruction makes of the values it looks at, or nothing when they are of the wrong sort or size. */
  function Act(op: Octet, literal: Value, args: seq<Value>): Option<seq<Value>>
    requires |args| == Operands(op)
  {
    if IsPush(op) then Some([literal])
    else if op == DUP then Some([args[0], args[0]])
    else if op == SWAP then Some([args[1], args[0]])
    else if op == POP then Some([])
    else if op == ADD || op == SUB then AsStack(Combined(op, args[0], args[1]))
    else if op == MATMUL then AsStack(Multiplied(args[0], args[1]))
    else if op == VERIFY_INV then if args[0].MatrixV? && args[0].rows == args[0].cols then Some([]) else None
    else if op == HALT then Some([])
    else None
  }

  function AsStack(v: Option<Value>): Option<seq<Value>> { if v.None? then None else Some([v.value]) }

  function Perform(op: Octet, literal: Value, stack: seq<Value>): Option<seq<Value>> {
    if |stack| < Operands(op) then None
    else
      var rest, args := stack[..|stack| - Operands(op)], stack[|stack| - Operands(op)..];
      match Act(op, literal, args)
      case None => None
      case Some(results) => if |rest + results| > MAX_DEPTH then None else Some(rest + results)
  }

  /** The machine runs to the end of the program or to a HALT; no result means that it is stuck. */
  function Run(mem: Memory, len: nat, pc: nat, stack: seq<Value>): Option<seq<Value>>
    requires pc <= len
    decreases len - pc
  {
    if pc == len || mem(pc) == HALT then Some(stack)
    else
      var next, stack' := pc + TrueLength(mem, pc), Perform(mem(pc), LiteralValue(mem, pc), stack);
      if next > len || stack'.None? then None else Run(mem, len, next, stack'.value)
  }

  // ---------- One instruction, typed ----------

  lemma TypesAppend(a: seq<Value>, b: seq<Value>)
    ensures Types(a + b) == Types(a) + Types(b)
  {
  }

  function TypesOf(r: Option<seq<Value>>): Option<seq<StackValue>> {
    if r.None? then None else Some(Types(r.value))
  }

  lemma ActTyped(op: Octet, literal: Value, args: seq<Value>)
    requires |args| == Operands(op)
    ensures Rule(op, TypeOf(literal), Types(args)) == TypesOf(Act(op, literal, args))
  {
    var r := Act(op, literal, args);
    if r.Some? && Rule(op, TypeOf(literal), Types(args)).Some? {
      assert Types(r.value) == Rule(op, TypeOf(literal), Types(args)).value;
    }
  }

  /** The typing rules describe the machine exactly: it is stuck where they refuse, and otherwise they give its types. */
  lemma PerformTyped(op: Octet, literal: Value, stack: seq<Value>)
    ensures Effect(op, TypeOf(literal), Types(stack)) == TypesOf(Perform(op, literal, stack))
  {
    if |stack| >= Operands(op) {
      var k := |stack| - Operands(op);
      var rest, args := stack[..k], stack[k..];
      assert Types(stack)[..k] == Types(rest) && Types(stack)[k..] == Types(args);
      ActTyped(op, literal, args);
      var r := Act(op, literal, args);
      if r.Some? {
        TypesAppend(rest, r.value);
      }
    }
  }

  lemma LiteralTyped(mem: Memory, pc: nat)
    requires IsPush(mem(pc))
    ensures TypeOf(LiteralValue(mem, pc)) == Literal(mem, pc)
  {
  }

  /** An instruction other than a push does not look at the literal. */
  lemma EffectIgnoresLiteral(op: Octet, a: StackValue, b: StackValue, stack: seq<StackValue>)
    requires !IsPush(op)
    ensures Effect(op, a, stack) == Effect(op, b, stack)
  {
  }

  lemma InstructionTyped(mem: Memory, pc: nat, stack: seq<Value>)
    ensures Effect(mem(pc), Literal(mem, pc), Types(stack))
            == TypesOf(Perform(mem(pc), LiteralValue(mem, pc), stack))
  {
    PerformTyped(mem(pc), LiteralValue(mem, pc), stack);
    if IsPush(mem(pc)) {
      LiteralTyped(mem, pc);
    } else {
      EffectIgnoresLiteral(mem(pc), Literal(mem, pc), TypeOf(LiteralValue(mem, pc)), Types(stack));
    }
  }

  // ---------- Wrapped sizes ----------

  /** No literal on the path of inference has a payload of 2^32 bytes or more. */
  predicate NoWraps(mem: Memory, len: nat, pc: nat)
    decreases len - pc
  {
    pc >= len || mem(pc) == HALT
    || (TruePayload(mem, pc) < TWO32 && NoWraps(mem, len, pc + HeadLength(mem(pc)) + Payload(mem, pc)))
  }

  lemma SmallProduct(m: nat, n: nat)
    requires 8 * Area(m, n) < TWO32
    ensures (((m * n) % TWO32) * 8) % TWO32 == 8 * Area(m, n)
  {
  }

  lemma PayloadIsTrue(mem: Memory, pc: nat)
    requires TruePayload(mem, pc) < TWO32
    ensures Payload(mem, pc) == TruePayload(mem, pc)
  {
    if mem(pc) == PUSH_MATRIX {
      SmallProduct(ReadU32(mem, pc + 1), ReadU32(mem, pc + 5));
    }
  }

  // ---------- Whole runs ----------

  /** What a step of inference and an instruction of the machine have in common. */
  ghost predicate InStep(mem: Memory, pc: nat, r: StepResult, next: Option<seq<Value>>) {
    (r.StepOk? ==> TypesOf(next) == Some(r.stack))
    && (r.StepOk? && TruePayload(mem, pc) < TWO32 ==> r.pc == pc + TrueLength(mem, pc))
  }

  lemma StepTyped(mem: Memory, pc: nat, stack: seq<Value>, obls: seq<Obligation>)
    ensures InStep(mem, pc, Step(mem, pc, Types(stack), obls), Perform(mem(pc), LiteralValue(mem, pc), stack))
  {
    InstructionTyped(mem, pc, stack);
    if TruePayload(mem, pc) < TWO32 {
      PayloadIsTrue(mem, pc);
    }
  }

  ghost predicate RunsTyped(mem: Memory, len: nat, pc: nat, stack: seq<Value>, obls: seq<Obligation>)
    requires pc <= len
  {
    var r := Infer(mem, len, pc, Types(stack), obls);
    !r.Failed? ==> TypesOf(Run(mem, len, pc, stack)) == Some(r.stack)
  }

  lemma SoundOneStep(mem: Memory, len: nat, pc: nat, stack: seq<Value>, obls: seq<Obligation>, r: StepResult,
                     next: Option<seq<Value>>)
    requires pc < len && mem(pc) != HALT && TruePayload(mem, pc) < TWO32
    requires r == Step(mem, pc, Types(stack), obls) && next == Perform(mem(pc), LiteralValue(mem, pc), stack)
    requires InStep(mem, pc, r, next)
    requires !Rejected(r, len) ==> RunsTyped(mem, len, r.pc, next.value, r.obls)
    ensures RunsTyped(mem, len, pc, stack, obls)
  {
  }

  /** Type soundness: an accepted program none of whose literals wraps runs to its end, and ends with values of
      exactly the inferred types. */
  lemma {:induction false} RunIsSound(mem: Memory, len: nat, pc: nat, stack: seq<Value>, obls: seq<Obligation>)
    requires pc <= len && NoWraps(mem, len, pc)
    ensures RunsTyped(mem, len, pc, stack, obls)
    decreases len - pc
  {
    if pc < len && mem(pc) != HALT {
      var r, next := Step(mem, pc, Types(stack), obls), Perform(mem(pc), LiteralValue(mem, pc), stack);
      StepTyped(mem, pc, stack, obls);
      if !Rejected(r, len) {
        RunIsSound(mem, len, r.pc, next.value, r.obls);
      }
      SoundOneStep(mem, len, pc, stack, obls, r, next);
    }
  }

  /** A run that ends met no wrapped literal, if the program is shorter than 2^32 bytes. */
  lemma {:induction false} RunsDoNotWrap(mem: Memory, len: nat, pc: nat, stack: seq<Value>)
    requires pc <= len < TWO32 && Run(mem, len, pc, stack).Some?
    ensures NoWraps(mem, len, pc)
    decreases len - pc
  {
    if pc < len && mem(pc) != HALT {
      var next := Perform(mem(pc), LiteralValue(mem, pc), stack);
      var at := pc + TrueLength(mem, pc);
      RunGoesOn(mem, len, pc, at, stack, next);
      RunsDoNotWrap(mem, len, at, next.value);
      NoWrapsOneStep(mem, len, pc, at);
    }
  }

  lemma RunGoesOn(mem: Memory, len: nat, pc: nat, at: nat, stack: seq<Value>, next: Option<seq<Value>>)
    requires pc < len && mem(pc) != HALT && at == pc + TrueLength(mem, pc) && Run(mem, len, pc, stack).Some?
    requires next == Perform(mem(pc), LiteralValue(mem, pc), stack)
    ensures next.Some? && at <= len && Run(mem, len, pc, stack) == Run(mem, len, at, next.value)
  {
  }

  lemma NoWrapsOneStep(mem: Memory, len: nat, pc: nat, at: nat)
    requires pc < len < TWO32 && at == pc + TrueLength(mem, pc) <= len && NoWraps(mem, len, at)
    ensures NoWraps(mem, len, pc)
  {
    PayloadIsTrue(mem, pc);
  }

  ghost predicate AcceptedAt(mem: Memory, len: nat, pc: nat, stack: seq<Value>, obls: seq<Obligation>)
    requires pc <= len
  {
    !Infer(mem, len, pc, Types(stack), obls).Failed?
  }

  /** Where the machine goes on within the sanity bound, so does inference. */
  lemma StepAccepted(mem: Memory, len: nat, pc: nat, at: nat, stack: seq<Value>, obls: seq<Obligation>, r: StepResult,
                     next: Option<seq<Value>>)
    requires pc < len <= MAX_PC && |obls| <= pc && at == pc + TrueLength(mem, pc) <= len
    requires r == Step(mem, pc, Types(stack), obls)
    requires next == Perform(mem(pc), LiteralValue(mem, pc), stack) && next.Some?
    ensures r.StepOk? && r.pc == at && |r.obls| <= at && r.stack == Types(next.value)
  {
    InstructionTyped(mem, pc, stack);
    PayloadIsTrue(mem, pc);
    EmitInRange(mem(pc), pc, obls);
  }

  lemma AcceptedOneStep(mem: Memory, len: nat, pc: nat, at: nat, stack: seq<Value>, obls: seq<Obligation>,
                        r: StepResult, next: seq<Value>)
    requires pc < len && mem(pc) != HALT && r == Step(mem, pc, Types(stack), obls) && r.StepOk? && r.pc == at <= len
    requires r.stack == Types(next) && AcceptedAt(mem, len, at, next, r.obls)
    ensures AcceptedAt(mem, len, pc, stack, obls)
  {
  }

  /** A program of at most 1,000,000 bytes that the machine runs to the end is accepted. */
  lemma {:induction false} RunsAreAccepted(mem: Memory, len: nat, pc: nat, stack: seq<Value>, obls: seq<Obligation>)
    requires pc <= len <= MAX_PC && |obls| <= pc && Run(mem, len, pc, stack).Some?
    ensures AcceptedAt(mem, len, pc, stack, obls)
    decreases len - pc
  {
    if pc < len && mem(pc) != HALT {
      var next := Perform(mem(pc), LiteralValue(mem, pc), stack);
      var at := pc + TrueLength(mem, pc);
      RunGoesOn(mem, len, pc, at, stack, next);
      var r := Step(mem, pc, Types(stack), obls);
      StepAccepted(mem, len, pc, at, stack, obls, r, next);
      RunsAreAccepted(mem, len, at, next.value, r.obls);
      AcceptedOneStep(mem, len, pc, at, stack, obls, r, next.value);
    }
  }

  /** An accepted program runs to its end exactly when no literal on its path wraps. */
  lemma AcceptedRunsIffNoWrap(mem: Memory, len: nat, initial: seq<Value>)
    requires len < TWO32 && !InferProgram(mem, len, Types(initial)).Failed?
    ensures Run(mem, len, 0, initial).Some? <==> NoWraps(mem, len, 0)
    ensures NoWraps(mem, len, 0) ==>
              TypesOf(Run(mem, len, 0, initial)) == Some(InferProgram(mem, len, Types(initial)).stack)
  {
    if NoWraps(mem, len, 0) {
      RunIsSound(mem, len, 0, initial, []);
    } else if Run(mem, len, 0, initial).Some? {
      RunsDoNotWrap(mem, len, 0, initial);
    }
  }

  /** Up to the sanity bound, inference and machine agree but for wrapped literals. */
  lemma InferenceIsExact(mem: Memory, len: nat, initial: seq<Value>)
    requires 0 < len <= MAX_PC && |initial| <= MAX_DEPTH
    ensures Run(mem, len, 0, initial).Some?
            <==> !InferProgram(mem, len, Types(initial)).Failed? && NoWraps(mem, len, 0)
  {
    if Run(mem, len, 0, initial).Some? {
      RunsDoNotWrap(mem, len, 0, initial);
      RunsAreAccepted(mem, len, 0, initial, []);
      assert AcceptedAt(mem, len, 0, initial, []);
    } else if !InferProgram(mem, len, Types(initial)).Failed? {
      AcceptedRunsIffNoWrap(mem, len, initial);
    }
  }

  /** Five bytes that announce 2^29 elements: accepted, because 8 * 2^29 wraps to zero, and stuck in the machine. */
  lemma WrappedLiteralIsAccepted(mem: Memory)
    requires Stored(mem, [PUSH_VECTOR, 0, 0, 0, 0x20])
    ensures InferProgram(mem, 5, []) == Finished([StackValue(Vector, 1, 0x2000_0000)], [])
    ensures Run(mem, 5, 0, []) == None
  {
    var p: Program := [PUSH_VECTOR, 0, 0, 0, 0x20];
    assert mem(0) == p[0] && mem(1) == p[1] && mem(2) == p[2] && mem(3) == p[3] && mem(4) == p[4];
    assert ReadU32(mem, 1) == 0x2000_0000;
    assert VectorBytes(0x2000_0000) == 0;
    SwitchIsEffect(PUSH_VECTOR, Literal(mem, 0), []);
    assert Step(mem, 0, [], []) == StepOk(5, [StackValue(Vector, 1, 0x2000_0000)], []);
  }

  /** At 2^32 bytes the literal can wrap and the program still run: 2^29 elements really are there, behind them the
      program ends, and inference, which takes the vector to be empty, meets a HALT right after its head. */
  lemma LongProgramRunsThoughItWraps(mem: Memory)
    requires Stored(mem, [PUSH_VECTOR, 0, 0, 0, 0x20, HALT])
    ensures var len := TWO32 + 5;
            !InferProgram(mem, len, []).Failed? && Run(mem, len, 0, []).Some? && !NoWraps(mem, len, 0)
  {
    var p: Program := [PUSH_VECTOR, 0, 0, 0, 0x20, HALT];
    assert mem(0) == p[0] && mem(1) == p[1] && mem(2) == p[2] && mem(3) == p[3] && mem(4) == p[4] && mem(5) == p[5];
    assert ReadU32(mem, 1) == 0x2000_0000;
    assert VectorBytes(0x2000_0000) == 0;
    SwitchIsEffect(PUSH_VECTOR, Literal(mem, 0), []);
    assert Step(mem, 0, [], []) == StepOk(5, [StackValue(Vector, 1, 0x2000_0000)], []);
    var len := TWO32 + 5;
    assert Infer(mem, len, 5, [StackValue(Vector, 1, 0x2000_0000)], []).Halted?;
    assert TrueLength(mem, 0) == len;
    InstructionTyped(mem, 0, []);
    assert Types([]) == [];
    assert Perform(mem(0), LiteralValue(mem, 0), []).Some?;
  }
}
