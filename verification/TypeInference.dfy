/** Forward type inference over bytecode, with the obligations that it generates. */
module TypeInference {
  import opened Obligations
  import opened Widths

  const MAX_DEPTH := 256
  const MAX_PC := 1000000

  /** The memory from the first program byte on; bytes past the program's end are there, but arbitrary. */
  type Memory = nat -> Octet

  const PUSH_SCALAR := 0x01
  const PUSH_VECTOR := 0x02
  const PUSH_MATRIX := 0x03
  const DUP := 0x04
  const SWAP := 0x05
  const POP := 0x06
  const ADD := 0x07
  const SUB := 0x08
  const MATMUL := 0x09
  const VERIFY_INV := 0x0A
  const HALT := 0xFF

  datatype ValType = Scalar | Vector | Matrix | Proof

  datatype StackValue = StackValue(kind: ValType, rows: Size, cols: Size)

  function ReadU32(mem: Memory, p: nat): U32 {
    mem(p) + 0x100 * mem(p + 1) + 0x1_0000 * mem(p + 2) + 0x100_0000 * mem(p + 3)
  }

  predicate ShapeUnify(a: StackValue, b: StackValue) { a.rows == b.rows && a.cols == b.cols }

  // ---------- One instruction ----------

  datatype StepResult = StepError | StepOk(pc: nat, stack: seq<StackValue>, obls: seq<Obligation>)

  predicate IsPush(op: Octet) { op == PUSH_SCALAR || op == PUSH_VECTOR || op == PUSH_MATRIX }

  /** The operand sizes as the C code computes them, modulo 2^32. */
  function VectorBytes(n: U32): U32 { (n * 8) % TWO32 }

  function MatrixBytes(m: U32, n: U32): U32 { (((m * n) % TWO32) * 8) % TWO32 }

  /** The fixed part of an instruction: the opcode and the sizes that follow it. */
  function HeadLength(op: Octet): (r: nat)
    ensures r > 0
  {
    if op == PUSH_SCALAR || op == PUSH_MATRIX then 9 else if op == PUSH_VECTOR then 5 else 1
  }

  /** The payload after the head; the eight bytes of a scalar are counted with its head. */
  function Payload(mem: Memory, pc: nat): nat {
    if mem(pc) == PUSH_VECTOR then VectorBytes(ReadU32(mem, pc + 1))
    else if mem(pc) == PUSH_MATRIX then MatrixBytes(ReadU32(mem, pc + 1), ReadU32(mem, pc + 5))
    else 0
  }

  /** What a push puts on the stack. */
  function Literal(mem: Memory, pc: nat): StackValue {
    if mem(pc) == PUSH_VECTOR then StackValue(Vector, 1, ReadU32(mem, pc + 1))
    else if mem(pc) == PUSH_MATRIX then StackValue(Matrix, ReadU32(mem, pc + 1), ReadU32(mem, pc + 5))
    else StackValue(Scalar, 1, 1)
  }

  /** The sanity bound, on every pc and on the sizes of vectors and matrices. */
  predicate Malformed(op: Octet, pc: nat) {
    pc >= MAX_PC || ((op == PUSH_VECTOR || op == PUSH_MATRIX) && pc + HeadLength(op) > MAX_PC)
  }

  /** The value k places below the top. */
  function Below(stack: seq<StackValue>, k: nat): StackValue
    requires k < |stack|
  {
    stack[|stack| - 1 - k]
  }

  function Drop(stack: seq<StackValue>, k: nat): seq<StackValue>
    requires k <= |stack|
  {
    stack[..|stack| - k]
  }

  /** ADD and SUB want two scalars or two vectors of one shape, and leave the lower one. */
  predicate Addable(a: StackValue, b: StackValue) {
    (a.kind.Scalar? && b.kind.Scalar?) || (a.kind.Vector? && b.kind.Vector? && ShapeUnify(a, b))
  }

  predicate Multipliable(a: StackValue, b: StackValue) { a.kind.Matrix? && b.kind.Matrix? && a.cols == b.rows }

  predicate Invertible(a: StackValue) { a.kind.Matrix? && a.rows == a.cols }

  /** How many values an instruction looks at. */
  function Operands(op: Octet): nat {
    if op == DUP || op == POP || op == VERIFY_INV then 1
    else if op == SWAP || op == ADD || op == SUB || op == MATMUL then 2
    else 0
  }

  /** The typing rule on those values, lowest first: what replaces them, or nothing when the rule is broken. */
  function Rule(op: Octet, literal: StackValue, args: seq<StackValue>): Option<seq<StackValue>>
    requires |args| == Operands(op)
  {
    if IsPush(op) then Some([literal])
    else if op == DUP then Some([args[0], args[0]])
    else if op == SWAP then Some([args[1], args[0]])
    else if op == POP then Some([])
    else if op == ADD || op == SUB then if Addable(args[0], args[1]) then Some([args[0]]) else None
    else if op == MATMUL then
      if Multipliable(args[0], args[1]) then Some([args[0].(cols := args[1].cols)]) else None
    else if op == VERIFY_INV then if Invertible(args[0]) then Some([]) else None
    else if op == HALT then Some([])
    else None
  }

  /** The effect on a whole stack: the rule on its top, within the depth of 256. */
  function Effect(op: Octet, literal: StackValue, stack: seq<StackValue>): Option<seq<StackValue>> {
    if |stack| < Operands(op) then None
    else
      var rest, args := stack[..|stack| - Operands(op)], stack[|stack| - Operands(op)..];
      match Rule(op, literal, args)
      case None => None
      case Some(results) => if |rest + results| > MAX_DEPTH then None else Some(rest + results)
  }

  /** The switch of the engine: what each instruction does to the whole stack, with its own checks. */
  function Switch(op: Octet, literal: StackValue, stack: seq<StackValue>): Option<seq<StackValue>> {
    var depth := |stack|;
    if IsPush(op) then if depth < MAX_DEPTH then Some(stack + [literal]) else None
    else if op == DUP then if 0 < depth < MAX_DEPTH then Some(stack + [Below(stack, 0)]) else None
    else if op == SWAP then
      if 2 <= depth then Some(Drop(stack, 2) + [Below(stack, 0), Below(stack, 1)]) else None
    else if op == POP then if 1 <= depth then Some(Drop(stack, 1)) else None
    else if op == ADD || op == SUB then
      if 2 <= depth && Addable(Below(stack, 1), Below(stack, 0)) then Some(Drop(stack, 1)) else None
    else if op == MATMUL then
      if 2 <= depth && Multipliable(Below(stack, 1), Below(stack, 0))
      then Some(Drop(stack, 2) + [Below(stack, 1).(cols := Below(stack, 0).cols)]) else None
    else if op == VERIFY_INV then if 1 <= depth && Invertible(Below(stack, 0)) then Some(Drop(stack, 1)) else None
    else if op == HALT then Some(stack)
    else None
  }

  /** Every branch of the switch is the typing rule on the operands, with whatever lies below them kept. */
  lemma SwitchIsEffect(op: Octet, literal: StackValue, stack: seq<StackValue>)
    requires |stack| <= MAX_DEPTH
    ensures Switch(op, literal, stack) == Effect(op, literal, stack)
  {
    if |stack| >= Operands(op) {
      var rest, args := stack[..|stack| - Operands(op)], stack[|stack| - Operands(op)..];
      var result := Rule(op, literal, args);
      if result.Some? && Switch(op, literal, stack).Some? {
        assert Switch(op, literal, stack).value == rest + result.value;
      }
    }
  }

  /** Only VERIFY_INV adds an obligation, which fails when its number is negative as a signed 32-bit value. */
  function Emit(op: Octet, pc: nat, obls: seq<Obligation>): Option<seq<Obligation>> {
    if op != VERIFY_INV then Some(obls)
    else if AsInt32(|obls| % TWO32) < 0 then None
    else Some(obls + [NextInverse(obls, pc % TWO32, (pc + 1) % TWO32)])
  }

  function Step(mem: Memory, pc: nat, stack: seq<StackValue>, obls: seq<Obligation>): (r: StepResult)
    ensures r.StepOk? ==> r.pc > pc
  {
    var op := mem(pc);
    var next, stack', obls' := pc + HeadLength(op) + Payload(mem, pc), Effect(op, Literal(mem, pc), stack), Emit(op, pc, obls);
    if Malformed(op, pc) || stack'.None? || obls'.None? then StepError else StepOk(next, stack'.value, obls'.value)
  }

  // ---------- Whole programs ----------

  /** How the loop ends: in an error, at a HALT, or exactly at the end of the program. */
  datatype Outcome =
    | Failed
    | Halted(stack: seq<StackValue>, obls: seq<Obligation>)
    | Finished(stack: seq<StackValue>, obls: seq<Obligation>)

  function Infer(mem: Memory, len: nat, pc: nat, stack: seq<StackValue>, obls: seq<Obligation>): Outcome
    requires pc <= len
    decreases len - pc
  {
    if pc == len then Finished(stack, obls)
    else if mem(pc) == HALT then Halted(stack, obls)
    else
      match Step(mem, pc, stack, obls)
      case StepError => Failed
      case StepOk(next, stack', obls') => if next > len then Failed else Infer(mem, len, next, stack', obls')
  }

  /** An empty program is refused, and so is an initial stack that does not fit the working one. */
  function InferProgram(mem: Memory, len: nat, initial: seq<StackValue>): Outcome {
    if len == 0 || |initial| > MAX_DEPTH then Failed else Infer(mem, len, 0, initial, [])
  }

  // ---------- The mutable stack ----------

  class TypeStack {
    const values: array<StackValue>
    var depth: nat

    ghost predicate Valid()
      reads this
    {
      values.Length == MAX_DEPTH && depth <= MAX_DEPTH
    }

    ghost function Contents(): seq<StackValue>
      requires Valid()
      reads this, values
    {
      values[..depth]
    }

    constructor ()
      ensures Valid() && fresh(values) && Contents() == []
    {
      values := new StackValue[MAX_DEPTH];
      depth := 0;
    }

    method PushValue(v: StackValue) returns (ok: bool)
      requires Valid()
      modifies this, values
      ensures Valid()
      ensures ok <==> |old(Contents())| < MAX_DEPTH
      ensures Contents() == if ok then old(Contents()) + [v] else old(Contents())
    {
      if depth >= MAX_DEPTH {
        return false;
      }
      values[depth] := v;
      depth := depth + 1;
      return true;
    }

    method Duplicate() returns (ok: bool)
      requires Valid()
      modifies this, values
      ensures Valid()
      ensures ok <==> 0 < |old(Contents())| < MAX_DEPTH
      ensures Contents() == if ok then old(Contents()) + [Below(old(Contents()), 0)] else old(Contents())
    {
      if depth == 0 {
        return false;
      }
      ok := PushValue(values[depth - 1]);
    }

    method Swap() returns (ok: bool)
      requires Valid()
      modifies values
      ensures Valid()
      ensures ok <==> 2 <= |Contents()|
      ensures ok ==> Contents() == Drop(old(Contents()), 2) + [Below(old(Contents()), 0), Below(old(Contents()), 1)]
      ensures !ok ==> Contents() == old(Contents())
    {
      if depth < 2 {
        return false;
      }
      var temp := values[depth - 1];
      values[depth - 1] := values[depth - 2];
      values[depth - 2] := temp;
      return true;
    }

    method Pop() returns (ok: bool)
      requires Valid()
      modifies `depth
      ensures Valid()
      ensures ok <==> |old(Contents())| != 0
      ensures Contents() == if ok then Drop(old(Contents()), 1) else old(Contents())
    {
      ok := depth != 0;
      if ok {
        depth := depth - 1;
      }
    }

    /** ADD and SUB: the lower operand stays as the type of the result. */
    method Combine() returns (ok: bool)
      requires Valid()
      modifies `depth
      ensures Valid()
      ensures ok <==> 2 <= |old(Contents())| && Addable(Below(old(Contents()), 1), Below(old(Contents()), 0))
      ensures Contents() == if ok then Drop(old(Contents()), 1) else old(Contents())
    {
      if depth < 2 {
        return false;
      }
      var b, a := values[depth - 1], values[depth - 2];
      if a.kind.Scalar? && b.kind.Scalar? {
        depth := depth - 1;
      } else if a.kind.Vector? && b.kind.Vector? {
        if !ShapeUnify(a, b) {
          return false;
        }
        depth := depth - 1;
      } else {
        return false;
      }
      return true;
    }

    method Multiply() returns (ok: bool)
      requires Valid()
      modifies `depth, values
      ensures Valid()
      ensures ok <==> 2 <= |old(Contents())| && Multipliable(Below(old(Contents()), 1), Below(old(Contents()), 0))
      ensures ok ==> Contents() == Drop(old(Contents()), 2) + [Below(old(Contents()), 1).(cols := Below(old(Contents()), 0).cols)]
      ensures !ok ==> Contents() == old(Contents())
    {
      if depth < 2 {
        return false;
      }
      var b, a := values[depth - 1], values[depth - 2];
      if !a.kind.Matrix? || !b.kind.Matrix? || a.cols != b.rows {
        return false;
      }
      values[depth - 2] := a.(cols := b.cols);
      depth := depth - 1;
      return true;
    }
  }

  // ---------- The inference engine ----------

  /** The three literals: the sanity bound, the sizes read, the payload skipped, the value pushed. */
  method InferPush(mem: Memory, pc: nat, stack: TypeStack) returns (ok: bool, next: nat)
    requires IsPush(mem(pc)) && stack.Valid() && pc < MAX_PC
    modifies stack, stack.values
    ensures stack.Valid()
    ensures ok <==> !Malformed(mem(pc), pc) && Effect(mem(pc), Literal(mem, pc), old(stack.Contents())).Some?
    ensures ok ==> next == pc + HeadLength(mem(pc)) + Payload(mem, pc)
    ensures ok ==> Effect(mem(pc), Literal(mem, pc), old(stack.Contents())) == Some(stack.Contents())
    ensures !ok ==> stack.Contents() == old(stack.Contents())
  {
    var op := mem(pc);
    SwitchIsEffect(op, Literal(mem, pc), stack.Contents());
    if op == PUSH_SCALAR {
      next := pc + 9;
      ok := stack.PushValue(StackValue(Scalar, 1, 1));
    } else if op == PUSH_VECTOR {
      if pc + 5 > MAX_PC {
        return false, pc + 1;
      }
      var n := ReadU32(mem, pc + 1);
      next := pc + 5 + VectorBytes(n);
      ok := stack.PushValue(StackValue(Vector, 1, n));
    } else {
      if pc + 9 > MAX_PC {
        return false, pc + 1;
      }
      var m, n := ReadU32(mem, pc + 1), ReadU32(mem, pc + 5);
      next := pc + 9 + MatrixBytes(m, n);
      ok := stack.PushValue(StackValue(Matrix, m, n));
    }
  }

  /** VERIFY_INV: the obligation is recorded before the matrix is popped. */
  method InferVerifyInv(pc: nat, stack: TypeStack, obls: ObligationSet, ghost literal: StackValue) returns (ok: bool)
    requires stack.Valid() && obls.Valid()
    modifies stack, obls, obls.items
    ensures stack.Valid() && obls.Valid() && (obls.items == old(obls.items) || fresh(obls.items))
    ensures ok <==> Effect(VERIFY_INV, literal, old(stack.Contents())).Some?
                    && Emit(VERIFY_INV, pc, old(obls.Contents())).Some?
    ensures ok ==> Emit(VERIFY_INV, pc, old(obls.Contents())) == Some(obls.Contents())
    ensures ok ==> Effect(VERIFY_INV, literal, old(stack.Contents())) == Some(stack.Contents())
    ensures !ok ==> stack.Contents() == old(stack.Contents())
  {
    SwitchIsEffect(VERIFY_INV, literal, stack.Contents());
    if stack.depth < 1 {
      return false;
    }
    var a := stack.values[stack.depth - 1];
    if !a.kind.Matrix? || a.rows != a.cols {
      return false;
    }
    var id := obls.AddInv(pc % TWO32, (pc + 1) % TWO32);
    if id < 0 {
      return false;
    }
    ok := stack.Pop();
  }

  /** The opcodes that only move or combine values already on the stack. */
  method InferShuffle(op: Octet, stack: TypeStack, ghost literal: StackValue) returns (ok: bool)
    requires !IsPush(op) && op != VERIFY_INV && stack.Valid()
    modifies stack, stack.values
    ensures stack.Valid()
    ensures Effect(op, literal, old(stack.Contents())) == if ok then Some(stack.Contents()) else None
    ensures !ok ==> stack.Contents() == old(stack.Contents())
  {
    SwitchIsEffect(op, literal, stack.Contents());
    if op == DUP {
      ok := stack.Duplicate();
    } else if op == SWAP {
      ok := stack.Swap();
    } else if op == POP {
      ok := stack.Pop();
    } else if op == ADD || op == SUB {
      ok := stack.Combine();
    } else if op == MATMUL {
      ok := stack.Multiply();
    } else {
      ok := op == HALT;
    }
  }

  /** One step of the engine; a refused instruction leaves the stack as it was. */
  method InferInstruction(mem: Memory, pc: nat, stack: TypeStack, obls: ObligationSet) returns (ok: bool, next: nat)
    requires stack.Valid() && obls.Valid()
    modifies stack, stack.values, obls, obls.items
    ensures stack.Valid() && obls.Valid() && (obls.items == old(obls.items) || fresh(obls.items))
    ensures Step(mem, pc, old(stack.Contents()), old(obls.Contents()))
            == if ok then StepOk(next, stack.Contents(), obls.Contents()) else StepError
    ensures !ok ==> stack.Contents() == old(stack.Contents())
  {
    next := pc + 1;
    if pc >= MAX_PC {
      return false, next;
    }
    var op := mem(pc);
    if IsPush(op) {
      ok, next := InferPush(mem, pc, stack);
    } else if op == VERIFY_INV {
      ok := InferVerifyInv(pc, stack, obls, Literal(mem, pc));
    } else {
      ok := InferShuffle(op, stack, Literal(mem, pc));
    }
  }

  /** A working stack of its own, filled by pushes; null when the initial stack is too deep. */
  method CopyStack(initial: seq<StackValue>) returns (work: TypeStack?)
    ensures work == null <==> |initial| > MAX_DEPTH
    ensures work != null ==> fresh(work) && fresh(work.values) && work.Valid() && work.Contents() == initial
  {
    var copy := new TypeStack();
    for i := 0 to |initial|
      invariant fresh(copy) && fresh(copy.values) && copy.Valid() && copy.Contents() == initial[..i]
    {
      var ok := copy.PushValue(initial[i]);
      if !ok {
        return null;
      }
    }
    return copy;
  }

  function Ids(obls: seq<Obligation>): (r: seq<U32>)
    ensures |r| == |obls| && forall i :: 0 <= i < |r| ==> r[i] == obls[i].id
  {
    seq(|obls|, i requires 0 <= i < |obls| => obls[i].id)
  }

  /** The whole engine: a null stack stands for a result that carries only an error message. */
  method InferProgramLoop(mem: Memory, len: nat, initial: seq<StackValue>) returns (work: TypeStack?, ids: seq<U32>)
    ensures work == null <==> InferProgram(mem, len, initial).Failed?
    ensures work != null ==> fresh(work) && work.Valid()
                             && work.Contents() == InferProgram(mem, len, initial).stack
                             && ids == Ids(InferProgram(mem, len, initial).obls)
  {
    if len == 0 {
      return null, [];
    }
    var copy := CopyStack(initial);
    if copy == null {
      return null, [];
    }
    var obls := new ObligationSet();
    var pc := 0;
    while pc < len && mem(pc) != HALT
      invariant pc <= len
      invariant fresh(copy) && fresh(copy.values) && fresh(obls) && fresh(obls.items) && copy.Valid() && obls.Valid()
      invariant InferProgram(mem, len, initial) == Infer(mem, len, pc, copy.Contents(), obls.Contents())
      decreases len - pc
    {
      var ok, next := InferInstruction(mem, pc, copy, obls);
      if !ok || next > len {
        return null, [];
      }
      pc := next;
    }
    ids := seq(obls.count, i requires 0 <= i < obls.count && obls.count <= obls.items.Length reads obls, obls.items
                           => obls.items[i].id);
    return copy, ids;
  }
}
