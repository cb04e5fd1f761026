/** What inference makes of single instructions, byte by byte: the opcodes and the order of the size bytes. */
module Bytecode {
  import opened Obligations
  import opened TypeInference
  import opened InferenceLaws
  import opened Widths

  /** The four bytes from p on are those of n, least significant first. */
  ghost predicate BytesAt(mem: Memory, p: nat, n: nat) {
    mem(p) == n % 256 && mem(p + 1) == n / 256 % 256 && mem(p + 2) == n / 65536 % 256 && mem(p + 3) == n / 16777216
  }

  lemma BytesRead(mem: Memory, p: nat, n: nat)
    requires BytesAt(mem, p, n) && n < 4294967296
    ensures ReadU32(mem, p) == n
  {
    BytesOfNumber(n);
  }

  lemma BytesOfNumber(n: nat)
    ensures n == n % 256 + 256 * (n / 256 % 256) + 65536 * (n / 65536 % 256) + 16777216 * (n / 16777216)
  {
    var a, b := n / 256, n / 65536;
    assert b == a / 256 && n / 16777216 == b / 256;
  }

  /** What a push instruction of exactly len bytes makes of a stack. */
  function Pushed(stack: seq<StackValue>, v: StackValue): Outcome {
    if |stack| < 256 then Finished(stack + [v], []) else Failed
  }

  lemma SingleStep(mem: Memory, len: nat, stack: seq<StackValue>)
    requires 0 < len && |stack| <= MAX_DEPTH && mem(0) != HALT
    requires Step(mem, 0, stack, []).StepOk? ==> Step(mem, 0, stack, []).pc == len
    ensures var r := Step(mem, 0, stack, []);
            InferProgram(mem, len, stack) == if r.StepOk? then Finished(r.stack, r.obls) else Failed
  {
    var r := Step(mem, 0, stack, []);
    if r.StepOk? {
      assert Infer(mem, len, len, r.stack, r.obls) == Finished(r.stack, r.obls);
      assert Infer(mem, len, 0, stack, []) == Infer(mem, len, len, r.stack, r.obls);
    }
  }

  /** Byte 1 and eight more: a scalar. */
  lemma ScalarLiteral(mem: Memory, stack: seq<StackValue>)
    requires mem(0) == 1 && |stack| <= 256
    ensures InferProgram(mem, 9, stack) == Pushed(stack, StackValue(Scalar, 1, 1))
  {
    SwitchIsEffect(mem(0), Literal(mem, 0), stack);
    SingleStep(mem, 9, stack);
  }

  /** Byte 2, the four bytes of n and 8 n more: a vector of n elements. */
  lemma VectorLiteral(mem: Memory, n: nat, stack: seq<StackValue>)
    requires mem(0) == 2 && BytesAt(mem, 1, n) && 8 * n < 4294967296 && |stack| <= 256
    ensures InferProgram(mem, 5 + 8 * n, stack) == Pushed(stack, StackValue(Vector, 1, n))
  {
    BytesRead(mem, 1, n);
    SwitchIsEffect(mem(0), Literal(mem, 0), stack);
    assert VectorBytes(n) == 8 * n;
    SingleStep(mem, 5 + 8 * n, stack);
  }

  /** Byte 3, the bytes of m, those of n, and 8 m n more: a matrix of m rows and n columns. */
  lemma MatrixLiteral(mem: Memory, m: nat, n: nat, area: nat, stack: seq<StackValue>)
    requires mem(0) == 3 && BytesAt(mem, 1, m) && BytesAt(mem, 5, n) && m < 4294967296 && n < 4294967296
    requires area == m * n && 8 * area < 4294967296 && |stack| <= 256
    ensures InferProgram(mem, 9 + 8 * area, stack) == Pushed(stack, StackValue(Matrix, m, n))
  {
    assert ReadU32(mem, 1) == m by { BytesRead(mem, 1, m); }
    assert ReadU32(mem, 5) == n by { BytesRead(mem, 5, n); }
    MatrixBytesExact(m, n, area);
    MatrixRead(mem, m, n, 9 + 8 * area, stack);
  }

  lemma MatrixRead(mem: Memory, m: U32, n: U32, len: nat, stack: seq<StackValue>)
    requires mem(0) == 3 && ReadU32(mem, 1) == m && ReadU32(mem, 5) == n && |stack| <= 256
    requires len == 9 + MatrixBytes(m, n)
    ensures InferProgram(mem, len, stack) == Pushed(stack, StackValue(Matrix, m, n))
  {
    SwitchIsEffect(mem(0), Literal(mem, 0), stack);
    SingleStep(mem, len, stack);
  }

  lemma MatrixBytesExact(m: nat, n: nat, area: nat)
    requires m < 4294967296 && n < 4294967296 && area == m * n && 8 * area < 4294967296
    ensures MatrixBytes(m, n) == 8 * area
  {
  }

  /** The bytes of a vector literal of n elements, as a program. */
  ghost predicate IsVectorProgram(p: Program, n: nat) {
    |p| == 5 + 8 * n && p[0] == 2
    && p[1] == n % 256 && p[2] == n / 256 % 256 && p[3] == n / 65536 % 256 && p[4] == n / 16777216
  }

  /** The program made of a vector literal is inferred to that vector, whatever its payload and the bytes behind it. */
  lemma VectorProgram(p: Program, n: nat, mem: Memory)
    requires IsVectorProgram(p, n) && 5 + 8 * n <= 1000000 && Stored(mem, p)
    ensures InferProgram(mem, |p|, []) == Finished([StackValue(Vector, 1, n)], [])
  {
    assert mem(0) == p[0] && mem(1) == p[1] && mem(2) == p[2] && mem(3) == p[3] && mem(4) == p[4];
    VectorLiteral(mem, n, []);
  }

  ghost predicate IsMatrixProgram(p: Program, m: nat, n: nat) {
    |p| == 9 + 8 * (m * n) && p[0] == 3
    && p[1] == m % 256 && p[2] == m / 256 % 256 && p[3] == m / 65536 % 256 && p[4] == m / 16777216
    && p[5] == n % 256 && p[6] == n / 256 % 256 && p[7] == n / 65536 % 256 && p[8] == n / 16777216
  }

  lemma MatrixProgram(p: Program, m: nat, n: nat, mem: Memory)
    requires IsMatrixProgram(p, m, n) && 9 + 8 * (m * n) <= 1000000 && Stored(mem, p)
    requires m < 4294967296 && n < 4294967296
    ensures InferProgram(mem, |p|, []) == Finished([StackValue(Matrix, m, n)], [])
  {
    assert mem(0) == p[0] && mem(1) == p[1] && mem(2) == p[2] && mem(3) == p[3] && mem(4) == p[4];
    assert mem(5) == p[5] && mem(6) == p[6] && mem(7) == p[7] && mem(8) == p[8];
    MatrixLiteral(mem, m, n, m * n, []);
  }

  // ---------- The instructions of one byte ----------

  lemma DupInstruction(mem: Memory, s: seq<StackValue>)
    requires mem(0) == 4 && |s| <= 256
    ensures InferProgram(mem, 1, s) == if 1 <= |s| < 256 then Finished(s + [s[|s| - 1]], []) else Failed
  {
    SwitchIsEffect(mem(0), Literal(mem, 0), s);
    SingleStep(mem, 1, s);
  }

  lemma SwapInstruction(mem: Memory, s: seq<StackValue>)
    requires mem(0) == 5 && |s| <= 256
    ensures InferProgram(mem, 1, s)
            == if 2 <= |s| then Finished(s[..|s| - 2] + [s[|s| - 1], s[|s| - 2]], []) else Failed
  {
    SwitchIsEffect(mem(0), Literal(mem, 0), s);
    SingleStep(mem, 1, s);
  }

  lemma PopInstruction(mem: Memory, s: seq<StackValue>)
    requires mem(0) == 6 && |s| <= 256
    ensures InferProgram(mem, 1, s) == if 1 <= |s| then Finished(s[..|s| - 1], []) else Failed
  {
    SwitchIsEffect(mem(0), Literal(mem, 0), s);
    SingleStep(mem, 1, s);
  }

  /** Bytes 7 and 8, addition and subtraction. */
  lemma AddSubInstruction(mem: Memory, s: seq<StackValue>)
    requires (mem(0) == 7 || mem(0) == 8) && |s| <= 256
    ensures InferProgram(mem, 1, s)
            == if 2 <= |s|
                  && ((s[|s| - 2].kind == Scalar && s[|s| - 1].kind == Scalar)
                      || (s[|s| - 2].kind == Vector && s[|s| - 1].kind == Vector
                          && s[|s| - 2].rows == s[|s| - 1].rows && s[|s| - 2].cols == s[|s| - 1].cols))
               then Finished(s[..|s| - 1], []) else Failed
  {
    SwitchIsEffect(mem(0), Literal(mem, 0), s);
    SingleStep(mem, 1, s);
  }

  lemma MatMulInstruction(mem: Memory, s: seq<StackValue>)
    requires mem(0) == 9 && |s| <= 256
    ensures InferProgram(mem, 1, s)
            == if 2 <= |s| && s[|s| - 2].kind == Matrix && s[|s| - 1].kind == Matrix && s[|s| - 2].cols == s[|s| - 1].rows
               then Finished(s[..|s| - 2] + [StackValue(Matrix, s[|s| - 2].rows, s[|s| - 1].cols)], []) else Failed
  {
    SwitchIsEffect(mem(0), Literal(mem, 0), s);
    SingleStep(mem, 1, s);
  }

  lemma VerifyInvInstruction(mem: Memory, s: seq<StackValue>)
    requires mem(0) == 10 && |s| <= 256
    ensures InferProgram(mem, 1, s)
            == if 1 <= |s| && s[|s| - 1].kind == Matrix && s[|s| - 1].rows == s[|s| - 1].cols
               then Finished(s[..|s| - 1], [Obligation(0, Inverse, 0, 1)]) else Failed
  {
    SwitchIsEffect(mem(0), Literal(mem, 0), s);
    SingleStep(mem, 1, s);
  }

  lemma HaltInstruction(mem: Memory, len: nat, s: seq<StackValue>)
    requires mem(0) == 255 && 0 < len && |s| <= 256
    ensures InferProgram(mem, len, s) == Halted(s, [])
  {
  }

  /** Every other byte is refused, those of the two untyped verification instructions among them. */
  lemma UnknownInstruction(mem: Memory, len: nat, s: seq<StackValue>)
    requires (mem(0) == 0 || 11 <= mem(0) <= 254) && 0 < len
    ensures InferProgram(mem, len, s) == Failed
  {
    if |s| <= MAX_DEPTH {
      SwitchIsEffect(mem(0), Literal(mem, 0), s);
    }
  }
}
