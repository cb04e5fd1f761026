/** The commitment circuit and the append-only file of 96-byte records that it chains. */
module Lattice {
  import opened Bytes
  import opened LatticeRing

  type Payload = s: seq<Byte> | |s| == 64 witness seq(64, _ => ZERO)

  datatype Record = Record(payload: Payload, commitment: Block)

  function First(p: Payload): Block { p[..32] }

  function Second(p: Payload): Block { p[32..] }

  // ---------- The circuit ----------

  function PowerOfX(p: nat): Block
    requires p < 32
  {
    seq(32, i => if i == p then ONE else ZERO)
  }

  const K0: Block := PowerOfX(0)
  const K1: Block := PowerOfX(1)
  const K2: Block := PowerOfX(2)

  /** K0 is the identity of the ring. */
  lemma RingIdentity(a: Block)
    ensures Times(K0, a) == a && Times(a, K0) == a
  {
    TimesPowerOfX(K0, 0, a);
    RotatedByNone(a);
    RingLaws(a, K0, a);
  }

  /** K0 * prev + K1 * payload[0..32] + K2 * payload[32..64]. */
  function Commit(prev: Block, payload: Payload): Block {
    XorBlocks(XorBlocks(Times(K0, prev), Times(K1, First(payload))), Times(K2, Second(payload)))
  }

  /** What a payload adds to the chain: its halves rotated by one and by two places. */
  function Contribution(payload: Payload): Block {
    XorBlocks(Rotated(First(payload), 1), Rotated(Second(payload), 2))
  }

  lemma XorBlocksAssociative(a: Block, b: Block, c: Block)
    ensures XorBlocks(XorBlocks(a, b), c) == XorBlocks(a, XorBlocks(b, c))
  {
    forall i | 0 <= i < 32 ensures XorBlocks(XorBlocks(a, b), c)[i] == XorBlocks(a, XorBlocks(b, c))[i] {
      XorAssociative(a[i], b[i], c[i]);
    }
  }

  lemma XorBlocksCommutative(a: Block, b: Block)
    ensures XorBlocks(a, b) == XorBlocks(b, a)
  {
    forall i | 0 <= i < 32 ensures XorBlocks(a, b)[i] == XorBlocks(b, a)[i] {
      XorCommutative(a[i], b[i]);
    }
  }

  lemma XorBlocksZero(a: Block)
    ensures XorBlocks(a, ZeroBlock()) == a && XorBlocks(ZeroBlock(), a) == a && XorBlocks(a, a) == ZeroBlock()
  {
    forall i | 0 <= i < 32
      ensures XorBlocks(a, ZeroBlock())[i] == a[i] == XorBlocks(ZeroBlock(), a)[i] && XorBlocks(a, a)[i] == ZERO
    {
      XorZero(a[i]);
    }
  }

  lemma XorBlocksCancel(a: Block, b: Block, c: Block)
    ensures XorBlocks(a, b) == XorBlocks(a, c) <==> b == c
  {
    if XorBlocks(a, b) == XorBlocks(a, c) {
      XorBlocksAssociative(a, a, b);
      XorBlocksAssociative(a, a, c);
      XorBlocksZero(a);
      XorBlocksZero(b);
      XorBlocksZero(c);
    }
  }

  /** The circuit adds the payload's contribution to the previous commitment. */
  lemma CommitIsXor(prev: Block, payload: Payload)
    ensures Commit(prev, payload) == XorBlocks(prev, Contribution(payload))
  {
    TimesPowerOfX(K0, 0, prev);
    RotatedByNone(prev);
    TimesPowerOfX(K1, 1, First(payload));
    TimesPowerOfX(K2, 2, Second(payload));
    XorBlocksAssociative(prev, Rotated(First(payload), 1), Rotated(Second(payload), 2));
  }

  /** The accumulating comparison that looks at every byte before it decides. */
  method Differ(a: Block, b: Block) returns (differ: bool)
    ensures differ <==> a != b
  {
    var diff := ZERO;
    for i := 0 to 32
      invariant diff == ZERO <==> a[..i] == b[..i]
    {
      OrZero(diff, Xor(a[i], b[i]));
      XorDetectsDifference(a[i], b[i]);
      assert a[..i + 1] == a[..i] + [a[i]] && b[..i + 1] == b[..i] + [b[i]];
      diff := Or(diff, Xor(a[i], b[i]));
    }
    assert a[..32] == a && b[..32] == b;
    differ := diff != ZERO;
  }

  method XorThree(t0: array<Byte>, t1: array<Byte>, t2: array<Byte>, next: array<Byte>)
    requires t0.Length == t1.Length == t2.Length == next.Length == 32
    requires next != t0 && next != t1 && next != t2
    modifies next
    ensures next[..] == XorBlocks(XorBlocks(t0[..], t1[..]), t2[..])
  {
    ghost var sum := XorBlocks(XorBlocks(t0[..], t1[..]), t2[..]);
    for i := 0 to 32
      invariant t0[..] == old(t0[..]) && t1[..] == old(t1[..]) && t2[..] == old(t2[..])
      invariant next[..i] == sum[..i]
    {
      next[i] := Xor(Xor(t0[i], t1[i]), t2[i]);
    }
  }

  method Convolved(k: Block, v: Block) returns (t: array<Byte>)
    ensures fresh(t) && t.Length == 32 && t[..] == Times(k, v)
  {
    t := new Byte[32];
    CyclicConvolve(k, v, t);
  }

  method LatticeCommit(prev: Block, payload: Payload, next: array<Byte>)
    requires next.Length == 32
    modifies next
    ensures next[..] == Commit(prev, payload)
  {
    var t0 := Convolved(K0, prev);
    var t1 := Convolved(K1, First(payload));
    var t2 := Convolved(K2, Second(payload));
    XorThree(t0, t1, t2, next);
  }

  // ---------- The file ----------

  /** The chain and the file do not depend on which circuit computes the commitments. */
  type Circuit = (Block, Payload) -> Block

  datatype ReadResult = Failed | Got(bytes: seq<Byte>)

  /** pread on a file of these bytes: short at the end of the file, an error before its beginning. */
  function ReadAt(file: seq<Byte>, offset: int, n: nat): ReadResult {
    if offset < 0 then Failed
    else if offset >= |file| then Got([])
    else if offset + n <= |file| then Got(file[offset..offset + n])
    else Got(file[offset..])
  }

  /** The tip that an append or a tip query reads: the last 32 bytes, or zeros if there are none. */
  function TipOf(file: seq<Byte>): ReadResult {
    if file == [] then Got(ZeroBlock()) else ReadAt(file, |file| - 32, 32)
  }

  function RecordBytes(r: Record): (bytes: seq<Byte>)
    ensures |bytes| == 96
  {
    r.payload + r.commitment
  }

  /** The outcome of an append: the file grows by one record, or stays as it is when it has no readable tip. */
  function Appended(circuit: Circuit, file: seq<Byte>, payload: Payload): seq<Byte> {
    if 0 < |file| < 32 then file
    else file + RecordBytes(Record(payload, circuit(TipOf(file).bytes, payload)))
  }

  /** The record's commitment is what the circuit computes from the previous commitment. */
  predicate Follows(circuit: Circuit, prev: Block, r: Record) { r.commitment == circuit(prev, r.payload) }

  datatype RecordRead = AtEnd | Broken | Whole(record: Record)

  /** Reading one record: nothing there, an error or a short read, or a whole record. */
  function RecordAt(file: seq<Byte>, pos: int): RecordRead {
    if pos < 0 then Broken
    else if pos >= |file| then AtEnd
    else if pos + 96 > |file| then Broken
    else Whole(Record(file[pos..pos + 64], file[pos + 64..pos + 96]))
  }

  lemma RecordAtReads(file: seq<Byte>, pos: int)
    ensures RecordAt(file, pos) ==
      match ReadAt(file, pos, 96)
      case Failed => Broken
      case Got(bytes) =>
        if bytes == [] then AtEnd
        else if |bytes| != 96 then Broken
        else Whole(Record(bytes[..64], bytes[64..]))
  {
    if 0 <= pos && pos + 96 <= |file| {
      var bytes := file[pos..pos + 96];
      assert bytes[..64] == file[pos..pos + 64] && bytes[64..] == file[pos + 64..pos + 96];
    }
  }

  /** Recomputes a record's commitment and compares it with the stored one. */
  method CheckRecord(expected: Block, r: Record, computed: array<Byte>) returns (ok: bool)
    requires computed.Length == 32
    modifies computed
    ensures ok <==> Follows(Commit, expected, r)
    ensures ok ==> computed[..] == r.commitment
  {
    LatticeCommit(expected, r.payload, computed);
    var differ := Differ(computed[..], r.commitment);
    ok := !differ;
  }

  /** What the replaying verifier returns: 1, 0 or -1. */
  function Replay(circuit: Circuit, file: seq<Byte>, pos: int, expected: Block, count: nat): int
    decreases count
  {
    if count == 0 then 1
    else
      match RecordAt(file, pos)
      case AtEnd => 1
      case Broken => -1
      case Whole(record) =>
        if !Follows(circuit, expected, record) then 0
        else Replay(circuit, file, pos + 96, record.commitment, count - 1)
  }

  lemma ReplayStep(circuit: Circuit, file: seq<Byte>, pos: int, expected: Block, count: nat)
    requires count > 0
    ensures RecordAt(file, pos) == AtEnd ==> Replay(circuit, file, pos, expected, count) == 1
    ensures RecordAt(file, pos) == Broken ==> Replay(circuit, file, pos, expected, count) == -1
    ensures RecordAt(file, pos).Whole? ==>
      var r := RecordAt(file, pos).record;
      Replay(circuit, file, pos, expected, count) ==
        if Follows(circuit, expected, r) then Replay(circuit, file, pos + 96, r.commitment, count - 1) else 0
  {}

  class LatticeFile {
    var contents: seq<Byte>

    constructor ()
      ensures contents == []
    {
      contents := [];
    }

    method Append(payload: Payload) returns (r: int, record: seq<Byte>)
      modifies this
      ensures contents == Appended(Commit, old(contents), payload)
      ensures r == if 0 < |old(contents)| < 32 then -1 else 0
      ensures r == 0 ==> contents == old(contents) + record && |record| == 96
    {
      var size := |contents|;
      var tip: Block := ZeroBlock();
      record := [];
      if size > 0 {
        var read := ReadAt(contents, size - 32, 32);
        if read.Failed? || |read.bytes| != 32 {
          return -1, [];
        }
        tip := read.bytes;
      }
      var commitment := new Byte[32];
      LatticeCommit(tip, payload, commitment);
      record := payload + commitment[..];
      contents := contents + record;
      return 0, record;
    }

    method Tip() returns (r: int, tip: Block)
      ensures r == if 0 < |contents| < 32 then -1 else 0
      ensures r == 0 ==> Got(tip) == TipOf(contents)
    {
      tip := ZeroBlock();
      if |contents| == 0 {
        return 0, tip;
      }
      var read := ReadAt(contents, |contents| - 32, 32);
      if read.Failed? || |read.bytes| != 32 {
        return -1, tip;
      }
      return 0, read.bytes;
    }

    method Verify(start: int, count: nat) returns (r: int)
      ensures r == Replay(Commit, contents, start, ZeroBlock(), count)
    {
      ghost var verdict := Replay(Commit, contents, start, ZeroBlock(), count);
      var expected: Block := ZeroBlock();
      var computed := new Byte[32];
      var pos, left := start, count;
      while left > 0
        invariant verdict == Replay(Commit, contents, pos, expected, left)
      {
        RecordAtReads(contents, pos);
        ReplayStep(Commit, contents, pos, expected, left);
        var read := ReadAt(contents, pos, 96);
        if read.Got? && read.bytes == [] {
          break;
        }
        if read.Failed? || |read.bytes| != 96 {
          return -1;
        }
        var record := Record(read.bytes[..64], read.bytes[64..]);
        var ok := CheckRecord(expected, record, computed);
        if !ok {
          return 0;
        }
        expected := computed[..];
        pos := pos + 96;
        left := left - 1;
      }
      return 1;
    }
  }
}
