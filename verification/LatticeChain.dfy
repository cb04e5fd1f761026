/** Chains of records: what the replaying verifier accepts, what the tip is, and which changes it detects. */
module LatticeChain {
  import opened Bytes
  import opened LatticeRing
  import opened Lattice
  import opened Widths

  // ---------- Chains ----------

  /** Each commitment follows from the one before it, the first from prev. */
  predicate ChainFrom(circuit: Circuit, prev: Block, rs: seq<Record>)
    decreases |rs|
  {
    rs == [] || (Follows(circuit, prev, rs[0]) && ChainFrom(circuit, rs[0].commitment, rs[1..]))
  }

  function Previous(prev: Block, rs: seq<Record>, i: nat): Block
    requires i <= |rs|
  {
    if i == 0 then prev else rs[i - 1].commitment
  }

  predicate LinkHolds(circuit: Circuit, prev: Block, rs: seq<Record>, i: nat)
    requires i < |rs|
  {
    Follows(circuit, Previous(prev, rs, i), rs[i])
  }

  lemma {:induction false} ChainPointwise(circuit: Circuit, prev: Block, rs: seq<Record>)
    ensures ChainFrom(circuit, prev, rs) <==> forall i :: 0 <= i < |rs| ==> LinkHolds(circuit, prev, rs, i)
    decreases |rs|
  {
    if rs != [] {
      var rest, c := rs[1..], rs[0].commitment;
      ChainPointwise(circuit, c, rest);
      assert forall i :: 0 <= i < |rest| ==> LinkHolds(circuit, c, rest, i) == LinkHolds(circuit, prev, rs, i + 1);
      if forall i :: 0 <= i < |rs| ==> LinkHolds(circuit, prev, rs, i) {
        assert LinkHolds(circuit, prev, rs, 0);
        forall i | 0 <= i < |rest| ensures LinkHolds(circuit, c, rest, i) {
          assert LinkHolds(circuit, prev, rs, i + 1);
        }
      }
      if ChainFrom(circuit, prev, rs) {
        forall i | 0 <= i < |rs| ensures LinkHolds(circuit, prev, rs, i) {
          if i > 0 {
            assert LinkHolds(circuit, c, rest, i - 1);
          }
        }
      }
    }
  }

  /** A record that follows from the last commitment extends the chain. */
  lemma ChainExtends(circuit: Circuit, prev: Block, rs: seq<Record>, r: Record)
    requires ChainFrom(circuit, prev, rs) && Follows(circuit, Previous(prev, rs, |rs|), r)
    ensures ChainFrom(circuit, prev, rs + [r])
  {
    ChainPointwise(circuit, prev, rs);
    ChainPointwise(circuit, prev, rs + [r]);
    forall i | 0 <= i < |rs + [r]| ensures LinkHolds(circuit, prev, rs + [r], i) {
      if i < |rs| {
        assert LinkHolds(circuit, prev, rs, i);
      }
    }
  }

  /** A handle's tip and event count agree with these records, which form a chain from zero. */
  predicate ChainsTo(circuit: Circuit, tip: Block, eventsSealed: U64, rs: seq<Record>) {
    && ChainFrom(circuit, ZeroBlock(), rs)
    && tip == Previous(ZeroBlock(), rs, |rs|)
    && eventsSealed == |rs| % TWO64
  }

  lemma ChainGrows(circuit: Circuit, tip: Block, eventsSealed: U64, rs: seq<Record>, r: Record)
    requires ChainsTo(circuit, tip, eventsSealed, rs) && Follows(circuit, tip, r)
    ensures ChainsTo(circuit, r.commitment, (eventsSealed + 1) % TWO64, rs + [r])
  {
    ChainExtends(circuit, ZeroBlock(), rs, r);
  }

  // ---------- Files of whole records, with a torn record behind them ----------

  function Flatten(rs: seq<Record>): (bytes: seq<Byte>)
    ensures |bytes| == 96 * |rs|
  {
    if rs == [] then [] else Flatten(rs[..|rs| - 1]) + RecordBytes(rs[|rs| - 1])
  }

  lemma {:induction false} FlattenConcat(rs: seq<Record>, ss: seq<Record>)
    ensures Flatten(rs + ss) == Flatten(rs) + Flatten(ss)
    decreases |ss|
  {
    if ss == [] {
      assert rs + ss == rs;
    } else {
      var front, last := ss[..|ss| - 1], ss[|ss| - 1];
      assert (rs + ss)[..|rs + ss| - 1] == rs + front;
      FlattenConcat(rs, front);
    }
  }

  lemma FlattenThree(before: seq<Record>, r: Record, after: seq<Record>)
    ensures Flatten(before + [r] + after) == Flatten(before) + RecordBytes(r) + Flatten(after)
  {
    FlattenConcat(before + [r], after);
    assert (before + [r])[..|before|] == before;
  }

  lemma Middle<T>(a: seq<T>, b: seq<T>, c: seq<T>, d: seq<T>, e: seq<T>)
    ensures var s := a + (b + c) + d + e;
      s[|a|..|a| + |b|] == b && s[|a| + |b|..|a| + |b| + |c|] == c
  {}

  lemma RecordAtBetween(before: seq<Record>, r: Record, after: seq<Record>, tail: seq<Byte>)
    ensures RecordAt(Flatten(before + [r] + after) + tail, 96 * |before|) == Whole(r)
  {
    FlattenThree(before, r, after);
    Middle(Flatten(before), r.payload, r.commitment, Flatten(after), tail);
  }

  lemma AroundIndex<T>(s: seq<T>, i: nat)
    requires i < |s|
    ensures s[..i] + [s[i]] + s[i + 1..] == s
  {}

  lemma RecordAtWhole(rs: seq<Record>, tail: seq<Byte>, i: nat)
    requires i < |rs|
    ensures RecordAt(Flatten(rs) + tail, 96 * i) == Whole(rs[i])
  {
    var before, after := rs[..i], rs[i + 1..];
    AroundIndex(rs, i);
    assert before + [rs[i]] + after == rs;
    RecordAtBetween(before, rs[i], after, tail);
  }

  function Min(a: nat, b: nat): nat { if a < b then a else b }

  /**
   * The verifier on any file of whole records with fewer than 96 bytes behind them, started at a record:
   * 0 if a link within reach is broken, -1 if it reaches the torn record, else 1.
   */
  lemma {:induction false} ReplayRecords(circuit: Circuit, rs: seq<Record>, tail: seq<Byte>, i: nat, expected: Block, count: nat)
    requires i <= |rs| && |tail| < 96
    ensures Replay(circuit, Flatten(rs) + tail, 96 * i, expected, count) ==
      if !ChainFrom(circuit, expected, rs[i..Min(i + count, |rs|)]) then 0
      else if i + count > |rs| && tail != [] then -1
      else 1
    decreases count
  {
    var file := Flatten(rs) + tail;
    ReplayWindow(rs, i, count);
    if count > 0 {
      ReplayStep(circuit, file, 96 * i, expected, count);
      if i < |rs| {
        RecordAtWhole(rs, tail, i);
        ReplayRecords(circuit, rs, tail, i + 1, rs[i].commitment, count - 1);
      }
    }
  }

  lemma ReplayWindow(rs: seq<Record>, i: nat, count: nat)
    requires i <= |rs|
    ensures var window := rs[i..Min(i + count, |rs|)];
      if count == 0 || i == |rs| then window == []
      else window != [] && window[0] == rs[i] && window[1..] == rs[i + 1..Min(i + 1 + (count - 1), |rs|)]
  {}

  /** A file of whole records passes exactly when every commitment within reach follows from the one before it. */
  lemma VerifyAcceptsChains(circuit: Circuit, rs: seq<Record>, count: nat)
    ensures Replay(circuit, Flatten(rs), 0, ZeroBlock(), count) ==
      if forall i :: 0 <= i < Min(count, |rs|) ==> LinkHolds(circuit, ZeroBlock(), rs, i) then 1 else 0
  {
    ReplayRecords(circuit, rs, [], 0, ZeroBlock(), count);
    assert Flatten(rs) + [] == Flatten(rs);
    var n := Min(count, |rs|);
    ChainPointwise(circuit, ZeroBlock(), rs[..n]);
    assert rs[0..Min(0 + count, |rs|)] == rs[..n];
    assert forall i :: 0 <= i < n ==> LinkHolds(circuit, ZeroBlock(), rs[..n], i) == LinkHolds(circuit, ZeroBlock(), rs, i);
  }

  /** A file of chained records passes for any count and ends in the last commitment. */
  lemma ChainFileVerifies(circuit: Circuit, rs: seq<Record>, count: nat)
    requires ChainFrom(circuit, ZeroBlock(), rs)
    ensures Replay(circuit, Flatten(rs), 0, ZeroBlock(), count) == 1
    ensures TipOf(Flatten(rs)) == Got(Previous(ZeroBlock(), rs, |rs|))
  {
    ChainPointwise(circuit, ZeroBlock(), rs);
    VerifyAcceptsChains(circuit, rs, count);
    if rs != [] {
      var r := rs[|rs| - 1];
      assert Flatten(rs)[|Flatten(rs)| - 32..] == r.commitment;
    }
  }

  // ---------- Appending ----------

  /** The commitment at the end of a chain. */
  function ChainTip(circuit: Circuit, prev: Block, payloads: seq<Payload>): Block
    decreases |payloads|
  {
    if payloads == [] then prev
    else circuit(ChainTip(circuit, prev, payloads[..|payloads| - 1]), payloads[|payloads| - 1])
  }

  /** The records that appending the payloads in turn produces. */
  function Sealed(circuit: Circuit, prev: Block, payloads: seq<Payload>): (rs: seq<Record>)
    ensures |rs| == |payloads|
    decreases |payloads|
  {
    if payloads == [] then []
    else
      var last := |payloads| - 1;
      Sealed(circuit, prev, payloads[..last]) + [Record(payloads[last], ChainTip(circuit, prev, payloads))]
  }

  lemma {:induction false} SealedAt(circuit: Circuit, prev: Block, payloads: seq<Payload>, i: nat)
    requires i < |payloads|
    ensures Sealed(circuit, prev, payloads)[i] == Record(payloads[i], ChainTip(circuit, prev, payloads[..i + 1]))
    decreases |payloads|
  {
    var last := |payloads| - 1;
    if i < last {
      SealedAt(circuit, prev, payloads[..last], i);
      assert payloads[..last][..i + 1] == payloads[..i + 1];
    } else {
      assert payloads[..i + 1] == payloads;
    }
  }

  lemma SealedIsChain(circuit: Circuit, prev: Block, payloads: seq<Payload>)
    ensures ChainFrom(circuit, prev, Sealed(circuit, prev, payloads))
  {
    var rs := Sealed(circuit, prev, payloads);
    forall i | 0 <= i < |rs| ensures LinkHolds(circuit, prev, rs, i) {
      SealedAt(circuit, prev, payloads, i);
      assert payloads[..i + 1][..i] == payloads[..i];
      if i > 0 {
        SealedAt(circuit, prev, payloads, i - 1);
      }
    }
    ChainPointwise(circuit, prev, rs);
  }

  /** The file after a run of appends. */
  function AppendRun(circuit: Circuit, file: seq<Byte>, payloads: seq<Payload>): seq<Byte>
    decreases |payloads|
  {
    if payloads == [] then file
    else Appended(circuit, AppendRun(circuit, file, payloads[..|payloads| - 1]), payloads[|payloads| - 1])
  }

  lemma TipOfSealed(circuit: Circuit, payloads: seq<Payload>)
    ensures TipOf(Flatten(Sealed(circuit, ZeroBlock(), payloads))) == Got(ChainTip(circuit, ZeroBlock(), payloads))
  {
    SealedIsChain(circuit, ZeroBlock(), payloads);
    ChainFileVerifies(circuit, Sealed(circuit, ZeroBlock(), payloads), 0);
  }

  lemma {:induction false} AppendRunSeals(circuit: Circuit, payloads: seq<Payload>)
    ensures AppendRun(circuit, [], payloads) == Flatten(Sealed(circuit, ZeroBlock(), payloads))
    decreases |payloads|
  {
    if payloads != [] {
      var front := payloads[..|payloads| - 1];
      AppendRunSeals(circuit, front);
      TipOfSealed(circuit, front);
      var rs := Sealed(circuit, ZeroBlock(), payloads);
      assert rs[..|rs| - 1] == Sealed(circuit, ZeroBlock(), front);
    }
  }

  /** Round trip: whatever was appended to an empty file has the expected length and tip and always verifies. */
  lemma AppendThenVerify(circuit: Circuit, payloads: seq<Payload>, count: nat)
    ensures var file := AppendRun(circuit, [], payloads);
      && |file| == 96 * |payloads|
      && TipOf(file) == Got(ChainTip(circuit, ZeroBlock(), payloads))
      && Replay(circuit, file, 0, ZeroBlock(), count) == 1
  {
    AppendRunSeals(circuit, payloads);
    TipOfSealed(circuit, payloads);
    SealedIsChain(circuit, ZeroBlock(), payloads);
    ChainFileVerifies(circuit, Sealed(circuit, ZeroBlock(), payloads), count);
  }

  // ---------- Detection of changes to a valid chain ----------

  lemma ReplayOfChange(circuit: Circuit, rs: seq<Record>, j: nat, r: Record, count: nat)
    requires ChainFrom(circuit, ZeroBlock(), rs) && j < |rs| && j < count
    requires r.commitment == rs[j].commitment || r.payload == rs[j].payload
    ensures Replay(circuit, Flatten(rs[j := r]), 0, ZeroBlock(), count) ==
      if r.commitment == rs[j].commitment && circuit(Previous(ZeroBlock(), rs, j), r.payload) == r.commitment
      then 1 else 0
  {
    var z, rs' := ZeroBlock(), rs[j := r];
    ChainPointwise(circuit, z, rs);
    VerifyAcceptsChains(circuit, rs', count);
    assert LinkHolds(circuit, z, rs, j);
    assert Previous(z, rs', j) == Previous(z, rs, j);
    forall i | 0 <= i < |rs| && i != j && r.commitment == rs[j].commitment
      ensures LinkHolds(circuit, z, rs', i)
    {
      assert LinkHolds(circuit, z, rs, i);
      assert Previous(z, rs', i) == Previous(z, rs, i);
    }
    assert LinkHolds(circuit, z, rs', j) <==> circuit(Previous(z, rs, j), r.payload) == r.commitment;
  }

  /** A changed commitment within reach of the verifier is always rejected. */
  lemma ChangedCommitmentRejected(circuit: Circuit, rs: seq<Record>, j: nat, c: Block, count: nat)
    requires ChainFrom(circuit, ZeroBlock(), rs) && j < |rs| && j < count
    requires c != rs[j].commitment
    ensures Replay(circuit, Flatten(rs[j := rs[j].(commitment := c)]), 0, ZeroBlock(), count) == 0
  {
    ReplayOfChange(circuit, rs, j, rs[j].(commitment := c), count);
  }

  /** Started at record i of a chain, the verifier takes the tip for zero: it accepts only if the real one is. */
  lemma VerifyFromMiddle(circuit: Circuit, rs: seq<Record>, i: nat, count: nat)
    requires ChainFrom(circuit, ZeroBlock(), rs) && 0 < i < |rs| && count > 0
    ensures Replay(circuit, Flatten(rs), 96 * i, ZeroBlock(), count) ==
      if circuit(ZeroBlock(), rs[i].payload) == circuit(rs[i - 1].commitment, rs[i].payload) then 1 else 0
  {
    var z, window := ZeroBlock(), rs[i..Min(i + count, |rs|)];
    assert Flatten(rs) + [] == Flatten(rs);
    ReplayRecords(circuit, rs, [], i, z, count);
    ChainPointwise(circuit, z, rs);
    ChainPointwise(circuit, z, window);
    assert LinkHolds(circuit, z, rs, i);
    assert LinkHolds(circuit, z, window, 0)
      <==> circuit(z, rs[i].payload) == circuit(rs[i - 1].commitment, rs[i].payload);
    forall k | 0 < k < |window| ensures LinkHolds(circuit, z, window, k) {
      assert LinkHolds(circuit, z, rs, i + k);
    }
  }
}
