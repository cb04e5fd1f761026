/** The commitment circuit of the lattice in closed form, and what follows for its chains. */
module LatticeTip {
  import opened Bytes
  import opened LatticeRing
  import opened Lattice
  import opened LatticeChain

  // ---------- The circuit is linear and invertible ----------

  function XorPayloads(p: Payload, q: Payload): (r: Payload)
    ensures forall i :: 0 <= i < 64 ==> r[i] == Xor(p[i], q[i])
  {
    seq(64, i requires 0 <= i < 64 => Xor(p[i], q[i]))
  }

  /** Byte k of a payload's contribution: a byte of each half, one and two places back. */
  lemma ContributionAt(p: Payload, k: nat)
    requires k < 32
    ensures Contribution(p)[k] == Xor(p[(k - 1) % 32], p[32 + (k - 2) % 32])
  {}

  lemma ContributionLinear(p: Payload, q: Payload)
    ensures Contribution(XorPayloads(p, q)) == XorBlocks(Contribution(p), Contribution(q))
  {
    forall k | 0 <= k < 32
      ensures Contribution(XorPayloads(p, q))[k] == XorBlocks(Contribution(p), Contribution(q))[k]
    {
      ContributionAt(p, k);
      ContributionAt(q, k);
      ContributionAt(XorPayloads(p, q), k);
      XorRegroup(p[(k - 1) % 32], q[(k - 1) % 32], p[32 + (k - 2) % 32], q[32 + (k - 2) % 32]);
    }
  }

  lemma XorBlocksRegroup(a: Block, b: Block, c: Block, d: Block)
    ensures XorBlocks(XorBlocks(a, b), XorBlocks(c, d)) == XorBlocks(XorBlocks(a, c), XorBlocks(b, d))
  {
    forall k | 0 <= k < 32
      ensures XorBlocks(XorBlocks(a, b), XorBlocks(c, d))[k] == XorBlocks(XorBlocks(a, c), XorBlocks(b, d))[k]
    {
      XorRegroup(a[k], b[k], c[k], d[k]);
    }
  }

  lemma CommitLinear(prev: Block, p: Payload, prev': Block, p': Payload)
    ensures Commit(XorBlocks(prev, prev'), XorPayloads(p, p')) == XorBlocks(Commit(prev, p), Commit(prev', p'))
  {
    CommitIsXor(prev, p);
    CommitIsXor(prev', p');
    CommitIsXor(XorBlocks(prev, prev'), XorPayloads(p, p'));
    ContributionLinear(p, p');
    XorBlocksRegroup(prev, prev', Contribution(p), Contribution(p'));
  }

  /** For a fixed payload every commitment has exactly one predecessor. */
  lemma CommitBijective(prev: Block, next: Block, p: Payload)
    ensures Commit(prev, p) == next <==> prev == XorBlocks(next, Contribution(p))
  {
    var c := Contribution(p);
    CommitIsXor(prev, p);
    XorBlocksAssociative(prev, c, c);
    XorBlocksAssociative(next, c, c);
    XorBlocksZero(c);
    XorBlocksZero(prev);
    XorBlocksZero(next);
  }

  /** For a fixed predecessor, payloads give the same commitment exactly when they contribute the same. */
  lemma CommitCollides(prev: Block, p: Payload, q: Payload)
    ensures Commit(prev, p) == Commit(prev, q) <==> Contribution(p) == Contribution(q)
  {
    CommitIsXor(prev, p);
    CommitIsXor(prev, q);
    XorBlocksCancel(prev, Contribution(p), Contribution(q));
  }

  // ---------- The tip in closed form ----------

  function Total(ps: seq<Payload>): Block
    decreases |ps|
  {
    if ps == [] then ZeroBlock() else XorBlocks(Total(ps[..|ps| - 1]), Contribution(ps[|ps| - 1]))
  }

  lemma {:induction false} TipIsTotal(prev: Block, ps: seq<Payload>)
    ensures ChainTip(Commit, prev, ps) == XorBlocks(prev, Total(ps))
    decreases |ps|
  {
    if ps == [] {
      XorBlocksZero(prev);
    } else {
      var front, p := ps[..|ps| - 1], ps[|ps| - 1];
      TipIsTotal(prev, front);
      CommitIsXor(ChainTip(Commit, prev, front), p);
      XorBlocksAssociative(prev, Total(front), Contribution(p));
    }
  }

  /** Byte k that payload i adds. */
  function TipTerm(ps: seq<Payload>, k: int): Terms {
    i => if 0 <= i < |ps| then Xor(ps[i][(k - 1) % 32], ps[i][32 + (k - 2) % 32]) else ZERO
  }

  lemma {:induction false} TotalAt(ps: seq<Payload>, k: nat)
    requires k < 32
    ensures Total(ps)[k] == XorSum(|ps|, TipTerm(ps, k))
    decreases |ps|
  {
    if ps != [] {
      var front, last := ps[..|ps| - 1], |ps| - 1;
      TotalAt(front, k);
      ContributionAt(ps[last], k);
      XorSumExt(last, TipTerm(front, k), TipTerm(ps, k));
    }
  }

  /** After any appends to an empty file, byte k of the tip is the sum of one byte from each payload half. */
  lemma TipClosedForm(ps: seq<Payload>, k: nat)
    requires k < 32
    ensures ChainTip(Commit, ZeroBlock(), ps)[k] == XorSum(|ps|, TipTerm(ps, k))
  {
    TipIsTotal(ZeroBlock(), ps);
    XorBlocksZero(Total(ps));
    TotalAt(ps, k);
  }

  function Without(ps: seq<Payload>, i: nat): seq<Payload>
    requires i < |ps|
  {
    ps[..i] + ps[i + 1..]
  }

  lemma {:induction false} TotalWithout(ps: seq<Payload>, i: nat)
    requires i < |ps|
    ensures Total(ps) == XorBlocks(Total(Without(ps, i)), Contribution(ps[i]))
    decreases |ps|
  {
    var last := |ps| - 1;
    if i == last {
      assert Without(ps, i) == ps[..last];
    } else {
      var front, rest := ps[..last], Without(ps, i);
      TotalWithout(front, i);
      assert rest[..|rest| - 1] == Without(front, i) && rest[|rest| - 1] == ps[last];
      XorBlocksSwap(Total(Without(front, i)), Contribution(ps[i]), Contribution(ps[last]));
    }
  }

  lemma XorBlocksSwap(t: Block, c: Block, d: Block)
    ensures XorBlocks(XorBlocks(t, c), d) == XorBlocks(XorBlocks(t, d), c)
  {
    XorBlocksAssociative(t, c, d);
    XorBlocksCommutative(c, d);
    XorBlocksAssociative(t, d, c);
  }

  lemma {:induction false} TotalOfPermutation(ps: seq<Payload>, qs: seq<Payload>)
    requires multiset(ps) == multiset(qs)
    ensures Total(ps) == Total(qs)
    decreases |ps|
  {
    if ps == [] {
      assert |multiset(qs)| == 0;
    } else {
      var last := |ps| - 1;
      var p := ps[last];
      assert ps == ps[..last] + [p];
      assert p in multiset(qs);
      var i :| 0 <= i < |qs| && qs[i] == p;
      assert qs == qs[..i] + [p] + qs[i + 1..];
      assert multiset(Without(qs, i)) == multiset(qs) - multiset{p};
      TotalOfPermutation(ps[..last], Without(qs, i));
      TotalWithout(qs, i);
    }
  }

  /** The tip does not depend on the order in which the payloads were appended. */
  lemma TipIgnoresOrder(prev: Block, ps: seq<Payload>, qs: seq<Payload>)
    requires multiset(ps) == multiset(qs)
    ensures ChainTip(Commit, prev, ps) == ChainTip(Commit, prev, qs)
  {
    TipIsTotal(prev, ps);
    TipIsTotal(prev, qs);
    TotalOfPermutation(ps, qs);
  }

  // ---------- Which changes of a payload are detected ----------

  predicate DeltaCancelsAt(p: Payload, q: Payload, k: int) {
    Xor(p[(k - 1) % 32], q[(k - 1) % 32]) == Xor(p[32 + (k - 2) % 32], q[32 + (k - 2) % 32])
  }

  /** The change from p to q in one half is hidden by the change in the other. */
  ghost predicate DeltasCancel(p: Payload, q: Payload) { forall k :: 0 <= k < 32 ==> DeltaCancelsAt(p, q, k) }

  lemma XorCrosses(a: Byte, b: Byte, c: Byte, d: Byte)
    ensures Xor(a, b) == Xor(c, d) <==> Xor(a, c) == Xor(b, d)
  {
    XorDetectsDifference(Xor(a, b), Xor(c, d));
    XorDetectsDifference(Xor(a, c), Xor(b, d));
    XorRegroup(a, b, c, d);
  }

  lemma ContributionsEqual(p: Payload, q: Payload)
    ensures Contribution(p) == Contribution(q) <==> DeltasCancel(p, q)
  {
    forall k | 0 <= k < 32
      ensures Contribution(p)[k] == Contribution(q)[k] <==> DeltaCancelsAt(p, q, k)
    {
      ContributionAt(p, k);
      ContributionAt(q, k);
      XorCrosses(p[(k - 1) % 32], p[32 + (k - 2) % 32], q[(k - 1) % 32], q[32 + (k - 2) % 32]);
    }
    assert (forall k :: 0 <= k < 32 ==> Contribution(p)[k] == Contribution(q)[k]) <==> Contribution(p) == Contribution(q);
  }

  /** A changed payload within reach passes the verifier exactly when its two deltas cancel. */
  lemma ChangedPayloadAccepted(rs: seq<Record>, j: nat, q: Payload, count: nat)
    requires ChainFrom(Commit, ZeroBlock(), rs) && j < |rs| && j < count
    ensures Replay(Commit, Flatten(rs[j := rs[j].(payload := q)]), 0, ZeroBlock(), count) ==
      if DeltasCancel(rs[j].payload, q) then 1 else 0
  {
    var prev := Previous(ZeroBlock(), rs, j);
    ReplayOfChange(Commit, rs, j, rs[j].(payload := q), count);
    ChainPointwise(Commit, ZeroBlock(), rs);
    assert LinkHolds(Commit, ZeroBlock(), rs, j);
    CommitCollides(prev, rs[j].payload, q);
    ContributionsEqual(rs[j].payload, q);
  }

  lemma XorSolves(b: Byte, q: Byte, d: Byte)
    ensures Xor(b, q) == d <==> q == Xor(b, d)
  {
  }

  /** The second half that hides a change of the first half of p. */
  function Compensated(p: Payload, first: Block): Payload {
    first + seq(32, i requires 0 <= i < 32 => Xor(p[32 + i], Xor(p[(i + 1) % 32], first[(i + 1) % 32])))
  }

  lemma CompensatedAt(p: Payload, first: Block, i: nat)
    requires i < 32
    ensures Compensated(p, first)[i] == first[i]
    ensures Compensated(p, first)[32 + i] == Xor(p[32 + i], Xor(p[(i + 1) % 32], first[(i + 1) % 32]))
  {
  }

  lemma CompensatesAt(p: Payload, q: Payload, i: nat, k: nat)
    requires i < 32 && k == (i + 2) % 32
    ensures DeltaCancelsAt(p, q, k) <==> q[32 + i] == Compensated(p, First(q))[32 + i]
  {
    assert (k - 1) % 32 == (i + 1) % 32 && (k - 2) % 32 == i;
    CompensatedAt(p, First(q), i);
    XorSolves(p[32 + i], q[32 + i], Xor(p[(i + 1) % 32], q[(i + 1) % 32]));
  }

  /** The byte of the second half that meets position k. */
  lemma TwoBack(k: nat) returns (i: nat)
    requires k < 32
    ensures i < 32 && k == (i + 2) % 32
  {
    i := if k < 2 then k + 30 else k - 2;
  }

  lemma CancellingAt(p: Payload, q: Payload, i: nat)
    requires DeltasCancel(p, q) && i < 64
    ensures q[i] == Compensated(p, First(q))[i]
  {
    if i < 32 {
      CompensatedAt(p, First(q), i);
    } else {
      var d := i - 32;
      var k := (d + 2) % 32;
      assert DeltaCancelsAt(p, q, k);
      CompensatesAt(p, q, d, k);
    }
  }

  lemma CancelsAt(p: Payload, q: Payload, k: nat)
    requires q == Compensated(p, First(q)) && k < 32
    ensures DeltaCancelsAt(p, q, k)
  {
    var i := TwoBack(k);
    CompensatesAt(p, q, i, k);
  }

  /** For every first half there is exactly one payload whose deltas from p cancel. */
  lemma CancellingPayload(p: Payload, q: Payload)
    ensures DeltasCancel(p, q) <==> q == Compensated(p, First(q))
  {
    if DeltasCancel(p, q) {
      forall i: nat | i < 64 ensures q[i] == Compensated(p, First(q))[i] {
        CancellingAt(p, q, i);
      }
    }
    if q == Compensated(p, First(q)) {
      forall k: nat | k < 32 ensures DeltaCancelsAt(p, q, k) {
        CancelsAt(p, q, k);
      }
    }
  }

  /** Every payload of a chain can be replaced unnoticed, and its first half by any other. */
  lemma UnnoticedChange(rs: seq<Record>, j: nat, first: Block, count: nat)
    requires ChainFrom(Commit, ZeroBlock(), rs) && j < |rs| && j < count && first != First(rs[j].payload)
    ensures var q := Compensated(rs[j].payload, first);
            q != rs[j].payload && First(q) == first
            && Replay(Commit, Flatten(rs[j := rs[j].(payload := q)]), 0, ZeroBlock(), count) == 1
  {
    var q := Compensated(rs[j].payload, first);
    assert First(q) == first;
    CancellingPayload(rs[j].payload, q);
    ChangedPayloadAccepted(rs, j, q, count);
  }

  /** A change confined to one half of a payload never cancels, so it is always rejected. */
  lemma OneHalfNeverCancels(p: Payload, q: Payload)
    requires p != q && (First(p) == First(q) || Second(p) == Second(q))
    ensures !DeltasCancel(p, q)
  {
    assert p == First(p) + Second(p) && q == First(q) + Second(q);
    if First(p) == First(q) {
      var i :| 0 <= i < 32 && Second(p)[i] != Second(q)[i];
      var k := (i + 2) % 32;
      assert (k - 2) % 32 == i;
      assert p[(k - 1) % 32] == First(p)[(k - 1) % 32] == q[(k - 1) % 32];
      XorZero(p[(k - 1) % 32]);
      XorDetectsDifference(p[32 + i], q[32 + i]);
      assert !DeltaCancelsAt(p, q, k);
    } else {
      var i :| 0 <= i < 32 && First(p)[i] != First(q)[i];
      var k := (i + 1) % 32;
      assert (k - 1) % 32 == i;
      assert p[32 + (k - 2) % 32] == Second(p)[(k - 2) % 32] == q[32 + (k - 2) % 32];
      XorZero(p[32 + (k - 2) % 32]);
      XorDetectsDifference(p[i], q[i]);
      assert !DeltaCancelsAt(p, q, k);
    }
  }

  /** Started inside a valid chain, the verifier accepts exactly when the commitment before the start is zero. */
  lemma VerifyFromMiddleAccepts(rs: seq<Record>, i: nat, count: nat)
    requires ChainFrom(Commit, ZeroBlock(), rs) && 0 < i < |rs| && count > 0
    ensures Replay(Commit, Flatten(rs), 96 * i, ZeroBlock(), count) ==
      if rs[i - 1].commitment == ZeroBlock() then 1 else 0
  {
    VerifyFromMiddle(Commit, rs, i, count);
    var p, next := rs[i].payload, Commit(rs[i - 1].commitment, rs[i].payload);
    CommitBijective(rs[i - 1].commitment, next, p);
    CommitBijective(ZeroBlock(), next, p);
  }
}
