/** The commitment file byte by byte: what an append writes, and what the verifier accepts, bit for bit. */
module LatticeBytes {
  import opened Bytes
  import opened LatticeRing
  import opened Lattice
  import opened LatticeTip

  /** Each bit of s is set exactly when an odd number of those of a, b and c are. */
  predicate SumIs(s: Byte, a: Byte, b: Byte, c: Byte) {
    && (s.b0 <==> (a.b0 <==> (b.b0 <==> c.b0))) && (s.b1 <==> (a.b1 <==> (b.b1 <==> c.b1)))
    && (s.b2 <==> (a.b2 <==> (b.b2 <==> c.b2))) && (s.b3 <==> (a.b3 <==> (b.b3 <==> c.b3)))
    && (s.b4 <==> (a.b4 <==> (b.b4 <==> c.b4))) && (s.b5 <==> (a.b5 <==> (b.b5 <==> c.b5)))
    && (s.b6 <==> (a.b6 <==> (b.b6 <==> c.b6))) && (s.b7 <==> (a.b7 <==> (b.b7 <==> c.b7)))
  }

  lemma SumIsXor(s: Byte, a: Byte, b: Byte, c: Byte)
    ensures SumIs(s, a, b, c) <==> s == Xor(a, Xor(b, c))
  {
  }

  /** Byte k of a commitment is the sum of byte k of the previous one, of the byte one place before k in the first half
      of the payload, and of the byte two places before k in the second half, both taken cyclically. */
  predicate ByteLinks(s: seq<Byte>, prev: seq<Byte>, payload: seq<Byte>, k: nat)
    requires |s| == 32 && |prev| == 32 && |payload| == 64 && k < 32
  {
    SumIs(s[k], prev[k], payload[if k == 0 then 31 else k - 1], payload[if k < 2 then 62 + k else 30 + k])
  }

  predicate Links(s: seq<Byte>, prev: seq<Byte>, payload: seq<Byte>)
    requires |s| == 32 && |prev| == 32 && |payload| == 64
  {
    forall k: nat :: k < 32 ==> ByteLinks(s, prev, payload, k)
  }

  lemma CommitByte(prev: Block, payload: Payload, k: nat, i: nat, j: nat)
    requires k < 32 && i == (k - 1) % 32 && j == 32 + (k - 2) % 32
    ensures Commit(prev, payload)[k] == Xor(prev[k], Xor(payload[i], payload[j]))
  {
    CommitIsXor(prev, payload);
    ContributionAt(payload, k);
  }

  lemma PlacesBack(k: nat, i: nat, j: nat)
    requires k < 32 && i == (if k == 0 then 31 else k - 1) && j == if k < 2 then 62 + k else 30 + k
    ensures i == (k - 1) % 32 && j == 32 + (k - 2) % 32
  {
  }

  lemma CommitAt(prev: Block, payload: Payload, s: Block, k: nat, c: Block)
    requires k < 32 && c == Commit(prev, payload)
    ensures ByteLinks(s, prev, payload, k) <==> s[k] == c[k]
  {
    var i, j := if k == 0 then 31 else k - 1, if k < 2 then 62 + k else 30 + k;
    PlacesBack(k, i, j);
    CommitByte(prev, payload, k, i, j);
    SumIsXor(s[k], prev[k], payload[i], payload[j]);
  }

  /** A commitment is computed from its predecessor and its payload exactly when its bytes are those sums. */
  lemma CommitIffLinks(prev: Block, payload: Payload, s: Block, c: Block)
    requires c == Commit(prev, payload)
    ensures s == c <==> Links(s, prev, payload)
  {
    forall k: nat | k < 32 ensures ByteLinks(s, prev, payload, k) <==> s[k] == c[k] {
      CommitAt(prev, payload, s, k, c);
    }
    if Links(s, prev, payload) {
      forall k: nat | k < 32 ensures s[k] == c[k] {
        assert ByteLinks(s, prev, payload, k);
      }
    }
  }

  // ---------- Appending ----------

  lemma AppendedBytes(circuit: Circuit, file: seq<Byte>, payload: Payload, prev: Block, after: seq<Byte>)
    requires |file| == 0 || |file| >= 32
    requires prev == (if file == [] then seq(32, _ => ZERO) else file[|file| - 32..])
    requires after == Appended(circuit, file, payload)
    ensures |after| == |file| + 96 && after[..|file|] == file && after[|file|..|file| + 64] == payload
    ensures after[|file| + 64..] == circuit(prev, payload)
  {
    var c := circuit(prev, payload);
    assert after == file + (payload + c) by {
      assert TipOf(file) == Got(prev);
    }
  }

  /** What an append makes of the bytes of a file. */
  lemma AppendWrites(file: seq<Byte>, payload: Payload, prev: seq<Byte>, after: seq<Byte>)
    requires prev == if |file| < 32 then seq(32, _ => ZERO) else file[|file| - 32..]
    requires after == Appended(Commit, file, payload)
    ensures 0 < |file| < 32 ==> after == file
    ensures |file| == 0 || |file| >= 32 ==>
      && |after| == |file| + 96 && after[..|file|] == file && after[|file|..|file| + 64] == payload
      && Links(after[|file| + 64..], prev, payload)
  {
    if |file| == 0 || |file| >= 32 {
      AppendedBytes(Commit, file, payload, prev, after);
      CommitIffLinks(prev, payload, after[|file| + 64..], Commit(prev, payload));
    }
  }

  // ---------- Verifying ----------

  /** The commitment of the record at a position links its payload to prev. */
  predicate LinksAt(file: seq<Byte>, at: nat, prev: seq<Byte>)
    requires at + 96 <= |file| && |prev| == 32
  {
    Links(file[at + 64..at + 96], prev, file[at..at + 64])
  }

  /** The i-th record from start on links to the commitment before it, the first of them to prev. */
  predicate LinksFrom(file: seq<Byte>, start: nat, prev: Block, i: nat)
    requires start + 96 * i + 96 <= |file|
  {
    LinksAt(file, start + 96 * i, if i == 0 then prev else file[start + 96 * i - 32..start + 96 * i])
  }

  lemma FollowsIffLinks(file: seq<Byte>, at: nat, prev: Block)
    requires at + 96 <= |file|
    ensures Follows(Commit, prev, Record(file[at..at + 64], file[at + 64..at + 96])) <==> LinksAt(file, at, prev)
  {
    CommitIffLinks(prev, file[at..at + 64], file[at + 64..at + 96], Commit(prev, file[at..at + 64]));
  }

  lemma LinksLater(file: seq<Byte>, start: nat, next: nat, prev: Block, stored: Block, i: nat)
    requires next == start + 96 && next + 96 * i + 96 <= |file| && stored == file[start + 64..start + 96]
    ensures LinksFrom(file, next, stored, i) <==> LinksFrom(file, start, prev, i + 1)
  {
  }

  /** The first w records from start on all link. */
  predicate AllLink(file: seq<Byte>, start: nat, prev: Block, w: nat)
    requires start + 96 * w <= |file|
  {
    forall i: nat :: i < w ==> LinksFrom(file, start, prev, i)
  }

  lemma AllLinkSplits(file: seq<Byte>, start: nat, next: nat, prev: Block, stored: Block, w: nat)
    requires next == start + 96 && w > 0 && start + 96 * w <= |file| && stored == file[start + 64..start + 96]
    ensures AllLink(file, start, prev, w) <==> LinksAt(file, start, prev) && AllLink(file, next, stored, w - 1)
  {
    assert LinksFrom(file, start, prev, 0) <==> LinksAt(file, start, prev);
    if AllLink(file, start, prev, w) {
      forall i: nat | i < w - 1 ensures LinksFrom(file, next, stored, i) {
        LinksLater(file, start, next, prev, stored, i);
      }
    }
    if LinksAt(file, start, prev) && AllLink(file, next, stored, w - 1) {
      forall i: nat | i < w ensures LinksFrom(file, start, prev, i) {
        if i > 0 {
          LinksLater(file, start, next, prev, stored, i - 1);
        }
      }
    }
  }

  /** Any file, from any start within it: with w whole records in reach, the verifier answers 0 if one of them does not
      link, -1 if all do but a torn record is reached, and 1 otherwise. */
  lemma {:induction false} VerifyDecided(file: seq<Byte>, start: nat, prev: Block, count: nat, w: nat)
    requires w <= count && start + 96 * w <= |file| && (w == count || |file| < start + 96 * w + 96)
    ensures Replay(Commit, file, start, prev, count)
      == if !AllLink(file, start, prev, w) then 0 else if w < count && start + 96 * w < |file| then -1 else 1
    decreases w
  {
    ReplayOnce(Commit, file, start, prev, count);
    if w > 0 {
      var stored, next := file[start + 64..start + 96], start + 96;
      FollowsIffLinks(file, start, prev);
      AllLinkSplits(file, start, next, prev, stored, w);
      VerifyDecided(file, next, stored, count - 1, w - 1);
    }
  }

  lemma ReplayOnce(circuit: Circuit, file: seq<Byte>, start: nat, prev: Block, count: nat)
    requires start <= |file|
    ensures count == 0 || start == |file| ==> Replay(circuit, file, start, prev, count) == 1
    ensures count > 0 && start < |file| < start + 96 ==> Replay(circuit, file, start, prev, count) == -1
    ensures count > 0 && start + 96 <= |file| ==>
      var stored := file[start + 64..start + 96];
      Replay(circuit, file, start, prev, count)
      == if Follows(circuit, prev, Record(file[start..start + 64], stored))
         then Replay(circuit, file, start + 96, stored, count - 1) else 0
  {
    if count > 0 {
      ReplayStep(circuit, file, start, prev, count);
    }
  }

  /** A start behind the end finds nothing to verify; one before the beginning cannot be read. */
  lemma VerifyOutside(file: seq<Byte>, start: int, prev: Block, count: nat)
    ensures start >= |file| ==> Replay(Commit, file, start, prev, count) == 1
    ensures start < 0 && count > 0 ==> Replay(Commit, file, start, prev, count) == -1
  {
  }
}
