/** The write-ahead-log kernel handle: like the lattice bridge's, but events carry their own offsets. */
module WalKernel {
  import opened Bytes
  import opened LatticeRing
  import opened Lattice
  import opened LatticeChain
  import opened HandleRuns
  import opened Widths

  const SEGMENT_LIMIT := 0x4000_0000
  const FIXED_HEADER_SIZE := 68
  const FIXED_FOOTER_SIZE := 128

  // ---------- Little-endian header fields ----------

  function Weighted(b: bool, weight: nat): nat { if b then weight else 0 }

  /** The value of the low four bits, of the low six, and of the whole byte. */
  function LowFour(b: Byte): nat { Weighted(b.b0, 1) + Weighted(b.b1, 2) + Weighted(b.b2, 4) + Weighted(b.b3, 8) }

  function LowSix(b: Byte): nat { LowFour(b) + Weighted(b.b4, 16) + Weighted(b.b5, 32) }

  function Value(b: Byte): (v: nat)
    ensures v < 256
  {
    LowSix(b) + Weighted(b.b6, 64) + Weighted(b.b7, 128)
  }

  function LittleEndian(bytes: seq<Byte>): nat {
    if bytes == [] then 0 else Value(bytes[0]) + 256 * LittleEndian(bytes[1..])
  }

  function Power256(n: nat): nat { if n == 0 then 1 else 256 * Power256(n - 1) }

  lemma {:induction false} LittleEndianFits(bytes: seq<Byte>)
    ensures LittleEndian(bytes) < Power256(|bytes|)
  {
    if bytes != [] {
      LittleEndianFits(bytes[1..]);
    }
  }

  lemma TopBits(low: nat, p: bool, p': bool, low': nat, q: bool, q': bool, weight: nat)
    requires low < weight && low' < weight
    requires low + Weighted(p, weight) + Weighted(p', 2 * weight) == low' + Weighted(q, weight) + Weighted(q', 2 * weight)
    ensures p == q && p' == q' && low == low'
  {}

  lemma LowFourInjective(a: Byte, b: Byte)
    requires LowFour(a) == LowFour(b)
    ensures a.b0 == b.b0 && a.b1 == b.b1 && a.b2 == b.b2 && a.b3 == b.b3
  {
    var a2, b2 := Weighted(a.b0, 1) + Weighted(a.b1, 2), Weighted(b.b0, 1) + Weighted(b.b1, 2);
    TopBits(a2, a.b2, a.b3, b2, b.b2, b.b3, 4);
    TopBits(0, a.b0, a.b1, 0, b.b0, b.b1, 1);
  }

  lemma ValueInjective(a: Byte, b: Byte)
    requires Value(a) == Value(b)
    ensures a == b
  {
    TopBits(LowSix(a), a.b6, a.b7, LowSix(b), b.b6, b.b7, 64);
    TopBits(LowFour(a), a.b4, a.b5, LowFour(b), b.b4, b.b5, 16);
    LowFourInjective(a, b);
  }

  lemma DigitsEqual(x: nat, r: nat, y: nat, q: nat)
    requires x < 256 && y < 256 && x + 256 * r == y + 256 * q
    ensures x == y && r == q
  {}

  /** Different fields of the same width have different values. */
  lemma {:induction false} LittleEndianInjective(xs: seq<Byte>, ys: seq<Byte>)
    requires |xs| == |ys| && LittleEndian(xs) == LittleEndian(ys)
    ensures xs == ys
  {
    if xs != [] {
      DigitsEqual(Value(xs[0]), LittleEndian(xs[1..]), Value(ys[0]), LittleEndian(ys[1..]));
      ValueInjective(xs[0], ys[0]);
      LittleEndianInjective(xs[1..], ys[1..]);
      assert xs == [xs[0]] + xs[1..] && ys == [ys[0]] + ys[1..];
    }
  }

  lemma HeaderFieldsFit(header: seq<Byte>)
    requires |header| == FIXED_HEADER_SIZE
    ensures LittleEndian(header[..8]) < TWO64 && LittleEndian(header[24..28]) < TWO32
  {
    LittleEndianFits(header[..8]);
    LittleEndianFits(header[24..28]);
    assert Power256(4) == TWO32;
    assert Power256(8) == 256 * (256 * (256 * (256 * Power256(4))));
  }

  lemma ScaledStep(scale: nat, v: nat, rest: nat)
    ensures scale * (v + 256 * rest) == v * scale + (scale * 256) * rest
  {}

  /** The byte loop; the shifted bytes occupy disjoint bits, so or-ing them in is adding them. */
  method ReadLittleEndian(bytes: seq<Byte>) returns (v: nat)
    ensures v == LittleEndian(bytes)
  {
    v := 0;
    var scale: nat := 1;
    for i := 0 to |bytes|
      invariant v + scale * LittleEndian(bytes[i..]) == LittleEndian(bytes)
    {
      ScaledStep(scale, Value(bytes[i]), LittleEndian(bytes[i + 1..]));
      v := v + Value(bytes[i]) * scale;
      scale := scale * 256;
    }
  }

  // ---------- Transitions ----------

  datatype State =
    State(segmentId: U64, sequence: U64, tipHash: Block, tipOffset: U64, eventsSealed: U64, segmentsRotated: U64)

  datatype Error =
    | InvalidHeader | InvalidFooter | HashChainBroken | InvalidCommitment | OffsetNotMonotonic | SegmentFull
    | SequenceNotMonotonic

  datatype Reply = Committed(offset: U64) | Rejected(error: Error)

  datatype Call =
    | Append(header: seq<Byte>, footer: seq<Byte>)
    | Rotate(id: U64, seqNo: U64)

  function Initial(id: U64, seqNo: U64): State { State(id, seqNo, ZeroBlock(), 0, 0, 0) }

  function OffsetOf(header: seq<Byte>): U64
    requires |header| == FIXED_HEADER_SIZE
  {
    HeaderFieldsFit(header);
    LittleEndian(header[..8])
  }

  /** The announced event size, in the unsigned 32-bit arithmetic of the bounds check. */
  function EventSize(header: seq<Byte>): nat
    requires |header| == FIXED_HEADER_SIZE
  {
    (FIXED_HEADER_SIZE + LittleEndian(header[24..28]) + FIXED_FOOTER_SIZE) % TWO32
  }

  function RecordOf(header: seq<Byte>, footer: seq<Byte>): Record
    requires |header| == FIXED_HEADER_SIZE && |footer| == FIXED_FOOTER_SIZE
  {
    Record(header[..64], footer[32..64])
  }

  function AppendReply(circuit: Circuit, s: State, header: seq<Byte>, footer: seq<Byte>): Reply {
    if |header| != FIXED_HEADER_SIZE then Rejected(InvalidHeader)
    else if |footer| != FIXED_FOOTER_SIZE then Rejected(InvalidFooter)
    else if s.eventsSealed > 0 && footer[..32] != s.tipHash then Rejected(HashChainBroken)
    else if !Follows(circuit, s.tipHash, RecordOf(header, footer)) then Rejected(InvalidCommitment)
    else if s.eventsSealed > 0 && OffsetOf(header) <= s.tipOffset then Rejected(OffsetNotMonotonic)
    else if EventSize(header) > SEGMENT_LIMIT then Rejected(SegmentFull)
    else Committed(s.tipOffset)
  }

  function ReplyTo(circuit: Circuit, s: State, call: Call): Reply {
    match call
    case Append(header, footer) => AppendReply(circuit, s, header, footer)
    case Rotate(_, seqNo) => if seqNo <= s.sequence then Rejected(SequenceNotMonotonic) else Committed(0)
  }

  /** The handle after a call; a rejected call changes nothing. */
  function Step(circuit: Circuit, s: State, call: Call): State {
    if ReplyTo(circuit, s, call).Rejected? then s
    else
      match call
      case Append(header, footer) =>
        s.(tipHash := footer[32..64], tipOffset := OffsetOf(header), eventsSealed := (s.eventsSealed + 1) % TWO64)
      case Rotate(id, seqNo) =>
        s.(segmentId := id, sequence := seqNo, tipOffset := 0, segmentsRotated := (s.segmentsRotated + 1) % TWO64)
  }

  // ---------- Runs ----------

  function Run(circuit: Circuit, s: State, calls: seq<Call>): State
    decreases |calls|
  {
    if calls == [] then s else Step(circuit, Run(circuit, s, calls[..|calls| - 1]), calls[|calls| - 1])
  }

  /** What a call does to the chain and to the segment sequence. */
  function EventOf(circuit: Circuit, s: State, call: Call): Event {
    if ReplyTo(circuit, s, call).Rejected? then Nothing
    else if call.Rotate? then Opened(call.seqNo)
    else Sealed(RecordOf(call.header, call.footer))
  }

  function Events(circuit: Circuit, s: State, calls: seq<Call>): (es: seq<Event>)
    ensures |es| == |calls|
    decreases |calls|
  {
    if calls == [] then []
    else
      var front, last := calls[..|calls| - 1], calls[|calls| - 1];
      Events(circuit, s, front) + [EventOf(circuit, Run(circuit, s, front), last)]
  }

  function CoreOf(s: State): Core { Core(s.tipHash, s.eventsSealed, s.sequence) }

  /** The offsets of the accepted events of the current segment after a call. */
  function NextOffsets(circuit: Circuit, s: State, call: Call, before: seq<int>): seq<int> {
    if ReplyTo(circuit, s, call).Rejected? then before
    else if call.Rotate? then []
    else before + [OffsetOf(call.header)]
  }

  function Offsets(circuit: Circuit, s: State, calls: seq<Call>): seq<int>
    decreases |calls|
  {
    if calls == [] then []
    else
      var front, last := calls[..|calls| - 1], calls[|calls| - 1];
      NextOffsets(circuit, Run(circuit, s, front), last, Offsets(circuit, s, front))
  }

  function LastOr(xs: seq<int>, default: int): int { if xs == [] then default else xs[|xs| - 1] }

  // ---------- What every run keeps ----------

  lemma StepIsAllowed(circuit: Circuit, s: State, call: Call)
    ensures CoreOf(Step(circuit, s, call)) == Advance(CoreOf(s), EventOf(circuit, s, call))
    ensures Allowed(circuit, CoreOf(s), EventOf(circuit, s, call))
  {
  }

  /** Every run of the handle is a legal run of seals and openings, and leaves the handle where they lead. */
  lemma {:induction false} RunIsLegal(circuit: Circuit, s: State, calls: seq<Call>)
    ensures CoreOf(Run(circuit, s, calls)) == After(CoreOf(s), Events(circuit, s, calls))
    ensures Legal(circuit, CoreOf(s), Events(circuit, s, calls))
    decreases |calls|
  {
    if calls != [] {
      var front, last := calls[..|calls| - 1], calls[|calls| - 1];
      var before := Run(circuit, s, front);
      RunIsLegal(circuit, s, front);
      StepIsAllowed(circuit, before, last);
      LegalSnoc(circuit, CoreOf(s), Events(circuit, s, front), EventOf(circuit, before, last));
    }
  }

  /** The handle refines the file: its accepted records, laid end to end, verify and end in its tip. */
  lemma HandleRefinesFile(circuit: Circuit, id: U64, seqNo: U64, calls: seq<Call>)
    ensures var s := Run(circuit, Initial(id, seqNo), calls);
      var rs := Records(Events(circuit, Initial(id, seqNo), calls));
      && s.eventsSealed == |rs| % TWO64
      && Replay(circuit, Flatten(rs), 0, ZeroBlock(), s.eventsSealed) == 1 && TipOf(Flatten(rs)) == Got(s.tipHash)
  {
    RunIsLegal(circuit, Initial(id, seqNo), calls);
    LegalRunRefinesFile(circuit, seqNo, Events(circuit, Initial(id, seqNo), calls));
  }

  /** The tip offset is the last offset of the segment, 0 at its start, and the offsets increase. */
  predicate OffsetsKept(s: State, offsets: seq<int>) {
    Increasing(offsets) && s.tipOffset == LastOr(offsets, 0) && (s.eventsSealed == 0 ==> offsets == [])
  }

  lemma StepKeepsOffsets(circuit: Circuit, s: State, call: Call, before: seq<int>)
    requires OffsetsKept(s, before) && s.eventsSealed + 1 < TWO64
    ensures OffsetsKept(Step(circuit, s, call), NextOffsets(circuit, s, call, before))
  {}

  lemma SealedAtMost(circuit: Circuit, id: U64, seqNo: U64, calls: seq<Call>)
    ensures Run(circuit, Initial(id, seqNo), calls).eventsSealed <= |calls|
  {
    HandleRefinesFile(circuit, id, seqNo, calls);
    ModuloAtMost(|Records(Events(circuit, Initial(id, seqNo), calls))|);
  }

  lemma ModuloAtMost(n: nat)
    ensures n % TWO64 <= n
  {
  }

  /**
   * Within a segment the accepted header offsets strictly increase, and an accepted append is told the
   * offset before its own, 0 at the start of a segment (for runs too short to wrap the event counter).
   */
  lemma {:induction false} RunKeepsOffsets(circuit: Circuit, id: U64, seqNo: U64, calls: seq<Call>, next: Call)
    requires |calls| < TWO64
    ensures OffsetsKept(Run(circuit, Initial(id, seqNo), calls), Offsets(circuit, Initial(id, seqNo), calls))
    ensures var reply := ReplyTo(circuit, Run(circuit, Initial(id, seqNo), calls), next);
      next.Append? && reply.Committed? ==> reply.offset == LastOr(Offsets(circuit, Initial(id, seqNo), calls), 0)
    decreases |calls|
  {
    if calls != [] {
      var front, last := calls[..|calls| - 1], calls[|calls| - 1];
      var s := Run(circuit, Initial(id, seqNo), front);
      RunKeepsOffsets(circuit, id, seqNo, front, last);
      SealedAtMost(circuit, id, seqNo, front);
      StepKeepsOffsets(circuit, s, last, Offsets(circuit, Initial(id, seqNo), front));
    }
  }

  /** Segment sequence numbers strictly increase across rotations. */
  lemma RunIncreasesSequence(circuit: Circuit, s: State, calls: seq<Call>)
    ensures OpensIncreasingly(s.sequence, Events(circuit, s, calls), Run(circuit, s, calls).sequence)
  {
    RunIsLegal(circuit, s, calls);
    LegalRunIncreasesSequence(circuit, CoreOf(s), Events(circuit, s, calls));
  }

  // ---------- What is accepted ----------

  /** The value of a byte, bit by bit. */
  predicate IsValue(b: Byte, v: int) {
    v == (if b.b0 then 1 else 0) + (if b.b1 then 2 else 0) + (if b.b2 then 4 else 0) + (if b.b3 then 8 else 0)
         + (if b.b4 then 16 else 0) + (if b.b5 then 32 else 0) + (if b.b6 then 64 else 0) + (if b.b7 then 128 else 0)
  }

  predicate AreValues(bytes: seq<Byte>, vs: seq<int>) {
    |bytes| == |vs| && forall i :: 0 <= i < |bytes| ==> IsValue(bytes[i], vs[i])
  }

  lemma FourBytes(bytes: seq<Byte>, vs: seq<int>)
    requires |bytes| >= 4 && AreValues(bytes, vs)
    ensures LittleEndian(bytes)
      == vs[0] + 256 * vs[1] + 65536 * vs[2] + 16777216 * vs[3] + 4294967296 * LittleEndian(bytes[4..])
  {
    var b1, b2, b3 := bytes[1..], bytes[2..], bytes[3..];
    assert b1[1..] == b2 && b2[1..] == b3 && b3[1..] == bytes[4..];
    assert Value(bytes[0]) == vs[0] && Value(b1[0]) == vs[1] && Value(b2[0]) == vs[2] && Value(b3[0]) == vs[3];
    assert LittleEndian(bytes) == vs[0] + 256 * LittleEndian(b1);
    assert LittleEndian(b1) == vs[1] + 256 * LittleEndian(b2);
    assert LittleEndian(b2) == vs[2] + 256 * LittleEndian(b3);
    assert LittleEndian(b3) == vs[3] + 256 * LittleEndian(bytes[4..]);
  }

  lemma FourBytesAlone(bytes: seq<Byte>, vs: seq<int>, v: int)
    requires |bytes| == 4 && AreValues(bytes, vs)
    requires v == vs[0] + 256 * vs[1] + 65536 * vs[2] + 16777216 * vs[3]
    ensures LittleEndian(bytes) == v
  {
    assert bytes[4..] == [];
    FourBytes(bytes, vs);
  }

  lemma EightBytes(bytes: seq<Byte>, vs: seq<int>)
    requires |bytes| == 8 && AreValues(bytes, vs)
    ensures LittleEndian(bytes)
      == vs[0] + 256 * vs[1] + 65536 * vs[2] + 16777216 * vs[3]
         + 4294967296 * (vs[4] + 256 * vs[5] + 65536 * vs[6] + 16777216 * vs[7])
  {
    var high, hs := bytes[4..], vs[4..];
    assert high[4..] == [];
    FourBytes(bytes, vs);
    FourBytes(high, hs);
  }

  /** The offset is bytes 0 to 7 of the header, lowest byte first. */
  lemma OffsetDecoded(header: seq<Byte>, vs: seq<int>)
    requires |header| == 68 && AreValues(header, vs)
    ensures OffsetOf(header)
      == vs[0] + 256 * vs[1] + 65536 * vs[2] + 16777216 * vs[3]
         + 4294967296 * (vs[4] + 256 * vs[5] + 65536 * vs[6] + 16777216 * vs[7])
  {
    EightBytes(header[..8], vs[..8]);
  }

  /** The announced payload size is bytes 24 to 27 of the header, lowest byte first; the sum wraps at 32 bits. */
  lemma SizeDecoded(header: seq<Byte>, vs: seq<int>, announced: int)
    requires |header| == 68 && AreValues(header, vs)
    requires announced == vs[24] + 256 * vs[25] + 65536 * vs[26] + 16777216 * vs[27]
    ensures EventSize(header) == (announced + 196) % 4294967296
  {
    var bytes, ws := header[24..28], vs[24..28];
    assert ws[0] == vs[24] && ws[1] == vs[25] && ws[2] == vs[26] && ws[3] == vs[27];
    FourBytesAlone(bytes, ws, announced);
  }

  /** The reply to an append, in plain numbers: when each refusal is given, and acceptance at the current offset. */
  lemma AppendDecided(circuit: Circuit, s: State, header: seq<Byte>, vs: seq<int>, footer: seq<Byte>,
                      offset: int, announced: int)
    requires AreValues(header, vs)
    requires |header| == 68 ==>
      && offset == vs[0] + 256 * vs[1] + 65536 * vs[2] + 16777216 * vs[3]
                   + 4294967296 * (vs[4] + 256 * vs[5] + 65536 * vs[6] + 16777216 * vs[7])
      && announced == vs[24] + 256 * vs[25] + 65536 * vs[26] + 16777216 * vs[27]
    ensures var r := ReplyTo(circuit, s, Append(header, footer));
      var sized := |header| == 68 && |footer| == 128;
      var linked := sized && (s.eventsSealed == 0 || footer[..32] == s.tipHash);
      var sealed := linked && footer[32..64] == circuit(s.tipHash, header[..64]);
      var forward := sealed && (s.eventsSealed == 0 || offset > s.tipOffset);
      && (r == Rejected(InvalidHeader) <==> |header| != 68)
      && (r == Rejected(InvalidFooter) <==> |header| == 68 && |footer| != 128)
      && (r == Rejected(HashChainBroken) <==> sized && !linked)
      && (r == Rejected(InvalidCommitment) <==> linked && !sealed)
      && (r == Rejected(OffsetNotMonotonic) <==> sealed && !forward)
      && (r == Rejected(SegmentFull) <==> forward && (announced + 196) % 4294967296 > 1073741824)
      && (r == Committed(s.tipOffset) <==> forward && (announced + 196) % 4294967296 <= 1073741824)
      && (r.Committed? ==> r == Committed(s.tipOffset))
  {
    if |header| == 68 {
      OffsetDecoded(header, vs);
      SizeDecoded(header, vs, announced);
    }
  }

  /** An accepted append moves the tip, the offset and the count, and nothing else; a rejected one changes nothing. */
  lemma AppendEffect(circuit: Circuit, s: State, header: seq<Byte>, vs: seq<int>, footer: seq<Byte>, offset: U64)
    requires |header| == 68 && AreValues(header, vs)
    requires offset == vs[0] + 256 * vs[1] + 65536 * vs[2] + 16777216 * vs[3]
                       + 4294967296 * (vs[4] + 256 * vs[5] + 65536 * vs[6] + 16777216 * vs[7])
    ensures var call := Append(header, footer);
      && (ReplyTo(circuit, s, call).Rejected? ==> Step(circuit, s, call) == s)
      && (ReplyTo(circuit, s, call).Committed? ==>
            && |footer| == 128
            && Step(circuit, s, call)
               == State(s.segmentId, s.sequence, footer[32..64], offset, (s.eventsSealed + 1) % 18446744073709551616,
                        s.segmentsRotated))
  {
    OffsetDecoded(header, vs);
  }

  /** A rotation is accepted exactly when the sequence grows; it starts the segment at 0 and keeps the chain. */
  lemma RotateDecided(circuit: Circuit, s: State, id: U64, seqNo: U64)
    ensures ReplyTo(circuit, s, Rotate(id, seqNo))
      == if seqNo > s.sequence then Committed(0) else Rejected(SequenceNotMonotonic)
    ensures Step(circuit, s, Rotate(id, seqNo))
      == if seqNo > s.sequence
         then State(id, seqNo, s.tipHash, 0, s.eventsSealed, (s.segmentsRotated + 1) % 18446744073709551616) else s
  {
  }

  // ---------- Runs that are accepted whole ----------

  /** An event that its writer is about to commit: its header, and what the footer holds behind the two hashes. */
  datatype Draft = Draft(header: seq<Byte>, rest: seq<Byte>)

  /** Headers and footers of the right length, events of admissible size, and offsets that increase beyond `from`. */
  predicate WellFormed(drafts: seq<Draft>, from: int)
    decreases |drafts|
  {
    drafts == [] ||
    var front, last := drafts[..|drafts| - 1], drafts[|drafts| - 1];
    && WellFormed(front, from)
    && |last.header| == 68 && |last.rest| == 64 && EventSize(last.header) <= 1073741824
    && OffsetOf(last.header) > LastOffset(front, from)
  }

  function LastOffset(drafts: seq<Draft>, from: int): int {
    if drafts == [] || |drafts[|drafts| - 1].header| != 68 then from else OffsetOf(drafts[|drafts| - 1].header)
  }

  /** Where the offsets of a run begin: the first event of a handle may have any offset. */
  function From(s: State): int { if s.eventsSealed == 0 then -1 else s.tipOffset }

  /** The tip after these events, each committed behind the one before. */
  function TipAfter(circuit: Circuit, tip: Block, drafts: seq<Draft>, from: int): Block
    requires WellFormed(drafts, from)
    decreases |drafts|
  {
    if drafts == [] then tip
    else circuit(TipAfter(circuit, tip, drafts[..|drafts| - 1], from), drafts[|drafts| - 1].header[..64])
  }

  /** The call for one event: its footer holds the running tip, the commitment and the rest. */
  function CallFor(circuit: Circuit, tip: Block, draft: Draft): Call
    requires |draft.header| == 68
  {
    Append(draft.header, tip + circuit(tip, draft.header[..64]) + draft.rest)
  }

  function CallsFor(circuit: Circuit, tip: Block, drafts: seq<Draft>, from: int): (calls: seq<Call>)
    requires WellFormed(drafts, from)
    ensures |calls| == |drafts|
    decreases |drafts|
  {
    if drafts == [] then []
    else
      var front, last := drafts[..|drafts| - 1], drafts[|drafts| - 1];
      CallsFor(circuit, tip, front, from) + [CallFor(circuit, TipAfter(circuit, tip, front, from), last)]
  }

  /** A well-formed event of admissible size and greater offset is accepted, whatever was sealed before. */
  lemma WellFormedAccepted(circuit: Circuit, s: State, draft: Draft)
    requires |draft.header| == 68 && |draft.rest| == 64 && EventSize(draft.header) <= 1073741824
    requires s.eventsSealed == 0 || OffsetOf(draft.header) > s.tipOffset
    ensures ReplyTo(circuit, s, CallFor(circuit, s.tipHash, draft)) == Committed(s.tipOffset)
    ensures Step(circuit, s, CallFor(circuit, s.tipHash, draft))
      == State(s.segmentId, s.sequence, circuit(s.tipHash, draft.header[..64]), OffsetOf(draft.header),
               (s.eventsSealed + 1) % 18446744073709551616, s.segmentsRotated)
  {
    var c := circuit(s.tipHash, draft.header[..64]);
    var footer := s.tipHash + c + draft.rest;
    assert footer[..32] == s.tipHash && footer[32..64] == c;
  }

  /** The handle once these events are sealed, and so accepted whole. */
  predicate SealsAll(circuit: Circuit, s: State, drafts: seq<Draft>, after: State)
    requires WellFormed(drafts, From(s))
  {
    && after.segmentId == s.segmentId && after.sequence == s.sequence && after.segmentsRotated == s.segmentsRotated
    && after.tipHash == TipAfter(circuit, s.tipHash, drafts, From(s))
    && after.tipOffset == (if drafts == [] then s.tipOffset else LastOffset(drafts, From(s)))
    && after.eventsSealed == (s.eventsSealed + |drafts|) % 18446744073709551616
  }

  lemma CountsAdd(a: nat, b: nat, c: nat)
    requires c == b + 1
    ensures ((a + b) % 18446744073709551616 + 1) % 18446744073709551616 == (a + c) % 18446744073709551616
  {
  }

  lemma FrontSplits(circuit: Circuit, tip: Block, front: seq<Draft>, last: Draft, all: seq<Draft>, from: int)
    requires all == front + [last] && WellFormed(all, from)
    ensures WellFormed(front, from) && |last.header| == 68 && |last.rest| == 64
    ensures EventSize(last.header) <= 1073741824 && OffsetOf(last.header) > LastOffset(front, from)
    ensures LastOffset(all, from) == OffsetOf(last.header)
    ensures TipAfter(circuit, tip, all, from) == circuit(TipAfter(circuit, tip, front, from), last.header[..64])
  {
    assert all[..|all| - 1] == front && all[|all| - 1] == last;
  }

  /** Sealing one event more behind those that `before` has sealed. */
  lemma OneMore(circuit: Circuit, s: State, front: seq<Draft>, last: Draft, all: seq<Draft>, before: State, after: State)
    requires all == front + [last] && WellFormed(all, From(s)) && WellFormed(front, From(s)) && |last.header| == 68
    requires SealsAll(circuit, s, front, before)
    requires after == State(before.segmentId, before.sequence, circuit(before.tipHash, last.header[..64]),
                            OffsetOf(last.header), (before.eventsSealed + 1) % 18446744073709551616,
                            before.segmentsRotated)
    ensures SealsAll(circuit, s, all, after)
  {
    FrontSplits(circuit, s.tipHash, front, last, all, From(s));
    CountsAdd(s.eventsSealed, |front|, |all|);
  }

  /** The next event lies beyond the tip, unless it is the first of all. */
  lemma NextIsForward(circuit: Circuit, s: State, front: seq<Draft>, last: Draft, all: seq<Draft>, before: State)
    requires all == front + [last] && WellFormed(all, From(s)) && WellFormed(front, From(s))
    requires SealsAll(circuit, s, front, before)
    ensures |last.header| == 68 && |last.rest| == 64 && EventSize(last.header) <= 1073741824
    ensures before.eventsSealed == 0 || OffsetOf(last.header) > before.tipOffset
  {
    FrontSplits(circuit, s.tipHash, front, last, all, From(s));
    if front == [] {
      assert LastOffset(front, From(s)) == From(s) && before.eventsSealed == s.eventsSealed;
    }
  }

  lemma LastSealed(circuit: Circuit, s: State, front: seq<Draft>, last: Draft, all: seq<Draft>, before: State)
    requires all == front + [last] && WellFormed(all, From(s)) && WellFormed(front, From(s)) && |last.header| == 68
    requires SealsAll(circuit, s, front, before)
    ensures SealsAll(circuit, s, all, Step(circuit, before, CallFor(circuit, before.tipHash, last)))
    ensures ReplyTo(circuit, before, CallFor(circuit, before.tipHash, last)) == Committed(before.tipOffset)
  {
    NextIsForward(circuit, s, front, last, all, before);
    var after := Step(circuit, before, CallFor(circuit, before.tipHash, last));
    assert && ReplyTo(circuit, before, CallFor(circuit, before.tipHash, last)) == Committed(before.tipOffset)
           && after == State(before.segmentId, before.sequence, circuit(before.tipHash, last.header[..64]),
                             OffsetOf(last.header), (before.eventsSealed + 1) % 18446744073709551616,
                             before.segmentsRotated) by {
      WellFormedAccepted(circuit, before, last);
    }
    OneMore(circuit, s, front, last, all, before, after);
  }

  /** The run over all events is the run over those in front, and one step. */
  lemma RunSplits(circuit: Circuit, s: State, front: seq<Draft>, last: Draft, all: seq<Draft>, from: int)
    requires all == front + [last] && WellFormed(all, from) && WellFormed(front, from) && |last.header| == 68
    ensures Run(circuit, s, CallsFor(circuit, s.tipHash, all, from))
      == Step(circuit, Run(circuit, s, CallsFor(circuit, s.tipHash, front, from)),
              CallFor(circuit, TipAfter(circuit, s.tipHash, front, from), last))
  {
    assert all[..|all| - 1] == front && all[|all| - 1] == last;
    var calls := CallsFor(circuit, s.tipHash, all, from);
    assert calls[..|calls| - 1] == CallsFor(circuit, s.tipHash, front, from);
  }

  /** Any such events, committed behind the running tip, are all accepted. */
  lemma {:induction false} WellFormedRunAccepted(circuit: Circuit, s: State, drafts: seq<Draft>)
    requires WellFormed(drafts, From(s))
    ensures SealsAll(circuit, s, drafts, Run(circuit, s, CallsFor(circuit, s.tipHash, drafts, From(s))))
    decreases |drafts|
  {
    if drafts != [] {
      var front, last := drafts[..|drafts| - 1], drafts[|drafts| - 1];
      assert drafts == front + [last];
      WellFormedRunAccepted(circuit, s, front);
      RunSplits(circuit, s, front, last, drafts, From(s));
      LastSealed(circuit, s, front, last, drafts, Run(circuit, s, CallsFor(circuit, s.tipHash, front, From(s))));
    }
  }

  // ---------- The handle ----------

  class WalHandle {
    var segmentId: U64
    var sequence: U64
    var tipHash: Block
    var tipOffset: U64
    var eventsSealed: U64
    var segmentsRotated: U64

    ghost function Current(): State
      reads this
    {
      State(segmentId, sequence, tipHash, tipOffset, eventsSealed, segmentsRotated)
    }

    constructor (segId: U64, seqNo: U64)
      ensures Current() == Initial(segId, seqNo)
      ensures segmentId == segId && sequence == seqNo && (forall i :: 0 <= i < 32 ==> tipHash[i] == ZERO)
      ensures tipOffset == 0 && eventsSealed == 0 && segmentsRotated == 0
    {
      segmentId := segId;
      sequence := seqNo;
      tipHash := ZeroBlock();
      tipOffset := 0;
      eventsSealed := 0;
      segmentsRotated := 0;
    }

    method CheckCommitment(header: seq<Byte>, footer: seq<Byte>) returns (ok: bool)
      requires |header| == FIXED_HEADER_SIZE && |footer| == FIXED_FOOTER_SIZE
      ensures ok <==> Follows(Commit, tipHash, RecordOf(header, footer))
    {
      var computed := new Byte[32];
      ok := CheckRecord(tipHash, Record(header[..64], footer[32..64]), computed);
    }

    /** The payload binary itself plays no part: only the size announced in the header does. */
    method AppendEvent(header: seq<Byte>, payload: seq<Byte>, footer: seq<Byte>) returns (reply: Reply)
      modifies this
      ensures reply == ReplyTo(Commit, old(Current()), Append(header, footer))
      ensures Current() == Step(Commit, old(Current()), Append(header, footer))
      ensures reply.Committed? ==> |footer| == 128 && tipHash == footer[32..64] && reply.offset == old(tipOffset)
      ensures segmentId == old(segmentId) && sequence == old(sequence)
    {
      if |header| != FIXED_HEADER_SIZE {
        return Rejected(InvalidHeader);
      }
      if |footer| != FIXED_FOOTER_SIZE {
        return Rejected(InvalidFooter);
      }
      if eventsSealed > 0 {
        var differ := Differ(footer[..32], tipHash);
        if differ {
          return Rejected(HashChainBroken);
        }
      }
      var ok := CheckCommitment(header, footer);
      if !ok {
        return Rejected(InvalidCommitment);
      }
      HeaderFieldsFit(header);
      var newOffset := ReadLittleEndian(header[..8]);
      if eventsSealed > 0 && newOffset <= tipOffset {
        return Rejected(OffsetNotMonotonic);
      }
      var payloadSize := ReadLittleEndian(header[24..28]);
      var eventSize := (FIXED_HEADER_SIZE + payloadSize + FIXED_FOOTER_SIZE) % TWO32;
      if eventSize > SEGMENT_LIMIT {
        return Rejected(SegmentFull);
      }
      var committed := tipOffset;
      tipHash := footer[32..64];
      tipOffset := newOffset;
      eventsSealed := (eventsSealed + 1) % TWO64;
      return Committed(committed);
    }

    method RotateSegment(newId: U64, newSeq: U64) returns (reply: Reply)
      modifies this
      ensures reply == ReplyTo(Commit, old(Current()), Rotate(newId, newSeq))
      ensures Current() == Step(Commit, old(Current()), Rotate(newId, newSeq))
      ensures newSeq > old(sequence) ==> segmentId == newId && sequence == newSeq && tipOffset == 0
      ensures tipHash == old(tipHash) && eventsSealed == old(eventsSealed)
    {
      if newSeq <= sequence {
        return Rejected(SequenceNotMonotonic);
      }
      segmentId := newId;
      sequence := newSeq;
      tipOffset := 0;
      segmentsRotated := (segmentsRotated + 1) % TWO64;
      return Committed(0);
    }
  }
}
