/** The in-memory kernel handle of the lattice bridge: it admits or rejects events and rotates segments. */
module SegmentKernel {
  import opened Bytes
  import opened LatticeRing
  import opened Lattice
  import opened LatticeChain
  import opened HandleRuns
  import opened Widths

  const SEGMENT_LIMIT := 0x4000_0000
  const FIXED_HEADER_SIZE := 68
  const FIXED_FOOTER_SIZE := 64

  datatype State = State(segmentId: U64, sequence: U64, tip: Block, tipOffset: U64, eventsSealed: U64, segmentsRotated: U64)

  datatype Error = InvalidHeader | InvalidFooter | SegmentFull | HashChainBroken | InvalidCommitment | SequenceNotMonotonic

  datatype Reply = Committed(offset: U64) | Rejected(error: Error)

  datatype Call =
    | Append(header: seq<Byte>, payload: seq<Byte>, footer: seq<Byte>)
    | Rotate(id: U64, seqNo: U64)

  function Initial(id: U64, seqNo: U64): State { State(id, seqNo, ZeroBlock(), 0, 0, 0) }

  /** The size of an event in the unsigned 64-bit arithmetic of the bounds check. */
  function EventSize(payload: seq<Byte>): U64 { (FIXED_HEADER_SIZE + |payload| + FIXED_FOOTER_SIZE) % TWO64 }

  /** The room that the bounds check computes, wrapping if the tip were ever beyond the limit. */
  function Room(s: State): U64 { (SEGMENT_LIMIT - s.tipOffset) % TWO64 }

  /** The record that an accepted append adds to the chain. */
  function RecordOf(header: seq<Byte>, footer: seq<Byte>): Record
    requires |header| == FIXED_HEADER_SIZE && |footer| == FIXED_FOOTER_SIZE
  {
    Record(header[..64], footer[32..])
  }

  function AppendReply(circuit: Circuit, s: State, header: seq<Byte>, payload: seq<Byte>, footer: seq<Byte>): Reply {
    if |header| != FIXED_HEADER_SIZE then Rejected(InvalidHeader)
    else if |footer| != FIXED_FOOTER_SIZE then Rejected(InvalidFooter)
    else if EventSize(payload) > Room(s) then Rejected(SegmentFull)
    else if s.eventsSealed > 0 && footer[..32] != s.tip then Rejected(HashChainBroken)
    else if !Follows(circuit, s.tip, RecordOf(header, footer)) then Rejected(InvalidCommitment)
    else Committed(s.tipOffset)
  }

  function ReplyTo(circuit: Circuit, s: State, call: Call): Reply {
    match call
    case Append(header, payload, footer) => AppendReply(circuit, s, header, payload, footer)
    case Rotate(_, seqNo) => if seqNo <= s.sequence then Rejected(SequenceNotMonotonic) else Committed(0)
  }

  /** The handle after a call; a rejected call changes nothing. */
  function Step(circuit: Circuit, s: State, call: Call): State {
    if ReplyTo(circuit, s, call).Rejected? then s
    else
      match call
      case Append(header, payload, footer) =>
        s.(tip := footer[32..],
           tipOffset := (s.tipOffset + EventSize(payload)) % TWO64,
           eventsSealed := (s.eventsSealed + 1) % TWO64)
      case Rotate(id, seqNo) =>
        s.(segmentId := id, sequence := seqNo, tipOffset := 0, segmentsRotated := (s.segmentsRotated + 1) % TWO64)
  }

  // ---------- Runs ----------

  function Run(circuit: Circuit, s: State, calls: seq<Call>): State
    decreases |calls|
  {
    if calls == [] then s else Step(circuit, Run(circuit, s, calls[..|calls| - 1]), calls[|calls| - 1])
  }

  /** What a call does to the chain and to the segment sequence. */
  function EventOf(circuit: Circuit, s: State, call: Call): Event {
    if ReplyTo(circuit, s, call).Rejected? then Nothing
    else if call.Rotate? then Opened(call.seqNo)
    else Sealed(RecordOf(call.header, call.footer))
  }

  function Events(circuit: Circuit, s: State, calls: seq<Call>): (es: seq<Event>)
    ensures |es| == |calls|
    decreases |calls|
  {
    if calls == [] then []
    else
      var front, last := calls[..|calls| - 1], calls[|calls| - 1];
      Events(circuit, s, front) + [EventOf(circuit, Run(circuit, s, front), last)]
  }

  function CoreOf(s: State): Core { Core(s.tip, s.eventsSealed, s.sequence) }

  datatype Extent = Extent(start: int, size: int)

  function TrueSize(payload: seq<Byte>): nat { FIXED_HEADER_SIZE + |payload| + FIXED_FOOTER_SIZE }

  /** The events of the current segment after a call: where they start and how long they really are. */
  function NextExtents(circuit: Circuit, s: State, call: Call, before: seq<Extent>): seq<Extent> {
    match ReplyTo(circuit, s, call)
    case Rejected(_) => before
    case Committed(offset) => if call.Rotate? then [] else before + [Extent(offset, TrueSize(call.payload))]
  }

  function Extents(circuit: Circuit, s: State, calls: seq<Call>): seq<Extent>
    decreases |calls|
  {
    if calls == [] then []
    else
      var front, last := calls[..|calls| - 1], calls[|calls| - 1];
      NextExtents(circuit, Run(circuit, s, front), last, Extents(circuit, s, front))
  }

  /** Consecutive extents cover [0, total) without gap or overlap. */
  predicate Tiles(extents: seq<Extent>, total: int)
    decreases |extents|
  {
    if extents == [] then total == 0
    else
      var last := extents[|extents| - 1];
      last.size > 0 && last.start + last.size == total && Tiles(extents[..|extents| - 1], last.start)
  }

  /** A payload so small that the size of its event does not wrap a size_t. */
  predicate SizeFits(call: Call) { call.Append? ==> TrueSize(call.payload) < TWO64 }

  // ---------- What every run keeps ----------

  lemma StepIsAllowed(circuit: Circuit, s: State, call: Call)
    ensures CoreOf(Step(circuit, s, call)) == Advance(CoreOf(s), EventOf(circuit, s, call))
    ensures Allowed(circuit, CoreOf(s), EventOf(circuit, s, call))
  {
  }

  /** Every run of the handle is a legal run of seals and openings, and leaves the handle where they lead. */
  lemma {:induction false} RunIsLegal(circuit: Circuit, s: State, calls: seq<Call>)
    ensures CoreOf(Run(circuit, s, calls)) == After(CoreOf(s), Events(circuit, s, calls))
    ensures Legal(circuit, CoreOf(s), Events(circuit, s, calls))
    decreases |calls|
  {
    if calls != [] {
      var front, last := calls[..|calls| - 1], calls[|calls| - 1];
      var before := Run(circuit, s, front);
      RunIsLegal(circuit, s, front);
      StepIsAllowed(circuit, before, last);
      LegalSnoc(circuit, CoreOf(s), Events(circuit, s, front), EventOf(circuit, before, last));
    }
  }

  /** The handle refines the file: its accepted records, laid end to end, verify and end in its tip. */
  lemma HandleRefinesFile(circuit: Circuit, id: U64, seqNo: U64, calls: seq<Call>)
    ensures var s := Run(circuit, Initial(id, seqNo), calls);
      var rs := Records(Events(circuit, Initial(id, seqNo), calls));
      && s.eventsSealed == |rs| % TWO64
      && Replay(circuit, Flatten(rs), 0, ZeroBlock(), s.eventsSealed) == 1 && TipOf(Flatten(rs)) == Got(s.tip)
  {
    RunIsLegal(circuit, Initial(id, seqNo), calls);
    LegalRunRefinesFile(circuit, seqNo, Events(circuit, Initial(id, seqNo), calls));
  }

  lemma StepTilesSegment(circuit: Circuit, s: State, call: Call, before: seq<Extent>)
    requires s.tipOffset <= SEGMENT_LIMIT
    ensures Step(circuit, s, call).tipOffset <= SEGMENT_LIMIT
    ensures SizeFits(call) && Tiles(before, s.tipOffset) ==>
      Tiles(NextExtents(circuit, s, call, before), Step(circuit, s, call).tipOffset)
  {
    var after := NextExtents(circuit, s, call, before);
    if |after| > |before| {
      assert after[..|after| - 1] == before;
    }
  }

  /** The tip never passes the limit, so the room is exact; and the events of the segment tile [0, tip). */
  lemma {:induction false} RunTilesSegment(circuit: Circuit, id: U64, seqNo: U64, calls: seq<Call>)
    ensures var s := Run(circuit, Initial(id, seqNo), calls);
      && s.tipOffset <= SEGMENT_LIMIT && Room(s) == SEGMENT_LIMIT - s.tipOffset
      && ((forall call :: call in calls ==> SizeFits(call)) ==>
            Tiles(Extents(circuit, Initial(id, seqNo), calls), s.tipOffset))
    decreases |calls|
  {
    if calls != [] {
      var front, last := calls[..|calls| - 1], calls[|calls| - 1];
      RunTilesSegment(circuit, id, seqNo, front);
      StepTilesSegment(circuit, Run(circuit, Initial(id, seqNo), front), last, Extents(circuit, Initial(id, seqNo), front));
      assert forall call :: call in front ==> call in calls;
    }
  }

  /** Segment sequence numbers strictly increase across rotations. */
  lemma RunIncreasesSequence(circuit: Circuit, s: State, calls: seq<Call>)
    ensures OpensIncreasingly(s.sequence, Events(circuit, s, calls), Run(circuit, s, calls).sequence)
  {
    RunIsLegal(circuit, s, calls);
    LegalRunIncreasesSequence(circuit, CoreOf(s), Events(circuit, s, calls));
  }

  // ---------- What is accepted ----------

  /** The reply to an append, in plain numbers: when each refusal is given, and acceptance at the current offset. */
  lemma AppendDecided(circuit: Circuit, s: State, header: seq<Byte>, payload: seq<Byte>, footer: seq<Byte>)
    ensures var r := ReplyTo(circuit, s, Append(header, payload, footer));
      var sized := |header| == 68 && |footer| == 64;
      var roomy := sized
        && (132 + |payload|) % 18446744073709551616 <= (1073741824 - s.tipOffset) % 18446744073709551616;
      var linked := roomy && (s.eventsSealed == 0 || footer[..32] == s.tip);
      && (r == Rejected(InvalidHeader) <==> |header| != 68)
      && (r == Rejected(InvalidFooter) <==> |header| == 68 && |footer| != 64)
      && (r == Rejected(SegmentFull) <==> sized && !roomy)
      && (r == Rejected(HashChainBroken) <==> roomy && !linked)
      && (r == Rejected(InvalidCommitment) <==> linked && footer[32..] != circuit(s.tip, header[..64]))
      && (r == Committed(s.tipOffset) <==> linked && footer[32..] == circuit(s.tip, header[..64]))
      && (r.Committed? ==> r == Committed(s.tipOffset))
  {
  }

  /** At every offset a run can reach, and for every payload that fits in memory, nothing wraps. */
  lemma AppendFits(circuit: Circuit, s: State, header: seq<Byte>, payload: seq<Byte>, footer: seq<Byte>)
    requires s.tipOffset <= 1073741824 && 132 + |payload| < 18446744073709551616
    ensures ReplyTo(circuit, s, Append(header, payload, footer)) == Committed(s.tipOffset)
      <==> && |header| == 68 && |footer| == 64 && 132 + |payload| <= 1073741824 - s.tipOffset
           && (s.eventsSealed == 0 || footer[..32] == s.tip)
           && footer[32..] == circuit(s.tip, header[..64])
  {
    AppendDecided(circuit, s, header, payload, footer);
  }

  lemma WrapOnce(a: nat, b: nat)
    ensures (a + b % TWO64) % TWO64 == (a + b) % TWO64
  {
  }

  /** An accepted append moves the tip, the offset and the count, and nothing else; a rejected one changes nothing. */
  lemma AppendEffect(circuit: Circuit, s: State, header: seq<Byte>, payload: seq<Byte>, footer: seq<Byte>)
    ensures var call := Append(header, payload, footer);
      && (ReplyTo(circuit, s, call).Rejected? ==> Step(circuit, s, call) == s)
      && (ReplyTo(circuit, s, call).Committed? ==>
            && |footer| == 64
            && Step(circuit, s, call)
               == State(s.segmentId, s.sequence, footer[32..], (s.tipOffset + (132 + |payload|)) % 18446744073709551616,
                        (s.eventsSealed + 1) % 18446744073709551616, s.segmentsRotated))
  {
    AppendDecided(circuit, s, header, payload, footer);
    WrapOnce(s.tipOffset, 132 + |payload|);
  }

  /** A rotation is accepted exactly when the sequence grows; it starts the segment at 0 and keeps the chain. */
  lemma RotateDecided(circuit: Circuit, s: State, id: U64, seqNo: U64)
    ensures ReplyTo(circuit, s, Rotate(id, seqNo))
      == if seqNo > s.sequence then Committed(0) else Rejected(SequenceNotMonotonic)
    ensures Step(circuit, s, Rotate(id, seqNo))
      == if seqNo > s.sequence
         then State(id, seqNo, s.tip, 0, s.eventsSealed, (s.segmentsRotated + 1) % 18446744073709551616) else s
  {
  }

  // ---------- Runs that are accepted whole ----------

  /** An event that its writer is about to commit. */
  datatype Draft = Draft(header: seq<Byte>, payload: seq<Byte>)

  predicate Headed(drafts: seq<Draft>) { forall d :: d in drafts ==> |d.header| == 68 }

  /** The tip after these events, each committed behind the one before. */
  function TipAfter(circuit: Circuit, tip: Block, drafts: seq<Draft>): Block
    requires Headed(drafts)
    decreases |drafts|
  {
    if drafts == [] then tip
    else
      var last := drafts[|drafts| - 1];
      circuit(TipAfter(circuit, tip, drafts[..|drafts| - 1]), last.header[..64])
  }

  function SizeOf(drafts: seq<Draft>): nat
    decreases |drafts|
  {
    if drafts == [] then 0 else SizeOf(drafts[..|drafts| - 1]) + 132 + |drafts[|drafts| - 1].payload|
  }

  /** The call for one event: its footer holds the running tip and the commitment. */
  function CallFor(circuit: Circuit, tip: Block, draft: Draft): Call
    requires |draft.header| == 68
  {
    Append(draft.header, draft.payload, tip + circuit(tip, draft.header[..64]))
  }

  function CallsFor(circuit: Circuit, tip: Block, drafts: seq<Draft>): (calls: seq<Call>)
    requires Headed(drafts)
    ensures |calls| == |drafts|
    decreases |drafts|
  {
    if drafts == [] then []
    else
      var front, last := drafts[..|drafts| - 1], drafts[|drafts| - 1];
      CallsFor(circuit, tip, front) + [CallFor(circuit, TipAfter(circuit, tip, front), last)]
  }

  /** A well-formed event that fits is accepted, whatever the handle has sealed before. */
  lemma WellFormedAccepted(circuit: Circuit, s: State, draft: Draft)
    requires |draft.header| == 68 && s.tipOffset + 132 + |draft.payload| <= 1073741824
    ensures ReplyTo(circuit, s, CallFor(circuit, s.tip, draft)) == Committed(s.tipOffset)
    ensures Step(circuit, s, CallFor(circuit, s.tip, draft))
      == State(s.segmentId, s.sequence, circuit(s.tip, draft.header[..64]), s.tipOffset + 132 + |draft.payload|,
               (s.eventsSealed + 1) % 18446744073709551616, s.segmentsRotated)
  {
    var c := circuit(s.tip, draft.header[..64]);
    var footer := s.tip + c;
    assert footer[..32] == s.tip && footer[32..] == c;
    AppendFits(circuit, s, draft.header, draft.payload, footer);
    AppendEffect(circuit, s, draft.header, draft.payload, footer);
  }

  lemma CountsAdd(a: nat, b: nat, c: nat)
    requires c == b + 1
    ensures ((a + b) % 18446744073709551616 + 1) % 18446744073709551616 == (a + c) % 18446744073709551616
  {
  }

  /** The handle once these events are sealed, and so accepted whole. */
  predicate SealsAll(circuit: Circuit, s: State, drafts: seq<Draft>, after: State)
    requires Headed(drafts) && s.tipOffset + SizeOf(drafts) <= 1073741824
  {
    after == State(s.segmentId, s.sequence, TipAfter(circuit, s.tip, drafts), s.tipOffset + SizeOf(drafts),
                   (s.eventsSealed + |drafts|) % 18446744073709551616, s.segmentsRotated)
  }

  lemma LastSealed(circuit: Circuit, s: State, front: seq<Draft>, last: Draft, all: seq<Draft>, before: State)
    requires all == front + [last] && Headed(all) && Headed(front)
    requires s.tipOffset + SizeOf(all) <= 1073741824 && s.tipOffset + SizeOf(front) <= 1073741824
    requires SealsAll(circuit, s, front, before)
    ensures SealsAll(circuit, s, all, Step(circuit, before, CallFor(circuit, before.tip, last)))
    ensures ReplyTo(circuit, before, CallFor(circuit, before.tip, last)) == Committed(s.tipOffset + SizeOf(front))
  {
    assert all[..|all| - 1] == front && all[|all| - 1] == last;
    WellFormedAccepted(circuit, before, last);
    CountsAdd(s.eventsSealed, |front|, |all|);
  }

  /** The run over all events is the run over those in front, and one step. */
  lemma RunSplits(circuit: Circuit, s: State, front: seq<Draft>, last: Draft, all: seq<Draft>)
    requires all == front + [last] && Headed(all) && Headed(front) && |last.header| == 68
    ensures Run(circuit, s, CallsFor(circuit, s.tip, all))
      == Step(circuit, Run(circuit, s, CallsFor(circuit, s.tip, front)),
              CallFor(circuit, TipAfter(circuit, s.tip, front), last))
  {
    assert all[..|all| - 1] == front && all[|all| - 1] == last;
    var calls := CallsFor(circuit, s.tip, all);
    assert calls[..|calls| - 1] == CallsFor(circuit, s.tip, front);
  }

  /** Any events that fit one segment, committed behind the running tip, are all accepted, one behind the other. */
  lemma {:induction false} WellFormedRunAccepted(circuit: Circuit, s: State, drafts: seq<Draft>)
    requires Headed(drafts) && s.tipOffset + SizeOf(drafts) <= 1073741824
    ensures SealsAll(circuit, s, drafts, Run(circuit, s, CallsFor(circuit, s.tip, drafts)))
    decreases |drafts|
  {
    if drafts != [] {
      var front, last := drafts[..|drafts| - 1], drafts[|drafts| - 1];
      assert drafts == front + [last] && Headed(front);
      WellFormedRunAccepted(circuit, s, front);
      RunSplits(circuit, s, front, last, drafts);
      LastSealed(circuit, s, front, last, drafts, Run(circuit, s, CallsFor(circuit, s.tip, front)));
    }
  }

  lemma {:induction false} FrontsFit(drafts: seq<Draft>, i: nat)
    requires i < |drafts|
    ensures SizeOf(drafts[..i]) + 132 + |drafts[i].payload| <= SizeOf(drafts)
    decreases |drafts|
  {
    if i + 1 < |drafts| {
      var front := drafts[..|drafts| - 1];
      FrontsFit(front, i);
      assert front[..i] == drafts[..i];
    }
  }

  lemma {:induction false} CallsOfFront(circuit: Circuit, tip: Block, drafts: seq<Draft>, i: nat)
    requires Headed(drafts) && i < |drafts|
    ensures CallsFor(circuit, tip, drafts)[..i] == CallsFor(circuit, tip, drafts[..i])
    ensures CallsFor(circuit, tip, drafts)[i] == CallFor(circuit, TipAfter(circuit, tip, drafts[..i]), drafts[i])
    decreases |drafts|
  {
    var front := drafts[..|drafts| - 1];
    var calls := CallsFor(circuit, tip, drafts);
    assert calls[..|front|] == CallsFor(circuit, tip, front);
    if i < |front| {
      CallsOfFront(circuit, tip, front, i);
      assert front[..i] == drafts[..i];
      assert calls[..i] == calls[..|front|][..i];
    }
  }

  /** Each of them is told the offset at which those before it end. */
  lemma EachIsCommitted(circuit: Circuit, s: State, drafts: seq<Draft>, i: nat)
    requires Headed(drafts) && s.tipOffset + SizeOf(drafts) <= 1073741824 && i < |drafts|
    ensures var calls := CallsFor(circuit, s.tip, drafts);
      && s.tipOffset + SizeOf(drafts[..i]) <= 1073741824
      && ReplyTo(circuit, Run(circuit, s, calls[..i]), calls[i]) == Committed(s.tipOffset + SizeOf(drafts[..i]))
  {
    FrontsFit(drafts, i);
    CallsOfFront(circuit, s.tip, drafts, i);
    WellFormedRunAccepted(circuit, s, drafts[..i]);
    WellFormedAccepted(circuit, Run(circuit, s, CallsFor(circuit, s.tip, drafts[..i])), drafts[i]);
  }

  // ---------- The handle ----------

  class KernelHandle {
    var currentSegmentId: U64
    var currentSequence: U64
    var tip: Block
    var tipOffset: U64
    var eventsSealed: U64
    var segmentsRotated: U64

    ghost function Current(): State
      reads this
    {
      State(currentSegmentId, currentSequence, tip, tipOffset, eventsSealed, segmentsRotated)
    }

    constructor (segmentId: U64, segmentSequence: U64)
      ensures Current() == Initial(segmentId, segmentSequence)
      ensures currentSegmentId == segmentId && currentSequence == segmentSequence && (forall i :: 0 <= i < 32 ==> tip[i] == ZERO)
      ensures tipOffset == 0 && eventsSealed == 0 && segmentsRotated == 0
    {
      currentSegmentId := segmentId;
      currentSequence := segmentSequence;
      tip := ZeroBlock();
      tipOffset := 0;
      eventsSealed := 0;
      segmentsRotated := 0;
    }

    method CheckCommitment(header: seq<Byte>, footer: seq<Byte>) returns (ok: bool)
      requires |header| == FIXED_HEADER_SIZE && |footer| == FIXED_FOOTER_SIZE
      ensures ok <==> Follows(Commit, tip, RecordOf(header, footer))
    {
      var computed := new Byte[32];
      LatticeCommit(tip, header[..64], computed);
      ok := computed[..] == footer[32..];
    }

    method AppendEvent(header: seq<Byte>, payload: seq<Byte>, footer: seq<Byte>) returns (reply: Reply)
      modifies this
      ensures reply == ReplyTo(Commit, old(Current()), Append(header, payload, footer))
      ensures Current() == Step(Commit, old(Current()), Append(header, payload, footer))
      ensures reply.Committed? ==> |footer| == 64 && tip == footer[32..] && reply.offset == old(tipOffset)
      ensures currentSegmentId == old(currentSegmentId) && currentSequence == old(currentSequence)
    {
      if |header| != FIXED_HEADER_SIZE {
        return Rejected(InvalidHeader);
      }
      if |footer| != FIXED_FOOTER_SIZE {
        return Rejected(InvalidFooter);
      }
      var eventSize: U64 := (FIXED_HEADER_SIZE + |payload| + FIXED_FOOTER_SIZE) % TWO64;
      assert eventSize == EventSize(payload) && Room(Current()) == (SEGMENT_LIMIT - tipOffset) % TWO64;
      if eventSize > (SEGMENT_LIMIT - tipOffset) % TWO64 {
        return Rejected(SegmentFull);
      }
      var prevCommit, recvCommit := footer[..32], footer[32..];
      if eventsSealed > 0 {
        if prevCommit != tip {
          return Rejected(HashChainBroken);
        }
      }
      var valid := CheckCommitment(header, footer);
      if !valid {
        return Rejected(InvalidCommitment);
      }
      assert AppendReply(Commit, Current(), header, payload, footer) == Committed(tipOffset);
      var committedOffset := tipOffset;
      tipOffset := (tipOffset + eventSize) % TWO64;
      tip := recvCommit;
      eventsSealed := (eventsSealed + 1) % TWO64;
      return Committed(committedOffset);
    }

    method RotateSegment(newId: U64, newSeq: U64) returns (reply: Reply)
      modifies this
      ensures reply == ReplyTo(Commit, old(Current()), Rotate(newId, newSeq))
      ensures Current() == Step(Commit, old(Current()), Rotate(newId, newSeq))
      ensures newSeq > old(currentSequence) ==> currentSegmentId == newId && currentSequence == newSeq && tipOffset == 0
      ensures tip == old(tip) && eventsSealed == old(eventsSealed)
    {
      if newSeq <= currentSequence {
        return Rejected(SequenceNotMonotonic);
      }
      currentSegmentId := newId;
      currentSequence := newSeq;
      tipOffset := 0;
      segmentsRotated := (segmentsRotated + 1) % TWO64;
      return Committed(0);
    }
  }
}
