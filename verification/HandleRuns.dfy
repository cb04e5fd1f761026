/** What the two kernel handles have in common: runs of accepted events that extend one chain of commitments, and of
    rotations that open segments with ever greater sequence numbers. */
module HandleRuns {
  import opened LatticeRing
  import opened Lattice
  import opened LatticeChain
  import opened Widths

  /** The part of a handle that chains commitments and numbers segments. */
  datatype Core = Core(tip: Block, eventsSealed: U64, sequence: U64)

  /** What a call does to it: nothing when the call is rejected. */
  datatype Event = Nothing | Sealed(record: Record) | Opened(sequence: U64)

  function Genesis(sequence: U64): Core { Core(ZeroBlock(), 0, sequence) }

  function Advance(core: Core, e: Event): Core {
    match e
    case Nothing => core
    case Sealed(r) => core.(tip := r.commitment, eventsSealed := (core.eventsSealed + 1) % TWO64)
    case Opened(sequence) => core.(sequence := sequence)
  }

  /** A record must follow from the tip, and a new segment must have a greater sequence number. */
  predicate Allowed(circuit: Circuit, core: Core, e: Event) {
    match e
    case Nothing => true
    case Sealed(r) => Follows(circuit, core.tip, r)
    case Opened(sequence) => sequence > core.sequence
  }

  function After(core: Core, events: seq<Event>): Core {
    if events == [] then core else Advance(After(core, events[..|events| - 1]), events[|events| - 1])
  }

  predicate Legal(circuit: Circuit, core: Core, events: seq<Event>) {
    events == []
    || (var front, last := events[..|events| - 1], events[|events| - 1];
        Legal(circuit, core, front) && Allowed(circuit, After(core, front), last))
  }

  /** A legal run and an event that its end allows. */
  lemma LegalSnoc(circuit: Circuit, core: Core, events: seq<Event>, e: Event)
    requires Legal(circuit, core, events) && Allowed(circuit, After(core, events), e)
    ensures Legal(circuit, core, events + [e]) && After(core, events + [e]) == Advance(After(core, events), e)
  {
    assert (events + [e])[..|events|] == events;
  }

  /** The records that a run seals, across all segments. */
  function Records(events: seq<Event>): (rs: seq<Record>)
    ensures |rs| <= |events|
  {
    if events == [] then []
    else
      var front, last := Records(events[..|events| - 1]), events[|events| - 1];
      if last.Sealed? then front + [last.record] else front
  }

  /** The sequence numbers of the segments opened so far. */
  function Sequences(first: U64, events: seq<Event>): seq<int> {
    if events == [] then [first]
    else
      var front, last := Sequences(first, events[..|events| - 1]), events[|events| - 1];
      if last.Opened? then front + [last.sequence] else front
  }

  /** The sealed records form a chain from zero whose end is the tip. */
  lemma {:induction false} LegalRunKeepsChain(circuit: Circuit, first: U64, events: seq<Event>)
    requires Legal(circuit, Genesis(first), events)
    ensures var core := After(Genesis(first), events);
            ChainsTo(circuit, core.tip, core.eventsSealed, Records(events))
  {
    if events != [] {
      var front, last := events[..|events| - 1], events[|events| - 1];
      var core := After(Genesis(first), front);
      LegalRunKeepsChain(circuit, first, front);
      if last.Sealed? {
        ChainGrows(circuit, core.tip, core.eventsSealed, Records(front), last.record);
      }
    }
  }

  /** Laid end to end, the sealed records are a file that verifies and whose tip is the handle's. */
  lemma LegalRunRefinesFile(circuit: Circuit, first: U64, events: seq<Event>)
    requires Legal(circuit, Genesis(first), events)
    ensures var core := After(Genesis(first), events);
            var file := Flatten(Records(events));
            && core.eventsSealed == |Records(events)| % TWO64
            && Replay(circuit, file, 0, ZeroBlock(), core.eventsSealed) == 1 && TipOf(file) == Got(core.tip)
  {
    LegalRunKeepsChain(circuit, first, events);
    ChainFileVerifies(circuit, Records(events), After(Genesis(first), events).eventsSealed);
  }

  /** The segments opened from the first on have strictly increasing sequence numbers, the last of which is current. */
  predicate OpensIncreasingly(first: U64, events: seq<Event>, current: U64) {
    var xs := Sequences(first, events);
    xs != [] && Increasing(xs) && xs[|xs| - 1] == current
  }

  lemma {:induction false} LegalRunIncreasesSequence(circuit: Circuit, core: Core, events: seq<Event>)
    requires Legal(circuit, core, events)
    ensures OpensIncreasingly(core.sequence, events, After(core, events).sequence)
  {
    if events != [] {
      LegalRunIncreasesSequence(circuit, core, events[..|events| - 1]);
    }
  }
}
