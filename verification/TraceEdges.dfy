/** The cycle check in terms of the relations themselves: what each kind of relation leads to, and what is reported. */
module TraceEdges {
  import opened TraceCycles
  import opened Widths

  // ---------- Edges ----------

  /** The trace that counts for an identifier is the first one that has it. */
  predicate FirstAt(all: seq<Trace>, x: Id, t: nat) {
    t < |all| && all[t].traceId == x && forall j :: 0 <= j < t ==> all[j].traceId != x
  }

  /** Choice k of a relation leads to y: the one parent that it extends or challenges, the challenge that it rebuts, or
      one of the traces that it composes. */
  predicate Names(r: Relation, k: nat, y: Id) {
    (k == 0 && (r == Extends(y) || r == Challenges(y) || r == Rebuts(y)))
    || (r.Composes? && k < |r.subTraceIds| && r.subTraceIds[k] == y)
  }

  /** A choice: the position of a relation, and a choice within it. */
  type Choice = (nat, nat)

  ghost predicate EdgeAt(all: seq<Trace>, x: Id, c: Choice, y: Id, t: nat) {
    FirstAt(all, x, t) && c.0 < |all[t].parentRelations| && Names(all[t].parentRelations[c.0], c.1, y)
  }

  ghost predicate EdgeBy(all: seq<Trace>, x: Id, c: Choice, y: Id) { exists t :: EdgeAt(all, x, c, y, t) }

  ghost predicate Edge(all: seq<Trace>, x: Id, y: Id) { exists c :: EdgeBy(all, x, c, y) }

  /** These choices, made one after the other from x on, lead to y. */
  ghost predicate Leads(all: seq<Trace>, x: Id, cs: seq<Choice>, y: Id)
    decreases |cs|
  {
    if cs == [] then x == y else exists z :: EdgeBy(all, x, cs[0], z) && Leads(all, z, cs[1..], y)
  }

  // ---------- Choices and positions among all parents ----------

  lemma {:induction false} FirstIsFound(all: seq<Trace>, x: Id, t: nat)
    requires FirstAt(all, x, t)
    ensures Find(all, x) == Some(all[t])
  {
    if t > 0 {
      assert FirstAt(all[1..], x, t - 1) by {
        forall j | 0 <= j < t - 1 ensures all[1..][j].traceId != x {
          assert all[1..][j] == all[j + 1];
        }
      }
      FirstIsFound(all[1..], x, t - 1);
    }
  }

  lemma {:induction false} FoundIsFirst(all: seq<Trace>, x: Id) returns (t: nat)
    requires Find(all, x).Some?
    ensures FirstAt(all, x, t) && Find(all, x) == Some(all[t])
  {
    t := 0;
    if all[0].traceId != x {
      t := FoundIsFirst(all[1..], x);
      t := t + 1;
      forall j | 0 <= j < t ensures all[j].traceId != x {
        assert j > 0 ==> all[1..][j - 1] == all[j];
      }
    }
  }

  function RelationsOf(all: seq<Trace>, x: Id): seq<Relation> {
    match Find(all, x)
    case None => []
    case Some(t) => t.parentRelations
  }

  /** Where the targets of relation i begin among the targets of all. */
  function Start(relations: seq<Relation>, i: nat): nat
    requires i <= |relations|
    decreases i
  {
    if i == 0 then 0 else |Targets(relations[0])| + Start(relations[1..], i - 1)
  }

  lemma NamesTarget(r: Relation, k: nat, y: Id)
    ensures Names(r, k, y) <==> k < |Targets(r)| && Targets(r)[k] == y
  {
  }

  /** Behind the targets of the first relation come those of the others. */
  lemma FlattenedAt(relations: seq<Relation>, j: nat)
    requires relations != [] && j < |Flattened(relations)|
    ensures var first := Targets(relations[0]);
      if j < |first| then Flattened(relations)[j] == first[j]
      else j - |first| < |Flattened(relations[1..])| && Flattened(relations)[j] == Flattened(relations[1..])[j - |first|]
  {
  }

  /** A choice of a relation is a position among all targets. */
  lemma {:induction false} ChoicePosition(relations: seq<Relation>, i: nat, k: nat, j: nat)
    requires i < |relations| && k < |Targets(relations[i])| && j == Start(relations, i) + k
    ensures j < |Flattened(relations)| && Flattened(relations)[j] == Targets(relations[i])[k]
    decreases i
  {
    if i > 0 {
      ChoicePosition(relations[1..], i - 1, k, j - |Targets(relations[0])|);
      FlattenedAt(relations, j);
    }
  }

  /** And every position is that of a choice. */
  lemma {:induction false} PositionChoice(relations: seq<Relation>, j: nat) returns (i: nat, k: nat)
    requires j < |Flattened(relations)|
    ensures i < |relations| && k < |Targets(relations[i])| && j == Start(relations, i) + k
    decreases |relations|
  {
    FlattenedAt(relations, j);
    if j < |Targets(relations[0])| {
      i, k := 0, j;
    } else {
      i, k := PositionChoice(relations[1..], j - |Targets(relations[0])|);
      i := i + 1;
    }
  }

  /** Only one choice has a given position. */
  lemma {:induction false} PositionIsInjective(relations: seq<Relation>, i: nat, k: nat, i': nat, k': nat, j: nat)
    requires i < |relations| && k < |Targets(relations[i])| && i' < |relations| && k' < |Targets(relations[i'])|
    requires j == Start(relations, i) + k && j == Start(relations, i') + k'
    ensures i == i' && k == k'
    decreases i
  {
    if i > 0 && i' > 0 {
      PositionIsInjective(relations[1..], i - 1, k, i' - 1, k', j - |Targets(relations[0])|);
    }
  }

  // ---------- One edge ----------

  /** The position among the parents of x that a choice stands for. */
  predicate AtPosition(all: seq<Trace>, x: Id, c: Choice, j: nat) {
    var relations := RelationsOf(all, x);
    c.0 < |relations| && c.1 < |Targets(relations[c.0])| && j == Start(relations, c.0) + c.1
  }

  lemma EdgeHasPosition(all: seq<Trace>, x: Id, c: Choice, y: Id) returns (j: nat)
    requires EdgeBy(all, x, c, y)
    ensures AtPosition(all, x, c, j) && j < |Parents(all, x)| && Parents(all, x)[j] == y
  {
    var t: nat :| EdgeAt(all, x, c, y, t);
    var relations := all[t].parentRelations;
    FirstIsFound(all, x, t);
    NamesTarget(relations[c.0], c.1, y);
    j := Start(relations, c.0) + c.1;
    ChoicePosition(relations, c.0, c.1, j);
  }

  lemma PositionHasEdge(all: seq<Trace>, x: Id, j: nat) returns (c: Choice)
    requires j < |Parents(all, x)|
    ensures AtPosition(all, x, c, j) && EdgeBy(all, x, c, Parents(all, x)[j])
  {
    var relations := RelationsOf(all, x);
    var i, k := PositionChoice(relations, j);
    c := (i, k);
    ChoicePosition(relations, i, k, j);
    NamesTarget(relations[i], k, Parents(all, x)[j]);
    var t := FoundIsFirst(all, x);
    assert EdgeAt(all, x, c, Parents(all, x)[j], t);
  }

  lemma SamePosition(all: seq<Trace>, x: Id, c: Choice, c': Choice, j: nat)
    requires AtPosition(all, x, c, j) && AtPosition(all, x, c', j)
    ensures c == c'
  {
    PositionIsInjective(RelationsOf(all, x), c.0, c.1, c'.0, c'.1, j);
  }

  // ---------- Choices and walks ----------

  /** The choices and the positions of a walk that match, step by step. */
  predicate Matches(all: seq<Trace>, x: Id, cs: seq<Choice>, w: seq<nat>)
    decreases |cs|
  {
    |cs| == |w|
    && (cs != [] ==>
          AtPosition(all, x, cs[0], w[0]) && w[0] < |Parents(all, x)| && Matches(all, Parents(all, x)[w[0]], cs[1..], w[1..]))
  }

  lemma {:induction false} ChoicesAreWalk(all: seq<Trace>, x: Id, cs: seq<Choice>, y: Id) returns (w: seq<nat>)
    requires Leads(all, x, cs, y)
    ensures Matches(all, x, cs, w) && Walk(all, x, w) == Some(y)
    decreases |cs|
  {
    w := [];
    if cs != [] {
      var z :| EdgeBy(all, x, cs[0], z) && Leads(all, z, cs[1..], y);
      var j := EdgeHasPosition(all, x, cs[0], z);
      var rest := ChoicesAreWalk(all, z, cs[1..], y);
      w := [j] + rest;
      assert w[1..] == rest;
    }
  }

  lemma {:induction false} WalkIsChoices(all: seq<Trace>, x: Id, w: seq<nat>, y: Id) returns (cs: seq<Choice>)
    requires Walk(all, x, w) == Some(y)
    ensures Matches(all, x, cs, w) && Leads(all, x, cs, y)
    decreases |w|
  {
    cs := [];
    if w != [] {
      var z := Parents(all, x)[w[0]];
      var c := PositionHasEdge(all, x, w[0]);
      var rest := WalkIsChoices(all, z, w[1..], y);
      cs := [c] + rest;
      assert cs[1..] == rest;
      assert EdgeBy(all, x, cs[0], z) && Leads(all, z, cs[1..], y);
    }
  }

  lemma {:induction false} SameWalk(all: seq<Trace>, x: Id, cs: seq<Choice>, v: seq<nat>, w: seq<nat>)
    requires Matches(all, x, cs, v) && Matches(all, x, cs, w)
    ensures v == w
    decreases |cs|
  {
    if cs != [] {
      SameWalk(all, Parents(all, x)[w[0]], cs[1..], v[1..], w[1..]);
      assert v == [v[0]] + v[1..] && w == [w[0]] + w[1..];
    }
  }

  lemma {:induction false} SameChoices(all: seq<Trace>, x: Id, cs: seq<Choice>, ds: seq<Choice>, w: seq<nat>)
    requires Matches(all, x, cs, w) && Matches(all, x, ds, w)
    ensures cs == ds
    decreases |cs|
  {
    if cs != [] {
      SamePosition(all, x, cs[0], ds[0], w[0]);
      SameChoices(all, Parents(all, x)[w[0]], cs[1..], ds[1..], w[1..]);
      assert cs == [cs[0]] + cs[1..] && ds == [ds[0]] + ds[1..];
    }
  }

  // ---------- What is reported ----------

  ghost predicate ChoicesMeet(all: seq<Trace>, start: Id, cs: seq<Choice>, ds: seq<Choice>, y: Id) {
    cs != ds && Leads(all, start, cs, y) && Leads(all, start, ds, y)
  }

  /** The check answers true exactly when two different sequences of choices lead from the start to one trace. */
  lemma ReportedIffChoicesMeet(all: seq<Trace>, start: Id)
    ensures Reported(all, start) <==> exists cs, ds, y :: ChoicesMeet(all, start, cs, ds, y)
  {
    ReportedIffTwoWalksMeet(all, start);
    if Reported(all, start) {
      var v, w :| TwoWalksMeet(all, start, v, w);
      var y := Walk(all, start, v).value;
      var cs := WalkIsChoices(all, start, v, y);
      var ds := WalkIsChoices(all, start, w, y);
      if cs == ds {
        SameWalk(all, start, cs, v, w);
      }
      assert ChoicesMeet(all, start, cs, ds, y);
    }
    if exists cs, ds, y :: ChoicesMeet(all, start, cs, ds, y) {
      var cs, ds, y :| ChoicesMeet(all, start, cs, ds, y);
      var v := ChoicesAreWalk(all, start, cs, y);
      var w := ChoicesAreWalk(all, start, ds, y);
      if v == w {
        SameChoices(all, start, cs, ds, v);
      }
      assert TwoWalksMeet(all, start, v, w);
    }
  }

  lemma {:induction false} LeadsOn(all: seq<Trace>, x: Id, cs: seq<Choice>, y: Id, c: Choice, z: Id)
    requires Leads(all, x, cs, y) && EdgeBy(all, y, c, z)
    ensures Leads(all, x, cs + [c], z)
    decreases |cs|
  {
    if cs == [] {
      assert (cs + [c])[1..] == [];
      assert EdgeBy(all, x, (cs + [c])[0], z) && Leads(all, z, [], z);
    } else {
      var u :| EdgeBy(all, x, cs[0], u) && Leads(all, u, cs[1..], y);
      LeadsOn(all, u, cs[1..], y, c, z);
      assert (cs + [c])[1..] == cs[1..] + [c];
      assert EdgeBy(all, x, (cs + [c])[0], u) && Leads(all, u, (cs + [c])[1..], z);
    }
  }

  /** A path of traces, each of which has an edge to the next. */
  ghost predicate IsPath(all: seq<Trace>, p: seq<Id>) { p != [] && forall q :: 0 <= q < |p| - 1 ==> EdgeFrom(all, p, q) }

  ghost predicate EdgeFrom(all: seq<Trace>, p: seq<Id>, q: nat) { q + 1 < |p| && Edge(all, p[q], p[q + 1]) }

  lemma {:induction false} PathLeads(all: seq<Trace>, p: seq<Id>, b: nat) returns (cs: seq<Choice>)
    requires IsPath(all, p) && b < |p|
    ensures Leads(all, p[0], cs, p[b]) && |cs| == b
  {
    cs := [];
    if b > 0 {
      var before := PathLeads(all, p, b - 1);
      assert EdgeFrom(all, p, b - 1);
      var c: Choice :| EdgeBy(all, p[b - 1], c, p[b]);
      LeadsOn(all, p[0], before, p[b - 1], c, p[b]);
      cs := before + [c];
    }
  }

  /** Every path from the start that returns to one of its own traces is reported. */
  lemma ReturningPathReported(all: seq<Trace>, p: seq<Id>, a: nat, b: nat)
    requires IsPath(all, p) && a < b < |p| && p[a] == p[b]
    ensures Reported(all, p[0])
  {
    var cs := PathLeads(all, p, a);
    var ds := PathLeads(all, p, b);
    assert ChoicesMeet(all, p[0], cs, ds, p[b]);
    ReportedIffChoicesMeet(all, p[0]);
  }

  /** Two different choices that lead from one reachable trace to one and the same are reported. */
  lemma DoubleEdgeReported(all: seq<Trace>, start: Id, cs: seq<Choice>, x: Id, c: Choice, d: Choice, y: Id)
    requires Leads(all, start, cs, x) && c != d && EdgeBy(all, x, c, y) && EdgeBy(all, x, d, y)
    ensures Reported(all, start)
  {
    LeadsOn(all, start, cs, x, c, y);
    LeadsOn(all, start, cs, x, d, y);
    assert (cs + [c])[|cs|] != (cs + [d])[|cs|];
    assert ChoicesMeet(all, start, cs + [c], cs + [d], y);
    ReportedIffChoicesMeet(all, start);
  }
}
