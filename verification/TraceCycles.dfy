/** The depth-first check over the parent relations of reasoning traces, and exactly what it reports. */
module TraceCycles {
  import opened Widths

  type Id = string

  datatype Relation =
    | Extends(parentTraceId: Id)
    | Challenges(parentTraceId: Id)
    | Rebuts(challengeTraceId: Id)
    | Composes(subTraceIds: seq<Id>)

  datatype Trace = Trace(traceId: Id, parentRelations: seq<Relation>)

  // ---------- The graph ----------

  function Targets(r: Relation): seq<Id> {
    match r
    case Extends(p) => [p]
    case Challenges(p) => [p]
    case Rebuts(p) => [p]
    case Composes(subs) => subs
  }

  /** All targets, each sub-trace of a composition being a step of its own. */
  function Flattened(relations: seq<Relation>): seq<Id> {
    if relations == [] then [] else Targets(relations[0]) + Flattened(relations[1..])
  }

  /** The first trace with this identifier. */
  function Find(all: seq<Trace>, id: Id): Option<Trace> {
    if all == [] then None else if all[0].traceId == id then Some(all[0]) else Find(all[1..], id)
  }

  /** A missing trace has no parents. */
  function Parents(all: seq<Trace>, id: Id): seq<Id> {
    match Find(all, id)
    case None => []
    case Some(t) => Flattened(t.parentRelations)
  }

  ghost function Mentioned(all: seq<Trace>): set<Id> {
    set t, p | t in all && p in Flattened(t.parentRelations) :: p
  }

  lemma {:induction false} FindIsMember(all: seq<Trace>, id: Id)
    ensures var r := Find(all, id); r.Some? ==> r.value in all && r.value.traceId == id
  {
    if all != [] && all[0].traceId != id {
      FindIsMember(all[1..], id);
    }
  }

  lemma ParentsAreMentioned(all: seq<Trace>, id: Id)
    ensures forall p :: p in Parents(all, id) ==> p in Mentioned(all)
  {
    FindIsMember(all, id);
  }

  /** A walk is a list of indices into the parents met on the way; None when an index is out of range. */
  function Walk(all: seq<Trace>, start: Id, w: seq<nat>): Option<Id>
    decreases |w|
  {
    if w == [] then Some(start)
    else if w[0] >= |Parents(all, start)| then None
    else Walk(all, Parents(all, start)[w[0]], w[1..])
  }

  // ---------- The search ----------

  datatype Search = Search(found: bool, visited: set<Id>)

  ghost function Frontier(all: seq<Trace>, ids: seq<Id>, visited: set<Id>): set<Id> {
    Mentioned(all) + (set id | id in ids) - visited
  }

  lemma FrontierShrinks(all: seq<Trace>, ids: seq<Id>, visited: set<Id>)
    requires ids != [] && ids[0] !in visited
    ensures Frontier(all, Parents(all, ids[0]), visited + {ids[0]}) < Frontier(all, ids, visited)
  {
    ParentsAreMentioned(all, ids[0]);
    assert ids[0] in Frontier(all, ids, visited);
  }

  lemma FrontierOfRest(all: seq<Trace>, ids: seq<Id>, visited: set<Id>, more: set<Id>)
    requires ids != [] && visited <= more
    ensures Frontier(all, ids[1..], more) <= Frontier(all, ids, visited)
  {
  }

  /** The recursion as it runs: each identifier in turn, with one visited set that only grows. */
  ghost function VisitAll(all: seq<Trace>, ids: seq<Id>, visited: set<Id>): (r: Search)
    ensures visited <= r.visited
    ensures r.visited <= visited + Frontier(all, ids, visited)
    decreases Frontier(all, ids, visited), |ids|
  {
    if ids == [] then Search(false, visited)
    else if ids[0] in visited then Search(true, visited)
    else
      FrontierShrinks(all, ids, visited);
      var inner := VisitAll(all, Parents(all, ids[0]), visited + {ids[0]});
      FrontierOfRest(all, ids, visited, inner.visited);
      if inner.found then inner else VisitAll(all, ids[1..], inner.visited)
  }

  lemma VisitHead(all: seq<Trace>, h: Id, rest: seq<Id>, visited: set<Id>)
    ensures var first := VisitAll(all, [h], visited);
            VisitAll(all, [h] + rest, visited)
            == if first.found then first else VisitAll(all, rest, first.visited)
  {
    assert ([h] + rest)[1..] == rest;
    assert [h][1..] == [];
  }

  class VisitedSet {
    var ids: set<Id>

    constructor ()
      ensures ids == {}
    {
      ids := {};
    }
  }

  method FindTrace(all: seq<Trace>, id: Id) returns (r: Option<Trace>)
    ensures r == Find(all, id)
  {
    for i := 0 to |all|
      invariant Find(all, id) == Find(all[i..], id)
    {
      if all[i].traceId == id {
        return Some(all[i]);
      }
      assert all[i..][1..] == all[i + 1..];
    }
    return None;
  }

  lemma FlattenedFrom(relations: seq<Relation>, i: nat)
    requires i < |relations|
    ensures Flattened(relations[i..]) == Targets(relations[i]) + Flattened(relations[i + 1..])
  {
    assert relations[i..][1..] == relations[i + 1..];
  }

  lemma TakeHead(ids: seq<Id>, j: nat, rest: seq<Id>)
    requires j < |ids|
    ensures ids[j..] + rest == [ids[j]] + (ids[j + 1..] + rest)
  {
    assert ids[j..] == [ids[j]] + ids[j + 1..];
  }

  /** A call made after current has been entered is smaller than the call for current. */
  lemma FrontierOfParent(all: seq<Trace>, current: Id, parent: Id, before: set<Id>, later: set<Id>)
    requires current !in before && before + {current} <= later && parent in Mentioned(all)
    ensures Frontier(all, [parent], later) < Frontier(all, [current], before)
  {
    assert current in Frontier(all, [current], before);
  }

  lemma VisitEntered(all: seq<Trace>, id: Id, visited: set<Id>)
    requires id !in visited
    ensures VisitAll(all, [id], visited) == VisitAll(all, Parents(all, id), visited + {id})
  {
    assert [id][1..] == [];
  }

  /** The recursive check with its two loops and the visited set that all calls share. */
  method HasCyclesInternal(all: seq<Trace>, currentId: Id, visited: VisitedSet) returns (found: bool)
    modifies visited
    ensures Search(found, visited.ids) == VisitAll(all, [currentId], old(visited.ids))
    decreases Frontier(all, [currentId], visited.ids)
  {
    if currentId in visited.ids {
      return true;
    }
    ghost var before := visited.ids;
    VisitEntered(all, currentId, before);
    visited.ids := visited.ids + {currentId};
    ghost var whole := VisitAll(all, [currentId], before);

    var current := FindTrace(all, currentId);
    if current.None? {
      return false;
    }
    ParentsAreMentioned(all, currentId);
    var relations := current.value.parentRelations;
    for i := 0 to |relations|
      invariant before + {currentId} <= visited.ids
      invariant whole == VisitAll(all, Flattened(relations[i..]), visited.ids)
      invariant forall p :: p in Flattened(relations[i..]) ==> p in Mentioned(all)
    {
      ghost var rest := Flattened(relations[i + 1..]);
      FlattenedFrom(relations, i);
      if relations[i].Composes? {
        var subs := relations[i].subTraceIds;
        for j := 0 to |subs|
          invariant before + {currentId} <= visited.ids
          invariant whole == VisitAll(all, subs[j..] + rest, visited.ids)
        {
          TakeHead(subs, j, rest);
          VisitHead(all, subs[j], subs[j + 1..] + rest, visited.ids);
          FrontierOfParent(all, currentId, subs[j], before, visited.ids);
          found := HasCyclesInternal(all, subs[j], visited);
          if found {
            return true;
          }
        }
        assert subs[|subs|..] + rest == rest;
      } else {
        var parentId := if relations[i].Rebuts? then relations[i].challengeTraceId else relations[i].parentTraceId;
        VisitHead(all, parentId, rest, visited.ids);
        FrontierOfParent(all, currentId, parentId, before, visited.ids);
        found := HasCyclesInternal(all, parentId, visited);
        if found {
          return true;
        }
      }
    }
    return false;
  }

  /** The answer of the check, started with an empty visited set. */
  ghost predicate Reported(all: seq<Trace>, start: Id) { VisitAll(all, [start], {}).found }

  method HasCycles(all: seq<Trace>, self: Trace) returns (found: bool)
    ensures found == Reported(all, self.traceId)
  {
    var visited := new VisitedSet();
    found := HasCyclesInternal(all, self.traceId, visited);
  }

  // ---------- What the search finds ----------

  /** Where a walk ends that first picks one of ids; None for the empty walk. */
  function EndOf(all: seq<Trace>, ids: seq<Id>, w: seq<nat>): Option<Id> {
    if w == [] || w[0] >= |ids| then None else Walk(all, ids[w[0]], w[1..])
  }

  /** The same walk, counted from the second identifier on. */
  function Lowered(w: seq<nat>): seq<nat>
    requires w != [] && w[0] > 0
  {
    [w[0] - 1] + w[1..]
  }

  lemma EndInRest(all: seq<Trace>, ids: seq<Id>, w: seq<nat>)
    requires ids != [] && w != [] && w[0] > 0
    ensures EndOf(all, ids, w) == EndOf(all, ids[1..], Lowered(w))
  {
    assert Lowered(w)[1..] == w[1..];
  }

  lemma EndInFirst(all: seq<Trace>, ids: seq<Id>, w: seq<nat>)
    requires ids != [] && w != [] && w[0] == 0
    ensures EndOf(all, ids, w) == if |w| == 1 then Some(ids[0]) else EndOf(all, Parents(all, ids[0]), w[1..])
  {
  }

  /** No walk from ids ends in visited, all ends are in after, and different walks have different ends. */
  ghost predicate Separate(all: seq<Trace>, ids: seq<Id>, visited: set<Id>, after: set<Id>) {
    (forall w :: EndsWithin(all, ids, w, visited, after))
    && (forall v, w :: SameEnd(all, ids, v, w) ==> v == w)
  }

  ghost predicate EndsWithin(all: seq<Trace>, ids: seq<Id>, w: seq<nat>, visited: set<Id>, after: set<Id>) {
    var e := EndOf(all, ids, w);
    e.Some? ==> e.value in after && e.value !in visited
  }

  ghost predicate SameEnd(all: seq<Trace>, ids: seq<Id>, v: seq<nat>, w: seq<nat>) {
    EndOf(all, ids, v).Some? && EndOf(all, ids, v) == EndOf(all, ids, w)
  }

  lemma WithinStep(all: seq<Trace>, ids: seq<Id>, w: seq<nat>, visited: set<Id>, middle: set<Id>, after: set<Id>)
    requires ids != [] && ids[0] !in visited && visited + {ids[0]} <= middle <= after
    requires Separate(all, Parents(all, ids[0]), visited + {ids[0]}, middle)
    requires Separate(all, ids[1..], middle, after)
    ensures EndsWithin(all, ids, w, visited, after)
    ensures w != [] && w[0] == 0 ==> EndsWithin(all, ids, w, visited, middle)
    ensures w != [] && w[0] > 0 ==> EndsWithin(all, ids, w, middle, after)
  {
    if w != [] && w[0] == 0 {
      EndInFirst(all, ids, w);
      assert EndsWithin(all, Parents(all, ids[0]), w[1..], visited + {ids[0]}, middle);
    } else if w != [] {
      EndInRest(all, ids, w);
      assert EndsWithin(all, ids[1..], Lowered(w), middle, after);
    }
  }

  lemma DistinctStep(all: seq<Trace>, ids: seq<Id>, v: seq<nat>, w: seq<nat>, visited: set<Id>, middle: set<Id>,
                     after: set<Id>)
    requires ids != [] && ids[0] !in visited && visited + {ids[0]} <= middle <= after
    requires Separate(all, Parents(all, ids[0]), visited + {ids[0]}, middle)
    requires Separate(all, ids[1..], middle, after)
    requires SameEnd(all, ids, v, w)
    ensures v == w
  {
    WithinStep(all, ids, v, visited, middle, after);
    WithinStep(all, ids, w, visited, middle, after);
    if v[0] == 0 && w[0] == 0 {
      FirstStepsAgree(all, ids, v, w, visited, middle);
    } else if v[0] > 0 && w[0] > 0 {
      EndInRest(all, ids, v);
      EndInRest(all, ids, w);
      assert SameEnd(all, ids[1..], Lowered(v), Lowered(w));
      assert v[1..] == Lowered(v)[1..] && w[1..] == Lowered(w)[1..];
      assert v == [v[0]] + v[1..] && w == [w[0]] + w[1..];
      assert Lowered(v)[0] == Lowered(w)[0];
    }
  }

  lemma FirstStepsAgree(all: seq<Trace>, ids: seq<Id>, v: seq<nat>, w: seq<nat>, visited: set<Id>, middle: set<Id>)
    requires ids != []
    requires Separate(all, Parents(all, ids[0]), visited + {ids[0]}, middle)
    requires v != [] && w != [] && v[0] == 0 == w[0] && SameEnd(all, ids, v, w)
    ensures v == w
  {
    EndInFirst(all, ids, v);
    EndInFirst(all, ids, w);
    assert EndsWithin(all, Parents(all, ids[0]), v[1..], visited + {ids[0]}, middle);
    assert EndsWithin(all, Parents(all, ids[0]), w[1..], visited + {ids[0]}, middle);
    if |v| > 1 && |w| > 1 {
      assert SameEnd(all, Parents(all, ids[0]), v[1..], w[1..]);
    }
    assert v == [0] + v[1..] && w == [0] + w[1..];
  }

  /** A search that finds nothing has met every walk once. */
  lemma {:induction false} NothingFound(all: seq<Trace>, ids: seq<Id>, visited: set<Id>)
    requires !VisitAll(all, ids, visited).found
    ensures Separate(all, ids, visited, VisitAll(all, ids, visited).visited)
    decreases Frontier(all, ids, visited), |ids|
  {
    if ids != [] {
      FrontierShrinks(all, ids, visited);
      var middle := VisitAll(all, Parents(all, ids[0]), visited + {ids[0]}).visited;
      NothingFound(all, Parents(all, ids[0]), visited + {ids[0]});
      FrontierOfRest(all, ids, visited, middle);
      NothingFound(all, ids[1..], middle);
      var after := VisitAll(all, ids, visited).visited;
      forall w ensures EndsWithin(all, ids, w, visited, after) {
        WithinStep(all, ids, w, visited, middle, after);
      }
      forall v, w | SameEnd(all, ids, v, w) ensures v == w {
        DistinctStep(all, ids, v, w, visited, middle, after);
      }
    }
  }

  /** Everything newly visited is the end of some walk. */
  lemma {:induction false} VisitedIsReached(all: seq<Trace>, ids: seq<Id>, visited: set<Id>, x: Id) returns (w: seq<nat>)
    requires x in VisitAll(all, ids, visited).visited && x !in visited
    ensures EndOf(all, ids, w) == Some(x)
    decreases Frontier(all, ids, visited), |ids|
  {
    var h := ids[0];
    FrontierShrinks(all, ids, visited);
    var inner := VisitAll(all, Parents(all, h), visited + {h});
    if x == h {
      w := [0];
    } else if x in inner.visited {
      w := VisitedIsReached(all, Parents(all, h), visited + {h}, x);
      w := [0] + w;
    } else {
      FrontierOfRest(all, ids, visited, inner.visited);
      w := VisitedIsReached(all, ids[1..], inner.visited, x);
      w := Raised(all, ids, w);
    }
  }

  /** A walk from the later identifiers, counted from the first. */
  lemma Raised(all: seq<Trace>, ids: seq<Id>, w: seq<nat>) returns (v: seq<nat>)
    requires ids != [] && EndOf(all, ids[1..], w).Some?
    ensures EndOf(all, ids, v) == EndOf(all, ids[1..], w) && v == [w[0] + 1] + w[1..]
  {
    v := [w[0] + 1] + w[1..];
    EndInRest(all, ids, v);
    assert Lowered(v) == w;
  }

  /** What a positive answer rests on: a walk back into visited, or two walks that meet. */
  ghost predicate Collides(all: seq<Trace>, ids: seq<Id>, visited: set<Id>, v: seq<nat>, w: seq<nat>) {
    (EndOf(all, ids, v).Some? && EndOf(all, ids, v).value in visited) || (v != w && SameEnd(all, ids, v, w))
  }

  lemma {:induction false} SomethingFound(all: seq<Trace>, ids: seq<Id>, visited: set<Id>)
    returns (v: seq<nat>, w: seq<nat>)
    requires VisitAll(all, ids, visited).found
    ensures Collides(all, ids, visited, v, w)
    decreases Frontier(all, ids, visited), |ids|
  {
    var h := ids[0];
    v, w := [0], [0];
    if h !in visited {
      FrontierShrinks(all, ids, visited);
      var inner := VisitAll(all, Parents(all, h), visited + {h});
      if inner.found {
        v, w := SomethingFound(all, Parents(all, h), visited + {h});
        v, w := CollidesBelow(all, ids, visited, v, w);
      } else {
        FrontierOfRest(all, ids, visited, inner.visited);
        v, w := SomethingFound(all, ids[1..], inner.visited);
        v, w := CollidesLater(all, ids, visited, v, w);
      }
    }
  }

  lemma CollidesBelow(all: seq<Trace>, ids: seq<Id>, visited: set<Id>, v: seq<nat>, w: seq<nat>)
    returns (v': seq<nat>, w': seq<nat>)
    requires ids != [] && Collides(all, Parents(all, ids[0]), visited + {ids[0]}, v, w)
    ensures Collides(all, ids, visited, v', w')
  {
    v', w' := [0] + v, [0] + w;
    assert v'[1..] == v && w'[1..] == w;
    if EndOf(all, Parents(all, ids[0]), v) == Some(ids[0]) {
      w' := [0];
    }
  }

  lemma MeetingLater(all: seq<Trace>, ids: seq<Id>, v: seq<nat>, w: seq<nat>)
    returns (v': seq<nat>, w': seq<nat>)
    requires ids != [] && v != w && SameEnd(all, ids[1..], v, w)
    ensures v' != w' && SameEnd(all, ids, v', w')
  {
    v' := Raised(all, ids, v);
    w' := Raised(all, ids, w);
    assert v == [v[0]] + v[1..] && w == [w[0]] + w[1..];
    assert v'[1..] == v[1..] && w'[1..] == w[1..];
  }

  /** A walk from the first identifier to anything that its own search visited. */
  lemma ReachedFromFirst(all: seq<Trace>, ids: seq<Id>, visited: set<Id>, x: Id) returns (w: seq<nat>)
    requires ids != [] && x !in visited
    requires x in VisitAll(all, Parents(all, ids[0]), visited + {ids[0]}).visited
    ensures EndOf(all, ids, w) == Some(x) && w[0] == 0
  {
    w := [];
    if x != ids[0] {
      w := VisitedIsReached(all, Parents(all, ids[0]), visited + {ids[0]}, x);
    }
    assert ([0] + w)[1..] == w;
    w := [0] + w;
  }

  lemma CollidesLater(all: seq<Trace>, ids: seq<Id>, visited: set<Id>, v: seq<nat>, w: seq<nat>)
    returns (v': seq<nat>, w': seq<nat>)
    requires ids != []
    requires Collides(all, ids[1..], VisitAll(all, Parents(all, ids[0]), visited + {ids[0]}).visited, v, w)
    ensures Collides(all, ids, visited, v', w')
  {
    if v != w && SameEnd(all, ids[1..], v, w) {
      v', w' := MeetingLater(all, ids, v, w);
    } else {
      var x := EndOf(all, ids[1..], v).value;
      v' := Raised(all, ids, v);
      w' := [];
      if x !in visited {
        w' := ReachedFromFirst(all, ids, visited, x);
      }
    }
  }

  // ---------- What the answer means ----------

  /** Two different walks from start to one and the same trace. */
  ghost predicate TwoWalksMeet(all: seq<Trace>, start: Id, v: seq<nat>, w: seq<nat>) {
    v != w && Walk(all, start, v).Some? && Walk(all, start, v) == Walk(all, start, w)
  }

  lemma FromStart(all: seq<Trace>, start: Id, w: seq<nat>)
    ensures EndOf(all, [start], [0] + w) == Walk(all, start, w) && ([0] + w)[1..] == w
  {
    assert ([0] + w)[1..] == w;
  }

  lemma ToStart(all: seq<Trace>, start: Id, w: seq<nat>)
    requires EndOf(all, [start], w).Some?
    ensures Walk(all, start, w[1..]) == EndOf(all, [start], w) && w == [0] + w[1..]
  {
  }

  lemma TwoEndsMeet(all: seq<Trace>, start: Id, v: seq<nat>, w: seq<nat>)
    requires v != w && SameEnd(all, [start], v, w)
    ensures TwoWalksMeet(all, start, v[1..], w[1..])
  {
    ToStart(all, start, v);
    ToStart(all, start, w);
  }

  /** The check answers true exactly when some trace is the end of two different walks from the start. */
  lemma ReportedIffTwoWalksMeet(all: seq<Trace>, start: Id)
    ensures Reported(all, start) <==> exists v, w :: TwoWalksMeet(all, start, v, w)
  {
    if Reported(all, start) {
      var v, w := SomethingFound(all, [start], {});
      TwoEndsMeet(all, start, v, w);
    } else {
      NothingFound(all, [start], {});
      forall v, w ensures !TwoWalksMeet(all, start, v, w) {
        FromStart(all, start, v);
        FromStart(all, start, w);
        assert SameEnd(all, [start], [0] + v, [0] + w) ==> v == w;
      }
    }
  }

  lemma {:induction false} WalkOn(all: seq<Trace>, start: Id, w: seq<nat>, c: seq<nat>)
    requires Walk(all, start, w).Some?
    ensures Walk(all, start, w + c) == Walk(all, Walk(all, start, w).value, c)
    decreases |w|
  {
    if w == [] {
      assert [] + c == c;
    } else {
      WalkOn(all, Parents(all, start)[w[0]], w[1..], c);
      TailOfSum(w, c);
    }
  }

  lemma TailOfSum(w: seq<nat>, c: seq<nat>)
    requires w != []
    ensures w + c != [] && (w + c)[0] == w[0] && (w + c)[1..] == w[1..] + c
  {
  }

  /** Every cycle that can be reached is reported. */
  lemma ReachableCycleReported(all: seq<Trace>, start: Id, w: seq<nat>, c: seq<nat>)
    requires Walk(all, start, w).Some? && c != [] && Walk(all, Walk(all, start, w).value, c) == Walk(all, start, w)
    ensures Reported(all, start)
  {
    WalkOn(all, start, w, c);
    assert |w + c| != |w|;
    assert TwoWalksMeet(all, start, w + c, w);
    ReportedIffTwoWalksMeet(all, start);
  }

  lemma LongerWalksDiffer(v: seq<nat>, w: seq<nat>, i: nat, j: nat)
    requires v != w
    ensures v + [i] != w + [j]
  {
    if |v| == |w| {
      assert (v + [i])[..|v|] == v && (w + [j])[..|w|] == w;
    }
  }

  /** A parent shared by the ends of two different walks is reported too, cycle or not. */
  lemma SharedAncestorReported(all: seq<Trace>, start: Id, v: seq<nat>, w: seq<nat>, i: nat, j: nat)
    requires v != w && Walk(all, start, v).Some? && Walk(all, start, w).Some?
    requires Walk(all, Walk(all, start, v).value, [i]).Some?
    requires Walk(all, Walk(all, start, v).value, [i]) == Walk(all, Walk(all, start, w).value, [j])
    ensures Reported(all, start)
  {
    WalkOn(all, start, v, [i]);
    WalkOn(all, start, w, [j]);
    LongerWalksDiffer(v, w, i, j);
    assert TwoWalksMeet(all, start, v + [i], w + [j]);
    ReportedIffTwoWalksMeet(all, start);
  }

  /** After a negative answer the reachable graph is a tree: one walk to each trace, and none that returns. */
  lemma NotReportedIsTree(all: seq<Trace>, start: Id, v: seq<nat>, w: seq<nat>)
    requires !Reported(all, start) && Walk(all, start, v).Some? && Walk(all, start, w).Some?
    ensures Walk(all, start, v) == Walk(all, start, w) <==> v == w
  {
    ReportedIffTwoWalksMeet(all, start);
    assert !TwoWalksMeet(all, start, v, w);
  }

  /** The answer true does not mean a cycle: one trace that names the same missing parent twice has none. */
  lemma ReportedWithoutCycle()
    ensures var all := [Trace("t", [Extends("a"), Challenges("a")])];
            Reported(all, "t")
            && forall w: seq<nat>, c: seq<nat> :: Walk(all, "t", w).Some? && c != [] ==>
                 Walk(all, Walk(all, "t", w).value, c) != Walk(all, "t", w)
  {
    var all := [Trace("t", [Extends("a"), Challenges("a")])];
    TwoParents(all);
    forall w: seq<nat>, c: seq<nat> | Walk(all, "t", w).Some? && c != []
      ensures Walk(all, Walk(all, "t", w).value, c) != Walk(all, "t", w)
    {
      WalkOn(all, "t", w, c);
      if w != [] {
        assert Walk(all, "a", c).None?;
      }
    }
    assert Walk(all, "t", [0]) == Some("a") == Walk(all, "t", [1]);
    assert TwoWalksMeet(all, "t", [0], [1]);
    ReportedIffTwoWalksMeet(all, "t");
  }

  lemma TwoParents(all: seq<Trace>)
    requires all == [Trace("t", [Extends("a"), Challenges("a")])]
    ensures Parents(all, "t") == ["a", "a"] && Parents(all, "a") == []
  {
    var relations := all[0].parentRelations;
    assert relations[1..] == [Challenges("a")] && relations[1..][1..] == [];
    assert Flattened(relations) == ["a"] + (["a"] + []);
    assert all[1..] == [] && Find(all[1..], "a") == None;
    assert "a" != "t" by {
      assert "a"[0] != "t"[0];
    }
  }
}
