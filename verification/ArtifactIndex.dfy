/** The searchable store of artifacts, with its three indexes, and how far they agree with the store. */
module ArtifactIndex {

  type Id = string

  datatype Tier = T0 | T1 | T2 | T3

  datatype Language = Rust | Lean4 | Ada | PL1 | Prolog | Haskell | Other(tag: string)

  function AsString(l: Language): string {
    match l
    case Rust => "rust"
    case Lean4 => "lean4"
    case Ada => "ada"
    case PL1 => "pl1"
    case Prolog => "prolog"
    case Haskell => "haskell"
    case Other(tag) => tag
  }

  /** An artifact, with everything that no index looks at kept as its content. */
  datatype Artifact = Artifact(id: Id, tier: Tier, language: Language, invariants: seq<string>, content: string)

  /** What an artifact is indexed under. */
  datatype Key = ByTier(tier: Tier) | ByLanguage(language: string) | ByInvariant(name: string)

  /** How often a name occurs in a list. */
  function Occurrences(names: seq<string>, name: string): nat {
    if names == [] then 0
    else Occurrences(names[..|names| - 1], name) + if names[|names| - 1] == name then 1 else 0
  }

  /** How often an artifact is entered under a key: once for each invariant of that name. */
  function Count(a: Artifact, k: Key): nat {
    match k
    case ByTier(t) => if a.tier == t then 1 else 0
    case ByLanguage(l) => if AsString(a.language) == l then 1 else 0
    case ByInvariant(name) => Occurrences(a.invariants, name)
  }

  function Repeat<T>(x: T, n: nat): (r: seq<T>)
    ensures |r| == n && forall i :: 0 <= i < n ==> r[i] == x
  {
    seq(n, _ => x)
  }

  // ---------- The history of additions and what it determines ----------

  /** The current version of every identifier. */
  function Store(adds: seq<Artifact>): map<Id, Artifact> {
    if adds == [] then map[] else Store(adds[..|adds| - 1])[adds[|adds| - 1].id := adds[|adds| - 1]]
  }

  /** The identifiers entered under a key, in order of addition. */
  function Listed(adds: seq<Artifact>, k: Key): seq<Id> {
    if adds == [] then []
    else
      var last := adds[|adds| - 1];
      Listed(adds[..|adds| - 1], k) + Repeat(last.id, Count(last, k))
  }

  /** Looking identifiers up, silently passing over any that are missing. */
  function LookUp(ids: seq<Id>, store: map<Id, Artifact>): seq<Artifact> {
    if ids == [] then []
    else
      var rest, last := LookUp(ids[..|ids| - 1], store), ids[|ids| - 1];
      if last in store then rest + [store[last]] else rest
  }

  function Query(adds: seq<Artifact>, k: Key): seq<Artifact> { LookUp(Listed(adds, k), Store(adds)) }

  // ---------- The mutable universe ----------

  function IndexAt<K(==)>(index: map<K, seq<Id>>, k: K): seq<Id> { if k in index then index[k] else [] }

  /** The new index lists id after the old one, once for every occurrence of n among the names. */
  ghost predicate Extended(old': map<string, seq<Id>>, new': map<string, seq<Id>>, id: Id, names: seq<string>, n: string) {
    IndexAt(new', n) == IndexAt(old', n) + Repeat(id, Occurrences(names, n))
  }

  ghost predicate AllExtended(old': map<string, seq<Id>>, new': map<string, seq<Id>>, a: Artifact) {
    forall n :: Extended(old', new', a.id, a.invariants, n)
  }

  lemma OccurrencesSnoc(names: seq<string>, i: nat, n: string)
    requires i < |names|
    ensures Occurrences(names[..i + 1], n) == Occurrences(names[..i], n) + if names[i] == n then 1 else 0
  {
    assert names[..i + 1][..i] == names[..i];
  }

  lemma RepeatMore<T>(x: T, n: nat)
    ensures Repeat(x, n + 1) == Repeat(x, n) + [x]
  {
  }

  lemma StoreSnoc(adds: seq<Artifact>, a: Artifact)
    ensures Store(adds + [a]) == Store(adds)[a.id := a]
  {
    assert (adds + [a])[..|adds|] == adds;
  }

  lemma ListedSnoc(adds: seq<Artifact>, a: Artifact, k: Key)
    ensures Listed(adds + [a], k) == Listed(adds, k) + Repeat(a.id, Count(a, k))
  {
    assert (adds + [a])[..|adds|] == adds;
  }

  ghost predicate TiersAgree(index: map<Tier, seq<Id>>, adds: seq<Artifact>) {
    forall t :: IndexAt(index, t) == Listed(adds, ByTier(t))
  }

  ghost predicate LanguagesAgree(index: map<string, seq<Id>>, adds: seq<Artifact>) {
    forall l :: IndexAt(index, l) == Listed(adds, ByLanguage(l))
  }

  ghost predicate InvariantsAgree(index: map<string, seq<Id>>, adds: seq<Artifact>) {
    forall n :: IndexAt(index, n) == Listed(adds, ByInvariant(n))
  }

  /** An index with one more identifier at the end of the list of a key. */
  function Entered<K(==)>(index: map<K, seq<Id>>, k: K, id: Id): map<K, seq<Id>> { index[k := IndexAt(index, k) + [id]] }

  lemma IndexAtEntered<K>(index: map<K, seq<Id>>, k: K, id: Id, other: K)
    ensures IndexAt(Entered(index, k, id), other) == if other == k then IndexAt(index, k) + [id] else IndexAt(index, other)
  {
  }

  /** An artifact that is entered once under its key, and not under another. */
  lemma ListedOnce(adds: seq<Artifact>, a: Artifact, k: Key)
    requires !k.ByInvariant?
    ensures Listed(adds + [a], k) == if Count(a, k) == 1 then Listed(adds, k) + [a.id] else Listed(adds, k)
  {
    ListedSnoc(adds, a, k);
    assert Repeat(a.id, 1) == [a.id] && Repeat(a.id, 0) == [];
  }

  lemma TiersEntered(index: map<Tier, seq<Id>>, adds: seq<Artifact>, a: Artifact)
    requires TiersAgree(index, adds)
    ensures TiersAgree(Entered(index, a.tier, a.id), adds + [a])
  {
    forall t ensures IndexAt(Entered(index, a.tier, a.id), t) == Listed(adds + [a], ByTier(t)) {
      ListedOnce(adds, a, ByTier(t));
      IndexAtEntered(index, a.tier, a.id, t);
      assert IndexAt(index, t) == Listed(adds, ByTier(t));
    }
  }

  lemma LanguagesEntered(index: map<string, seq<Id>>, adds: seq<Artifact>, a: Artifact)
    requires LanguagesAgree(index, adds)
    ensures LanguagesAgree(Entered(index, AsString(a.language), a.id), adds + [a])
  {
    forall l ensures IndexAt(Entered(index, AsString(a.language), a.id), l) == Listed(adds + [a], ByLanguage(l)) {
      ListedOnce(adds, a, ByLanguage(l));
      IndexAtEntered(index, AsString(a.language), a.id, l);
      assert IndexAt(index, l) == Listed(adds, ByLanguage(l));
    }
  }

  lemma InvariantsEntered(index: map<string, seq<Id>>, next: map<string, seq<Id>>, adds: seq<Artifact>, a: Artifact)
    requires InvariantsAgree(index, adds)
    requires AllExtended(index, next, a)
    ensures InvariantsAgree(next, adds + [a])
  {
    forall n ensures IndexAt(next, n) == Listed(adds + [a], ByInvariant(n)) {
      ListedSnoc(adds, a, ByInvariant(n));
      assert Extended(index, next, a.id, a.invariants, n);
    }
  }

  /** Store and indexes are those of the history. */
  ghost predicate Agree(artifacts: map<Id, Artifact>, tiers: map<Tier, seq<Id>>, languages: map<string, seq<Id>>,
                        invariants: map<string, seq<Id>>, adds: seq<Artifact>) {
    artifacts == Store(adds) && TiersAgree(tiers, adds) && LanguagesAgree(languages, adds)
    && InvariantsAgree(invariants, adds)
  }

  lemma AddKeepsAgreement(artifacts: map<Id, Artifact>, tiers: map<Tier, seq<Id>>, languages: map<string, seq<Id>>,
                          invariants: map<string, seq<Id>>, next: map<string, seq<Id>>, adds: seq<Artifact>, a: Artifact)
    requires Agree(artifacts, tiers, languages, invariants, adds) && AllExtended(invariants, next, a)
    ensures Agree(artifacts[a.id := a], Entered(tiers, a.tier, a.id), Entered(languages, AsString(a.language), a.id),
                  next, adds + [a])
  {
    StoreSnoc(adds, a);
    TiersEntered(tiers, adds, a);
    LanguagesEntered(languages, adds, a);
    InvariantsEntered(invariants, next, adds, a);
  }

  class Universe {
    var artifacts: map<Id, Artifact>
    var invariantIndex: map<string, seq<Id>>
    var tierIndex: map<Tier, seq<Id>>
    var languageIndex: map<string, seq<Id>>
    ghost var history: seq<Artifact>

    ghost predicate Valid()
      reads this
    {
      Agree(artifacts, tierIndex, languageIndex, invariantIndex, history)
    }

    constructor ()
      ensures Valid() && history == []
    {
      artifacts, invariantIndex, tierIndex, languageIndex := map[], map[], map[], map[];
      history := [];
    }

    /** Enters the identifier once for every invariant of the artifact, under the invariant's name. */
    method IndexInvariants(a: Artifact)
      modifies `invariantIndex
      ensures AllExtended(old(invariantIndex), invariantIndex, a)
    {
      ghost var index := invariantIndex;
      for i := 0 to |a.invariants|
        invariant forall n :: Extended(index, invariantIndex, a.id, a.invariants[..i], n)
      {
        ghost var before := invariantIndex;
        ghost var names := a.invariants[..i + 1];
        invariantIndex := Entered(invariantIndex, a.invariants[i], a.id);
        forall n ensures Extended(index, invariantIndex, a.id, names, n) {
          assert Extended(index, before, a.id, a.invariants[..i], n);
          OccurrencesSnoc(a.invariants, i, n);
          RepeatMore(a.id, Occurrences(a.invariants[..i], n));
        }
      }
      assert a.invariants[..|a.invariants|] == a.invariants;
    }

    method AddArtifact(a: Artifact)
      requires Valid()
      modifies this
      ensures Valid() && history == old(history) + [a]
    {
      artifacts := artifacts[a.id := a];
      tierIndex := Entered(tierIndex, a.tier, a.id);
      languageIndex := Entered(languageIndex, AsString(a.language), a.id);
      IndexInvariants(a);
      AddKeepsAgreement(old(artifacts), old(tierIndex), old(languageIndex), old(invariantIndex), invariantIndex,
                        history, a);
      history := history + [a];
    }

    function QueryByTier(t: Tier): (r: seq<Artifact>)
      requires Valid()
      reads this
      ensures r == Query(history, ByTier(t))
    {
      LookUp(IndexAt(tierIndex, t), artifacts)
    }

    function QueryByLanguage(language: string): (r: seq<Artifact>)
      requires Valid()
      reads this
      ensures r == Query(history, ByLanguage(language))
    {
      LookUp(IndexAt(languageIndex, language), artifacts)
    }

    function QueryByInvariant(name: string): (r: seq<Artifact>)
      requires Valid()
      reads this
      ensures r == Query(history, ByInvariant(name))
    {
      LookUp(IndexAt(invariantIndex, name), artifacts)
    }
  }

  /** Loading a saved repository: its artifacts are added to an empty universe, in whatever order the map yields. */
  method Rebuild(saved: map<Id, Artifact>) returns (u: Universe, ghost order: seq<Id>)
    ensures fresh(u) && u.Valid() && Enumerates(order, saved) && u.history == Values(order, saved)
  {
    u := new Universe();
    order := [];
    var keys := saved.Keys;
    while keys != {}
      invariant fresh(u) && u.Valid()
      invariant keys <= saved.Keys && Distinct(order)
      invariant forall id :: id in order <==> id in saved && id !in keys
      invariant u.history == Values(order, saved)
    {
      var id :| id in keys;
      keys := keys - {id};
      u.AddArtifact(saved[id]);
      ghost var before := order;
      order := order + [id];
      assert forall x :: x in order <==> x in before || x == id;
    }
  }

  ghost predicate Distinct<T>(s: seq<T>) { forall i, j :: 0 <= i < j < |s| ==> s[i] != s[j] }

  ghost predicate Enumerates(order: seq<Id>, saved: map<Id, Artifact>) {
    Distinct(order) && forall id :: id in order <==> id in saved
  }

  ghost function Values(order: seq<Id>, saved: map<Id, Artifact>): seq<Artifact>
    requires forall id :: id in order ==> id in saved
  {
    seq(|order|, i requires 0 <= i < |order| => saved[order[i]])
  }

  // ---------- The store ----------

  ghost predicate LastAt(adds: seq<Artifact>, id: Id, i: nat) {
    i < |adds| && adds[i].id == id && forall j :: i < j < |adds| ==> adds[j].id != id
  }

  lemma {:induction false} LastAddition(adds: seq<Artifact>, id: Id) returns (i: nat)
    requires id in Store(adds)
    ensures LastAt(adds, id, i) && Store(adds)[id] == adds[i]
  {
    var n := |adds| - 1;
    i := n;
    if adds[n].id != id {
      i := LastAddition(adds[..n], id);
    }
  }

  lemma {:induction false} AddedIsStored(adds: seq<Artifact>, i: nat)
    requires i < |adds|
    ensures adds[i].id in Store(adds)
  {
    var n := |adds| - 1;
    if i < n {
      AddedIsStored(adds[..n], i);
      assert adds[..n][i] == adds[i];
    }
  }

  lemma StoredUnderOwnId(adds: seq<Artifact>, id: Id)
    requires id in Store(adds)
    ensures Store(adds)[id].id == id
  {
    var i := LastAddition(adds, id);
  }

  // ---------- The indexes ----------

  /** An identifier is listed under a key exactly when some addition of it had the key. */
  lemma {:induction false} ListedIffAdded(adds: seq<Artifact>, k: Key, id: Id)
    ensures id in Listed(adds, k) <==> exists i :: 0 <= i < |adds| && adds[i].id == id && Count(adds[i], k) > 0
  {
    if adds != [] {
      var n := |adds| - 1;
      ListedIffAdded(adds[..n], k, id);
      ListedMember(adds, k, id);
      assert forall i :: 0 <= i < n ==> adds[..n][i] == adds[i];
    }
  }

  lemma ListedMember(adds: seq<Artifact>, k: Key, id: Id)
    requires adds != []
    ensures var n := |adds| - 1;
            id in Listed(adds, k) <==> id in Listed(adds[..n], k) || (adds[n].id == id && Count(adds[n], k) > 0)
  {
    var n := |adds| - 1;
    var more := Repeat(adds[n].id, Count(adds[n], k));
    assert Count(adds[n], k) > 0 ==> more[0] == adds[n].id;
  }

  lemma NoneDangles(adds: seq<Artifact>, k: Key)
    ensures forall id :: id in Listed(adds, k) ==> id in Store(adds)
  {
    forall id | id in Listed(adds, k) ensures id in Store(adds) {
      ListedIffAdded(adds, k, id);
      var i: nat :| i < |adds| && adds[i].id == id && Count(adds[i], k) > 0;
      AddedIsStored(adds, i);
    }
  }

  lemma {:induction false} LookUpAll(ids: seq<Id>, store: map<Id, Artifact>)
    requires forall id :: id in ids ==> id in store
    ensures |LookUp(ids, store)| == |ids|
    ensures forall i :: 0 <= i < |ids| ==> LookUp(ids, store)[i] == store[ids[i]]
  {
    if ids != [] {
      LookUpAll(ids[..|ids| - 1], store);
    }
  }

  /** A query answers with the current version of the identifier of every addition made with the key, in the order
      of the additions; no entry of an index is lost in the look-up. */
  lemma QueryGivesCurrentVersions(adds: seq<Artifact>, k: Key)
    ensures |Query(adds, k)| == |Listed(adds, k)|
    ensures forall i :: 0 <= i < |Listed(adds, k)| ==>
              var id := Listed(adds, k)[i];
              id in Store(adds) && Query(adds, k)[i] == Store(adds)[id] && Query(adds, k)[i].id == id
  {
    NoneDangles(adds, k);
    LookUpAll(Listed(adds, k), Store(adds));
    forall i | 0 <= i < |Listed(adds, k)| ensures Query(adds, k)[i].id == Listed(adds, k)[i] {
      StoredUnderOwnId(adds, Listed(adds, k)[i]);
    }
  }

  /** Whatever is in the store and has the key is found. */
  lemma LiveMatchIsFound(adds: seq<Artifact>, k: Key, id: Id)
    requires id in Store(adds) && Count(Store(adds)[id], k) > 0
    ensures Store(adds)[id] in Query(adds, k)
  {
    var i := LastAddition(adds, id);
    ListedIffAdded(adds, k, id);
    QueryGivesCurrentVersions(adds, k);
    var j :| 0 <= j < |Listed(adds, k)| && Listed(adds, k)[j] == id;
    assert Query(adds, k)[j] == Store(adds)[id];
  }

  /** The version that replaced an addition made with the key still has the key. */
  ghost predicate StillHas(adds: seq<Artifact>, k: Key, i: nat) {
    i < |adds| && Count(adds[i], k) > 0 && adds[i].id in Store(adds) ==> Count(Store(adds)[adds[i].id], k) > 0
  }

  /** A query gives nothing but matches exactly when no addition made with the key was replaced by one without it. */
  lemma OnlyMatchesIffNoneStale(adds: seq<Artifact>, k: Key)
    ensures (forall a :: a in Query(adds, k) ==> Count(a, k) > 0) <==> (forall i: nat :: StillHas(adds, k, i))
  {
    QueryGivesCurrentVersions(adds, k);
    forall i: nat ensures (forall a :: a in Query(adds, k) ==> Count(a, k) > 0) ==> StillHas(adds, k, i) {
      if i < |adds| && Count(adds[i], k) > 0 {
        ListedIffAdded(adds, k, adds[i].id);
        var j :| 0 <= j < |Listed(adds, k)| && Listed(adds, k)[j] == adds[i].id;
        assert Query(adds, k)[j] in Query(adds, k);
      }
    }
    forall a | a in Query(adds, k) ensures (forall i: nat :: StillHas(adds, k, i)) ==> Count(a, k) > 0 {
      var j :| 0 <= j < |Query(adds, k)| && Query(adds, k)[j] == a;
      var id := Listed(adds, k)[j];
      ListedIffAdded(adds, k, id);
      var i: nat :| i < |adds| && adds[i].id == id && Count(adds[i], k) > 0;
      assert StillHas(adds, k, i) ==> Count(a, k) > 0;
    }
  }

  // ---------- How often a match is given ----------

  /** How often an identifier was entered under a key, over all its additions. */
  function Entries(adds: seq<Artifact>, k: Key, id: Id): nat {
    if adds == [] then 0
    else
      var last := adds[|adds| - 1];
      Entries(adds[..|adds| - 1], k, id) + if last.id == id then Count(last, k) else 0
  }

  lemma {:induction false} RepeatMultiplicity<T>(x: T, n: nat, y: T)
    ensures multiset(Repeat(x, n))[y] == if x == y then n else 0
  {
    if n == 0 {
      assert Repeat(x, 0) == [];
    } else {
      RepeatMultiplicity(x, n - 1, y);
      RepeatMore(x, n - 1);
    }
  }

  lemma {:induction false} ListedMultiplicity(adds: seq<Artifact>, k: Key, id: Id)
    ensures multiset(Listed(adds, k))[id] == Entries(adds, k, id)
  {
    if adds != [] {
      var last := adds[|adds| - 1];
      ListedMultiplicity(adds[..|adds| - 1], k, id);
      RepeatMultiplicity(last.id, Count(last, k), id);
    }
  }

  ghost predicate UnderOwnIds(store: map<Id, Artifact>) { forall id :: id in store ==> store[id].id == id }

  lemma {:induction false} LookUpMultiplicity(ids: seq<Id>, store: map<Id, Artifact>, id: Id)
    requires UnderOwnIds(store) && id in store && forall x :: x in ids ==> x in store
    ensures multiset(LookUp(ids, store))[store[id]] == multiset(ids)[id]
  {
    if ids != [] {
      var rest := ids[..|ids| - 1];
      assert ids == rest + [ids[|ids| - 1]];
      LookUpMultiplicity(rest, store, id);
    }
  }

  /** Each live artifact is given as often as its identifier was entered under the key, over all its versions. */
  lemma QueryMultiplicity(adds: seq<Artifact>, k: Key, id: Id)
    requires id in Store(adds)
    ensures multiset(Query(adds, k))[Store(adds)[id]] == Entries(adds, k, id)
  {
    NoneDangles(adds, k);
    forall x | x in Store(adds) ensures Store(adds)[x].id == x {
      StoredUnderOwnId(adds, x);
    }
    LookUpMultiplicity(Listed(adds, k), Store(adds), id);
    ListedMultiplicity(adds, k, id);
  }

  // ---------- When the indexes are exact ----------

  ghost predicate DistinctIds(adds: seq<Artifact>) {
    forall i, j :: 0 <= i < j < |adds| ==> adds[i].id != adds[j].id
  }

  /** The store filtered by a key, in order of addition. */
  function Matching(adds: seq<Artifact>, k: Key): seq<Artifact> {
    if adds == [] then []
    else
      var last := adds[|adds| - 1];
      Matching(adds[..|adds| - 1], k) + Repeat(last, Count(last, k))
  }

  lemma {:induction false} LookUpAppend(a: seq<Id>, b: seq<Id>, store: map<Id, Artifact>)
    ensures LookUp(a + b, store) == LookUp(a, store) + LookUp(b, store)
  {
    if b == [] {
      assert a + b == a;
    } else {
      LookUpAppend(a, b[..|b| - 1], store);
      assert (a + b)[..|a + b| - 1] == a + b[..|b| - 1];
    }
  }

  lemma {:induction false} LookUpExtended(ids: seq<Id>, store: map<Id, Artifact>, a: Artifact)
    requires a.id !in ids
    ensures LookUp(ids, store[a.id := a]) == LookUp(ids, store)
  {
    if ids != [] {
      LookUpExtended(ids[..|ids| - 1], store, a);
    }
  }

  lemma {:induction false} LookUpRepeat(a: Artifact, n: nat, store: map<Id, Artifact>)
    requires a.id in store && store[a.id] == a
    ensures LookUp(Repeat(a.id, n), store) == Repeat(a, n)
  {
    if n > 0 {
      LookUpRepeat(a, n - 1, store);
      RepeatMore(a.id, n - 1);
      assert Repeat(a.id, n)[..n - 1] == Repeat(a.id, n - 1);
    }
  }

  /** If no identifier was added twice, a query is exactly the store filtered by its key. */
  lemma {:induction false} DistinctAddsAreExact(adds: seq<Artifact>, k: Key)
    requires DistinctIds(adds)
    ensures Query(adds, k) == Matching(adds, k)
  {
    if adds != [] {
      var n := |adds| - 1;
      var before, a := adds[..n], adds[n];
      DistinctAddsAreExact(before, k);
      ListedIffAdded(before, k, a.id);
      LookUpExtended(Listed(before, k), Store(before), a);
      LookUpRepeat(a, Count(a, k), Store(adds));
      LookUpAppend(Listed(before, k), Repeat(a.id, Count(a, k)), Store(adds));
    }
  }

  /** A query gives every live artifact as often as it has the key now, and so nothing that does not have it. */
  ghost predicate ExactFilter(adds: seq<Artifact>, k: Key) {
    forall id :: id in Store(adds) ==> GivenExactly(adds, k, id)
  }

  ghost predicate GivenExactly(adds: seq<Artifact>, k: Key, id: Id)
    requires id in Store(adds)
  {
    multiset(Query(adds, k))[Store(adds)[id]] == Count(Store(adds)[id], k)
  }

  /** How often an identifier was added. */
  function Additions(adds: seq<Artifact>, id: Id): nat {
    if adds == [] then 0
    else Additions(adds[..|adds| - 1], id) + if adds[|adds| - 1].id == id then 1 else 0
  }

  lemma {:induction false} AdditionsAreEntries(adds: seq<Artifact>, id: Id)
    ensures Additions(adds, id) == Entries(adds, ByTier(T0), id) + Entries(adds, ByTier(T1), id)
                                   + Entries(adds, ByTier(T2), id) + Entries(adds, ByTier(T3), id)
  {
    if adds != [] {
      AdditionsAreEntries(adds[..|adds| - 1], id);
    }
  }

  lemma {:induction false} AdditionsCount(adds: seq<Artifact>, id: Id)
    ensures Additions(adds, id) > 0 <==> id in Store(adds)
    ensures Additions(adds, id) > 1 <==> exists i, j :: AddedTwiceAt(adds, id, i, j)
  {
    if adds != [] {
      var n := |adds| - 1;
      AdditionsCount(adds[..n], id);
      forall i, j ensures AddedTwiceAt(adds, id, i, j)
                          <==> AddedTwiceAt(adds[..n], id, i, j) || (0 <= i < n == j && adds[i].id == adds[n].id == id) {
      }
      if Additions(adds[..n], id) > 1 {
        var i, j :| AddedTwiceAt(adds[..n], id, i, j);
        assert AddedTwiceAt(adds, id, i, j);
      } else if adds[n].id == id && id in Store(adds[..n]) {
        var i := LastAddition(adds[..n], id);
        assert AddedTwiceAt(adds, id, i, n);
      } else if adds[n].id == id {
        forall i: nat | i < n ensures adds[i].id != id {
          if adds[i].id == id {
            AddedIsStored(adds[..n], i);
          }
        }
      }
    }
  }

  ghost predicate AddedTwiceAt(adds: seq<Artifact>, id: Id, i: int, j: int) {
    0 <= i < j < |adds| && adds[i].id == id && adds[j].id == id
  }

  /** With identifiers added once, every entry is one of the current version. */
  lemma {:induction false} EntriesOfDistinct(adds: seq<Artifact>, k: Key, id: Id)
    requires id in Store(adds) && Additions(adds, id) == 1
    ensures Entries(adds, k, id) == Count(Store(adds)[id], k)
  {
    var n := |adds| - 1;
    AdditionsCount(adds[..n], id);
    if adds[n].id == id {
      NoEntries(adds[..n], k, id);
    } else {
      EntriesOfDistinct(adds[..n], k, id);
    }
  }

  lemma {:induction false} NoEntries(adds: seq<Artifact>, k: Key, id: Id)
    requires Additions(adds, id) == 0
    ensures Entries(adds, k, id) == 0
  {
    if adds != [] {
      NoEntries(adds[..|adds| - 1], k, id);
    }
  }

  /** The queries by tier are exact exactly when no identifier was added twice, and then all queries are. */
  lemma ExactIffDistinct(adds: seq<Artifact>)
    ensures (forall t :: ExactFilter(adds, ByTier(t))) <==> DistinctIds(adds)
    ensures DistinctIds(adds) ==> forall k :: ExactFilter(adds, k)
  {
    if DistinctIds(adds) {
      forall k, id | id in Store(adds) ensures GivenExactly(adds, k, id) {
        AdditionsCount(adds, id);
        EntriesOfDistinct(adds, k, id);
        QueryMultiplicity(adds, k, id);
      }
    } else if forall t :: ExactFilter(adds, ByTier(t)) {
      var i, j :| 0 <= i < j < |adds| && adds[i].id == adds[j].id;
      var id := adds[i].id;
      assert AddedTwiceAt(adds, id, i, j);
      AdditionsCount(adds, id);
      TierEntries(adds, id);
    }
  }

  lemma EntriesOfExact(adds: seq<Artifact>, k: Key, id: Id)
    requires id in Store(adds) && ExactFilter(adds, k)
    ensures Entries(adds, k, id) == Count(Store(adds)[id], k)
  {
    assert GivenExactly(adds, k, id);
    QueryMultiplicity(adds, k, id);
  }

  lemma OneTier(a: Artifact)
    ensures Count(a, ByTier(T0)) + Count(a, ByTier(T1)) + Count(a, ByTier(T2)) + Count(a, ByTier(T3)) == 1
  {
  }

  lemma TierEntries(adds: seq<Artifact>, id: Id)
    requires id in Store(adds) && forall t :: ExactFilter(adds, ByTier(t))
    ensures Additions(adds, id) == 1
  {
    EntriesOfExact(adds, ByTier(T0), id);
    EntriesOfExact(adds, ByTier(T1), id);
    EntriesOfExact(adds, ByTier(T2), id);
    EntriesOfExact(adds, ByTier(T3), id);
    AdditionsAreEntries(adds, id);
    OneTier(Store(adds)[id]);
  }

  /** No two keys of a saved map hold artifacts with one identifier. */
  ghost predicate OneKeyPerId(saved: map<Id, Artifact>) {
    forall x, y :: x in saved && y in saved && saved[x].id == saved[y].id ==> x == y
  }

  lemma RebuiltIds(saved: map<Id, Artifact>, order: seq<Id>)
    requires Enumerates(order, saved)
    ensures DistinctIds(Values(order, saved)) <==> OneKeyPerId(saved)
  {
    var rebuilt := Values(order, saved);
    if DistinctIds(rebuilt) {
      forall x, y | x in saved && y in saved && saved[x].id == saved[y].id ensures x == y {
        var i :| 0 <= i < |order| && order[i] == x;
        var j :| 0 <= j < |order| && order[j] == y;
        assert rebuilt[i].id == rebuilt[j].id;
      }
    }
    if OneKeyPerId(saved) {
      forall i, j | 0 <= i < j < |rebuilt| ensures rebuilt[i].id != rebuilt[j].id {
        assert order[i] in saved && order[j] in saved;
      }
    }
  }

  lemma RebuiltStore(saved: map<Id, Artifact>, order: seq<Id>)
    requires Enumerates(order, saved) && UnderOwnIds(saved)
    ensures Store(Values(order, saved)) == saved
  {
    var rebuilt := Values(order, saved);
    forall id ensures id in Store(rebuilt) <==> id in saved
              ensures id in saved && id in Store(rebuilt) ==> Store(rebuilt)[id] == saved[id]
    {
      if id in saved {
        assert id in order;
        var i :| 0 <= i < |order| && order[i] == id;
        AddedIsStored(rebuilt, i);
      }
      if id in Store(rebuilt) {
        var i := LastAddition(rebuilt, id);
        assert order[i] in order;
      }
    }
  }

  /** After a rebuild from any saved map, in any order: the store is the map exactly when the map keeps its artifacts
      under their own identifiers, and the queries are exact exactly when no two keys share an identifier. */
  lemma RebuildIsExactIff(saved: map<Id, Artifact>, order: seq<Id>)
    requires Enumerates(order, saved)
    ensures var rebuilt := Values(order, saved);
            (Store(rebuilt) == saved <==> UnderOwnIds(saved))
            && ((forall t :: ExactFilter(rebuilt, ByTier(t))) <==> OneKeyPerId(saved))
            && (OneKeyPerId(saved) ==> forall k :: Query(rebuilt, k) == Matching(rebuilt, k))
  {
    var rebuilt := Values(order, saved);
    ExactIffDistinct(rebuilt);
    RebuiltIds(saved, order);
    if UnderOwnIds(saved) {
      RebuiltStore(saved, order);
    }
    forall id | id in Store(rebuilt) ensures Store(rebuilt)[id].id == id {
      StoredUnderOwnId(rebuilt, id);
    }
    if OneKeyPerId(saved) {
      forall k ensures Query(rebuilt, k) == Matching(rebuilt, k) {
        DistinctAddsAreExact(rebuilt, k);
      }
    }
  }

  /** So a rebuild from the store of any universe keeps the store and makes every query exact. */
  lemma RebuildIsExact(adds: seq<Artifact>, order: seq<Id>, k: Key)
    requires Enumerates(order, Store(adds))
    ensures var rebuilt := Values(order, Store(adds));
            Store(rebuilt) == Store(adds) && Query(rebuilt, k) == Matching(rebuilt, k) && ExactFilter(rebuilt, k)
  {
    forall id | id in Store(adds) ensures Store(adds)[id].id == id {
      StoredUnderOwnId(adds, id);
    }
    RebuildIsExactIff(Store(adds), order);
    RebuiltIds(Store(adds), order);
    ExactIffDistinct(Values(order, Store(adds)));
  }

  // ---------- What a query gives, in terms of the additions alone ----------

  predicate Named(l: Language, name: string) {
    || (l == Rust && name == "rust") || (l == Lean4 && name == "lean4") || (l == Ada && name == "ada")
    || (l == PL1 && name == "pl1") || (l == Prolog && name == "prolog") || (l == Haskell && name == "haskell")
    || l == Other(name)
  }

  /** An artifact of the tier, of the language so named, or with an invariant of the name. */
  predicate Has(a: Artifact, k: Key) {
    match k
    case ByTier(t) => a.tier == t
    case ByLanguage(name) => Named(a.language, name)
    case ByInvariant(name) => name in a.invariants
  }

  lemma {:induction false} OccurrencesCount(names: seq<string>, name: string)
    ensures Occurrences(names, name) == multiset(names)[name]
  {
    if names != [] {
      var rest := names[..|names| - 1];
      OccurrencesCount(rest, name);
      assert names == rest + [names[|names| - 1]];
    }
  }

  lemma CountedIffHas(a: Artifact, k: Key)
    ensures Count(a, k) > 0 <==> Has(a, k)
    ensures !k.ByInvariant? ==> Count(a, k) <= 1
  {
    if k.ByInvariant? {
      OccurrencesCount(a.invariants, k.name);
    }
  }

  /** Addition i had the key, and addition j is the last one of its identifier. */
  ghost predicate Leads(adds: seq<Artifact>, k: Key, i: nat, j: nat) {
    i < |adds| && j < |adds| && adds[i].id == adds[j].id && Has(adds[i], k)
    && forall l :: j < l < |adds| ==> adds[l].id != adds[j].id
  }

  /** A query gives exactly the last additions of those identifiers that were ever added with the key. */
  lemma GivenIffAdded(adds: seq<Artifact>, k: Key, a: Artifact)
    ensures a in Query(adds, k) <==> exists i: nat, j: nat :: Leads(adds, k, i, j) && adds[j] == a
  {
    QueryGivesCurrentVersions(adds, k);
    if a in Query(adds, k) {
      var q :| 0 <= q < |Query(adds, k)| && Query(adds, k)[q] == a;
      var id := Listed(adds, k)[q];
      ListedIffAdded(adds, k, id);
      var i: nat :| i < |adds| && adds[i].id == id && Count(adds[i], k) > 0;
      CountedIffHas(adds[i], k);
      var j := LastAddition(adds, id);
      assert Leads(adds, k, i, j) && adds[j] == a;
    }
    if exists i: nat, j: nat :: Leads(adds, k, i, j) && adds[j] == a {
      var i: nat, j: nat :| Leads(adds, k, i, j) && adds[j] == a;
      CountedIffHas(adds[i], k);
      LeadIsGiven(adds, k, i, j);
    }
  }

  lemma LeadIsGiven(adds: seq<Artifact>, k: Key, i: nat, j: nat)
    requires Leads(adds, k, i, j) && Count(adds[i], k) > 0
    ensures adds[j] in Query(adds, k)
  {
    var id := adds[j].id;
    ListedIffAdded(adds, k, id);
    QueryGivesCurrentVersions(adds, k);
    var q :| 0 <= q < |Listed(adds, k)| && Listed(adds, k)[q] == id;
    var last := LastAddition(adds, id);
    assert last == j;
    assert Query(adds, k)[q] == adds[j];
  }

  lemma FoundUnder(adds: seq<Artifact>, i: nat, k: Key)
    requires i < |adds| && forall j :: i < j < |adds| ==> adds[j].id != adds[i].id
    requires Has(adds[i], k)
    ensures adds[i] in Query(adds, k)
  {
    CountedIffHas(adds[i], k);
    assert Leads(adds, k, i, i);
    LeadIsGiven(adds, k, i, i);
  }

  /** The current version of an artifact is found under the name of its language. */
  lemma FoundByLanguage(adds: seq<Artifact>, i: nat)
    requires i < |adds| && forall j :: i < j < |adds| ==> adds[j].id != adds[i].id
    ensures match adds[i].language
      case Rust => adds[i] in Query(adds, ByLanguage("rust"))
      case Lean4 => adds[i] in Query(adds, ByLanguage("lean4"))
      case Ada => adds[i] in Query(adds, ByLanguage("ada"))
      case PL1 => adds[i] in Query(adds, ByLanguage("pl1"))
      case Prolog => adds[i] in Query(adds, ByLanguage("prolog"))
      case Haskell => adds[i] in Query(adds, ByLanguage("haskell"))
      case Other(tag) => adds[i] in Query(adds, ByLanguage(tag))
  {
    match adds[i].language
    case Rust => FoundUnder(adds, i, ByLanguage("rust"));
    case Lean4 => FoundUnder(adds, i, ByLanguage("lean4"));
    case Ada => FoundUnder(adds, i, ByLanguage("ada"));
    case PL1 => FoundUnder(adds, i, ByLanguage("pl1"));
    case Prolog => FoundUnder(adds, i, ByLanguage("prolog"));
    case Haskell => FoundUnder(adds, i, ByLanguage("haskell"));
    case Other(tag) => FoundUnder(adds, i, ByLanguage(tag));
  }

  /** One artifact added twice, and moved from tier T0 to T1 by the second addition, is still given for T0. */
  lemma ReplacedArtifactStaysListed(old': Artifact, new': Artifact)
    requires old'.id == new'.id && old'.tier == T0 && new'.tier == T1
    ensures Query([old', new'], ByTier(T0)) == [new']
  {
    var adds := [old', new'];
    assert adds[..1] == [old'] && adds[..1][..0] == [];
    assert Listed(adds[..1], ByTier(T0)) == [] + Repeat(old'.id, 1);
    assert Repeat(old'.id, 1) == [old'.id];
    assert Listed(adds, ByTier(T0)) == [old'.id] + Repeat(new'.id, 0);
    LookUpAppend([], [old'.id], Store(adds));
  }
}
