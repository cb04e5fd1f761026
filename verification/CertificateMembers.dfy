/** Reading the canonical text by the quoted names of its members, and what stands under each name. */
module CertificateMembers {
  import opened Widths
  import opened CertificateText

  // ---------- The reader ----------

  predicate StartsWith(t: string, p: string) { |p| <= |t| && t[..|p|] == p }

  /** What follows the first occurrence of p. */
  function After(t: string, p: string): (r: Option<string>)
    ensures r.Some? ==> |r.value| + |p| <= |t|
  {
    if StartsWith(t, p) then Some(t[|p|..]) else if t == "" then None else After(t[1..], p)
  }

  /** What stands under a quoted name. */
  function Member(t: string, name: string): Option<string> { After(t, "\"" + name + "\":") }

  function Unsigned(t: string): int { ValueOf(t[..Leading(t)]) }

  /** The number that a text starts with, and its length. */
  function NumberAt(t: string): int { if t != "" && t[0] == '-' then 0 - Unsigned(t[1..]) else Unsigned(t) }

  function NumberLength(t: string): (n: nat)
    ensures n <= |t|
  {
    if t != "" && t[0] == '-' then 1 + Leading(t[1..]) else Leading(t)
  }

  /** The number under a name. */
  function NumberOf(t: string, name: string): Option<int> {
    match Member(t, name)
    case None => None
    case Some(v) => Some(NumberAt(v))
  }

  /** The numbers of a list, from a text that starts within it; None unless its bracket is closed. */
  function RestOfNumbers(t: string): Option<seq<int>>
    decreases |t|
  {
    if t == "" then None
    else if t[0] == ']' then Some([])
    else if t[0] == ',' then RestOfNumbers(t[1..])
    else if NumberLength(t) == 0 then None
    else
      match RestOfNumbers(t[NumberLength(t)..])
      case None => None
      case Some(ns) => Some([NumberAt(t)] + ns)
  }

  function NumbersOf(t: string, name: string): Option<seq<int>> {
    match Member(t, name)
    case None => None
    case Some(v) => if v != "" && v[0] == '[' then RestOfNumbers(v[1..]) else None
  }

  /** The obligation that a text starts with, read by the names of its members. */
  function ObligationAt(t: string): Option<(int, int, int, int)> {
    match (NumberOf(t, "id"), NumberOf(t, "kind"), NumberOf(t, "start_pc"), NumberOf(t, "end_pc"))
    case (Some(id), Some(kind), Some(startPc), Some(endPc)) => Some((id, kind, startPc, endPc))
    case _ => None
  }

  function RestOfObligations(t: string): Option<seq<(int, int, int, int)>>
    decreases |t|
  {
    if t == "" then None
    else if t[0] == ']' then Some([])
    else if t[0] == ',' then RestOfObligations(t[1..])
    else
      match (ObligationAt(t), After(t, "}"))
      case (Some(o), Some(rest)) =>
        (match RestOfObligations(rest)
         case None => None
         case Some(os) => Some([o] + os))
      case _ => None
  }

  function ObligationsOf(t: string, name: string): Option<seq<(int, int, int, int)>> {
    match Member(t, name)
    case None => None
    case Some(v) => if v != "" && v[0] == '[' then RestOfObligations(v[1..]) else None
  }

  // ---------- Passing over what does not match ----------

  /** Every quote in a is followed, still in a, by something other than the quote in p is. */
  predicate Passes(a: string, p: string)
    requires |p| >= 3
  {
    forall i :: 0 <= i < |a| && a[i] == '"' ==> PassesAt(a, p, i)
  }

  predicate PassesAt(a: string, p: string, i: nat)
    requires |p| >= 3 && i < |a|
  {
    i + 1 < |a| && (a[i + 1] != p[1] || (i + 2 < |a| && a[i + 2] != p[2]))
  }

  lemma {:induction false} PassOver(a: string, t: string, p: string)
    requires |p| >= 3 && p[0] == '"' && Passes(a, p)
    ensures After(a + t, p) == After(t, p)
  {
    if a == "" {
      assert a + t == t;
    } else {
      var u := a + t;
      NoStart(a, t, p);
      assert u[1..] == a[1..] + t;
      PassesOn(a, p);
      PassOver(a[1..], t, p);
    }
  }

  lemma NoStart(a: string, t: string, p: string)
    requires |p| >= 3 && p[0] == '"' && Passes(a, p) && a != ""
    ensures !StartsWith(a + t, p)
  {
    if StartsWith(a + t, p) {
      StartChars(a + t, p);
    }
    if a[0] == '"' {
      assert PassesAt(a, p, 0);
    }
  }

  lemma StartChars(u: string, p: string)
    requires |p| >= 3 && StartsWith(u, p)
    ensures |u| >= 3 && u[0] == p[0] && u[1] == p[1] && u[2] == p[2]
  {
    assert u[..|p|][0] == u[0] && u[..|p|][1] == u[1] && u[..|p|][2] == u[2];
  }

  lemma PassesOn(a: string, p: string)
    requires |p| >= 3 && Passes(a, p) && a != ""
    ensures Passes(a[1..], p)
  {
    forall i | 0 <= i < |a[1..]| && a[1..][i] == '"' ensures PassesAt(a[1..], p, i) {
      assert a[i + 1] == a[1..][i];
      assert PassesAt(a, p, i + 1);
    }
  }

  lemma PassesBoth(a: string, b: string, p: string)
    requires |p| >= 3 && Passes(a, p) && Passes(b, p)
    ensures Passes(a + b, p)
  {
    var u := a + b;
    forall i | 0 <= i < |u| && u[i] == '"' ensures PassesAt(u, p, i) {
      if i < |a| {
        assert PassesAt(a, p, i);
      } else {
        assert PassesAt(b, p, i - |a|);
      }
    }
  }

  lemma NumberPasses(n: int, p: string)
    requires |p| >= 3
    ensures Passes(Signed(n), p) && (n >= 0 ==> Passes(Decimal(n), p))
  {
  }

  /** The text p itself, behind a piece that does not match. */
  lemma Found(a: string, t: string, p: string)
    requires |p| >= 3 && p[0] == '"' && Passes(a, p)
    ensures After((a + p) + t, p) == Some(t)
  {
    Assoc(a, p, t);
    PassOver(a, p + t, p);
    assert (p + t)[..|p|] == p && (p + t)[|p|..] == t;
  }

  // ---------- Numbers ----------

  lemma NumberRead(n: int, x: string)
    requires Stops(x)
    ensures NumberAt(Signed(n) + x) == n && NumberLength(Signed(n) + x) == |Signed(n)| > 0
  {
    var d := Decimal(if n < 0 then 0 - n else n);
    LeadingDigits(d, x);
    assert (d + x)[..|d|] == d;
    DecimalRoundTrip(if n < 0 then 0 - n else n);
    if n < 0 {
      Assoc("-", d, x);
      assert ("-" + (d + x))[1..] == d + x;
    } else {
      assert (d + x)[0] == d[0] && IsDigit(d[0]);
    }
  }

  // ---------- The numbers in front ----------

  /** A number that follows its name, behind pieces that do not match. */
  lemma NumberFound(a: string, n: nat, x: string, p: string)
    requires |p| >= 3 && p[0] == '"' && Passes(a, p) && Stops(x)
    ensures After((a + p) + (Decimal(n) + x), p) == Some(Decimal(n) + x) && NumberAt(Decimal(n) + x) == n
  {
    Found(a, Decimal(n) + x, p);
    NumberRead(n, x);
  }

  /** Passing over a constant and the number behind it. */
  lemma PassNumber(a: string, n: nat, x: string, p: string)
    requires |p| >= 3 && p[0] == '"' && Passes(a, p)
    ensures After(a + (Decimal(n) + x), p) == After(x, p)
  {
    NumberPasses(n, p);
    PassOver(a, Decimal(n) + x, p);
    PassOver(Decimal(n), x, p);
  }

  lemma VersionRead(c: Content, x: string)
    ensures NumberOf(HeadText(c) + x, "version") == Some(c.version)
  {
    HeadAssoc(c, x);
    var p := "\"version\":";
    assert "\"" + "version" + "\":" == p && "{" + p == "{\"version\":";
    NumberFound("{", c.version, ",\"timestamp\":" + (Decimal(c.timestamp)
      + (",\"program_size\":" + (Decimal(c.programSize) + (",\"obligations\":[" + x)))), p);
  }

  lemma TimestampRead(c: Content, x: string)
    ensures NumberOf(HeadText(c) + x, "timestamp") == Some(c.timestamp)
  {
    HeadAssoc(c, x);
    var p := "\"timestamp\":";
    assert "\"" + "timestamp" + "\":" == p && "," + p == ",\"timestamp\":";
    var y := ",\"program_size\":" + (Decimal(c.programSize) + (",\"obligations\":[" + x));
    PassNumber("{\"version\":", c.version, ",\"timestamp\":" + (Decimal(c.timestamp) + y), p);
    NumberFound(",", c.timestamp, y, p);
  }

  lemma ProgramSizeRead(c: Content, x: string)
    ensures NumberOf(HeadText(c) + x, "program_size") == Some(c.programSize)
  {
    HeadAssoc(c, x);
    var p := "\"program_size\":";
    assert "\"" + "program_size" + "\":" == p && "," + p == ",\"program_size\":";
    var y := ",\"obligations\":[" + x;
    var z := ",\"program_size\":" + (Decimal(c.programSize) + y);
    PassNumber("{\"version\":", c.version, ",\"timestamp\":" + (Decimal(c.timestamp) + z), p);
    PassNumber(",\"timestamp\":", c.timestamp, z, p);
    NumberFound(",", c.programSize, y, p);
  }

  // ---------- The lists ----------

  /** A list is read back behind its opening bracket. */
  lemma {:induction false} MoreNumbersRead(values: seq<Int64>, x: string)
    requires Closes(x)
    ensures RestOfNumbers(More(Numbers(values)) + x) == Some(values)
    decreases |values|
  {
    var items := Numbers(values);
    if values == [] {
      assert More(items) + x == x;
    } else {
      var rest := values[1..];
      assert items[1..] == Numbers(rest);
      var u := More(Numbers(rest)) + x;
      MoreNumbersRead(rest, x);
      MoreStops(Numbers(rest), x);
      Assoc(",", Text(items[0]) + More(items[1..]), x);
      Assoc(Text(items[0]), More(items[1..]), x);
      FirstRead(values[0], u, rest);
      assert ("," + (Signed(values[0]) + u))[1..] == Signed(values[0]) + u;
      assert [values[0]] + rest == values;
    }
  }

  /** A value, and what is read behind it. */
  lemma FirstRead(value: Int64, u: string, rest: seq<int>)
    requires Stops(u) && RestOfNumbers(u) == Some(rest)
    ensures RestOfNumbers(Signed(value) + u) == Some([value] + rest)
  {
    var t := Signed(value) + u;
    NumberRead(value, u);
    FirstOfItem(Number(value));
    assert t[0] == Signed(value)[0] && t[|Signed(value)|..] == u;
  }

  lemma ListRead(values: seq<Int64>, x: string)
    requires Closes(x)
    ensures RestOfNumbers(Listing(Numbers(values)) + x) == Some(values)
  {
    var items := Numbers(values);
    if values == [] {
      assert Listing(items) + x == x;
    } else {
      var rest := values[1..];
      assert items[1..] == Numbers(rest);
      MoreNumbersRead(rest, x);
      MoreStops(Numbers(rest), x);
      Assoc(Text(items[0]), More(items[1..]), x);
      FirstRead(values[0], More(Numbers(rest)) + x, rest);
      assert [values[0]] + rest == values;
    }
  }

  /** Nothing in a list of items, nor before it, looks like the name of a stack. */
  lemma ItemPasses(item: Item, p: string)
    requires p == "\"initial\":" || p == "\"final\":"
    ensures Passes(Text(item), p)
  {
    if item.Number? {
      NumberPasses(item.n, p);
    } else {
      EntryPasses(item.o, p);
    }
  }

  lemma AfterKindPasses(o: Obligation, p: string)
    requires p == "\"initial\":" || p == "\"final\":"
    ensures Passes(AfterKind(o), p)
  {
    NumberPasses(o.startPc, p);
    NumberPasses(o.endPc, p);
    var d := Decimal(o.endPc) + "}";
    PassesBoth(Decimal(o.endPc), "}", p);
    PassesBoth(",\"end_pc\":", d, p);
    PassesBoth(Decimal(o.startPc), ",\"end_pc\":" + d, p);
    PassesBoth(",\"start_pc\":", Decimal(o.startPc) + (",\"end_pc\":" + d), p);
  }

  lemma EntryPasses(o: Obligation, p: string)
    requires p == "\"initial\":" || p == "\"final\":"
    ensures Passes(EntryText(o), p)
  {
    NumberPasses(o.id, p);
    NumberPasses(o.kind, p);
    AfterKindPasses(o, p);
    var k := Signed(o.kind) + AfterKind(o);
    PassesBoth(Signed(o.kind), AfterKind(o), p);
    PassesBoth(",\"kind\":", k, p);
    PassesBoth(Decimal(o.id), ",\"kind\":" + k, p);
    PassesBoth("{\"id\":", Decimal(o.id) + (",\"kind\":" + k), p);
  }

  lemma {:induction false} MorePasses(items: seq<Item>, p: string)
    requires p == "\"initial\":" || p == "\"final\":"
    ensures Passes(More(items), p)
  {
    if items != [] {
      ItemPasses(items[0], p);
      MorePasses(items[1..], p);
      PassesBoth(Text(items[0]), More(items[1..]), p);
      PassesBoth(",", Text(items[0]) + More(items[1..]), p);
    }
  }

  lemma ListingPasses(items: seq<Item>, p: string)
    requires p == "\"initial\":" || p == "\"final\":"
    ensures Passes(Listing(items), p)
  {
    if items != [] {
      ItemPasses(items[0], p);
      MorePasses(items[1..], p);
      PassesBoth(Text(items[0]), More(items[1..]), p);
    }
  }

  /** Passing over the numbers in front. */
  lemma PassHeadNumbers(c: Content, x: string, p: string)
    requires |p| >= 3 && p[0] == '"'
    requires Passes("{\"version\":", p) && Passes(",\"timestamp\":", p) && Passes(",\"program_size\":", p)
    ensures After(HeadText(c) + x, p) == After(",\"obligations\":[" + x, p)
  {
    HeadAssoc(c, x);
    var o := ",\"obligations\":[" + x;
    var y := ",\"program_size\":" + (Decimal(c.programSize) + o);
    PassNumber("{\"version\":", c.version, ",\"timestamp\":" + (Decimal(c.timestamp) + y), p);
    PassNumber(",\"timestamp\":", c.timestamp, y, p);
    PassNumber(",\"program_size\":", c.programSize, o, p);
  }

  lemma HeadPasses(p: string)
    requires p == "\"initial\":" || p == "\"final\":"
    ensures Passes("{\"version\":", p) && Passes(",\"timestamp\":", p)
    ensures Passes(",\"program_size\":", p) && Passes(",\"obligations\":[", p)
  {
  }

  /** The search for a stack passes over everything in front of the stacks. */
  lemma PassHead(c: Content, x: string, p: string)
    requires p == "\"initial\":" || p == "\"final\":"
    ensures After(HeadText(c) + x, p) == After(x, p)
  {
    HeadPasses(p);
    PassHeadNumbers(c, x, p);
    PassOver(",\"obligations\":[", x, p);
  }

  lemma PassFront(c: Content, p: string)
    requires p == "\"initial\":" || p == "\"final\":"
    ensures After(Canonical(c), p) == After(StacksText(c), p)
  {
    var entries := Listing(Entries(c.obligations));
    PassHead(c, entries + StacksText(c), p);
    ListingPasses(Entries(c.obligations), p);
    PassOver(entries, StacksText(c), p);
  }

  /** A list that follows its name, behind a piece that does not match. */
  lemma ListFound(a: string, p: string, opening: string, values: seq<Int64>, x: string)
    requires |p| >= 3 && p[0] == '"' && Passes(a, p) && opening == (a + p) + "[" && Closes(x)
    ensures var r := After(opening + (Listing(Numbers(values)) + x), p);
      r.Some? && r.value != "" && r.value[0] == '[' && RestOfNumbers(r.value[1..]) == Some(values)
  {
    var list := Listing(Numbers(values)) + x;
    Assoc(a + p, "[", list);
    Found(a, "[" + list, p);
    assert ("[" + list)[1..] == list;
    ListRead(values, x);
  }

  lemma InitialKey(p: string)
    requires p == "\"initial\":"
    ensures "\"" + "initial" + "\":" == p && ("],\"stacks\":{" + p) + "[" == STACKS && Passes("],\"stacks\":{", p)
  {
  }

  lemma FinalKey(p: string)
    requires p == "\"final\":"
    ensures "\"" + "final" + "\":" == p && ("]," + p) + "[" == FINAL && Passes("],", p) && Passes(STACKS, p)
  {
  }

  lemma InitialRead(c: Content)
    ensures NumbersOf(Canonical(c), "initial") == Some(c.initial)
  {
    var p := "\"initial\":";
    PassFront(c, p);
    InitialKey(p);
    ListFound("],\"stacks\":{", p, STACKS, c.initial, FINAL + (Listing(Numbers(c.final)) + END));
  }

  lemma FinalRead(c: Content)
    ensures NumbersOf(Canonical(c), "final") == Some(c.final)
  {
    var p, stack := "\"final\":", Listing(Numbers(c.initial));
    var rest := FINAL + (Listing(Numbers(c.final)) + END);
    PassFront(c, p);
    FinalKey(p);
    PassOver(STACKS, stack + rest, p);
    ListingPasses(Numbers(c.initial), p);
    PassOver(stack, rest, p);
    ListFound("],", p, FINAL, c.final, END);
  }

  // ---------- The obligations ----------

  /** What is read for one obligation: its identifier, kind, start and end. */
  function Fields(o: Obligation): (int, int, int, int) { (o.id, o.kind, o.startPc, o.endPc) }

  lemma IdRead(o: Obligation, x: string)
    ensures NumberOf(EntryText(o) + x, "id") == Some(o.id)
  {
    EntryAssoc(o, x);
    var p := "\"id\":";
    assert "\"" + "id" + "\":" == p && "{" + p == "{\"id\":";
    NumberFound("{", o.id, ",\"kind\":" + (Signed(o.kind) + (AfterKind(o) + x)), p);
  }

  lemma KindRead(o: Obligation, x: string)
    ensures NumberOf(EntryText(o) + x, "kind") == Some(o.kind)
  {
    EntryAssoc(o, x);
    var p := "\"kind\":";
    assert "\"" + "kind" + "\":" == p && "," + p == ",\"kind\":";
    var k := Signed(o.kind) + (AfterKind(o) + x);
    PassNumber("{\"id\":", o.id, ",\"kind\":" + k, p);
    Found(",", k, p);
    AfterKindAssoc(o, x);
    NumberRead(o.kind, AfterKind(o) + x);
  }

  lemma PassToAfterKind(o: Obligation, x: string, p: string)
    requires p == "\"start_pc\":" || p == "\"end_pc\":"
    ensures After(EntryText(o) + x, p) == After(AfterKind(o) + x, p)
  {
    EntryAssoc(o, x);
    var k := Signed(o.kind) + (AfterKind(o) + x);
    PassNumber("{\"id\":", o.id, ",\"kind\":" + k, p);
    PassOver(",\"kind\":", k, p);
    NumberPasses(o.kind, p);
    PassOver(Signed(o.kind), AfterKind(o) + x, p);
  }

  lemma StartKey(p: string)
    requires p == "\"start_pc\":"
    ensures "\"" + "start_pc" + "\":" == p && "," + p == ",\"start_pc\":" && Passes(",", p)
  {
  }

  lemma EndKey(p: string)
    requires p == "\"end_pc\":"
    ensures "\"" + "end_pc" + "\":" == p && "," + p == ",\"end_pc\":" && Passes(",", p) && Passes(",\"start_pc\":", p)
  {
  }

  lemma StartRead(o: Obligation, x: string)
    ensures NumberOf(EntryText(o) + x, "start_pc") == Some(o.startPc)
  {
    var p := "\"start_pc\":";
    PassToAfterKind(o, x, p);
    AfterKindAssoc(o, x);
    StartKey(p);
    NumberFound(",", o.startPc, ",\"end_pc\":" + (Decimal(o.endPc) + ("}" + x)), p);
  }

  lemma EndRead(o: Obligation, x: string)
    ensures NumberOf(EntryText(o) + x, "end_pc") == Some(o.endPc)
  {
    var p := "\"end_pc\":";
    var y := "}" + x;
    PassToAfterKind(o, x, p);
    AfterKindAssoc(o, x);
    EndKey(p);
    PassNumber(",\"start_pc\":", o.startPc, ",\"end_pc\":" + (Decimal(o.endPc) + y), p);
    NumberFound(",", o.endPc, y, p);
  }

  // ---------- The end of an obligation ----------

  predicate Braceless(a: string) { forall i :: 0 <= i < |a| ==> a[i] != '}' }

  lemma {:induction false} PassBraceless(a: string, t: string)
    requires Braceless(a)
    ensures After(a + t, "}") == After(t, "}")
  {
    if a == "" {
      assert a + t == t;
    } else {
      assert (a + t)[1..] == a[1..] + t;
      assert (a + t)[..1] == [a[0]];
      PassBraceless(a[1..], t);
    }
  }

  lemma PassField(name: string, n: int, t: string)
    requires Braceless(name)
    ensures After(name + (Signed(n) + t), "}") == After(t, "}")
  {
    assert Braceless(Signed(n));
    PassBraceless(name, Signed(n) + t);
    PassBraceless(Signed(n), t);
  }

  lemma NamesAreBraceless()
    ensures Braceless("{\"id\":") && Braceless(",\"kind\":")
    ensures Braceless(",\"start_pc\":") && Braceless(",\"end_pc\":")
  {
  }

  lemma AfterKindEnds(o: Obligation, x: string)
    ensures After(AfterKind(o) + x, "}") == Some(x)
  {
    AfterKindAssoc(o, x);
    NamesAreBraceless();
    var e := ",\"end_pc\":" + (Decimal(o.endPc) + ("}" + x));
    assert Signed(o.startPc) == Decimal(o.startPc) && Signed(o.endPc) == Decimal(o.endPc);
    PassField(",\"start_pc\":", o.startPc, e);
    PassField(",\"end_pc\":", o.endPc, "}" + x);
    assert ("}" + x)[..1] == "}" && ("}" + x)[1..] == x;
  }

  lemma EntryEnds(o: Obligation, x: string)
    ensures After(EntryText(o) + x, "}") == Some(x)
  {
    EntryAssoc(o, x);
    NamesAreBraceless();
    assert Signed(o.id) == Decimal(o.id);
    PassField("{\"id\":", o.id, ",\"kind\":" + (Signed(o.kind) + (AfterKind(o) + x)));
    PassField(",\"kind\":", o.kind, AfterKind(o) + x);
    AfterKindEnds(o, x);
  }

  // ---------- All obligations ----------

  function AllFields(obls: seq<Obligation>): (r: seq<(int, int, int, int)>)
    ensures |r| == |obls|
  {
    seq(|obls|, i requires 0 <= i < |obls| => Fields(obls[i]))
  }

  lemma EntryRead(o: Obligation, u: string, rest: seq<(int, int, int, int)>)
    requires RestOfObligations(u) == Some(rest)
    ensures RestOfObligations(EntryText(o) + u) == Some([Fields(o)] + rest)
  {
    IdRead(o, u);
    KindRead(o, u);
    StartRead(o, u);
    EndRead(o, u);
    EntryEnds(o, u);
    assert (EntryText(o) + u)[0] == '{';
  }

  lemma FieldsSplit(obls: seq<Obligation>)
    requires obls != []
    ensures [Fields(obls[0])] + AllFields(obls[1..]) == AllFields(obls) && Entries(obls)[1..] == Entries(obls[1..])
  {
  }

  lemma {:induction false} MoreEntriesRead(obls: seq<Obligation>, x: string)
    requires Closes(x)
    ensures RestOfObligations(More(Entries(obls)) + x) == Some(AllFields(obls))
    decreases |obls|
  {
    if obls == [] {
      assert More(Entries(obls)) + x == x;
    } else {
      var u := More(Entries(obls[1..])) + x;
      FieldsSplit(obls);
      MoreEntriesRead(obls[1..], x);
      Assoc(",", EntryText(obls[0]) + More(Entries(obls[1..])), x);
      Assoc(EntryText(obls[0]), More(Entries(obls[1..])), x);
      EntryRead(obls[0], u, AllFields(obls[1..]));
      assert ("," + (EntryText(obls[0]) + u))[1..] == EntryText(obls[0]) + u;
    }
  }

  lemma EntriesRead(obls: seq<Obligation>, x: string)
    requires Closes(x)
    ensures RestOfObligations(Listing(Entries(obls)) + x) == Some(AllFields(obls))
  {
    if obls == [] {
      assert Listing(Entries(obls)) + x == x;
    } else {
      FieldsSplit(obls);
      MoreEntriesRead(obls[1..], x);
      Assoc(EntryText(obls[0]), More(Entries(obls[1..])), x);
      EntryRead(obls[0], More(Entries(obls[1..])) + x, AllFields(obls[1..]));
    }
  }

  lemma ObligationsKey(p: string)
    requires p == "\"obligations\":"
    ensures "\"" + "obligations" + "\":" == p && ("," + p) + "[" == ",\"obligations\":[" && Passes(",", p)
    ensures Passes("{\"version\":", p) && Passes(",\"timestamp\":", p) && Passes(",\"program_size\":", p)
  {
  }

  lemma ObligationsRead(c: Content)
    ensures ObligationsOf(Canonical(c), "obligations") == Some(AllFields(c.obligations))
  {
    var p, list := "\"obligations\":", Listing(Entries(c.obligations)) + StacksText(c);
    ObligationsKey(p);
    PassHeadNumbers(c, list, p);
    Assoc("," + p, "[", list);
    Found(",", "[" + list, p);
    assert ("[" + list)[1..] == list;
    EntriesRead(c.obligations, StacksText(c));
  }

  // ---------- The whole text ----------

  /** Each member of the canonical text, found by its quoted name, is the value that the certificate holds. */
  predicate Shows(t: string, version: int, timestamp: int, programSize: int, obligations: seq<Obligation>,
                  initial: seq<int>, final: seq<int>)
  {
    && NumberOf(t, "version") == Some(version)
    && NumberOf(t, "timestamp") == Some(timestamp)
    && NumberOf(t, "program_size") == Some(programSize)
    && ObligationsOf(t, "obligations") == Some(AllFields(obligations))
    && NumbersOf(t, "initial") == Some(initial)
    && NumbersOf(t, "final") == Some(final)
  }

  lemma CanonicalShows(c: Content)
    ensures Shows(Canonical(c), c.version, c.timestamp, c.programSize, c.obligations, c.initial, c.final)
  {
    var x := Listing(Entries(c.obligations)) + StacksText(c);
    VersionRead(c, x);
    TimestampRead(c, x);
    ProgramSizeRead(c, x);
    ObligationsRead(c);
    InitialRead(c);
    FinalRead(c);
  }
}
