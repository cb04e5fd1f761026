/** The canonical text of a proof certificate: why it is unambiguous, and when it fits. */
module CertificateText {
  import opened Widths

  const STACKS := "],\"stacks\":{\"initial\":["
  const FINAL := "],\"final\":["
  const END := "]}}"

  /** No single print of the canonical printer is longer than its first one can get. */
  const LONGEST_PRINT := 96

  datatype Obligation = Obligation(id: U32, kind: Int32, startPc: U32, endPc: U32)

  /** What the canonical text shows of a certificate; the program hash is not part of it. */
  datatype Content = Content(version: U32, timestamp: U64, programSize: U32, obligations: seq<Obligation>,
                             initial: seq<Int64>, final: seq<Int64>)

  // ---------- Numbers ----------

  function Digit(d: nat): char
    requires d < 10
  {
    '0' + d as char
  }

  predicate IsDigit(c: char) { '0' <= c <= '9' }

  function Decimal(n: nat): (s: string)
    ensures s != "" && forall i :: 0 <= i < |s| ==> IsDigit(s[i])
  {
    if n < 10 then [Digit(n)] else Decimal(n / 10) + [Digit(n % 10)]
  }

  function Signed(n: int): string { if n < 0 then "-" + Decimal(0 - n) else Decimal(n) }

  /** The number that a run of digits denotes. */
  function ValueOf(s: string): nat
    requires forall i :: 0 <= i < |s| ==> IsDigit(s[i])
  {
    if s == "" then 0
    else
      var c := s[|s| - 1];
      assert IsDigit(c);
      ValueOf(s[..|s| - 1]) * 10 + (c as int - '0' as int)
  }

  lemma {:induction false} DecimalRoundTrip(n: nat)
    ensures ValueOf(Decimal(n)) == n
  {
    if n < 10 {
      assert Decimal(n)[..0] == "";
    } else {
      DecimalRoundTrip(n / 10);
      assert Decimal(n)[..|Decimal(n)| - 1] == Decimal(n / 10);
    }
  }

  /** Numbers as the program's formats print them. */
  lemma PrintedNumbers()
    ensures Decimal(1234567890) == "1234567890" && Signed(-7) == "-7" && Decimal(0) == "0"
  {
    assert Decimal(1) == "1" && Decimal(12) == "12" && Decimal(123) == "123" && Decimal(1234) == "1234";
    assert Decimal(12345) == "12345" && Decimal(123456) == "123456" && Decimal(1234567) == "1234567";
    assert Decimal(12345678) == "12345678" && Decimal(123456789) == "123456789";
  }

  function Pow10(d: nat): nat { if d == 0 then 1 else 10 * Pow10(d - 1) }

  lemma {:induction false} DecimalLength(n: nat, d: nat)
    requires 0 < d
    ensures |Decimal(n)| <= d <==> n < Pow10(d)
  {
    assert Pow10(d) == 10 * Pow10(d - 1);
    if n < 10 {
      PowerPositive(d - 1);
    } else if d > 1 {
      DecimalLength(n / 10, d - 1);
    } else {
      assert Pow10(0) == 1;
    }
  }

  lemma {:induction false} PowerPositive(d: nat)
    ensures Pow10(d) > 0
  {
    if d > 0 {
      PowerPositive(d - 1);
    }
  }

  lemma PrintedLengths()
    ensures Pow10(10) == 10_000_000_000
    ensures Pow10(19) == 10_000_000_000_000_000_000 && Pow10(20) == 100_000_000_000_000_000_000
  {
    assert Pow10(4) == 10_000;
    assert Pow10(8) == 100_000_000;
    assert Pow10(12) == 1_000_000_000_000;
    assert Pow10(16) == 10_000_000_000_000_000;
  }

  // ---------- Reading a printed number back from the front of a text ----------

  /** A text at which a printed number ends. */
  predicate Stops(x: string) { x != "" && !IsDigit(x[0]) }

  lemma SamePrefix(p: string, x: string, y: string)
    requires p + x == p + y
    ensures x == y
  {
    assert x == (p + x)[|p|..];
    assert y == (p + y)[|p|..];
  }

  lemma Assoc(p: string, q: string, x: string)
    ensures (p + q) + x == p + (q + x)
  {
  }

  /** How many digits a text starts with. */
  function Leading(s: string): (n: nat)
    ensures n <= |s| && forall i :: 0 <= i < n ==> IsDigit(s[i])
  {
    if Stops(s) || s == "" then 0 else 1 + Leading(s[1..])
  }

  lemma {:induction false} LeadingDigits(s: string, x: string)
    requires Stops(x) && forall i :: 0 <= i < |s| ==> IsDigit(s[i])
    ensures Leading(s + x) == |s|
  {
    if s == "" {
      assert s + x == x;
    } else {
      LeadingDigits(s[1..], x);
      assert (s + x)[1..] == s[1..] + x;
    }
  }

  lemma DecimalThen(a: nat, b: nat, x: string, y: string)
    requires Decimal(a) + x == Decimal(b) + y && Stops(x) && Stops(y)
    ensures a == b && x == y
  {
    LeadingDigits(Decimal(a), x);
    LeadingDigits(Decimal(b), y);
    assert Decimal(a) == (Decimal(a) + x)[..|Decimal(a)|];
    assert Decimal(b) == (Decimal(b) + y)[..|Decimal(b)|];
    SamePrefix(Decimal(a), x, y);
    DecimalRoundTrip(a);
    DecimalRoundTrip(b);
  }

  lemma SignedThen(a: int, b: int, x: string, y: string)
    requires Signed(a) + x == Signed(b) + y && Stops(x) && Stops(y)
    ensures a == b && x == y
  {
    assert (Signed(a) + x)[0] == Signed(a)[0] && (Signed(b) + y)[0] == Signed(b)[0];
    if a < 0 && b < 0 {
      Assoc("-", Decimal(0 - a), x);
      Assoc("-", Decimal(0 - b), y);
      SamePrefix("-", Decimal(0 - a) + x, Decimal(0 - b) + y);
      DecimalThen(0 - a, 0 - b, x, y);
    } else if a >= 0 && b >= 0 {
      DecimalThen(a, b, x, y);
    }
  }

  // ---------- Items and lists ----------

  datatype Item = Number(n: Int64) | Entry(o: Obligation)

  function AfterKind(o: Obligation): string {
    ",\"start_pc\":" + (Decimal(o.startPc) + (",\"end_pc\":" + (Decimal(o.endPc) + "}")))
  }

  function EntryText(o: Obligation): string {
    "{\"id\":" + (Decimal(o.id) + (",\"kind\":" + (Signed(o.kind) + AfterKind(o))))
  }

  function Text(item: Item): string {
    match item
    case Number(n) => Signed(n)
    case Entry(o) => EntryText(o)
  }

  /** A comma and an item, for every item. */
  function More(items: seq<Item>): string {
    if items == [] then "" else "," + (Text(items[0]) + More(items[1..]))
  }

  /** The items, with commas between them. */
  function Listing(items: seq<Item>): string {
    if items == [] then "" else Text(items[0]) + More(items[1..])
  }

  function Entries(obls: seq<Obligation>): (r: seq<Item>)
    ensures |r| == |obls|
  {
    seq(|obls|, i requires 0 <= i < |obls| => Entry(obls[i]))
  }

  function Numbers(values: seq<Int64>): (r: seq<Item>)
    ensures |r| == |values|
  {
    seq(|values|, i requires 0 <= i < |values| => Number(values[i]))
  }

  lemma AfterKindAssoc(o: Obligation, x: string)
    ensures AfterKind(o) + x
            == ",\"start_pc\":" + (Decimal(o.startPc) + (",\"end_pc\":" + (Decimal(o.endPc) + ("}" + x))))
  {
    var e := Decimal(o.endPc) + "}";
    var d := ",\"end_pc\":" + e;
    Assoc(",\"start_pc\":", Decimal(o.startPc) + d, x);
    Assoc(Decimal(o.startPc), d, x);
    Assoc(",\"end_pc\":", e, x);
    Assoc(Decimal(o.endPc), "}", x);
  }

  lemma EntryAssoc(o: Obligation, x: string)
    ensures EntryText(o) + x
            == "{\"id\":" + (Decimal(o.id) + (",\"kind\":" + (Signed(o.kind) + (AfterKind(o) + x))))
  {
    var s := Signed(o.kind) + AfterKind(o);
    var k := ",\"kind\":" + s;
    Assoc("{\"id\":", Decimal(o.id) + k, x);
    Assoc(Decimal(o.id), k, x);
    Assoc(",\"kind\":", s, x);
    Assoc(Signed(o.kind), AfterKind(o), x);
  }

  lemma AfterKindThen(o: Obligation, p: Obligation, x: string, y: string)
    requires AfterKind(o) + x == AfterKind(p) + y
    ensures o.startPc == p.startPc && o.endPc == p.endPc && x == y
  {
    var e, f := Decimal(o.endPc) + ("}" + x), Decimal(p.endPc) + ("}" + y);
    var s, t := Decimal(o.startPc) + (",\"end_pc\":" + e), Decimal(p.startPc) + (",\"end_pc\":" + f);
    AfterKindAssoc(o, x);
    AfterKindAssoc(p, y);
    SamePrefix(",\"start_pc\":", s, t);
    DecimalThen(o.startPc, p.startPc, ",\"end_pc\":" + e, ",\"end_pc\":" + f);
    SamePrefix(",\"end_pc\":", e, f);
    DecimalThen(o.endPc, p.endPc, "}" + x, "}" + y);
    SamePrefix("}", x, y);
  }

  lemma EntryThen(o: Obligation, p: Obligation, x: string, y: string)
    requires EntryText(o) + x == EntryText(p) + y
    ensures o == p && x == y
  {
    var k, l := Signed(o.kind) + (AfterKind(o) + x), Signed(p.kind) + (AfterKind(p) + y);
    var s, t := Decimal(o.id) + (",\"kind\":" + k), Decimal(p.id) + (",\"kind\":" + l);
    EntryAssoc(o, x);
    EntryAssoc(p, y);
    SamePrefix("{\"id\":", s, t);
    DecimalThen(o.id, p.id, ",\"kind\":" + k, ",\"kind\":" + l);
    SamePrefix(",\"kind\":", k, l);
    SignedThen(o.kind, p.kind, AfterKind(o) + x, AfterKind(p) + y);
    AfterKindThen(o, p, x, y);
  }

  lemma FirstOfItem(a: Item)
    ensures Text(a) != "" && (a.Entry? ==> Text(a)[0] == '{') && (a.Number? ==> Text(a)[0] == '-' || IsDigit(Text(a)[0]))
  {
  }

  lemma ItemThen(a: Item, b: Item, x: string, y: string)
    requires Text(a) + x == Text(b) + y && Stops(x) && Stops(y)
    ensures a == b && x == y
  {
    FirstOfItem(a);
    FirstOfItem(b);
    assert (Text(a) + x)[0] == Text(a)[0] && (Text(b) + y)[0] == Text(b)[0];
    if a.Number? && b.Number? {
      SignedThen(a.n, b.n, x, y);
    } else if a.Entry? && b.Entry? {
      EntryThen(a.o, b.o, x, y);
    }
  }

  predicate Closes(x: string) { x != "" && x[0] == ']' }

  lemma MoreStops(s: seq<Item>, x: string)
    requires Closes(x)
    ensures Stops(More(s) + x) && ((More(s) + x)[0] == ']' <==> s == [])
  {
  }

  lemma SameParts(s: seq<Item>, t: seq<Item>)
    requires s != [] && t != [] && s[0] == t[0] && s[1..] == t[1..]
    ensures s == t
  {
    assert s == [s[0]] + s[1..] && t == [t[0]] + t[1..];
  }

  lemma {:induction false} MoreThen(s: seq<Item>, t: seq<Item>, x: string, y: string)
    requires More(s) + x == More(t) + y && Closes(x) && Closes(y)
    ensures s == t && x == y
  {
    MoreStops(s, x);
    MoreStops(t, y);
    if s == [] {
      assert More(s) + x == x && More(t) + y == y;
    } else {
      var u, v := More(s[1..]) + x, More(t[1..]) + y;
      Assoc(",", Text(s[0]) + More(s[1..]), x);
      Assoc(",", Text(t[0]) + More(t[1..]), y);
      Assoc(Text(s[0]), More(s[1..]), x);
      Assoc(Text(t[0]), More(t[1..]), y);
      SamePrefix(",", Text(s[0]) + u, Text(t[0]) + v);
      MoreStops(s[1..], x);
      MoreStops(t[1..], y);
      ItemThen(s[0], t[0], u, v);
      MoreThen(s[1..], t[1..], x, y);
      SameParts(s, t);
    }
  }

  /** A list is read back from the front of any text in which it is followed by its closing bracket. */
  lemma ListingThen(s: seq<Item>, t: seq<Item>, x: string, y: string)
    requires Listing(s) + x == Listing(t) + y && Closes(x) && Closes(y)
    ensures s == t && x == y
  {
    FirstOfListing(s, x);
    FirstOfListing(t, y);
    if s == [] {
      assert Listing(s) + x == x && Listing(t) + y == y;
    } else {
      var u, v := More(s[1..]) + x, More(t[1..]) + y;
      Assoc(Text(s[0]), More(s[1..]), x);
      Assoc(Text(t[0]), More(t[1..]), y);
      MoreStops(s[1..], x);
      MoreStops(t[1..], y);
      ItemThen(s[0], t[0], u, v);
      MoreThen(s[1..], t[1..], x, y);
      SameParts(s, t);
    }
  }

  lemma FirstOfListing(s: seq<Item>, x: string)
    requires Closes(x)
    ensures Listing(s) + x != "" && ((Listing(s) + x)[0] == ']' <==> s == [])
  {
    if s != [] {
      FirstOfItem(s[0]);
    }
  }

  // ---------- The whole text ----------

  function StacksText(c: Content): string {
    STACKS + (Listing(Numbers(c.initial)) + (FINAL + (Listing(Numbers(c.final)) + END)))
  }

  function HeadText(c: Content): string {
    "{\"version\":" + (Decimal(c.version) + (",\"timestamp\":" + (Decimal(c.timestamp)
    + (",\"program_size\":" + (Decimal(c.programSize) + ",\"obligations\":[")))))
  }

  function Canonical(c: Content): string {
    HeadText(c) + (Listing(Entries(c.obligations)) + StacksText(c))
  }

  lemma HeadAssoc(c: Content, x: string)
    ensures HeadText(c) + x
            == "{\"version\":" + (Decimal(c.version) + (",\"timestamp\":" + (Decimal(c.timestamp)
               + (",\"program_size\":" + (Decimal(c.programSize) + (",\"obligations\":[" + x))))))
  {
    var o := ",\"obligations\":[";
    var p := Decimal(c.programSize) + o;
    var q := ",\"program_size\":" + p;
    var t := Decimal(c.timestamp) + q;
    var u := ",\"timestamp\":" + t;
    Assoc("{\"version\":", Decimal(c.version) + u, x);
    Assoc(Decimal(c.version), u, x);
    Assoc(",\"timestamp\":", t, x);
    Assoc(Decimal(c.timestamp), q, x);
    Assoc(",\"program_size\":", p, x);
    Assoc(Decimal(c.programSize), o, x);
  }

  lemma HeadThen(c: Content, d: Content, x: string, y: string)
    requires HeadText(c) + x == HeadText(d) + y
    ensures c.version == d.version && c.timestamp == d.timestamp && c.programSize == d.programSize && x == y
  {
    var o := ",\"obligations\":[";
    var p, q := Decimal(c.programSize) + (o + x), Decimal(d.programSize) + (o + y);
    var t, u := Decimal(c.timestamp) + (",\"program_size\":" + p), Decimal(d.timestamp) + (",\"program_size\":" + q);
    var v, w := Decimal(c.version) + (",\"timestamp\":" + t), Decimal(d.version) + (",\"timestamp\":" + u);
    HeadAssoc(c, x);
    HeadAssoc(d, y);
    SamePrefix("{\"version\":", v, w);
    DecimalThen(c.version, d.version, ",\"timestamp\":" + t, ",\"timestamp\":" + u);
    SamePrefix(",\"timestamp\":", t, u);
    DecimalThen(c.timestamp, d.timestamp, ",\"program_size\":" + p, ",\"program_size\":" + q);
    SamePrefix(",\"program_size\":", p, q);
    DecimalThen(c.programSize, d.programSize, o + x, o + y);
    SamePrefix(o, x, y);
  }

  lemma NumbersInjective(a: seq<Int64>, b: seq<Int64>)
    requires Numbers(a) == Numbers(b)
    ensures a == b
  {
    forall i | 0 <= i < |a| ensures a[i] == b[i] {
      assert Numbers(a)[i] == Numbers(b)[i];
    }
  }

  lemma EntriesInjective(a: seq<Obligation>, b: seq<Obligation>)
    requires Entries(a) == Entries(b)
    ensures a == b
  {
    forall i | 0 <= i < |a| ensures a[i] == b[i] {
      assert Entries(a)[i] == Entries(b)[i];
    }
  }

  lemma StacksUnambiguous(c: Content, d: Content)
    requires StacksText(c) == StacksText(d)
    ensures c.initial == d.initial && c.final == d.final
  {
    var f, g := Listing(Numbers(c.final)) + END, Listing(Numbers(d.final)) + END;
    var i, j := Listing(Numbers(c.initial)) + (FINAL + f), Listing(Numbers(d.initial)) + (FINAL + g);
    SamePrefix(STACKS, i, j);
    ListingThen(Numbers(c.initial), Numbers(d.initial), FINAL + f, FINAL + g);
    SamePrefix(FINAL, f, g);
    ListingThen(Numbers(c.final), Numbers(d.final), END, END);
    NumbersInjective(c.initial, d.initial);
    NumbersInjective(c.final, d.final);
  }

  /** Certificates with the same canonical text agree on everything that the text shows. */
  lemma CanonicalUnambiguous(c: Content, d: Content)
    requires Canonical(c) == Canonical(d)
    ensures c == d
  {
    var x, y := Listing(Entries(c.obligations)) + StacksText(c), Listing(Entries(d.obligations)) + StacksText(d);
    HeadThen(c, d, x, y);
    ListingThen(Entries(c.obligations), Entries(d.obligations), StacksText(c), StacksText(d));
    EntriesInjective(c.obligations, d.obligations);
    StacksUnambiguous(c, d);
  }

  // ---------- The size of the text ----------

  /** How many decimal digits a number has. */
  function Digits(n: nat): nat { if n < 10 then 1 else 1 + Digits(n / 10) }

  function SignedDigits(n: int): nat { if n < 0 then 1 + Digits(0 - n) else Digits(n) }

  function ItemSize(item: Item): nat {
    match item
    case Number(n) => SignedDigits(n)
    case Entry(o) => 37 + Digits(o.id) + SignedDigits(o.kind) + Digits(o.startPc) + Digits(o.endPc)
  }

  /** The items, and a comma for each. */
  function ItemSizes(items: seq<Item>): nat { if items == [] then 0 else 1 + ItemSize(items[0]) + ItemSizes(items[1..]) }

  function ListingSize(items: seq<Item>): int { if items == [] then 0 else ItemSizes(items) - 1 }

  /** The size of the canonical text, from the digits of its numbers and the lengths of its lists alone. */
  function TextSize(c: Content): int {
    93 + Digits(c.version) + Digits(c.timestamp) + Digits(c.programSize)
    + ListingSize(Entries(c.obligations)) + ListingSize(Numbers(c.initial)) + ListingSize(Numbers(c.final))
  }

  lemma {:induction false} DigitsAreLength(n: nat)
    ensures |Decimal(n)| == Digits(n)
  {
    if n >= 10 {
      DigitsAreLength(n / 10);
    }
  }

  lemma SignedDigitsAreLength(n: int)
    ensures |Signed(n)| == SignedDigits(n)
  {
    DigitsAreLength(if n < 0 then 0 - n else n);
  }

  lemma ItemSizeIsLength(item: Item)
    ensures |Text(item)| == ItemSize(item)
  {
    match item
    case Number(n) => SignedDigitsAreLength(n);
    case Entry(o) =>
      DigitsAreLength(o.id);
      SignedDigitsAreLength(o.kind);
      DigitsAreLength(o.startPc);
      DigitsAreLength(o.endPc);
  }

  lemma {:induction false} ItemSizesAreLength(items: seq<Item>)
    ensures |More(items)| == ItemSizes(items)
  {
    if items != [] {
      ItemSizeIsLength(items[0]);
      ItemSizesAreLength(items[1..]);
    }
  }

  lemma ListingSizeIsLength(items: seq<Item>)
    ensures |Listing(items)| == ListingSize(items)
  {
    ItemSizesAreLength(items);
    if items != [] {
      ItemSizeIsLength(items[0]);
    }
  }

  lemma SizeIsLength(c: Content)
    ensures |Canonical(c)| == TextSize(c)
  {
    DigitsAreLength(c.version);
    DigitsAreLength(c.timestamp);
    DigitsAreLength(c.programSize);
    ListingSizeIsLength(Entries(c.obligations));
    ListingSizeIsLength(Numbers(c.initial));
    ListingSizeIsLength(Numbers(c.final));
  }

  // ---------- The buffer ----------

  function BufferSize(c: Content): nat { 8192 + 128 * |c.obligations| }

  /** The text, and the zero byte that every formatted print adds, fit the buffer; the code does not check this. */
  predicate Fits(c: Content) { |Canonical(c)| < BufferSize(c) }

  /** Whether the text fits can be told from digit counts and list lengths, before anything is printed. */
  lemma FitsIffSize(c: Content)
    ensures Fits(c) <==> TextSize(c) < 8192 + 128 * |c.obligations|
  {
    SizeIsLength(c);
  }

  lemma ItemSizeBounds(item: Item)
    ensures if item.Number? then 1 <= ItemSize(item) <= 20 else 41 <= ItemSize(item) <= 78
  {
    PrintedLengths();
    match item
    case Number(n) =>
      NumberDigits(if n < 0 then 0 - n else n, 19);
    case Entry(o) =>
      NumberDigits(o.id, 10);
      NumberDigits(if o.kind < 0 then 0 - o.kind else o.kind, 10);
      NumberDigits(o.startPc, 10);
      NumberDigits(o.endPc, 10);
  }

  lemma NumberDigits(n: nat, d: nat)
    requires 0 < d
    ensures 1 <= Digits(n) && (Digits(n) <= d <==> n < Pow10(d))
  {
    DecimalLength(n, d);
    DigitsAreLength(n);
  }

  lemma OneMore(n: nat, k: nat)
    ensures (n + 1) * k == n * k + k
  {
  }

  lemma {:induction false} ItemSizesBounds(items: seq<Item>, low: nat, high: nat)
    requires forall i :: 0 <= i < |items| ==> low <= ItemSize(items[i]) <= high
    ensures |items| * (low + 1) <= ItemSizes(items) <= |items| * (high + 1)
  {
    if items != [] {
      ItemSizesBounds(items[1..], low, high);
      OneMore(|items| - 1, low + 1);
      OneMore(|items| - 1, high + 1);
    }
  }

  /** An obligation takes 42 to 79 of the 128 bytes that the buffer sets aside for it. */
  lemma ObligationsFit(obls: seq<Obligation>)
    ensures ListingSize(Entries(obls)) == |Listing(Entries(obls))| <= 79 * |obls|
    ensures obls != [] ==> 42 * |obls| - 1 <= ListingSize(Entries(obls))
  {
    forall i | 0 <= i < |obls| ensures 41 <= ItemSize(Entries(obls)[i]) <= 78 {
      ItemSizeBounds(Entries(obls)[i]);
    }
    ItemSizesBounds(Entries(obls), 41, 78);
    ListingSizeIsLength(Entries(obls));
  }

  lemma StackFits(values: seq<Int64>)
    ensures 2 * |values| - 1 <= ListingSize(Numbers(values)) <= 21 * |values|
  {
    forall i | 0 <= i < |values| ensures 1 <= ItemSize(Numbers(values)[i]) <= 20 {
      ItemSizeBounds(Numbers(values)[i]);
    }
    ItemSizesBounds(Numbers(values), 1, 20);
  }

  /** The canonical text of any certificate fits as long as its two stacks hold at most 383 values together. */
  lemma ShortStacksFit(c: Content)
    requires |c.initial| + |c.final| <= 383
    ensures Fits(c)
  {
    PrintedLengths();
    NumberDigits(c.version, 10);
    NumberDigits(c.timestamp, 20);
    NumberDigits(c.programSize, 10);
    ObligationsFit(c.obligations);
    StackFits(c.initial);
    StackFits(c.final);
    FitsIffSize(c);
  }

  /** From 4052 stack values on, and 43 more for every obligation, every text exceeds the buffer by more than three. */
  lemma LongStacksGoAstray(c: Content)
    requires |c.initial| + |c.final| >= 4052 + 43 * |c.obligations|
    ensures TextSize(c) > BufferSize(c) + 3
  {
    NumberDigits(c.version, 10);
    NumberDigits(c.timestamp, 20);
    NumberDigits(c.programSize, 10);
    ObligationsFit(c.obligations);
    StackFits(c.initial);
    StackFits(c.final);
  }

  /** From 4050 stack values on, and 43 more for every obligation, no text fits the buffer that is set aside. */
  lemma LongStacksDoNotFit(c: Content)
    requires |c.initial| + |c.final| >= 4050 + 43 * |c.obligations|
    ensures !Fits(c)
  {
    NumberDigits(c.version, 10);
    NumberDigits(c.timestamp, 20);
    NumberDigits(c.programSize, 10);
    ObligationsFit(c.obligations);
    StackFits(c.initial);
    StackFits(c.final);
    FitsIffSize(c);
  }

  // ---------- Writing it ----------

  lemma {:induction false} MoreSnoc(items: seq<Item>, last: Item)
    ensures More(items + [last]) == More(items) + ("," + Text(last))
  {
    if items == [] {
      assert [last][1..] == [];
    } else {
      var t := "," + Text(last);
      MoreSnoc(items[1..], last);
      assert (items + [last])[1..] == items[1..] + [last];
      Assoc(Text(items[0]), More(items[1..]), t);
      Assoc(",", Text(items[0]) + More(items[1..]), t);
    }
  }

  lemma ListingSnoc(items: seq<Item>, i: nat)
    requires i < |items|
    ensures Listing(items[..i + 1]) == Listing(items[..i]) + ((if i > 0 then "," else "") + Text(items[i]))
  {
    assert items[..i + 1] == items[..i] + [items[i]];
    if i > 0 {
      MoreSnoc(items[..i][1..], items[i]);
      assert items[..i + 1][1..] == items[..i][1..] + [items[i]];
      Assoc(Text(items[0]), More(items[..i][1..]), "," + Text(items[i]));
    }
  }
}
