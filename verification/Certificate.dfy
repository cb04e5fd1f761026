/** The certificate object and the printer that writes its canonical text into a buffer. */
module Certificate {
  import opened Bytes
  import opened Widths
  import opened CertificateText
  import opened CertificateMembers

  const MAX_OBLIGATIONS := 256
  const ZERO_BYTE: char := '\0'

  // ---------- Bounded printing ----------

  function Min(a: nat, b: nat): nat { if a < b then a else b }

  /** One formatted print at pos, told that the unsigned difference of buffer size and pos is left. It writes as much of
      the text as leaves room for a zero byte, and that byte; nothing if nothing is left. A byte at or behind the end
      of the buffer is not stored but noted as astray. */
  method Print(buf: array<char>, pos: U64, text: string) returns (next: U64, ghost astray: bool)
    requires buf.Length < TWO64
    modifies buf
    ensures next == (pos + |text|) % TWO64
    ensures astray <==> pos > buf.Length
    ensures pos < buf.Length ==>
              var k := Min(|text|, buf.Length - 1 - pos);
              buf[..pos + k] == old(buf[..pos]) + text[..k] && buf[pos + k] == ZERO_BYTE
    ensures pos >= buf.Length ==> buf[..] == old(buf[..])
  {
    next := (pos + |text|) % TWO64;
    astray := false;
    var remaining := (buf.Length - pos) % TWO64;
    if remaining > 0 {
      var k := Min(|text|, remaining - 1);
      for i := 0 to k
        invariant pos < buf.Length ==> buf[..pos + i] == old(buf[..pos]) + text[..i] && !astray
        invariant pos >= buf.Length ==> buf[..] == old(buf[..]) && (i > 0 ==> astray)
      {
        if pos + i < buf.Length {
          buf[pos + i] := text[i];
        } else {
          astray := true;
        }
      }
      if pos + k < buf.Length {
        buf[pos + k] := ZERO_BYTE;
      } else {
        astray := true;
      }
    }
  }

  /** After prints that make up the text, the last of which began at start: the buffer holds what there is room for and
      a zero byte, unless a byte has gone astray, which it has exactly when the last print began behind the buffer. */
  ghost predicate Printed(buf: array<char>, text: string, start: nat, pos: U64, astray: bool)
    reads buf
  {
    pos == |text| % TWO64 && start <= |text| <= start + LONGEST_PRINT
    && (astray <==> start > buf.Length)
    && (!astray ==> HoldsText(buf[..], text))
  }

  ghost predicate HoldsText(s: seq<char>, text: string) {
    |s| > 0 && var k := Min(|text|, |s| - 1); s[..k] == text[..k] && s[k] == ZERO_BYTE
  }

  lemma HoldsMore(s: seq<char>, t: seq<char>, before: string, text: string)
    requires 0 < |s| == |t| && HoldsText(s, before)
    requires |before| < |s| ==>
               var k := Min(|text|, |s| - 1 - |before|);
               t[..|before| + k] == s[..|before|] + text[..k] && t[|before| + k] == ZERO_BYTE
    requires |before| >= |s| ==> t == s
    ensures HoldsText(t, before + text)
  {
    var k := Min(|before + text|, |t| - 1);
    if |before| < |s| {
      assert s[..|before|] == before;
      assert t[..k] == (before + text)[..k];
    } else {
      assert (before + text)[..k] == before[..k];
    }
  }

  /** One more print, of a text that is not longer than any the printer ever prints at once. */
  method PrintNext(buf: array<char>, pos: U64, text: string, ghost before: string, ghost start: nat, ghost astray: bool)
    returns (next: U64, ghost astray': bool)
    requires 0 < buf.Length && buf.Length + LONGEST_PRINT < TWO64 && |text| <= LONGEST_PRINT
    requires Printed(buf, before, start, pos, astray)
    modifies buf
    ensures Printed(buf, before + text, |before|, next, astray')
  {
    ghost var more;
    ghost var held := buf[..];
    next, more := Print(buf, pos, text);
    astray' := astray || more;
    PositionAdds(|before|, |text|);
    if !astray {
      PositionIsLength(|before|, buf.Length + LONGEST_PRINT);
      if |before| < buf.Length {
        assert held[..|before|] == old(buf[..pos]);
      }
      HoldsMore(held, buf[..], before, text);
    }
  }

  lemma PositionAdds(a: nat, b: nat)
    ensures (a % TWO64 + b) % TWO64 == (a + b) % TWO64
  {
  }

  lemma PositionIsLength(a: nat, bound: nat)
    requires a <= bound < TWO64
    ensures a % TWO64 == a
  {
  }

  lemma ItemsAreShort(item: Item)
    ensures |Text(item)| <= LONGEST_PRINT
  {
    ItemSizeIsLength(item);
    ItemSizeBounds(item);
  }

  method PrintListing(buf: array<char>, pos: U64, items: seq<Item>, ghost before: string, ghost start: nat,
                      ghost astray: bool)
    returns (next: U64, ghost start': nat, ghost astray': bool)
    requires 0 < buf.Length && buf.Length + LONGEST_PRINT < TWO64
    requires Printed(buf, before, start, pos, astray)
    modifies buf
    ensures Printed(buf, before + Listing(items), start', next, astray')
  {
    next, start', astray' := pos, start, astray;
    assert before + "" == before;
    for i := 0 to |items|
      invariant Printed(buf, before + Listing(items[..i]), start', next, astray')
    {
      ghost var listed, separator := Listing(items[..i]), if i > 0 then "," else "";
      if i > 0 {
        next, astray' := PrintNext(buf, next, ",", before + listed, start', astray');
        start' := |before + listed|;
      }
      assert before + listed + "" == before + listed;
      ItemsAreShort(items[i]);
      next, astray' := PrintNext(buf, next, Text(items[i]), before + listed + separator, start', astray');
      start' := |before + listed + separator|;
      ListingSnoc(items, i);
      Assoc(before + listed, separator, Text(items[i]));
      Assoc(before, listed, separator + Text(items[i]));
    }
    assert items[..|items|] == items;
  }

  /** The first print, into an empty buffer. */
  method PrintHead(buf: array<char>, c: Content) returns (next: U64, ghost astray: bool)
    requires 0 < buf.Length && buf.Length + LONGEST_PRINT < TWO64
    modifies buf
    ensures Printed(buf, HeadText(c), 0, next, astray)
  {
    HeadIsShort(c);
    next, astray := Print(buf, 0, HeadText(c));
    PositionIsLength(|HeadText(c)|, LONGEST_PRINT);
    assert buf[..0] == "";
  }

  lemma HeadIsShort(c: Content)
    ensures |HeadText(c)| <= LONGEST_PRINT
  {
    PrintedLengths();
    DecimalLength(c.version, 10);
    DecimalLength(c.timestamp, 20);
    DecimalLength(c.programSize, 10);
  }

  /** The pieces of the text in the order in which they are written. */
  lemma CanonicalPieces(c: Content)
    ensures Canonical(c) == (((((HeadText(c) + Listing(Entries(c.obligations))) + STACKS)
                               + Listing(Numbers(c.initial))) + FINAL) + Listing(Numbers(c.final))) + END
  {
    var h, o, i, f := HeadText(c), Listing(Entries(c.obligations)), Listing(Numbers(c.initial)), Listing(Numbers(c.final));
    Assoc(h, o, STACKS + (i + (FINAL + (f + END))));
    Assoc(h + o, STACKS, i + (FINAL + (f + END)));
    Assoc((h + o) + STACKS, i, FINAL + (f + END));
    Assoc(((h + o) + STACKS) + i, FINAL, f + END);
    Assoc((((h + o) + STACKS) + i) + FINAL, f, END);
  }

  /** A list, and the constant text that follows it. */
  method PrintPart(buf: array<char>, pos: U64, items: seq<Item>, closing: string, ghost before: string,
                   ghost start: nat, ghost astray: bool)
    returns (next: U64, ghost astray': bool)
    requires 0 < buf.Length && buf.Length + LONGEST_PRINT < TWO64 && |closing| <= LONGEST_PRINT
    requires Printed(buf, before, start, pos, astray)
    modifies buf
    ensures Printed(buf, (before + Listing(items)) + closing, |before + Listing(items)|, next, astray')
  {
    ghost var listed;
    next, listed, astray' := PrintListing(buf, pos, items, before, start, astray);
    next, astray' := PrintNext(buf, next, closing, before + Listing(items), listed, astray');
  }

  /** All prints of the canonical printer, in their order. */
  method PrintAll(buf: array<char>, c: Content) returns (next: U64, ghost start: nat, ghost astray: bool)
    requires 0 < buf.Length && buf.Length + LONGEST_PRINT < TWO64
    modifies buf
    ensures Printed(buf, Canonical(c), start, next, astray) && |Canonical(c)| == start + |END|
  {
    next, astray := PrintHead(buf, c);
    ghost var h := HeadText(c);
    next, astray := PrintPart(buf, next, Entries(c.obligations), STACKS, h, 0, astray);
    ghost var o := h + Listing(Entries(c.obligations));
    next, astray := PrintPart(buf, next, Numbers(c.initial), FINAL, o + STACKS, |o|, astray);
    ghost var i := (o + STACKS) + Listing(Numbers(c.initial));
    next, astray := PrintPart(buf, next, Numbers(c.final), END, i + FINAL, |i|, astray);
    start := |(i + FINAL) + Listing(Numbers(c.final))|;
    CanonicalPieces(c);
  }

  lemma HeldWhole(s: seq<char>, text: string)
    requires HoldsText(s, text) && |text| < |s|
    ensures s[..|text|] == text
  {
    assert text[..|text|] == text;
  }

  /** A buffer that holds a fitting text holds all of it, and its members can be read there. */
  lemma WholeTextHeld(s: seq<char>, c: Content, pos: U64)
    requires Fits(c) && |s| == BufferSize(c) < TWO64 && HoldsText(s, Canonical(c))
    requires pos == TextSize(c) % TWO64
    ensures pos < |s| && s[..pos] == Canonical(c)
    ensures Shows(s[..pos], c.version, c.timestamp, c.programSize, c.obligations, c.initial, c.final)
  {
    SizeIsLength(c);
    PositionIsLength(TextSize(c), |s|);
    HeldWhole(s, Canonical(c));
    CanonicalShows(c);
  }

  /** The text of a certificate, printed into a buffer of its own. */
  method PrintCertificate(c: Content) returns (buf: array<char>, pos: U64, ghost astray: bool)
    requires |c.obligations| <= MAX_OBLIGATIONS
    ensures fresh(buf) && buf.Length == BufferSize(c) && pos == TextSize(c) % TWO64
    ensures astray <==> TextSize(c) > BufferSize(c) + 3
    ensures !astray ==> HoldsText(buf[..], Canonical(c))
  {
    buf := new char[8192 + |c.obligations| * 128];
    ghost var start;
    pos, start, astray := PrintAll(buf, c);
    SizeIsLength(c);
  }

  class Certificate {
    var version: U32
    var timestamp: U64
    var programHash: seq<Byte>
    var programSize: U32
    var obligations: seq<Obligation>
    var initialStack: seq<Int64>
    var finalStack: seq<Int64>
    var canonicalJson: array<char>
    var canonicalLen: U64

    /** Obligations are numbered by position, and there are at most 256. */
    ghost predicate Valid()
      reads this
    {
      |programHash| == 32 && |obligations| <= MAX_OBLIGATIONS && forall i :: 0 <= i < |obligations| ==> obligations[i].id == i
    }

    function Contents(): Content
      reads this
    {
      Content(version, timestamp, programSize, obligations, initialStack, finalStack)
    }

    constructor (now: U64)
      ensures Valid() && Contents() == Content(1, now, 0, [], [], [])
      ensures version == 1 && timestamp == now && programSize == 0
      ensures obligations == [] && initialStack == [] && finalStack == []
      ensures forall i :: 0 <= i < 32 ==> programHash[i] == ZERO
    {
      version, timestamp, programSize := 1, now, 0;
      programHash := seq(32, _ => ZERO);
      obligations, initialStack, finalStack := [], [], [];
      canonicalJson, canonicalLen := new char[0], 0;
    }

    /** Hash and size are taken over together; without a hash nothing is. */
    method SetProgram(hash: Option<seq<Byte>>, size: U32)
      requires Valid() && (hash.Some? ==> |hash.value| >= 32)
      modifies `programHash, `programSize
      ensures Valid()
      ensures hash.Some? ==> programHash == hash.value[..32] && programSize == size
      ensures hash.None? ==> programHash == old(programHash) && programSize == old(programSize)
    {
      if hash.Some? {
        programHash := hash.value[..32];
        programSize := size;
      }
    }

    method SetStacks(initial: seq<Int64>, final: seq<Int64>)
      requires Valid()
      modifies `initialStack, `finalStack
      ensures Valid() && initialStack == initial && finalStack == final
    {
      initialStack := initial;
      finalStack := final;
    }

    method AddObligation(kind: Int32, startPc: U32, endPc: U32) returns (ok: bool)
      requires Valid()
      modifies `obligations
      ensures Valid()
      ensures ok <==> |old(obligations)| < MAX_OBLIGATIONS
      ensures obligations == if ok then old(obligations) + [Obligation(|old(obligations)|, kind, startPc, endPc)]
                             else old(obligations)
    {
      if |obligations| >= MAX_OBLIGATIONS {
        return false;
      }
      obligations := obligations + [Obligation(|obligations|, kind, startPc, endPc)];
      return true;
    }

    /** The text is printed whatever its size. Bytes go astray exactly when it exceeds the buffer by more than the
        three characters of the last print; otherwise the buffer holds as much of it as fits. */
    method Canonicalize() returns (ghost astray: bool)
      requires Valid()
      modifies `canonicalJson, `canonicalLen
      ensures Contents() == old(Contents())
      ensures canonicalJson.Length == BufferSize(Contents()) && canonicalLen == TextSize(Contents()) % TWO64
      ensures astray <==> TextSize(Contents()) > BufferSize(Contents()) + 3
      ensures !astray ==> HoldsText(canonicalJson[..], Canonical(Contents()))
      ensures Fits(Contents()) ==>
                && canonicalLen < canonicalJson.Length && canonicalJson[..canonicalLen] == Canonical(Contents())
                && Shows(canonicalJson[..canonicalLen], version, timestamp, programSize, obligations, initialStack,
                         finalStack)
    {
      ghost var c := Contents();
      var buf, pos;
      buf, pos, astray := PrintCertificate(Contents());
      if Fits(c) {
        FitsIffSize(c);
        WholeTextHeld(buf[..], c, pos);
        assert buf[..][..pos] == buf[..pos];
      }
      canonicalJson, canonicalLen := buf, pos;
    }
  }
}
