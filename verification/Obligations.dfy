/** The growing array of proof obligations that inference fills. */
module Obligations {
  import opened Widths

  datatype Kind = Inverse | Solve | LeastSquares | TypeCheck | Property

  datatype Obligation = Obligation(id: U32, kind: Kind, startPc: U32, endPc: U32)

  datatype Lookup = Missing | Found(index: nat)

  /** A 32-bit identifier read back as a signed number. */
  function AsInt32(v: U32): int { if v < 0x8000_0000 then v else v - TWO32 }

  /** The obligation that the next addition appends. */
  function NextInverse(contents: seq<Obligation>, startPc: U32, endPc: U32): Obligation {
    Obligation(|contents| % TWO32, Inverse, startPc, endPc)
  }

  /** Identifiers are positions, modulo the width of an identifier. */
  predicate Dense(contents: seq<Obligation>) { forall i :: 0 <= i < |contents| ==> contents[i].id == i % TWO32 }

  /** The first obligation with this identifier. */
  predicate IsLookup(contents: seq<Obligation>, id: U32, r: Lookup) {
    match r
    case Missing => forall i :: 0 <= i < |contents| ==> contents[i].id != id
    case Found(index) => index < |contents| && contents[index].id == id && forall i :: 0 <= i < index ==> contents[i].id != id
  }

  /** In a dense set the identifier of an obligation is where it is found. */
  lemma DenseLookup(contents: seq<Obligation>, id: U32, r: Lookup)
    requires Dense(contents) && IsLookup(contents, id, r)
    ensures r == if id < |contents| then Found(id) else Missing
  {
    if id < |contents| {
      assert contents[id].id == id;
    }
    if r.Found? {
      assert contents[r.index].id == r.index % TWO32;
    }
  }

  class ObligationSet {
    var items: array<Obligation>
    var count: nat
    var nextId: U32

    ghost predicate Valid()
      reads this, items
    {
      0 < items.Length && count <= items.Length && nextId == count % TWO32 && Dense(items[..count])
    }

    ghost function Contents(): seq<Obligation>
      reads this, items
      requires count <= items.Length
    {
      items[..count]
    }

    constructor ()
      ensures Valid() && fresh(items) && Contents() == []
    {
      items := new Obligation[10];
      count, nextId := 0, 0;
    }

    /** Doubles a full array, keeping what it holds. */
    method Grow()
      requires Valid()
      modifies this`items
      ensures Valid() && Contents() == old(Contents()) && count < items.Length
      ensures items == old(items) || fresh(items)
    {
      if count >= items.Length {
        var more := new Obligation[items.Length * 2];
        for i := 0 to count
          invariant items == old(items) && items[..] == old(items[..])
          invariant more[..i] == items[..i]
        {
          more[i] := items[i];
        }
        items := more;
      }
    }

    method AddInv(startPc: U32, endPc: U32) returns (id: int)
      requires Valid()
      modifies this, items
      ensures Valid() && (items == old(items) || fresh(items))
      ensures Contents() == old(Contents()) + [NextInverse(old(Contents()), startPc, endPc)]
      ensures id == AsInt32(old(|Contents()|) % TWO32)
    {
      Grow();
      items[count] := Obligation(nextId, Inverse, startPc, endPc);
      id := AsInt32(nextId);
      count := count + 1;
      nextId := (nextId + 1) % TWO32;
    }

    method Get(id: U32) returns (r: Lookup)
      requires Valid()
      ensures IsLookup(Contents(), id, r)
      ensures r == if id < |Contents()| then Found(id) else Missing
    {
      r := Missing;
      var i := 0;
      while i < count
        invariant i <= count
        invariant forall k :: 0 <= k < i ==> items[k].id != id
      {
        if items[i].id == id {
          r := Found(i);
          DenseLookup(Contents(), id, r);
          return;
        }
        i := i + 1;
      }
      DenseLookup(Contents(), id, r);
    }

    method At(index: nat) returns (r: Lookup)
      requires Valid()
      ensures r == if index < |Contents()| then Found(index) else Missing
    {
      r := if index >= count then Missing else Found(index);
    }
  }
}
