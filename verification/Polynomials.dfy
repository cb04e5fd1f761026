/**
 * Polynomials over GF(2) of degree below 16, and the proof that the product of GF256 is polynomial
 * multiplication modulo x^8 + x^4 + x^3 + x + 1 (section 4.2 of FIPS 197).
 */
module Polynomials {
  import opened Bytes
  import opened GF256

  datatype Word = Word(hi: Byte, lo: Byte)

  const NONE := Word(ZERO, ZERO)
  const MODULUS := Word(ONE, REDUCTION)

  function Add(a: Word, b: Word): Word { Word(Xor(a.hi, b.hi), Xor(a.lo, b.lo)) }

  /** Multiplication by x, which drops the coefficient of x^15. */
  function Shift(a: Word): Word { Word(ShiftLeft(a.hi).(b0 := a.lo.b7), ShiftLeft(a.lo)) }

  function Select(y: Byte, u: Word): Word { if y.b0 then u else NONE }

  function Low(r: Byte): Word { Word(ZERO, r) }

  /** The product of u with the polynomial of the low n coefficients of y. */
  function PolyMulFrom(u: Word, y: Byte, n: nat): Word
    decreases n
  {
    if n == 0 then NONE else Add(Select(y, u), PolyMulFrom(Shift(u), ShiftRight(y), n - 1))
  }

  function PolyMul(u: Word, y: Byte): Word { PolyMulFrom(u, y, 8) }

  lemma AddNone(a: Word)
    ensures Add(a, NONE) == a && Add(NONE, a) == a && Add(a, a) == NONE
  {
    XorZero(a.hi);
    XorZero(a.lo);
  }

  lemma AddRegroup(a: Word, b: Word, c: Word, d: Word)
    ensures Add(Add(a, b), Add(c, d)) == Add(Add(a, c), Add(b, d))
  {
    XorRegroup(a.hi, b.hi, c.hi, d.hi);
    XorRegroup(a.lo, b.lo, c.lo, d.lo);
  }

  lemma ShiftAdds(a: Word, b: Word)
    ensures Shift(Add(a, b)) == Add(Shift(a), Shift(b))
    ensures Shift(NONE) == NONE
  {}

  lemma SelectAdds(y: Byte, z: Byte, u: Word)
    ensures Select(Xor(y, z), u) == Add(Select(y, u), Select(z, u))
  {
    AddNone(u);
  }

  lemma {:induction false} PolyMulFromAdditive(u: Word, y: Byte, z: Byte, n: nat)
    ensures PolyMulFrom(u, Xor(y, z), n) == Add(PolyMulFrom(u, y, n), PolyMulFrom(u, z, n))
    decreases n
  {
    AddNone(NONE);
    if n > 0 {
      SelectAdds(y, z, u);
      WhenAdditive(y, z, ZERO);
      PolyMulFromAdditive(Shift(u), ShiftRight(y), ShiftRight(z), n - 1);
      AddRegroup(Select(y, u), Select(z, u), PolyMulFrom(Shift(u), ShiftRight(y), n - 1), PolyMulFrom(Shift(u), ShiftRight(z), n - 1));
    }
  }

  lemma {:induction false} PolyMulFromShift(u: Word, y: Byte, n: nat)
    ensures PolyMulFrom(Shift(u), y, n) == Shift(PolyMulFrom(u, y, n))
    decreases n
  {
    ShiftAdds(u, u);
    if n > 0 {
      PolyMulFromShift(Shift(u), ShiftRight(y), n - 1);
      ShiftAdds(Select(y, u), PolyMulFrom(Shift(u), ShiftRight(y), n - 1));
    }
  }

  lemma {:induction false} PolyMulFromZero(u: Word, n: nat)
    ensures PolyMulFrom(u, ZERO, n) == NONE
    decreases n
  {
    if n > 0 {
      assert ShiftRight(ZERO) == ZERO;
      PolyMulFromZero(Shift(u), n - 1);
      AddNone(NONE);
    }
  }

  lemma PolyMulFromOne(u: Word, n: nat)
    requires n > 0
    ensures PolyMulFrom(u, ONE, n) == u
  {
    assert ShiftRight(ONE) == ZERO;
    PolyMulFromZero(Shift(u), n - 1);
    AddNone(u);
  }

  lemma PolyMulZero(u: Word)
    ensures PolyMul(u, ZERO) == NONE
  {
    PolyMulFromZero(u, 8);
  }

  lemma PolyMulAdditive(u: Word, y: Byte, z: Byte)
    ensures PolyMul(u, Xor(y, z)) == Add(PolyMul(u, y), PolyMul(u, z))
  {
    PolyMulFromAdditive(u, y, z, 8);
  }

  lemma {:induction false} PolyMulFromBelow(u: Word, y: Byte, n: nat)
    requires Below(y, n)
    ensures PolyMulFrom(u, y, n + 1) == PolyMulFrom(u, y, n)
    decreases n
  {
    if n == 0 {
      PolyMulFromZero(u, 1);
    } else {
      PolyMulFromBelow(Shift(u), ShiftRight(y), n - 1);
    }
  }

  lemma PolyMulFromEven(u: Word, w: Byte, n: nat)
    requires n > 0
    ensures !w.b0 ==> PolyMulFrom(u, w, n) == PolyMulFrom(Shift(u), ShiftRight(w), n - 1)
  {
    AddNone(PolyMulFrom(Shift(u), ShiftRight(w), n - 1));
  }

  lemma PolyTopTerm(u: Word, y: Byte)
    ensures !y.b7 ==> PolyMulFrom(u, y, 7) == PolyMul(u, y)
  {
    BelowSeven(y);
    if !y.b7 {
      PolyMulFromBelow(u, y, 7);
    }
  }

  /** x times a product, when the second factor has room to shift. */
  lemma PolyMulShifted(u: Word, y: Byte)
    ensures !y.b7 ==> PolyMul(u, ShiftLeft(y)) == Shift(PolyMul(u, y))
  {
    ShiftsCancel(y);
    PolyMulFromEven(u, ShiftLeft(y), 8);
    PolyTopTerm(Shift(u), y);
    PolyMulFromShift(u, y, 8);
  }

  // ---------- Remainders ----------

  /** u is q times the modulus plus r. */
  predicate Divides(u: Word, q: Byte, r: Byte) { u == Add(PolyMul(MODULUS, q), Low(r)) }

  function Carry(r: Byte): Byte { if r.b7 then ONE else ZERO }

  function CarriedModulus(r: Byte): Word { if r.b7 then MODULUS else NONE }

  lemma ShiftLow(r: Byte)
    ensures Shift(Low(r)) == Add(CarriedModulus(r), Low(XTime(r)))
  {
    if r.b7 {} else {}
  }

  lemma PolyMulCarry(u: Word, r: Byte)
    ensures PolyMul(u, Carry(r)) == if r.b7 then u else NONE
  {
    if r.b7 {
      PolyMulFromOne(u, 8);
    } else {
      PolyMulZero(u);
    }
  }

  lemma AddAssociative(a: Word, b: Word, c: Word)
    ensures Add(Add(a, b), c) == Add(a, Add(b, c))
  {
    XorAssociative(a.hi, b.hi, c.hi);
    XorAssociative(a.lo, b.lo, c.lo);
  }

  function NextQuotient(q: Byte, r: Byte): Byte { Xor(ShiftLeft(q), Carry(r)) }

  lemma DividesShift(u: Word, q: Byte, r: Byte)
    requires Divides(u, q, r) && !q.b7
    ensures Divides(Shift(u), NextQuotient(q, r), XTime(r))
  {
    ShiftAdds(PolyMul(MODULUS, q), Low(r));
    PolyMulShifted(MODULUS, q);
    ShiftLow(r);
    PolyMulCarry(MODULUS, r);
    PolyMulAdditive(MODULUS, ShiftLeft(q), Carry(r));
    AddAssociative(PolyMul(MODULUS, ShiftLeft(q)), PolyMul(MODULUS, Carry(r)), Low(XTime(r)));
  }

  lemma NextQuotientBelow(q: Byte, r: Byte, k: nat)
    requires k < 8 && Below(q, k)
    ensures !q.b7 && Below(NextQuotient(q, r), k + 1)
  {
    BelowRises(q, k, 7);
    BelowSeven(q);
    assert ShiftRight(NextQuotient(q, r)) == q;
  }

  lemma {:induction false} BelowRises(y: Byte, k: nat, n: nat)
    requires Below(y, k) && k <= n
    ensures Below(y, n)
    decreases n
  {
    if n > 0 {
      assert ShiftRight(ZERO) == ZERO;
      if k == 0 {
        BelowRises(ShiftRight(y), 0, n - 1);
      } else {
        BelowRises(ShiftRight(y), k - 1, n - 1);
      }
    }
  }

  lemma DividesNone()
    ensures Divides(NONE, ZERO, ZERO)
  {
    PolyMulZero(MODULUS);
    AddNone(NONE);
  }

  lemma DividesSelect(u: Word, q: Byte, r: Byte, y: Byte)
    requires Divides(u, q, r)
    ensures Divides(Select(y, u), When(y, q), When(y, r))
  {
    if !y.b0 {
      DividesNone();
    }
  }

  lemma DividesAdd(u: Word, q: Byte, r: Byte, u': Word, q': Byte, r': Byte)
    requires Divides(u, q, r) && Divides(u', q', r')
    ensures Divides(Add(u, u'), Xor(q, q'), Xor(r, r'))
  {
    PolyMulAdditive(MODULUS, q, q');
    AddRegroup(PolyMul(MODULUS, q), Low(r), PolyMul(MODULUS, q'), Low(r'));
    XorZero(ZERO);
  }

  /** One more term of the product, and of the quotient. */
  lemma DividesTerm(u: Word, q: Byte, r: Byte, y: Byte, n: nat, p: Byte)
    requires n > 0
    ensures Divides(u, q, r)
         && Divides(PolyMulFrom(Shift(u), ShiftRight(y), n - 1), p, MulFrom(XTime(r), ShiftRight(y), n - 1))
        ==> Divides(PolyMulFrom(u, y, n), Xor(When(y, q), p), MulFrom(r, y, n))
  {
    var u', r' := PolyMulFrom(Shift(u), ShiftRight(y), n - 1), MulFrom(XTime(r), ShiftRight(y), n - 1);
    if Divides(u, q, r) && Divides(u', p, r') {
      DividesSelect(u, q, r, y);
      DividesAdd(Select(y, u), When(y, q), When(y, r), u', p, r');
    }
  }

  function Quotient(q: Byte, r: Byte, y: Byte, n: nat): Byte
    decreases n
  {
    if n == 0 then ZERO else Xor(When(y, q), Quotient(NextQuotient(q, r), XTime(r), ShiftRight(y), n - 1))
  }

  lemma {:induction false} QuotientBelow(q: Byte, r: Byte, y: Byte, n: nat)
    requires n <= 8 && Below(q, 8 - n)
    ensures !Quotient(q, r, y, n).b7
    decreases n
  {
    if n > 0 {
      NextQuotientBelow(q, r, 8 - n);
      QuotientBelow(NextQuotient(q, r), XTime(r), ShiftRight(y), n - 1);
    }
  }

  lemma Advance(u: Word, q: Byte, r: Byte, k: nat)
    ensures k < 8 && Below(q, k) && Divides(u, q, r) ==>
      Below(NextQuotient(q, r), k + 1) && Divides(Shift(u), NextQuotient(q, r), XTime(r))
  {
    if k < 8 && Below(q, k) && Divides(u, q, r) {
      NextQuotientBelow(q, r, k);
      DividesShift(u, q, r);
    }
  }

  lemma {:induction false} ProductDivides(u: Word, q: Byte, r: Byte, y: Byte, n: nat)
    requires n <= 8
    ensures Below(q, 8 - n) && Divides(u, q, r) ==>
      Divides(PolyMulFrom(u, y, n), Quotient(q, r, y, n), MulFrom(r, y, n))
    decreases n
  {
    if n == 0 {
      DividesNone();
    } else {
      Advance(u, q, r, 8 - n);
      ProductDivides(Shift(u), NextQuotient(q, r), XTime(r), ShiftRight(y), n - 1);
      DividesTerm(u, q, r, y, n, Quotient(NextQuotient(q, r), XTime(r), ShiftRight(y), n - 1));
    }
  }

  lemma DividesSelf(x: Byte)
    ensures Divides(Low(x), ZERO, x)
  {
    PolyMulZero(MODULUS);
    AddNone(Low(x));
  }

  lemma QuotientWorks(x: Byte, y: Byte)
    ensures Divides(PolyMul(Low(x), y), Quotient(ZERO, x, y, 8), Mul(x, y))
  {
    DividesSelf(x);
    ProductDivides(Low(x), ZERO, x, y, 8);
  }

  // ---------- The remainder is unique ----------

  lemma PolyHorner(u: Word, y: Byte)
    ensures PolyMul(u, y) == Add(Select(y, u), Shift(PolyMul(u, ShiftRight(y))))
  {
    PolyTopTerm(Shift(u), ShiftRight(y));
    PolyMulFromShift(u, ShiftRight(y), 8);
  }

  /** What one Horner step does to the high half. */
  lemma HighStep(y: Byte, w: Word)
    ensures var s := Add(Select(y, MODULUS), Shift(w));
      && (!w.hi.b7 ==> ShiftRight(s.hi) == w.hi)
      && (!w.hi.b7 && s.hi == ZERO ==> w.hi == ZERO)
      && (w == NONE && s.hi == ZERO ==> !y.b0)
  {
    if y.b0 {} else {}
  }

  lemma HighStepLeads(y: Byte, w: Word, n: nat)
    requires 0 < n <= 7 && Below(w.hi, n - 1)
    requires w.hi == ZERO ==> w == NONE && ShiftRight(y) == ZERO
    ensures var s := Add(Select(y, MODULUS), Shift(w)); Below(s.hi, n) && (s.hi == ZERO ==> y == ZERO)
  {
    BelowRises(w.hi, n - 1, 7);
    BelowSeven(w.hi);
    HighStep(y, w);
  }

  lemma {:induction false} HighHalfLeads(y: Byte, n: nat)
    requires n <= 7
    ensures Below(y, n) ==> Below(PolyMul(MODULUS, y).hi, n) && (PolyMul(MODULUS, y).hi == ZERO ==> y == ZERO)
    decreases n
  {
    PolyMulZero(MODULUS);
    if n > 0 && Below(y, n) {
      HighHalfLeads(ShiftRight(y), n - 1);
      HighStepLeads(y, PolyMul(MODULUS, ShiftRight(y)), n);
      PolyHorner(MODULUS, y);
    }
  }

  lemma LowSum(w: Word, s: Byte)
    ensures NONE == Add(w, Low(s)) ==> w.hi == ZERO
    ensures NONE == Add(w, Low(s)) && w == NONE ==> s == ZERO
  {
    XorZero(w.hi);
    XorZero(s);
  }

  lemma ZeroRemainder(p: Byte, s: Byte)
    ensures !p.b7 && Divides(NONE, p, s) ==> p == ZERO && s == ZERO
  {
    if !p.b7 && Divides(NONE, p, s) {
      BelowSeven(p);
      HighHalfLeads(p, 7);
      LowSum(PolyMul(MODULUS, p), s);
      PolyMulZero(MODULUS);
    }
  }

  /** At most one byte is the remainder of a polynomial, and its quotient is unique too. */
  lemma RemainderUnique(u: Word, q: Byte, r: Byte, q': Byte, r': Byte)
    requires !q.b7 && !q'.b7
    requires Divides(u, q, r) && Divides(u, q', r')
    ensures q == q' && r == r'
  {
    DividesAdd(u, q, r, u, q', r');
    AddNone(u);
    ZeroRemainder(Xor(q, q'), Xor(r, r'));
    XorDetectsDifference(q, q');
    XorDetectsDifference(r, r');
  }

  /** The product in GF(2^8) is a remainder of the polynomial product... */
  lemma MulIsRemainder(x: Byte, y: Byte) returns (q: Byte)
    ensures !q.b7
    ensures Divides(PolyMul(Low(x), y), q, Mul(x, y))
  {
    q := Quotient(ZERO, x, y, 8);
    QuotientBelow(ZERO, x, y, 8);
    QuotientWorks(x, y);
  }

  /** ... and the only one. */
  lemma MulIsOnlyRemainder(x: Byte, y: Byte, q: Byte, z: Byte)
    requires !q.b7 && Divides(PolyMul(Low(x), y), q, z)
    ensures z == Mul(x, y)
  {
    var p := MulIsRemainder(x, y);
    RemainderUnique(PolyMul(Low(x), y), q, z, p, Mul(x, y));
  }
}
