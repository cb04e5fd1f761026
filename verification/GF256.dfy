/**
 * Arithmetic in GF(2^8) with the modulus x^8 + x^4 + x^3 + x + 1, as in section 4.2 of FIPS 197.
 * Bit i of a byte is the coefficient of x^i; addition is exclusive or.
 */
module GF256 {
  import opened Bytes

  // ---------- Multiplication by x ----------

  /** 0x1B, the modulus without its leading term. */
  const REDUCTION := Byte(true, true, false, true, true, false, false, false)

  /** Multiplication by x: the bits move up, and a bit that falls out returns as 0x1B. */
  function XTime(x: Byte): Byte {
    Byte(x.b7, x.b0 != x.b7, x.b1, x.b2 != x.b7, x.b3 != x.b7, x.b4, x.b5, x.b6)
  }

  lemma XTimeIsShiftAndReduce(x: Byte)
    ensures XTime(x) == if x.b7 then Xor(ShiftLeft(x), REDUCTION) else ShiftLeft(x)
  {}

  lemma XTimeLinear(u: Byte, v: Byte)
    ensures XTime(Xor(u, v)) == Xor(XTime(u), XTime(v))
    ensures XTime(ZERO) == ZERO
  {}

  // ---------- The shift-and-reduce loop ----------

  function When(y: Byte, u: Byte): Byte { if y.b0 then u else ZERO }

  /** x times the low n coefficients of y. */
  function MulFrom(x: Byte, y: Byte, n: nat): Byte
    decreases n
  {
    if n == 0 then ZERO else Xor(When(y, x), MulFrom(XTime(x), ShiftRight(y), n - 1))
  }

  function Mul(x: Byte, y: Byte): Byte { MulFrom(x, y, 8) }

  /** What the loop leaves in z after n more rounds. */
  function LoopResult(z: Byte, u: Byte, v: Byte, n: nat): Byte
    decreases n
  {
    if n == 0 then z else LoopResult(if v.b0 then Xor(z, u) else z, XTime(u), ShiftRight(v), n - 1)
  }

  lemma {:induction false} LoopAddsProduct(z: Byte, u: Byte, v: Byte, n: nat)
    ensures LoopResult(z, u, v, n) == Xor(z, MulFrom(u, v, n))
    decreases n
  {
    if n == 0 {
      XorZero(z);
    } else {
      var rest := MulFrom(XTime(u), ShiftRight(v), n - 1);
      LoopAddsProduct(if v.b0 then Xor(z, u) else z, XTime(u), ShiftRight(v), n - 1);
      XorZero(rest);
      XorAssociative(z, u, rest);
    }
  }

  method ShiftAndReduce(x: Byte) returns (r: Byte)
    ensures r == XTime(x)
  {
    XTimeIsShiftAndReduce(x);
    var hi := x.b7;
    r := ShiftLeft(x);
    if hi {
      r := Xor(r, REDUCTION);
    }
  }

  method AddIfOdd(z: Byte, u: Byte, v: Byte) returns (r: Byte)
    ensures r == if v.b0 then Xor(z, u) else z
  {
    r := z;
    if v.b0 {
      r := Xor(z, u);
    }
  }

  method GfMul(x: Byte, y: Byte) returns (z: Byte)
    ensures z == Mul(x, y)
  {
    var u, v := x, y;
    z := ZERO;
    LoopAddsProduct(ZERO, x, y, 8);
    XorZero(Mul(x, y));
    ghost var product := Mul(x, y);
    for i := 0 to 8
      invariant LoopResult(z, u, v, 8 - i) == product
    {
      z := AddIfOdd(z, u, v);
      u := ShiftAndReduce(u);
      v := ShiftRight(v);
    }
  }

  // ---------- Linearity ----------

  lemma WhenLinear(y: Byte, u: Byte, v: Byte)
    ensures When(y, Xor(u, v)) == Xor(When(y, u), When(y, v))
    ensures When(y, XTime(u)) == XTime(When(y, u))
  {}

  lemma WhenAdditive(y: Byte, z: Byte, u: Byte)
    ensures When(Xor(y, z), u) == Xor(When(y, u), When(z, u))
    ensures ShiftRight(Xor(y, z)) == Xor(ShiftRight(y), ShiftRight(z))
  {}

  lemma {:induction false} MulFromLinear(u: Byte, v: Byte, y: Byte, n: nat)
    ensures MulFrom(Xor(u, v), y, n) == Xor(MulFrom(u, y, n), MulFrom(v, y, n))
    decreases n
  {
    if n > 0 {
      XTimeLinear(u, v);
      WhenLinear(y, u, v);
      MulFromLinear(XTime(u), XTime(v), ShiftRight(y), n - 1);
      XorRegroup(When(y, u), When(y, v), MulFrom(XTime(u), ShiftRight(y), n - 1), MulFrom(XTime(v), ShiftRight(y), n - 1));
    }
  }

  lemma {:induction false} MulFromAdditive(u: Byte, y: Byte, z: Byte, n: nat)
    ensures MulFrom(u, Xor(y, z), n) == Xor(MulFrom(u, y, n), MulFrom(u, z, n))
    decreases n
  {
    if n > 0 {
      WhenAdditive(y, z, u);
      MulFromAdditive(XTime(u), ShiftRight(y), ShiftRight(z), n - 1);
      XorRegroup(When(y, u), When(z, u), MulFrom(XTime(u), ShiftRight(y), n - 1), MulFrom(XTime(u), ShiftRight(z), n - 1));
    }
  }

  lemma MulAdditive(x: Byte, y: Byte, z: Byte)
    ensures Mul(x, Xor(y, z)) == Xor(Mul(x, y), Mul(x, z))
    ensures Mul(Xor(y, z), x) == Xor(Mul(y, x), Mul(z, x))
  {
    MulFromAdditive(x, y, z, 8);
    MulFromLinear(y, z, x, 8);
  }

  lemma {:induction false} MulFromXTime(x: Byte, y: Byte, n: nat)
    ensures MulFrom(XTime(x), y, n) == XTime(MulFrom(x, y, n))
    decreases n
  {
    XTimeLinear(x, x);
    if n > 0 {
      WhenLinear(y, x, x);
      MulFromXTime(XTime(x), ShiftRight(y), n - 1);
      XTimeLinear(When(y, x), MulFrom(XTime(x), ShiftRight(y), n - 1));
    }
  }

  lemma {:induction false} MulFromZero(x: Byte, n: nat)
    ensures MulFrom(x, ZERO, n) == ZERO
    ensures MulFrom(ZERO, x, n) == ZERO
    decreases n
  {
    if n > 0 {
      XTimeLinear(x, x);
      MulFromZero(XTime(x), n - 1);
      MulFromZero(ShiftRight(x), n - 1);
      XorZero(ZERO);
    }
  }

  // ---------- Ring laws ----------

  /** All coefficients of y from x^n on are zero. */
  predicate Below(y: Byte, n: nat)
    decreases n
  {
    if n == 0 then y == ZERO else Below(ShiftRight(y), n - 1)
  }

  lemma BelowSeven(y: Byte)
    ensures Below(y, 7) <==> !y.b7
  {
    var y1 := ShiftRight(y);
    var y2 := ShiftRight(y1);
    var y3 := ShiftRight(y2);
    var y4 := ShiftRight(y3);
    var y5 := ShiftRight(y4);
    var y6 := ShiftRight(y5);
    assert Below(y, 7) <==> Below(y3, 4);
    assert Below(y3, 4) <==> Below(y6, 1);
    assert ShiftRight(y6) == ZERO <==> !y.b7;
  }

  lemma BelowEight(y: Byte)
    ensures Below(y, 8)
  {
    BelowSeven(ShiftRight(y));
  }

  /** Coefficients that are zero contribute nothing. */
  lemma {:induction false} MulFromBelow(u: Byte, y: Byte, n: nat)
    requires Below(y, n)
    ensures MulFrom(u, y, n + 1) == MulFrom(u, y, n)
    decreases n
  {
    if n == 0 {
      MulFromZero(u, 1);
    } else {
      MulFromBelow(XTime(u), ShiftRight(y), n - 1);
    }
  }

  lemma MulFromEven(x: Byte, w: Byte, n: nat)
    requires n > 0
    ensures !w.b0 ==> MulFrom(x, w, n) == MulFrom(XTime(x), ShiftRight(w), n - 1)
  {
    XorZero(MulFrom(XTime(x), ShiftRight(w), n - 1));
  }

  lemma ShiftsCancel(y: Byte)
    ensures !ShiftLeft(y).b0
    ensures !y.b7 ==> ShiftRight(ShiftLeft(y)) == y
  {}

  lemma TopTerm(x: Byte, y: Byte)
    ensures !y.b7 ==> MulFrom(x, y, 7) == Mul(x, y)
  {
    BelowSeven(y);
    if !y.b7 {
      MulFromBelow(x, y, 7);
    }
  }

  lemma MulShifted(x: Byte, y: Byte)
    ensures !y.b7 ==> Mul(x, ShiftLeft(y)) == Mul(XTime(x), y)
  {
    ShiftsCancel(y);
    MulFromEven(x, ShiftLeft(y), 8);
    TopTerm(XTime(x), y);
  }

  /** x^k as a byte, for k < 8. */
  function Monomial(k: nat): Byte { if k == 0 then ONE else ShiftLeft(Monomial(k - 1)) }

  /** u * x^k. */
  function TimesPower(u: Byte, k: nat): Byte
    decreases k
  {
    if k == 0 then u else TimesPower(XTime(u), k - 1)
  }

  lemma MonomialTable()
    ensures Monomial(1) == ONE.(b0 := false, b1 := true)
    ensures Monomial(3) == ONE.(b0 := false, b3 := true)
    ensures Monomial(4) == ONE.(b0 := false, b4 := true)
    ensures Monomial(7) == ONE.(b0 := false, b7 := true)
  {
    assert Monomial(2) == ONE.(b0 := false, b2 := true);
    assert Monomial(5) == ONE.(b0 := false, b5 := true);
    assert Monomial(6) == ONE.(b0 := false, b6 := true);
  }

  lemma MonomialShifts(k: nat)
    requires 0 < k < 8
    ensures ShiftRight(Monomial(k)) == Monomial(k - 1) && !Monomial(k).b0
    ensures k < 7 ==> !Monomial(k).b7
  {
    assert Monomial(2) == ONE.(b0 := false, b2 := true);
    assert Monomial(5) == ONE.(b0 := false, b5 := true);
    assert Monomial(6) == ONE.(b0 := false, b6 := true);
    MonomialTable();
  }

  lemma {:induction false} MulMonomial(u: Byte, k: nat, n: nat)
    requires k < n <= 8
    ensures MulFrom(u, Monomial(k), n) == TimesPower(u, k)
    decreases n
  {
    if k == 0 {
      assert ShiftRight(ONE) == ZERO;
      MulFromZero(XTime(u), n - 1);
      XorZero(u);
    } else {
      MonomialShifts(k);
      MulFromEven(u, Monomial(k), n);
      MulMonomial(XTime(u), k - 1, n - 1);
    }
  }

  /** u * x^4, coefficient by coefficient. */
  function FourTimes(u: Byte): Byte {
    Byte(u.b4, u.b4 != u.b5, u.b5 != u.b6, (u.b4 != u.b6) != u.b7,
         ((u.b0 != u.b4) != u.b5) != u.b7, (u.b1 != u.b5) != u.b6, (u.b2 != u.b6) != u.b7, u.b3 != u.b7)
  }

  lemma FourXTimes(u: Byte)
    ensures XTime(XTime(XTime(XTime(u)))) == FourTimes(u)
  {}

  lemma ThreeXTimesLinear(u: Byte, v: Byte)
    ensures XTime(XTime(XTime(Xor(u, v)))) == Xor(XTime(XTime(XTime(u))), XTime(XTime(XTime(v))))
  {
    XTimeLinear(u, v);
    XTimeLinear(XTime(u), XTime(v));
    XTimeLinear(XTime(XTime(u)), XTime(XTime(v)));
  }

  lemma FourTimesLinear(u: Byte, v: Byte)
    ensures FourTimes(Xor(u, v)) == Xor(FourTimes(u), FourTimes(v))
  {
    FourXTimes(u);
    FourXTimes(v);
    FourXTimes(Xor(u, v));
    ThreeXTimesLinear(u, v);
    XTimeLinear(XTime(XTime(XTime(u))), XTime(XTime(XTime(v))));
  }

  /** The reduction of u * x^8; it holds of u as it holds of the low and the high half of u. */
  predicate EightTimesAt(u: Byte) {
    FourTimes(FourTimes(u)) == Xor(Xor(u, XTime(u)), Xor(XTime(XTime(XTime(u))), FourTimes(u)))
  }

  lemma EightTimesLow(u: Byte)
    requires !u.b4 && !u.b5 && !u.b6 && !u.b7
    ensures EightTimesAt(u)
  {}

  lemma EightTimesHigh(u: Byte)
    requires !u.b0 && !u.b1 && !u.b2 && !u.b3
    ensures EightTimesAt(u)
  {}

  lemma EightTimes(u: Byte)
    ensures EightTimesAt(u)
  {
    var low, high := Byte(u.b0, u.b1, u.b2, u.b3, false, false, false, false),
                     Byte(false, false, false, false, u.b4, u.b5, u.b6, u.b7);
    assert u == Xor(low, high);
    EightTimesLow(low);
    EightTimesHigh(high);
    EightTimesSum(low, high);
  }

  lemma EightTimesSum(u: Byte, v: Byte)
    requires EightTimesAt(u) && EightTimesAt(v)
    ensures EightTimesAt(Xor(u, v))
  {
    FourTimesLinear(u, v);
    FourTimesLinear(FourTimes(u), FourTimes(v));
    XTimeLinear(u, v);
    ThreeXTimesLinear(u, v);
    XorRegroup(u, v, XTime(u), XTime(v));
    XorRegroup(XTime(XTime(XTime(u))), XTime(XTime(XTime(v))), FourTimes(u), FourTimes(v));
    XorRegroup(Xor(u, XTime(u)), Xor(v, XTime(v)), Xor(XTime(XTime(XTime(u))), FourTimes(u)),
               Xor(XTime(XTime(XTime(v))), FourTimes(v)));
  }

  /** x^8 is congruent to x^4 + x^3 + x + 1. */
  lemma EighthPower(u: Byte)
    ensures var u1 := XTime(u); var u3 := XTime(XTime(u1)); var u4 := XTime(u3);
      XTime(XTime(XTime(XTime(u4)))) == Xor(Xor(u, u1), Xor(u3, u4))
  {
    FourXTimes(u);
    FourXTimes(FourTimes(u));
    EightTimes(u);
  }

  lemma TimesPowers(u: Byte)
    ensures var u1 := XTime(u); var u3 := XTime(XTime(u1)); var u4 := XTime(u3);
      TimesPower(u, 0) == u && TimesPower(u, 1) == u1 && TimesPower(u, 3) == u3 && TimesPower(u, 4) == u4
      && TimesPower(u1, 7) == XTime(XTime(XTime(XTime(u4))))
  {
    var u4 := XTime(XTime(XTime(XTime(u))));
    assert TimesPower(XTime(u), 7) == TimesPower(u4, 4);
    assert TimesPower(u4, 4) == TimesPower(XTime(XTime(u4)), 2);
  }

  const HIGH := Byte(false, false, false, false, false, false, false, true)

  lemma ReductionTerms()
    ensures REDUCTION == Xor(Xor(Monomial(0), Monomial(1)), Xor(Monomial(3), Monomial(4)))
    ensures HIGH == Monomial(7)
  {
    MonomialTable();
  }

  lemma MulPower(x: Byte, k: nat)
    ensures k < 8 ==> Mul(x, Monomial(k)) == TimesPower(x, k)
  {
    if k < 8 {
      MulMonomial(x, k, 8);
    }
  }

  lemma MulReduction(x: Byte)
    ensures Mul(x, REDUCTION) == Mul(XTime(x), HIGH)
  {
    var m01, m34 := Xor(Monomial(0), Monomial(1)), Xor(Monomial(3), Monomial(4));
    ReductionTerms();
    MulAdditive(x, m01, m34);
    MulAdditive(x, Monomial(0), Monomial(1));
    MulAdditive(x, Monomial(3), Monomial(4));
    MulPower(x, 0);
    MulPower(x, 1);
    MulPower(x, 3);
    MulPower(x, 4);
    MulPower(XTime(x), 7);
    TimesPowers(x);
    EighthPower(x);
  }

  function LowSeven(y: Byte): Byte { y.(b7 := false) }

  function HighPart(y: Byte, u: Byte): Byte { if y.b7 then u else ZERO }

  lemma SplitHigh(y: Byte)
    ensures y == Xor(LowSeven(y), HighPart(y, HIGH))
    ensures XTime(y) == Xor(ShiftLeft(LowSeven(y)), HighPart(y, REDUCTION))
  {
    if y.b7 {} else {}
  }

  lemma MulXTimeLeft(x: Byte, y: Byte)
    ensures Mul(XTime(x), y) == XTime(Mul(x, y))
  {
    MulFromXTime(x, y, 8);
  }

  lemma MulZero(x: Byte)
    ensures Mul(x, ZERO) == ZERO && Mul(ZERO, x) == ZERO
  {
    MulFromZero(x, 8);
  }

  lemma MulHighPart(x: Byte, y: Byte)
    ensures Mul(x, HighPart(y, REDUCTION)) == Mul(XTime(x), HighPart(y, HIGH))
  {
    if y.b7 {
      MulReduction(x);
    } else {
      MulZero(x);
      MulZero(XTime(x));
    }
  }

  lemma MulXTimeRight(x: Byte, y: Byte)
    ensures Mul(x, XTime(y)) == XTime(Mul(x, y))
  {
    var low := LowSeven(y);
    SplitHigh(y);
    MulXTimeLeft(x, y);
    MulAdditive(x, ShiftLeft(low), HighPart(y, REDUCTION));
    MulAdditive(XTime(x), low, HighPart(y, HIGH));
    MulShifted(x, low);
    MulHighPart(x, y);
  }

  /** Horner's rule: the lowest coefficient plus x times the rest. */
  lemma Horner(y: Byte)
    ensures y == Xor(When(y, ONE), XTime(ShiftRight(y)))
  {
    if y.b0 {} else {}
  }

  lemma MulWhen(x: Byte, y: Byte, z: Byte)
    ensures Mul(x, When(z, y)) == When(z, Mul(x, y))
    ensures Mul(When(z, y), x) == When(z, Mul(y, x))
  {
    MulZero(x);
  }

  lemma MulHorner(x: Byte, y: Byte)
    ensures Mul(x, y) == Xor(When(y, x), XTime(Mul(x, ShiftRight(y))))
  {
    Horner(y);
    MulAdditive(x, When(y, ONE), XTime(ShiftRight(y)));
    MulXTimeRight(x, ShiftRight(y));
    MulWhen(x, ONE, y);
    MulPower(x, 0);
  }

  lemma HornerMul(x: Byte, y: Byte)
    ensures Mul(y, x) == Xor(Mul(When(y, ONE), x), XTime(Mul(ShiftRight(y), x)))
  {
    Horner(y);
    MulAdditive(x, When(y, ONE), XTime(ShiftRight(y)));
    MulXTimeLeft(ShiftRight(y), x);
  }

  lemma {:induction false} MulOneFrom(y: Byte, n: nat)
    requires Below(y, n)
    ensures Mul(ONE, y) == y
    decreases n
  {
    if n == 0 {
      MulZero(ONE);
    } else {
      MulOneFrom(ShiftRight(y), n - 1);
      MulHorner(ONE, y);
      Horner(y);
    }
  }

  lemma MulOne(y: Byte)
    ensures Mul(ONE, y) == y && Mul(y, ONE) == y
    ensures Mul(ZERO, y) == ZERO && Mul(y, ZERO) == ZERO
  {
    BelowEight(y);
    MulOneFrom(y, 8);
    MulPower(y, 0);
    MulZero(y);
  }

  lemma WhenOne(x: Byte, y: Byte)
    ensures Mul(When(y, ONE), x) == When(y, x)
  {
    MulOne(x);
    MulWhen(x, ONE, y);
  }

  lemma CommutesByHorner(x: Byte, y: Byte)
    requires Mul(x, ShiftRight(y)) == Mul(ShiftRight(y), x)
    ensures Mul(x, y) == Mul(y, x)
  {
    MulHorner(x, y);
    HornerMul(x, y);
    WhenOne(x, y);
  }

  lemma {:induction false} MulCommutativeFrom(x: Byte, y: Byte, n: nat)
    requires Below(y, n)
    ensures Mul(x, y) == Mul(y, x)
    decreases n
  {
    if n == 0 {
      MulZero(x);
    } else {
      MulCommutativeFrom(x, ShiftRight(y), n - 1);
      CommutesByHorner(x, y);
    }
  }

  lemma MulCommutative(x: Byte, y: Byte)
    ensures Mul(x, y) == Mul(y, x)
  {
    BelowEight(y);
    MulCommutativeFrom(x, y, 8);
  }

  lemma {:induction false} MulAssociativeFrom(x: Byte, y: Byte, z: Byte, n: nat)
    requires Below(z, n)
    ensures Mul(Mul(x, y), z) == Mul(x, Mul(y, z))
    decreases n
  {
    if n == 0 {
      MulOne(Mul(x, y));
      MulOne(x);
      MulOne(y);
    } else {
      var rest := ShiftRight(z);
      MulAssociativeFrom(x, y, rest, n - 1);
      MulHorner(Mul(x, y), z);
      MulHorner(y, z);
      MulAdditive(x, When(z, y), XTime(Mul(y, rest)));
      MulXTimeRight(x, Mul(y, rest));
      MulWhen(x, y, z);
    }
  }

  lemma MulAssociative(x: Byte, y: Byte, z: Byte)
    ensures Mul(Mul(x, y), z) == Mul(x, Mul(y, z))
  {
    BelowEight(z);
    MulAssociativeFrom(x, y, z, 8);
  }

  // ---------- In plain bits ----------

  /** Multiplying by {02}: with MulAdditive, MulAssociative and MulOne this determines every product. */
  lemma MulByTwo(x: Byte)
    ensures Mul(x, Byte(false, true, false, false, false, false, false, false))
      == Byte(x.b7, x.b0 != x.b7, x.b1, x.b2 != x.b7, x.b3 != x.b7, x.b4, x.b5, x.b6)
  {
    MonomialTable();
    MulPower(x, 1);
    TimesPowers(x);
  }

  /** {57} * {83} == {c1}, the example of section 4.2 of FIPS 197. */
  lemma ExampleProduct()
    ensures Mul(Byte(true, true, true, false, true, false, true, false),
                Byte(true, true, false, false, false, false, false, true))
      == Byte(true, false, false, false, false, false, true, true)
  {
    var x, y := Byte(true, true, true, false, true, false, true, false), Byte(true, true, false, false, false, false, false, true);
    var x1, y1 := XTime(x), ShiftRight(y);
    var x2, y2 := XTime(x1), ShiftRight(y1);
    var x3, y3 := XTime(x2), ShiftRight(y2);
    var x4, y4 := XTime(x3), ShiftRight(y3);
    var x5, y5 := XTime(x4), ShiftRight(y4);
    var x6, y6 := XTime(x5), ShiftRight(y5);
    var x7, y7 := XTime(x6), ShiftRight(y6);
    assert MulFrom(x7, y7, 1) == x7;
    assert MulFrom(x5, y5, 3) == x7 && MulFrom(x3, y3, 5) == x7 && MulFrom(x1, y1, 7) == Xor(x1, x7);
  }
}
