/** Bytes as their eight bits, b0 the least significant, with exclusive or and shifts. */
module Bytes {
  datatype Byte = Byte(b0: bool, b1: bool, b2: bool, b3: bool, b4: bool, b5: bool, b6: bool, b7: bool)

  const ZERO := Byte(false, false, false, false, false, false, false, false)
  const ONE := Byte(true, false, false, false, false, false, false, false)

  function Xor(a: Byte, b: Byte): Byte {
    Byte(a.b0 != b.b0, a.b1 != b.b1, a.b2 != b.b2, a.b3 != b.b3, a.b4 != b.b4, a.b5 != b.b5, a.b6 != b.b6, a.b7 != b.b7)
  }

  function Or(a: Byte, b: Byte): Byte {
    Byte(a.b0 || b.b0, a.b1 || b.b1, a.b2 || b.b2, a.b3 || b.b3, a.b4 || b.b4, a.b5 || b.b5, a.b6 || b.b6, a.b7 || b.b7)
  }

  function ShiftLeft(a: Byte): Byte { Byte(false, a.b0, a.b1, a.b2, a.b3, a.b4, a.b5, a.b6) }

  function ShiftRight(a: Byte): Byte { Byte(a.b1, a.b2, a.b3, a.b4, a.b5, a.b6, a.b7, false) }

  lemma XorZero(a: Byte)
    ensures Xor(a, ZERO) == a && Xor(ZERO, a) == a && Xor(a, a) == ZERO
  {}

  lemma XorCommutative(a: Byte, b: Byte)
    ensures Xor(a, b) == Xor(b, a)
  {}

  lemma XorAssociative(a: Byte, b: Byte, c: Byte)
    ensures Xor(Xor(a, b), c) == Xor(a, Xor(b, c))
  {}

  lemma XorRegroup(a: Byte, b: Byte, c: Byte, d: Byte)
    ensures Xor(Xor(a, b), Xor(c, d)) == Xor(Xor(a, c), Xor(b, d))
  {}

  /** Two bytes differ exactly when their exclusive or has a bit set. */
  lemma XorDetectsDifference(a: Byte, b: Byte)
    ensures Xor(a, b) == ZERO <==> a == b
  {}

  lemma XorCancel(a: Byte, b: Byte, c: Byte)
    ensures Xor(a, b) == Xor(a, c) <==> b == c
  {}

  lemma OrZero(a: Byte, b: Byte)
    ensures Or(a, b) == ZERO <==> a == ZERO && b == ZERO
  {}
}
