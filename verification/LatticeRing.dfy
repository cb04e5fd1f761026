/** The ring GF(2^8)[x] / (x^32 + 1): blocks of 32 bytes under exclusive or and cyclic convolution. */
module LatticeRing {
  import opened Bytes
  import opened GF256

  // ---------- Sums in GF(2^8) ----------

  type Terms = int -> Byte

  function XorSum(n: nat, f: Terms): Byte {
    if n == 0 then ZERO else Xor(XorSum(n - 1, f), f(n - 1))
  }

  ghost predicate Agree(n: nat, f: Terms, g: Terms) { forall k :: 0 <= k < n ==> f(k) == g(k) }

  lemma {:induction false} XorSumExt(n: nat, f: Terms, g: Terms)
    requires Agree(n, f, g)
    ensures XorSum(n, f) == XorSum(n, g)
  {
    if n > 0 {
      XorSumExt(n - 1, f, g);
    }
  }

  lemma {:induction false} XorSumZero(n: nat, f: Terms)
    requires forall k :: 0 <= k < n ==> f(k) == ZERO
    ensures XorSum(n, f) == ZERO
  {
    XorZero(ZERO);
    if n > 0 {
      XorSumZero(n - 1, f);
    }
  }

  /** A sum all of whose terms but one vanish. */
  lemma {:induction false} XorSumSingle(n: nat, p: nat, f: Terms)
    requires p < n
    requires forall k :: 0 <= k < n && k != p ==> f(k) == ZERO
    ensures XorSum(n, f) == f(p)
  {
    XorZero(f(p));
    if p == n - 1 {
      XorSumZero(n - 1, f);
    } else {
      XorSumSingle(n - 1, p, f);
    }
  }

  lemma {:induction false} XorSumXor(n: nat, f: Terms, g: Terms, h: Terms)
    requires forall k :: 0 <= k < n ==> h(k) == Xor(f(k), g(k))
    ensures XorSum(n, h) == Xor(XorSum(n, f), XorSum(n, g))
  {
    XorZero(ZERO);
    if n > 0 {
      XorSumXor(n - 1, f, g, h);
      XorRegroup(XorSum(n - 1, f), XorSum(n - 1, g), f(n - 1), g(n - 1));
    }
  }

  predicate AdditiveAt(phi: Byte -> Byte, u: Byte, v: Byte) { phi(Xor(u, v)) == Xor(phi(u), phi(v)) }

  ghost predicate IsAdditive(phi: Byte -> Byte) { phi(ZERO) == ZERO && forall u, v :: AdditiveAt(phi, u, v) }

  lemma {:induction false} XorSumMapped(n: nat, phi: Byte -> Byte, f: Terms, g: Terms)
    requires IsAdditive(phi)
    requires forall k :: 0 <= k < n ==> g(k) == phi(f(k))
    ensures XorSum(n, g) == phi(XorSum(n, f))
  {
    if n > 0 {
      XorSumMapped(n - 1, phi, f, g);
      assert AdditiveAt(phi, XorSum(n - 1, f), f(n - 1));
    }
  }

  /** Row sums and column sums of the same table have the same total. */
  lemma {:induction false} XorSumSwap(m: nat, n: nat, h: (int, int) -> Byte, rows: Terms, cols: Terms)
    requires forall i :: 0 <= i < m ==> rows(i) == XorSum(n, j => h(i, j))
    requires forall j :: 0 <= j < n ==> cols(j) == XorSum(m, i => h(i, j))
    ensures XorSum(m, rows) == XorSum(n, cols)
  {
    if m == 0 {
      XorSumZero(n, cols);
    } else {
      var shorter: Terms := j => XorSum(m - 1, i => h(i, j));
      XorSumSwap(m - 1, n, h, rows, shorter);
      var last: Terms := j => h(m - 1, j);
      forall j | 0 <= j < n ensures cols(j) == Xor(shorter(j), last(j)) {
        var f: Terms := i => h(i, j);
        assert XorSum(m, f) == Xor(XorSum(m - 1, f), f(m - 1));
      }
      XorSumXor(n, shorter, last, cols);
      XorSumExt(n, last, j => h(m - 1, j));
    }
  }

  function Later(f: Terms, d: int): Terms { i => f(i + d) }

  lemma {:induction false} XorSumLaterOne(n: nat, f: Terms)
    ensures Xor(XorSum(n, Later(f, 1)), f(0)) == Xor(XorSum(n, f), f(n))
  {
    if n > 0 {
      XorSumLaterOne(n - 1, f);
      var s, t := XorSum(n - 1, Later(f, 1)), XorSum(n - 1, f);
      XorAssociative(s, f(n), f(0));
      XorCommutative(f(n), f(0));
      XorAssociative(s, f(0), f(n));
    }
  }

  predicate PeriodicAt(n: nat, f: Terms, i: int) { f(i + n) == f(i) }

  ghost predicate Periodic(n: nat, f: Terms) { forall i :: PeriodicAt(n, f, i) }

  /** A sum over a full period does not depend on where it starts. */
  lemma {:induction false} XorSumLater(n: nat, f: Terms, d: nat)
    requires Periodic(n, f)
    ensures XorSum(n, Later(f, d)) == XorSum(n, f)
    decreases d
  {
    if d == 0 {
      XorSumExt(n, Later(f, 0), f);
    } else {
      XorSumLater(n, f, d - 1);
      XorSumLaterPeriodic(n, f, d - 1);
      XorSumExt(n, Later(Later(f, d - 1), 1), Later(f, d));
    }
  }

  lemma XorSumLaterPeriodic(n: nat, f: Terms, d: int)
    requires Periodic(n, f)
    ensures XorSum(n, Later(Later(f, d), 1)) == XorSum(n, Later(f, d))
  {
    var g := Later(f, d);
    XorSumLaterOne(n, g);
    assert PeriodicAt(n, f, d);
    assert g(n) == g(0);
    XorCancelRight(XorSum(n, Later(g, 1)), XorSum(n, g), g(0));
  }

  lemma XorSumEarlier(n: nat, f: Terms, d: int)
    requires 0 <= d && Periodic(n, f)
    ensures XorSum(n, Later(f, -d)) == XorSum(n, f)
  {
    var g := Later(f, -d);
    forall i ensures PeriodicAt(n, g, i) {
      assert PeriodicAt(n, f, i - d);
    }
    XorSumLater(n, g, d);
    XorSumExt(n, Later(g, d), f);
  }

  lemma XorCancelRight(a: Byte, b: Byte, c: Byte)
    requires Xor(a, c) == Xor(b, c)
    ensures a == b
  {
    XorCommutative(a, c);
    XorCommutative(b, c);
    XorCancel(c, a, b);
  }

  function Backwards(f: Terms, d: int): Terms { i => f(d - i) }

  lemma {:induction false} XorSumReverse(n: nat, f: Terms)
    ensures XorSum(n, Backwards(f, n - 1)) == XorSum(n, f)
  {
    if n > 0 {
      var g := Later(f, 1);
      XorSumReverse(n - 1, g);
      XorSumExt(n - 1, Backwards(g, n - 2), Backwards(f, n - 1));
      XorSumLaterOne(n - 1, f);
      assert Backwards(f, n - 1)(n - 1) == f(0);
    }
  }

  /** Substituting d - i for i in a sum over a full period. */
  lemma XorSumBackwards(n: nat, f: Terms, d: nat)
    requires n > 0 && Periodic(n, f)
    ensures XorSum(n, Backwards(f, d)) == XorSum(n, f)
  {
    var g := Later(f, d + 1);
    XorSumLater(n, f, d + 1);
    XorSumReverse(n, g);
    forall i | 0 <= i < n ensures Backwards(g, n - 1)(i) == Backwards(f, d)(i) {
      assert PeriodicAt(n, f, d - i);
    }
    XorSumExt(n, Backwards(g, n - 1), Backwards(f, d));
  }

  // ---------- Blocks ----------

  type Block = s: seq<Byte> | |s| == 32 witness seq(32, _ => ZERO)

  /** Indices are taken modulo 32, as `& 31` does for negative ones too. */
  function At(v: Block, i: int): Byte { v[i % 32] }

  function Tabulate(f: Terms): (v: Block)
    ensures forall i :: 0 <= i < 32 ==> v[i] == f(i)
  {
    seq(32, i => f(i))
  }

  function ZeroBlock(): (z: Block)
    ensures forall i :: 0 <= i < 32 ==> z[i] == ZERO
  {
    seq(32, _ => ZERO)
  }

  function XorBlocks(a: Block, b: Block): (c: Block)
    ensures forall i :: 0 <= i < 32 ==> c[i] == Xor(a[i], b[i])
  {
    seq(32, i requires 0 <= i < 32 => Xor(a[i], b[i]))
  }

  // ---------- Cyclic convolution, over any commutative multiplication that distributes over exclusive or ----------

  type Product = (Byte, Byte) -> Byte

  predicate LawsAt(mul: Product, a: Byte, b: Byte, c: Byte) {
    && mul(a, b) == mul(b, a)
    && mul(mul(a, b), c) == mul(a, mul(b, c))
    && mul(a, Xor(b, c)) == Xor(mul(a, b), mul(a, c))
    && mul(a, ZERO) == ZERO
    && mul(ONE, a) == a
  }

  ghost predicate Laws(mul: Product) { forall a, b, c :: LawsAt(mul, a, b, c) }

  lemma MulCommutes(mul: Product, a: Byte, b: Byte)
    requires Laws(mul)
    ensures mul(a, b) == mul(b, a)
  {
    assert LawsAt(mul, a, b, b);
  }

  lemma MulAssociates(mul: Product, a: Byte, b: Byte, c: Byte)
    requires Laws(mul)
    ensures mul(mul(a, b), c) == mul(a, mul(b, c))
  {
    assert LawsAt(mul, a, b, c);
  }

  lemma MulDistributes(mul: Product, a: Byte, b: Byte, c: Byte)
    requires Laws(mul)
    ensures mul(a, Xor(b, c)) == Xor(mul(a, b), mul(a, c))
  {
    assert LawsAt(mul, a, b, c);
  }

  lemma MulZeroOne(mul: Product, a: Byte)
    requires Laws(mul)
    ensures mul(a, ZERO) == ZERO && mul(ZERO, a) == ZERO && mul(ONE, a) == a
  {
    assert LawsAt(mul, a, ZERO, ZERO);
  }

  /** The summand of coefficient k of the product of a and b. */
  function ConvTerm(mul: Product, a: Block, b: Block, k: int): Terms { i => mul(At(a, i), At(b, k - i)) }

  function ConvAt(mul: Product, a: Block, b: Block, k: int): Byte { XorSum(|a|, ConvTerm(mul, a, b, k)) }

  function Conv(mul: Product, a: Block, b: Block): (c: Block)
    ensures forall k :: 0 <= k < 32 ==> c[k] == ConvAt(mul, a, b, k)
  {
    seq(32, k => ConvAt(mul, a, b, k))
  }

  lemma ConvTermAt(mul: Product, a: Block, b: Block, k: int, i: int)
    ensures ConvTerm(mul, a, b, k)(i) == mul(At(a, i), At(b, k - i))
  {}

  lemma IndexModulo(k: int, i: int)
    ensures (k % 32 - i) % 32 == (k - i) % 32
  {}

  lemma ConvAtModulo(mul: Product, a: Block, b: Block, k: int)
    ensures At(Conv(mul, a, b), k) == ConvAt(mul, a, b, k)
  {
    forall i | 0 <= i < 32 ensures ConvTerm(mul, a, b, k % 32)(i) == ConvTerm(mul, a, b, k)(i) {
      ConvTermAt(mul, a, b, k, i);
      ConvTermAt(mul, a, b, k % 32, i);
      IndexModulo(k, i);
    }
    XorSumExt(|a|, ConvTerm(mul, a, b, k % 32), ConvTerm(mul, a, b, k));
  }

  lemma ConvTermPeriodic(mul: Product, a: Block, b: Block, k: int)
    ensures Periodic(|a|, ConvTerm(mul, a, b, k))
  {
    forall i ensures PeriodicAt(|a|, ConvTerm(mul, a, b, k), i) {
      ConvTermAt(mul, a, b, k, i);
      ConvTermAt(mul, a, b, k, i + 32);
      assert (i + 32) % 32 == i % 32 && (k - (i + 32)) % 32 == (k - i) % 32;
    }
  }

  lemma BackwardsTerm(mul: Product, a: Block, b: Block, k: int, i: int)
    requires Laws(mul)
    ensures Backwards(ConvTerm(mul, a, b, k), k)(i) == ConvTerm(mul, b, a, k)(i)
  {
    ConvTermAt(mul, a, b, k, k - i);
    ConvTermAt(mul, b, a, k, i);
    MulCommutes(mul, At(b, i), At(a, k - i));
    assert k - (k - i) == i;
  }

  lemma BackwardsTerms(mul: Product, a: Block, b: Block, k: int)
    requires Laws(mul)
    ensures Agree(|a|, Backwards(ConvTerm(mul, a, b, k), k), ConvTerm(mul, b, a, k))
  {
    forall i | 0 <= i < |a| ensures Backwards(ConvTerm(mul, a, b, k), k)(i) == ConvTerm(mul, b, a, k)(i) {
      BackwardsTerm(mul, a, b, k, i);
    }
  }

  lemma ConvAtCommutative(mul: Product, a: Block, b: Block, k: nat)
    requires Laws(mul)
    ensures ConvAt(mul, a, b, k) == ConvAt(mul, b, a, k)
  {
    ConvTermPeriodic(mul, a, b, k);
    XorSumBackwards(|a|, ConvTerm(mul, a, b, k), k);
    BackwardsTerms(mul, a, b, k);
    XorSumExt(|a|, Backwards(ConvTerm(mul, a, b, k), k), ConvTerm(mul, b, a, k));
  }

  lemma ScaledIsAdditive(mul: Product, c: Byte)
    requires Laws(mul)
    ensures IsAdditive(u => mul(c, u))
  {
    var phi: Byte -> Byte := u => mul(c, u);
    forall u, v ensures AdditiveAt(phi, u, v) {
      MulDistributes(mul, c, u, v);
    }
    MulZeroOne(mul, c);
  }

  ghost predicate Scaled(mul: Product, n: nat, c: Byte, f: Terms, g: Terms) {
    forall k :: 0 <= k < n ==> g(k) == mul(c, f(k))
  }

  lemma XorSumScaled(mul: Product, n: nat, c: Byte, f: Terms, g: Terms)
    requires Laws(mul) && Scaled(mul, n, c, f, g)
    ensures XorSum(n, g) == mul(c, XorSum(n, f))
  {
    ScaledIsAdditive(mul, c);
    XorSumMapped(n, u => mul(c, u), f, g);
  }

  /** a(i) * (b(j - i) * c(k - j)), the summand of a triple product. */
  function TripleTerm(mul: Product, a: Block, b: Block, c: Block, k: int): (int, int) -> Byte {
    (i, j) => mul(At(a, i), mul(At(b, j - i), At(c, k - j)))
  }

  lemma TripleInRow(mul: Product, a: Block, b: Block, c: Block, k: int, i: int, j: int)
    ensures TripleTerm(mul, a, b, c, k)(i, j) == mul(At(a, i), Later(ConvTerm(mul, b, c, k - i), -i)(j))
  {
    ConvTermAt(mul, b, c, k - i, j - i);
    assert k - i - (j - i) == k - j;
  }

  lemma TripleRowScaled(mul: Product, a: Block, b: Block, c: Block, k: int, i: int)
    ensures Scaled(mul, |a|, At(a, i), Later(ConvTerm(mul, b, c, k - i), -i), j => TripleTerm(mul, a, b, c, k)(i, j))
  {
    forall j | 0 <= j < |a|
      ensures TripleTerm(mul, a, b, c, k)(i, j) == mul(At(a, i), Later(ConvTerm(mul, b, c, k - i), -i)(j))
    {
      TripleInRow(mul, a, b, c, k, i, j);
    }
  }

  /** Summed over j, the triple terms give a(i) times coefficient k - i of b * c. */
  lemma TripleRow(mul: Product, a: Block, b: Block, c: Block, k: int, i: int)
    requires 0 <= i && Laws(mul)
    ensures XorSum(|a|, j => TripleTerm(mul, a, b, c, k)(i, j)) == mul(At(a, i), ConvAt(mul, b, c, k - i))
  {
    var f := ConvTerm(mul, b, c, k - i);
    ConvTermPeriodic(mul, b, c, k - i);
    XorSumEarlier(|b|, f, i);
    TripleRowScaled(mul, a, b, c, k, i);
    XorSumScaled(mul, |a|, At(a, i), Later(f, -i), j => TripleTerm(mul, a, b, c, k)(i, j));
  }

  /** Summed over i, they give coefficient j of a * b times c(k - j). */
  lemma TripleColumn(mul: Product, a: Block, b: Block, c: Block, k: int, j: nat)
    requires Laws(mul)
    ensures XorSum(|a|, i => TripleTerm(mul, a, b, c, k)(i, j)) == mul(ConvAt(mul, a, b, j), At(c, k - j))
  {
    var h, f, d := TripleTerm(mul, a, b, c, k), ConvTerm(mul, a, b, j), At(c, k - j);
    forall i | 0 <= i < 32 ensures h(i, j) == mul(d, f(i)) {
      ConvTermAt(mul, a, b, j, i);
      MulAssociates(mul, At(a, i), At(b, j - i), d);
      MulCommutes(mul, d, f(i));
    }
    XorSumScaled(mul, |a|, d, f, i => h(i, j));
    MulCommutes(mul, d, ConvAt(mul, a, b, j));
  }

  lemma ConvAtAssociative(mul: Product, a: Block, b: Block, c: Block, k: nat)
    requires Laws(mul)
    ensures ConvAt(mul, Conv(mul, a, b), c, k) == ConvAt(mul, a, Conv(mul, b, c), k)
  {
    var ab, bc, h := Conv(mul, a, b), Conv(mul, b, c), TripleTerm(mul, a, b, c, k);
    var rows, cols := ConvTerm(mul, a, bc, k), ConvTerm(mul, ab, c, k);
    forall i | 0 <= i < 32 ensures rows(i) == XorSum(|a|, j => h(i, j)) {
      ConvTermAt(mul, a, bc, k, i);
      ConvAtModulo(mul, b, c, k - i);
      TripleRow(mul, a, b, c, k, i);
    }
    forall j | 0 <= j < 32 ensures cols(j) == XorSum(|a|, i => h(i, j)) {
      ConvTermAt(mul, ab, c, k, j);
      ConvAtModulo(mul, a, b, j);
      TripleColumn(mul, a, b, c, k, j);
    }
    XorSumSwap(|a|, |a|, h, rows, cols);
  }

  lemma ConvAtDistributive(mul: Product, a: Block, b: Block, c: Block, k: nat)
    requires Laws(mul)
    ensures ConvAt(mul, a, XorBlocks(b, c), k) == Xor(ConvAt(mul, a, b, k), ConvAt(mul, a, c, k))
  {
    var bc := XorBlocks(b, c);
    forall i | 0 <= i < 32
      ensures ConvTerm(mul, a, bc, k)(i) == Xor(ConvTerm(mul, a, b, k)(i), ConvTerm(mul, a, c, k)(i))
    {
      ConvTermAt(mul, a, bc, k, i);
      ConvTermAt(mul, a, b, k, i);
      ConvTermAt(mul, a, c, k, i);
      MulDistributes(mul, At(a, i), At(b, k - i), At(c, k - i));
    }
    XorSumXor(|a|, ConvTerm(mul, a, b, k), ConvTerm(mul, a, c, k), ConvTerm(mul, a, bc, k));
  }

  /** x^p: a block with a single one, at index p. */
  predicate IsPowerOfX(e: Block, p: nat) { p < 32 && forall i :: 0 <= i < 32 ==> e[i] == if i == p then ONE else ZERO }

  lemma RotationTerm(mul: Product, e: Block, p: nat, b: Block, k: int, i: nat)
    requires Laws(mul) && IsPowerOfX(e, p) && i < 32
    ensures ConvTerm(mul, e, b, k)(i) == if i == p then At(b, k - p) else ZERO
  {
    ConvTermAt(mul, e, b, k, i);
    MulZeroOne(mul, At(b, k - i));
  }

  /** Multiplying by x^p rotates a block by p places. */
  lemma ConvAtRotates(mul: Product, e: Block, p: nat, b: Block, k: nat)
    requires Laws(mul) && IsPowerOfX(e, p)
    ensures ConvAt(mul, e, b, k) == At(b, k - p)
  {
    forall i | 0 <= i < 32 && i != p ensures ConvTerm(mul, e, b, k)(i) == ZERO {
      RotationTerm(mul, e, p, b, k, i);
    }
    XorSumSingle(|e|, p, ConvTerm(mul, e, b, k));
    RotationTerm(mul, e, p, b, k, p);
  }

  // ---------- The instance used by the commitment circuit ----------

  lemma GfLaws()
    ensures Laws(Mul)
  {
    forall a, b, c ensures LawsAt(Mul, a, b, c) {
      GfLawsAt(a, b, c);
    }
  }

  lemma GfLawsAt(a: Byte, b: Byte, c: Byte)
    ensures LawsAt(Mul, a, b, c)
  {
    MulCommutative(a, b);
    MulAssociative(a, b, c);
    MulAdditive(a, b, c);
    MulOne(a);
  }

  /** Multiplication in GF(2^8)[x] / (x^32 + 1). */
  function Times(a: Block, b: Block): Block { Conv(Mul, a, b) }

  lemma ConvCommutative(mul: Product, a: Block, b: Block)
    requires Laws(mul)
    ensures Conv(mul, a, b) == Conv(mul, b, a)
  {
    forall k | 0 <= k < 32 ensures Conv(mul, a, b)[k] == Conv(mul, b, a)[k] {
      ConvAtCommutative(mul, a, b, k);
    }
  }

  lemma ConvAssociative(mul: Product, a: Block, b: Block, c: Block)
    requires Laws(mul)
    ensures Conv(mul, Conv(mul, a, b), c) == Conv(mul, a, Conv(mul, b, c))
  {
    forall k | 0 <= k < 32 ensures Conv(mul, Conv(mul, a, b), c)[k] == Conv(mul, a, Conv(mul, b, c))[k] {
      ConvAtAssociative(mul, a, b, c, k);
    }
  }

  lemma ConvDistributive(mul: Product, a: Block, b: Block, c: Block)
    requires Laws(mul)
    ensures Conv(mul, a, XorBlocks(b, c)) == XorBlocks(Conv(mul, a, b), Conv(mul, a, c))
  {
    forall k | 0 <= k < 32 ensures Conv(mul, a, XorBlocks(b, c))[k] == XorBlocks(Conv(mul, a, b), Conv(mul, a, c))[k] {
      ConvAtDistributive(mul, a, b, c, k);
    }
  }

  /** The block b, p places later. */
  function Rotated(b: Block, p: nat): (r: Block)
    ensures forall k :: 0 <= k < 32 ==> r[k] == At(b, k - p)
  {
    var f: Terms := k => At(b, k - p);
    Tabulate(f)
  }

  lemma ConvRotates(mul: Product, e: Block, p: nat, b: Block)
    requires Laws(mul) && IsPowerOfX(e, p)
    ensures Conv(mul, e, b) == Rotated(b, p)
  {
    forall k | 0 <= k < 32 ensures Conv(mul, e, b)[k] == Rotated(b, p)[k] {
      ConvAtRotates(mul, e, p, b, k);
    }
  }

  /** Times and exclusive or make the blocks a commutative ring, in which multiplying by x^p rotates by p. */
  lemma RingLaws(a: Block, b: Block, c: Block)
    ensures Times(a, b) == Times(b, a)
    ensures Times(Times(a, b), c) == Times(a, Times(b, c))
    ensures Times(a, XorBlocks(b, c)) == XorBlocks(Times(a, b), Times(a, c))
  {
    GfLaws();
    ConvCommutative(Mul, a, b);
    ConvAssociative(Mul, a, b, c);
    ConvDistributive(Mul, a, b, c);
  }

  lemma TimesPowerOfX(e: Block, p: nat, b: Block)
    requires IsPowerOfX(e, p)
    ensures Times(e, b) == Rotated(b, p)
  {
    GfLaws();
    ConvRotates(Mul, e, p, b);
  }

  lemma RotatedByNone(b: Block)
    ensures Rotated(b, 0) == b
  {
    assert forall k :: 0 <= k < 32 ==> k % 32 == k;
  }

  // ---------- The loops ----------

  predicate GfProductAt(mul: Product, x: Byte, y: Byte) { mul(x, y) == Mul(x, y) }

  ghost predicate IsGfProduct(mul: Product) { forall x, y :: GfProductAt(mul, x, y) }

  method ProductTerm(a: Block, b: Block, k: nat, i: nat, ghost mul: Product) returns (product: Byte)
    requires i < 32 && IsGfProduct(mul)
    ensures product == ConvTerm(mul, a, b, k)(i)
  {
    ConvTermAt(mul, a, b, k, i);
    assert GfProductAt(mul, a[i], b[(k - i) % 32]);
    product := GfMul(a[i], b[(k - i) % 32]);
  }

  lemma XorSumMore(i: nat, terms: Terms, term: Byte)
    requires term == terms(i)
    ensures XorSum(i + 1, terms) == Xor(XorSum(i, terms), term)
  {
  }

  method ConvolveAt(a: Block, b: Block, k: nat, ghost mul: Product) returns (s: Byte)
    requires IsGfProduct(mul)
    ensures k < 32 ==> s == Conv(mul, a, b)[k]
  {
    ghost var terms := ConvTerm(mul, a, b, k);
    s := ZERO;
    var i := 0;
    while i < |a|
      invariant i <= |a| && s == XorSum(i, terms)
    {
      var product := ProductTerm(a, b, k, i, mul);
      XorSumMore(i, terms, product);
      s := Xor(s, product);
      i := i + 1;
    }
  }

  method ConvolveLoops(a: Block, b: Block, c: array<Byte>, ghost mul: Product)
    requires c.Length == 32 && IsGfProduct(mul)
    modifies c
    ensures c[..] == Conv(mul, a, b)
  {
    ghost var product := Conv(mul, a, b);
    for k := 0 to 32
      invariant c[..k] == product[..k]
    {
      c[k] := ConvolveAt(a, b, k, mul);
    }
    assert c[..] == c[..32];
    assert product == product[..32];
  }

  method CyclicConvolve(a: Block, b: Block, c: array<Byte>)
    requires c.Length == 32
    modifies c
    ensures c[..] == Times(a, b)
  {
    assert IsGfProduct(Mul) by {
      forall x, y ensures GfProductAt(Mul, x, y) {}
    }
    ConvolveLoops(a, b, c, Mul);
  }
}
