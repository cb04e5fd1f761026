/** Finite sums of integers and the handful of laws that the matrix proofs rest on. */
module Sums {

  type Vec = int -> int

  function Sum(n: nat, f: Vec): int {
    if n == 0 then 0 else Sum(n - 1, f) + f(n - 1)
  }

  function Plus(f: Vec, g: Vec): Vec { k => f(k) + g(k) }

  function Scaled(c: int, f: Vec): Vec { k => c * f(k) }

  function Times(f: Vec, g: Vec): Vec { k => f(k) * g(k) }

  /** The indices 0 <= j < k - 1 renumbered so as to miss p. */
  function Skip(p: int, j: int): int { if j < p then j else j + 1 }

  function Skipping(p: int, f: Vec): Vec { j => f(Skip(p, j)) }

  lemma {:induction false} SumExt(n: nat, f: Vec, g: Vec)
    requires forall k :: 0 <= k < n ==> f(k) == g(k)
    ensures Sum(n, f) == Sum(n, g)
  {
    if n > 0 {
      SumExt(n - 1, f, g);
    }
  }

  lemma {:induction false} SumPlus(n: nat, f: Vec, g: Vec)
    ensures Sum(n, Plus(f, g)) == Sum(n, f) + Sum(n, g)
  {
    if n > 0 {
      SumPlus(n - 1, f, g);
    }
  }

  lemma {:induction false} SumScaled(n: nat, c: int, f: Vec)
    ensures Sum(n, Scaled(c, f)) == c * Sum(n, f)
  {
    if n > 0 {
      SumScaled(n - 1, c, f);
      assert c * Sum(n, f) == c * Sum(n - 1, f) + c * f(n - 1);
    }
  }

  lemma {:induction false} SumZero(n: nat, f: Vec)
    requires forall k :: 0 <= k < n ==> f(k) == 0
    ensures Sum(n, f) == 0
  {
    if n > 0 {
      SumZero(n - 1, f);
    }
  }

  lemma {:induction false} SumNonNegative(n: nat, f: Vec)
    requires forall k :: 0 <= k < n ==> 0 <= f(k)
    ensures 0 <= Sum(n, f)
    ensures Sum(n, f) == 0 ==> forall k :: 0 <= k < n ==> f(k) == 0
  {
    if n > 0 {
      SumNonNegative(n - 1, f);
    }
  }

  /** A sum all of whose terms but one vanish. */
  lemma {:induction false} SumSingle(n: nat, p: nat, f: Vec)
    requires p < n
    requires forall k :: 0 <= k < n && k != p ==> f(k) == 0
    ensures Sum(n, f) == f(p)
  {
    if p == n - 1 {
      SumZero(n - 1, f);
    } else {
      SumSingle(n - 1, p, f);
    }
  }

  /** Taking one term out of a sum. */
  lemma {:induction false} SumSkipping(n: nat, p: nat, f: Vec)
    requires p < n
    ensures Sum(n, f) == Sum(n - 1, Skipping(p, f)) + f(p)
  {
    if p == n - 1 {
      SumExt(n - 1, f, Skipping(p, f));
    } else {
      SumSkipping(n - 1, p, f);
      assert Skip(p, n - 2) == n - 1;
      assert Sum(n - 1, Skipping(p, f)) == Sum(n - 2, Skipping(p, f)) + f(n - 1);
    }
  }

  function InnerSums(n: nat, h: (int, int) -> int): Vec { i => Sum(n, j => h(i, j)) }

  function Flipped(h: (int, int) -> int): (int, int) -> int { (j, i) => h(i, j) }

  /** Exchanging the order of a double sum. */
  lemma {:induction false} SumSwap(m: nat, n: nat, h: (int, int) -> int)
    ensures Sum(m, InnerSums(n, h)) == Sum(n, InnerSums(m, Flipped(h)))
  {
    if m == 0 {
      SumZero(n, InnerSums(0, Flipped(h)));
    } else {
      SumSwap(m - 1, n, h);
      var last: Vec := j => h(m - 1, j);
      SumPlus(n, InnerSums(m - 1, Flipped(h)), last);
      SumExt(n, InnerSums(m, Flipped(h)), Plus(InnerSums(m - 1, Flipped(h)), last));
    }
  }

  /** Terms bounded by c in absolute value give a sum bounded by n * c. */
  lemma {:induction false} SumBounded(n: nat, f: Vec, c: int)
    requires 0 <= c
    requires forall k :: 0 <= k < n ==> -c <= f(k) <= c
    ensures -(n * c) <= Sum(n, f) <= n * c
  {
    if n > 0 {
      SumBounded(n - 1, f, c);
      assert n * c == (n - 1) * c + c;
    }
  }
}
