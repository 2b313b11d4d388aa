/** Integer arithmetic shared by the modules: the macros MIN, MAX, DIV_ROUND_UP and
    ROUND_UP, and the few non-linear facts the proofs need. */
module Arith {

  function Min(a: nat, b: nat): nat { if a < b then a else b }

  function Max(a: nat, b: nat): nat { if a > b then a else b }

  function DivRoundUp(x: nat, d: nat): nat
    requires d > 0
  {
    (x + d - 1) / d
  }

  function RoundUp(x: nat, d: nat): nat
    requires d > 0
  {
    DivRoundUp(x, d) * d
  }

  /** Division that rounds down; a name for the quotient that is natural without proof. */
  function Quotient(x: nat, d: nat): nat
    requires d > 0
  {
    x / d
  }

  lemma MulMonotone(a: nat, b: nat, c: nat)
    requires a <= b
    ensures a * c <= b * c
  {
    assert b * c == a * c + (b - a) * c;
  }

  lemma Positive(a: nat, b: nat)
    requires a > 0 && b > 0
    ensures a * b > 0
  {
  }

  /** The quotient is the k for which i lies in [k * d, k * d + d). */
  lemma DivModUnique(i: nat, d: nat, k: nat)
    requires d > 0
    ensures i == i / d * d + i % d
    ensures i / d == k <==> k * d <= i < k * d + d
    ensures i / d == k ==> i % d == i - k * d
  {
    var q := i / d;
    assert i == q * d + i % d;
    assert (q + 1) * d == q * d + d && (k + 1) * d == k * d + d;
    if q < k {
      MulMonotone(q + 1, k, d);
    } else if k < q {
      MulMonotone(k + 1, q, d);
    }
  }

  /** Rounding up: the k for which (k - 1) * d < x <= k * d. */
  lemma DivRoundUpBounds(x: nat, d: nat)
    requires d > 0
    ensures x <= DivRoundUp(x, d) * d < x + d
  {
    var k := DivRoundUp(x, d);
    assert x + d - 1 == k * d + (x + d - 1) % d;
  }

  lemma DivRoundUpUnique(x: nat, d: nat, k: nat)
    requires d > 0 && x <= k * d < x + d
    ensures k == DivRoundUp(x, d)
  {
    var q := DivRoundUp(x, d);
    DivRoundUpBounds(x, d);
    assert (q + 1) * d == q * d + d && (k + 1) * d == k * d + d;
    if q < k {
      MulMonotone(q + 1, k, d);
    } else if k < q {
      MulMonotone(k + 1, q, d);
    }
  }

  /** Every position below x falls in one of its rounded-up units. */
  lemma CoveredBelow(x: nat, d: nat, i: nat)
    requires d > 0 && i < x
    ensures i / d < DivRoundUp(x, d)
  {
    DivRoundUpBounds(x, d);
    var k := DivRoundUp(x, d);
    DivModUnique(i, d, i / d);
    if i / d >= k {
      MulMonotone(k, i / d, d);
    }
  }

  /** A number of units takes x exactly when it is at least x rounded up. */
  lemma UnitsFor(x: nat, d: nat, n: nat)
    requires d > 0
    ensures DivRoundUp(x, d) <= n <==> x <= Times(n, d)
  {
    DivRoundUpBounds(x, d);
    var k := DivRoundUp(x, d);
    assert (n + 1) * d == n * d + d;
    if k <= n {
      MulMonotone(k, n, d);
    } else {
      MulMonotone(n + 1, k, d);
    }
  }

  lemma DivAtLeast(x: nat, d: nat, k: nat)
    requires d > 0 && k * d <= x
    ensures x / d >= k
  {
    var q := x / d;
    DivModUnique(x, d, q);
    assert (q + 1) * d == q * d + d;
    if q < k {
      MulMonotone(q + 1, k, d);
    }
  }

  /** The first multiple of d after x: `(x | (d - 1)) + 1` when d is a power of two. */
  function NextBoundary(x: nat, d: nat): nat
    requires d > 0
  {
    Times(x / d + 1, d)
  }

  lemma NextBoundaryBounds(x: nat, d: nat)
    requires d > 0
    ensures x < NextBoundary(x, d) == x - x % d + d
    ensures NextBoundary(x, d) == Times(x / d + 1, d)
  {
    DivModUnique(x, d, x / d);
    TimesStep(x / d, d);
  }

  /** k units of d; a name for the product that proofs can keep folded. */
  function Times(k: nat, d: nat): nat { k * d }

  lemma TimesStep(k: nat, d: nat)
    ensures Times(k + 1, d) == Times(k, d) + d
  {
  }

  lemma TimesDiv(k: nat, d: nat)
    requires d > 0
    ensures Times(k, d) / d == k && Times(k, d) % d == 0
  {
    DivModUnique(k * d, d, k);
  }

  lemma DivRoundUpMonotone(x: nat, y: nat, d: nat)
    requires d > 0 && x <= y
    ensures DivRoundUp(x, d) <= DivRoundUp(y, d)
  {
    DivRoundUpBounds(x, d);
    DivRoundUpBounds(y, d);
    var p, q := DivRoundUp(x, d), DivRoundUp(y, d);
    assert (q + 1) * d == q * d + d;
    if p > q {
      MulMonotone(q + 1, p, d);
    }
  }

  lemma DivRoundUpZero(d: nat)
    requires d > 0
    ensures DivRoundUp(0, d) == 0
  {
    DivRoundUpUnique(0, d, 0);
  }

  function Pow2(n: nat): (r: nat)
    ensures r > 0
  {
    if n == 0 then 1 else 2 * Pow2(n - 1)
  }

  lemma Pow2Sixteen()
    ensures Pow2(15) == 0x8000 && Pow2(16) == 0x1_0000
  {
    assert Pow2(5) == 32 && Pow2(10) == 32 * Pow2(5) && Pow2(15) == 32 * Pow2(10);
  }

  lemma {:induction false} Pow2Sum(a: nat, b: nat)
    ensures Pow2(a + b) == Pow2(a) * Pow2(b)
  {
    if a > 0 {
      Pow2Sum(a - 1, b);
    }
  }
}
