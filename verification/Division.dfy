/** 64-bit division without the compiler's library: a shift for powers of two, the 32-bit divide
    for small operands, shift and subtract for the rest. */
module Division {
  import opened Arith

  const WORD32 := 0x1_0000_0000
  const WORD64 := 0x1_0000_0000_0000_0000

  /** Bitwise and. */
  function And(a: nat, b: nat): nat
    decreases a
  {
    if a == 0 then 0 else 2 * And(a / 2, b / 2) + (if a % 2 == 1 && b % 2 == 1 then 1 else 0)
  }

  lemma {:induction false} AndSelf(a: nat)
    ensures And(a, a) == a
  {
    if a > 0 {
      AndSelf(a / 2);
    }
  }

  ghost predicate IsPow2(d: nat) {
    exists k: nat :: Pow2(k) == d
  }

  /** The test `d & (d - 1)` is zero for the powers of two and for no other divisor. */
  lemma {:induction false} PowerTest(d: nat)
    requires d > 0
    ensures And(d, d - 1) == 0 <==> IsPow2(d)
  {
    if d == 1 {
      assert Pow2(0) == 1;
    } else if d % 2 == 0 {
      PowerTest(d / 2);
      assert (d - 1) / 2 == d / 2 - 1;
      if IsPow2(d / 2) {
        var k: nat :| Pow2(k) == d / 2;
        assert Pow2(k + 1) == d;
      }
      if IsPow2(d) {
        var k: nat :| Pow2(k) == d;
        assert Pow2(k - 1) == d / 2;
      }
    } else {
      AndSelf(d / 2);
      assert (d - 1) / 2 == d / 2;
      OddPow2(d);
    }
  }

  lemma OddPow2(d: nat)
    requires d > 1 && d % 2 == 1
    ensures !IsPow2(d)
  {
    forall k: nat
      ensures Pow2(k) != d
    {
      assert k > 0 ==> Pow2(k) == 2 * Pow2(k - 1);
    }
  }

  /** Masking with a power of two less one is the remainder. */
  lemma {:induction false} MaskIsRemainder(n: nat, k: nat)
    ensures And(n, Pow2(k) - 1) == n % Pow2(k)
    decreases k
  {
    if k == 0 {
      AndZero(n);
    } else {
      hide Pow2;
      Pow2Step(k - 1);
      MaskIsRemainder(n / 2, k - 1);
      AndOdd(n, Pow2(k - 1));
      RemainderOfTwice(n, Pow2(k - 1));
    }
  }

  lemma AndOdd(n: nat, h: nat)
    requires h > 0
    ensures And(n, 2 * h - 1) == 2 * And(n / 2, h - 1) + n % 2
  {
    assert (2 * h - 1) / 2 == h - 1 && (2 * h - 1) % 2 == 1;
  }

  lemma {:induction false} AndZero(n: nat)
    ensures And(n, 0) == 0
  {
    if n > 0 {
      AndZero(n / 2);
    }
  }

  lemma RemainderOfTwice(n: nat, h: nat)
    requires h > 0
    ensures n % (2 * h) == 2 * (n / 2 % h) + n % 2
  {
    var m := n / 2;
    var q, r := m / h, m % h;
    assert n == 2 * (q * h + r) + n % 2;
    assert n == q * (2 * h) + (2 * r + n % 2);
    QuotientUnique(n, 2 * h, q, 2 * r + n % 2);
  }

  lemma QuotientUnique(n: nat, d: nat, q: nat, r: nat)
    requires n == q * d + r && r < d
    ensures q == n / d && r == n % d
  {
    DivModUnique(n, d, q);
  }

  lemma {:induction false} Pow2Monotone(a: nat, b: nat)
    requires a <= b
    ensures Pow2(a) <= Pow2(b)
  {
    if a < b {
      Pow2Monotone(a, b - 1);
    }
  }

  lemma Pow2Sixteen()
    ensures Pow2(16) == 0x1_0000 && Pow2(0) == 1
  {
    assert Pow2(4) == 16;
    Pow2Sum(4, 4);
    Pow2Sum(8, 8);
  }

  lemma Pow2Sixty()
    ensures Pow2(64) == WORD64 && Pow2(0) == 1
  {
    hide Pow2;
    Pow2Sixteen();
    Pow2Sum(16, 16);
    Pow2Sum(32, 32);
  }

  /** One more bit of the dividend: the partial remainder stays below the divisor, and the
      partial quotient gains the new bit. */
  lemma ShiftStep(n: nat, d: nat, p: nat, quotient: nat, r: nat)
    requires d > 0 && p > 0 && n / (2 * p) == Times(quotient, d) + r && r < d
    ensures var r2 := 2 * r + n / p % 2;
      r2 < 2 * d && n / p == (if r2 >= d then Times(2 * quotient + 1, d) + (r2 - d) else Times(2 * quotient, d) + r2)
    ensures Times(2 * quotient, p) == Times(quotient, 2 * p)
    ensures Times(2 * quotient + 1, p) == Times(2 * quotient, p) + p
  {
    Halved(n, p);
    Doubled(quotient, d);
    Doubled(quotient, p);
  }

  lemma Doubled(k: nat, d: nat)
    ensures Times(2 * k, d) == 2 * Times(k, d) == Times(k, 2 * d)
    ensures Times(2 * k + 1, d) == 2 * Times(k, d) + d
  {
  }

  lemma Halved(n: nat, p: nat)
    requires p > 0
    ensures n / (2 * p) == n / p / 2
  {
    var q, r := n / p, n % p;
    assert n == q * p + r;
    assert q * p == q / 2 * (2 * p) + q % 2 * p;
    QuotientUnique(n, 2 * p, q / 2, q % 2 * p + r);
  }

  /** The top bits of a 64-bit number above position i are fewer than 64 - i. */
  lemma TopBits(n: nat, i: nat)
    requires n < WORD64 && i <= 64
    ensures n / Pow2(i) < Pow2(64 - i)
  {
    hide Pow2;
    Pow2Sixty();
    Pow2Sum(i, 64 - i);
    var q := n / Pow2(i);
    DivModUnique(n, Pow2(i), q);
    if q >= Pow2(64 - i) {
      MulMonotone(Pow2(64 - i), q, Pow2(i));
    }
  }

  /** exfat_small_udivmod64 */
  method UDivMod64(n: nat, d: nat) returns (q: nat, rem: nat)
    requires n < WORD64 && d < WORD64
    ensures d == 0 ==> q == 0 && rem == 0
    ensures d > 0 ==> n == q * d + rem && rem < d
    ensures q < WORD64
  {
    hide And;
    if d == 0 {
      return 0, 0;
    }
    if And(d, d - 1) == 0 {
      q, rem := DivByPower(n, d);
      QuotientFits(n, d, q, rem);
      return;
    }
    if n / WORD32 == 0 && d / WORD32 == 0 {
      q, rem := Div32(n, d);
    } else {
      q, rem := ShiftSubtract(n, d);
    }
    QuotientFits(n, d, q, rem);
  }

  /** The processor's own divide. */
  method Div32(n: nat, d: nat) returns (q: nat, rem: nat)
    requires n < WORD32 && 0 < d < WORD32
    ensures n == q * d + rem && rem < d
  {
    DivModUnique(n, d, n / d);
    return n / d, n % d;
  }

  lemma QuotientFits(n: nat, d: nat, q: nat, r: nat)
    requires n < WORD64 && d > 0 && n == q * d + r
    ensures q < WORD64
  {
    MulMonotone(1, d, q);
  }

  /** A shift and a mask. */
  method DivByPower(n: nat, d: nat) returns (q: nat, rem: nat)
    requires d > 0 && And(d, d - 1) == 0
    ensures n == q * d + rem && rem < d
  {
    hide And, Pow2;
    PowerTest(d);
    ghost var k: nat :| Pow2(k) == d;
    DivModUnique(d, d, 1);
    var shift := 0;
    while d / Pow2(shift) != 1
      invariant shift <= k
      decreases k - shift
    {
      shift := shift + 1;
    }
    ShiftFound(d, k, shift);
    MaskIsRemainder(n, k);
    DivModUnique(n, d, n / d);
    return n / Pow2(shift), And(n, d - 1);
  }

  lemma AboveOne(n: nat)
    ensures Pow2(n) == 1 <==> n == 0
  {
  }

  lemma ShiftFound(d: nat, k: nat, shift: nat)
    requires d == Pow2(k) && shift <= k && d / Pow2(shift) == 1
    ensures shift == k
  {
    Pow2Sum(shift, k - shift);
    QuotientUnique(d, Pow2(shift), Pow2(k - shift), 0);
    AboveOne(k - shift);
  }

  /** The restoring loop. The shifted remainder never needs a 65th bit, however large the
      divisor: it is a remainder of the dividend's top bits, and no larger than they are. */
  method ShiftSubtract(n: nat, d: nat) returns (q: nat, r: nat)
    requires n < WORD64 && 0 < d < WORD64
    ensures n == q * d + r && r < d
  {
    hide Pow2, Times;
    q, r := 0, 0;
    ghost var quotient: nat := 0;
    var i := 63;
    StartOfLoop(n, d);
    while i >= 0
      invariant -1 <= i <= 63
      invariant n / Pow2(i + 1) == Times(quotient, d) + r && r < d
      invariant q == Times(quotient, Pow2(i + 1))
      decreases i
    {
      Pow2Step(i);
      ShiftStep(n, d, Pow2(i), quotient, r);
      NoOverflow(n, d, i, quotient, r);
      assert r + r + 1 < WORD64;
      r := r + r + n / Pow2(i) % 2;
      quotient := 2 * quotient;
      if r >= d {
        r := r - d;
        q := q + Pow2(i);
        quotient := quotient + 1;
      }
      i := i - 1;
    }
    EndOfLoop(n, d, quotient);
  }

  lemma Pow2Step(i: nat)
    ensures Pow2(i + 1) == 2 * Pow2(i)
  {
  }

  lemma StartOfLoop(n: nat, d: nat)
    requires n < WORD64
    ensures n / Pow2(64) == Times(0, d) + 0 && Times(0, Pow2(64)) == 0
  {
    Pow2Sixty();
  }

  lemma EndOfLoop(n: nat, d: nat, quotient: nat)
    ensures n / Pow2(0) == n && Times(quotient, Pow2(0)) == quotient && Times(quotient, d) == quotient * d
  {
  }

  lemma NoOverflow(n: nat, d: nat, i: nat, quotient: nat, r: nat)
    requires n < WORD64 && i < 64 && n / Pow2(i + 1) == Times(quotient, d) + r
    ensures 2 * r + 1 < WORD64
  {
    TopBits(n, i + 1);
    Pow2Monotone(63 - i, 63);
    Pow2Sixty();
    Pow2Step(63);
  }

  // ---- The signed form.

  const MIN64 := -0x8000_0000_0000_0000

  /** A 64-bit pattern read as a signed number. */
  function Signed(u: nat): (s: int)
    requires u < WORD64
    ensures MIN64 <= s < -MIN64
  {
    if u < WORD64 / 2 then u else u - WORD64
  }

  /** Negation of a signed number in 64 bits: the least one is its own negative. */
  function Negated(s: int): int {
    if s == MIN64 then s else -s
  }

  function Pattern(s: int): (u: nat)
    requires MIN64 <= s < -MIN64
    ensures u < WORD64
  {
    if s < 0 then s + WORD64 else s
  }

  /** __divdi3: rounds toward zero; the least number divided by -1 wraps to itself. */
  method SDiv64(n: int, d: int) returns (q: int)
    requires MIN64 <= n < -MIN64 && MIN64 <= d < -MIN64
    ensures d == 0 ==> q == 0
    ensures d != 0 && !(n == MIN64 && d == -1) ==> exists r: int :: Truncated(n, d, q, r)
    ensures n == MIN64 && d == -1 ==> q == MIN64
  {
    hide Truncated, Pattern;
    var a, b, neg := n, d, false;
    if a < 0 {
      a, neg := Negated(a), !neg;
    }
    if b < 0 {
      b, neg := Negated(b), !neg;
    }
    var u, rem := UDivMod64(Pattern(a), Pattern(b));
    q := if neg then Negated(Signed(u)) else Signed(u);
    PatternIsMagnitude(n);
    PatternIsMagnitude(d);
    if d != 0 {
      MagnitudeFits(Abs(n), Abs(d), u, rem);
      if !(n == MIN64 && d == -1) {
        SignedQuotient(n, d, u, rem);
        SignedResult(neg, u);
      }
    }
  }

  /** The unsigned operands are the absolute values, the least number's too. */
  lemma PatternIsMagnitude(n: int)
    requires MIN64 <= n < -MIN64
    ensures Pattern(if n < 0 then Negated(n) else n) == Abs(n)
  {
  }

  lemma SignedResult(neg: bool, u: nat)
    requires u <= -MIN64 && (u == -MIN64 ==> neg)
    ensures (if neg then Negated(Signed(u)) else Signed(u)) == if neg then -(u as int) else u
  {
  }

  lemma MagnitudeFits(n: nat, d: nat, u: nat, rem: nat)
    requires d > 0 && n == u * d + rem && rem < d
    ensures u <= n && (d == 1 ==> u == n) && (u == n && n > 0 ==> d == 1)
  {
    MulMonotone(1, d, u);
    if u == n && d > 1 {
      MulMonotone(2, d, u);
    }
  }

  lemma SignedQuotient(n: int, d: int, u: int, rem: int)
    requires u >= 0 && rem >= 0 && d != 0 && Abs(n) == u * Abs(d) + rem && rem < Abs(d)
    ensures Truncated(n, d, if (n < 0) != (d < 0) then -u else u, if n < 0 then -rem else rem)
  {
    assert u * -d == -(u * d) && -u * d == -(u * d);
  }

  /** q is n / d rounded toward zero and r what is left, with the sign of n. */
  predicate Truncated(n: int, d: int, q: int, r: int) {
    n == q * d + r && -Abs(d) < r < Abs(d) && (r > 0 ==> n > 0) && (r < 0 ==> n < 0)
  }

  function Abs(x: int): (a: int)
    ensures a >= 0
  {
    if x < 0 then -x else x
  }
}
