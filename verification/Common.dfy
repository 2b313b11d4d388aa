/** Small types and functions that several modules share. */
module Common {

  type Byte = b: nat | b < 0x100

  datatype Option<T> = None | Some(value: T)

  /** A sequence without its k-th element. */
  function Without<T>(s: seq<T>, k: nat): (r: seq<T>)
    requires k < |s|
    ensures |r| == |s| - 1
  {
    s[..k] + s[k + 1..]
  }

  ghost predicate NoDup<T>(s: seq<T>) {
    forall i, j :: 0 <= i < j < |s| ==> s[i] != s[j]
  }

  function Zeros(n: nat): (z: seq<Byte>)
    ensures |z| == n && forall i :: 0 <= i < n ==> z[i] == 0
  {
    seq(n, i => 0)
  }

  /** A zero-terminated string: the units before the first zero. */
  function CString(units: seq<nat>): (r: seq<nat>)
    ensures r <= units
  {
    if units == [] || units[0] == 0 then [] else [units[0]] + CString(units[1..])
  }
}

/** The directory entries of the exFAT format. */
module Format {
  import opened Arith
  import opened Common

  /** The in-use bit of an entry's type. */
  const VALID: Byte := 0x80
  const ENTRY_BITMAP: Byte := 0x81
  const ENTRY_UPCASE: Byte := 0x82
  const ENTRY_LABEL: Byte := 0x83
  const ENTRY_FILE: Byte := 0x85
  const ENTRY_FILE_INFO: Byte := 0xc0
  const ENTRY_FILE_NAME: Byte := 0xc1
  const ENTRY_FILE_TAIL: Byte := 0xe0
  const ENTRY_SIZE := 32
  const ENAME_MAX := 15
  const NAME_MAX := 255

  /** The name entries that a name takes. */
  function NameEntries(length: nat): nat { DivRoundUp(length, ENAME_MAX) }
}

/** The rotating checksum of entry sets and boot regions, in words of twice `half` values. */
module Checksums {
  import opened Arith
  import opened Common

  /** Rotate right by one bit, then add. */
  function AddByte(half: nat, sum: nat, b: Byte): (r: nat)
    requires half > 0 && sum < 2 * half
    ensures r < 2 * half
  {
    (sum % 2 * half + sum / 2 + b) % (2 * half)
  }

  function AddBytes(half: nat, sum: nat, bytes: seq<Byte>): (r: nat)
    requires half > 0 && sum < 2 * half
    ensures r < 2 * half
    decreases |bytes|
  {
    if bytes == [] then sum else AddBytes(half, AddByte(half, sum, bytes[0]), bytes[1..])
  }

  lemma {:induction false} AddBytesConcat(half: nat, sum: nat, a: seq<Byte>, b: seq<Byte>)
    requires half > 0 && sum < 2 * half
    ensures AddBytes(half, sum, a + b) == AddBytes(half, AddBytes(half, sum, a), b)
    decreases |a|
  {
    hide AddByte;
    if a == [] {
      assert a + b == b;
    } else {
      assert (a + b)[0] == a[0] && (a + b)[1..] == a[1..] + b;
      AddBytesConcat(half, AddByte(half, sum, a[0]), a[1..], b);
    }
  }

  lemma AddOne(half: nat, sum: nat, a: seq<Byte>, b: Byte)
    requires half > 0 && sum < 2 * half
    ensures AddBytes(half, sum, a + [b]) == AddByte(half, AddBytes(half, sum, a), b)
  {
    hide AddByte;
    AddBytesConcat(half, sum, a, [b]);
    assert [b][1..] == [];
  }

  // ---- What the sum is, bit by bit, and what it finds.

  /** Bit k of a number. */
  predicate BitOf(x: nat, k: nat) {
    Quotient(x, Pow2(k)) % 2 == 1
  }

  /** Half of a number, and its lowest bit at the top. */
  function Turned(half: nat, sum: nat): nat {
    sum / 2 + if sum % 2 == 1 then half else 0
  }

  /** Without the remainder, for words of nine bits and more. */
  lemma StepCases(half: nat, sum: nat, b: Byte)
    requires half > 0 && sum < 2 * half && (half >= 256 || b == 0)
    ensures Turned(half, sum) < 2 * half
    ensures var t := Turned(half, sum) + b; AddByte(half, sum, b) == if t < 2 * half then t else t - 2 * half
  {
    var t := Turned(half, sum) + b;
    assert t == sum % 2 * half + sum / 2 + b;
    DivModUnique(t, 2 * half, if t < 2 * half then 0 else 1);
  }

  /** Adding a zero byte rotates a word of n bits right by one: every bit moves down, the lowest
      to the top. */
  lemma ZeroRotates(n: nat, sum: nat, k: nat)
    requires n > 0 && sum < Pow2(n) && k < n
    ensures Pow2(n) == 2 * Pow2(n - 1)
    ensures BitOf(AddByte(Pow2(n - 1), sum, 0), k) <==> BitOf(sum, if k < n - 1 then k + 1 else 0)
  {
    hide AddByte, Quotient;
    var half, top := Pow2(n - 1), if sum % 2 == 1 then 1 else 0;
    StepCases(half, sum, 0);
    if k < n - 1 {
      Pow2Sum(k, n - 1 - k);
      BitBelow(sum / 2, top, Pow2(k), Pow2(n - 2 - k), half);
      HalfThenDivide(sum, Pow2(k));
    } else {
      QuotientShifted(sum / 2, top, half);
      BelowOne(sum / 2, half);
      BelowOne(sum, 1);
    }
  }

  lemma BelowOne(x: nat, d: nat)
    requires d > 0
    ensures x < d ==> Quotient(x, d) == 0
    ensures d == 1 ==> Quotient(x, d) == x
  {
    DivModUnique(x, d, if x < d then 0 else x);
  }

  /** A multiple of 2 * d more leaves the lowest bit of the quotient by d. */
  lemma BitBelow(x: nat, top: nat, d: nat, m: nat, half: nat)
    requires d > 0 && half == d * (2 * m) && top <= 1
    ensures Quotient(x + (if top == 1 then half else 0), d) % 2 == Quotient(x, d) % 2
  {
    QuotientShifted(x, 2 * m, d);
    assert 2 * m * d == half;
  }

  /** A byte is added to the rotated word. */
  lemma AddsRotated(half: nat, sum: nat, b: Byte)
    requires half > 0 && sum < 2 * half
    ensures AddByte(half, sum, b) == (AddByte(half, sum, 0) + b) % (2 * half)
  {
    hide AddByte, Turned;
    TurnedPlus(half, sum, b);
    TurnedPlus(half, sum, 0);
    DivModUnique(Turned(half, sum), 2 * half, 0);
  }

  lemma TurnedPlus(half: nat, sum: nat, b: Byte)
    requires half > 0 && sum < 2 * half
    ensures Turned(half, sum) < 2 * half
    ensures AddByte(half, sum, b) == (Turned(half, sum) + b) % (2 * half)
  {
    if sum % 2 == 1 {
      assert sum % 2 * half == half;
    } else {
      assert sum % 2 * half == 0;
    }
  }

  lemma QuotientShifted(x: nat, m: nat, d: nat)
    requires d > 0
    ensures Quotient(m * d + x, d) == m + Quotient(x, d)
  {
    DivModUnique(x, d, x / d);
    assert (m + x / d) * d == m * d + x / d * d;
    DivModUnique(m * d + x, d, m + x / d);
  }

  /** The next digit moves from the quotient to the remainder. */
  lemma DigitMoves(x: nat, d: nat)
    requires d > 0
    ensures Quotient(x, 2 * d) == Quotient(x, d) / 2
    ensures x % (2 * d) == x % d + if Quotient(x, d) % 2 == 1 then d else 0
  {
    hide Quotient;
    var q := Quotient(x, d);
    QuotientBounds(x, d);
    var h, r := q / 2, q % 2;
    Doubled(h, d);
    assert q * d == (h * 2 + r) * d == h * (2 * d) + r * d;
    assert r * d == if r == 1 then d else 0;
    QuotientIs(x, 2 * d, h);
    RestIs(x, d, q);
    RestIs(x, 2 * d, h);
  }

  lemma RestIs(x: nat, d: nat, q: nat)
    requires d > 0 && q * d <= x < q * d + d
    ensures x % d == x - q * d
  {
    DivModUnique(x, d, q);
  }

  lemma HalfThenDivide(x: nat, d: nat)
    requires d > 0
    ensures Quotient(x / 2, d) == Quotient(x, 2 * d)
  {
    hide Quotient;
    var q := Quotient(x, 2 * d);
    QuotientBounds(x, 2 * d);
    Doubled(q, d);
    HalfIn(x, q * d, d);
    QuotientIs(x / 2, d, q);
  }

  lemma QuotientBounds(x: nat, d: nat)
    requires d > 0
    ensures Quotient(x, d) * d <= x < Quotient(x, d) * d + d
  {
    DivModUnique(x, d, x / d);
  }

  lemma QuotientIs(x: nat, d: nat, q: nat)
    requires d > 0 && q * d <= x < q * d + d
    ensures Quotient(x, d) == q
  {
    DivModUnique(x, d, q);
  }

  lemma HalfIn(x: nat, p: nat, d: nat)
    requires 2 * p <= x < 2 * p + 2 * d
    ensures p <= x / 2 < p + d
  {
  }

  /** The word after k rotations. */
  function Rotated(n: nat, sum: nat, k: nat): nat
    requires k <= n
  {
    Quotient(sum, Pow2(k)) + sum % Pow2(k) * Pow2(n - k)
  }

  lemma {:induction false} RotatedBy(n: nat, sum: nat, k: nat)
    requires n > 0 && sum < Pow2(n) && k <= n
    ensures Pow2(n) == 2 * Pow2(n - 1) && AddBytes(Pow2(n - 1), sum, Zeros(k)) == Rotated(n, sum, k)
  {
    if k > 0 {
      RotatedBy(n, sum, k - 1);
      assert Zeros(k) == Zeros(k - 1) + [0];
      AddOne(Pow2(n - 1), sum, Zeros(k - 1), 0);
      RotateOnce(n, sum, k - 1);
    }
  }

  lemma RotateOnce(n: nat, sum: nat, k: nat)
    requires k < n && sum < Pow2(n) && Rotated(n, sum, k) < Pow2(n) == 2 * Pow2(n - 1)
    ensures AddByte(Pow2(n - 1), Rotated(n, sum, k), 0) == Rotated(n, sum, k + 1)
  {
    hide AddByte, Quotient;
    var d, m := Pow2(k), Pow2(n - 1 - k);
    Pow2Sum(k, n - 1 - k);
    Doubled(sum % d, m);
    DigitMoves(sum, d);
    RotateParts(Quotient(sum, d), sum % d, d, m, d * m);
  }

  lemma RotateParts(q: nat, rest: nat, d: nat, m: nat, half: nat)
    requires half == d * m > 0 && q + 2 * (rest * m) < 2 * half
    ensures AddByte(half, q + 2 * (rest * m), 0) == q / 2 + (rest + if q % 2 == 1 then d else 0) * m
  {
    hide AddByte;
    var sum := q + 2 * (rest * m);
    StepCases(half, sum, 0);
    Shared(rest, if q % 2 == 1 then d else 0, m);
    Parity(q, rest * m);
  }

  lemma Parity(q: nat, a: nat)
    ensures (q + 2 * a) % 2 == q % 2 && (q + 2 * a) / 2 == q / 2 + a
  {
  }

  lemma Doubled(x: nat, m: nat)
    ensures x * (2 * m) == 2 * (x * m)
  {
  }

  lemma Shared(x: nat, y: nat, m: nat)
    ensures (x + y) * m == x * m + y * m
  {
  }

  /** As many zero bytes as the word has bits leave the sum as it was. */
  lemma RotatesBack(n: nat, sum: nat)
    requires n > 0 && sum < Pow2(n)
    ensures Pow2(n) == 2 * Pow2(n - 1) && AddBytes(Pow2(n - 1), sum, Zeros(n)) == sum
  {
    RotatedBy(n, sum, n);
    DivModUnique(sum, Pow2(n), 0);
  }

  /** Different sums stay different. */
  lemma {:induction false} StaysDifferent(half: nat, s: nat, t: nat, bytes: seq<Byte>)
    requires half >= 256 && s < 2 * half && t < 2 * half && s != t
    ensures AddBytes(half, s, bytes) != AddBytes(half, t, bytes)
    decreases |bytes|
  {
    if bytes != [] {
      StepCases(half, s, bytes[0]);
      StepCases(half, t, bytes[0]);
      StaysDifferent(half, AddByte(half, s, bytes[0]), AddByte(half, t, bytes[0]), bytes[1..]);
    }
  }

  /** A single changed byte always changes the sum. */
  lemma ByteCounts(half: nat, sum: nat, front: seq<Byte>, v: Byte, w: Byte, back: seq<Byte>)
    requires half >= 256 && sum < 2 * half && v != w
    ensures AddBytes(half, sum, front + [v] + back) != AddBytes(half, sum, front + [w] + back)
  {
    hide AddBytes, AddByte;
    AddBytesConcat(half, sum, front + [v], back);
    AddBytesConcat(half, sum, front + [w], back);
    AddOne(half, sum, front, v);
    AddOne(half, sum, front, w);
    var s := AddBytes(half, sum, front);
    StepCases(half, s, v);
    StepCases(half, s, w);
    StaysDifferent(half, AddByte(half, s, v), AddByte(half, s, w), back);
  }

  /** Two neighbouring bytes that a swap cannot be seen of: they differ by one, and the larger
      makes the rotated word run over to zero. */
  predicate Blind(half: nat, sum: nat, x: Byte, y: Byte)
    requires half > 0 && sum < 2 * half
  {
    (x == y + 1 || y == x + 1) && AddByte(half, sum, if x > y then x else y) == 0
  }

  /** Two neighbouring different bytes may not be swapped without changing the sum, but for the
      blind ones. */
  lemma SwapCounts(half: nat, sum: nat, front: seq<Byte>, x: Byte, y: Byte, back: seq<Byte>)
    requires half >= 256 && sum < 2 * half && x != y
    ensures AddBytes(half, sum, front + [x, y] + back) == AddBytes(half, sum, front + [y, x] + back)
        <==> Blind(half, AddBytes(half, sum, front), x, y)
  {
    hide AddBytes, AddByte;
    var s := AddBytes(half, sum, front);
    TwoMore(half, sum, front, x, y, back);
    TwoMore(half, sum, front, y, x, back);
    var p, q := AddByte(half, AddByte(half, s, x), y), AddByte(half, AddByte(half, s, y), x);
    SwapTwo(half, s, x, y);
    if p != q {
      StaysDifferent(half, p, q, back);
    }
  }

  lemma TwoMore(half: nat, sum: nat, front: seq<Byte>, x: Byte, y: Byte, back: seq<Byte>)
    requires half > 0 && sum < 2 * half
    ensures AddBytes(half, sum, front + [x, y] + back)
      == AddBytes(half, AddByte(half, AddByte(half, AddBytes(half, sum, front), x), y), back)
  {
    hide AddByte;
    AddBytesConcat(half, sum, front + [x, y], back);
    AddOne(half, sum, front, x);
    AddOne(half, sum, front + [x], y);
    assert front + [x] + [y] == front + [x, y];
  }

  lemma SwapTwo(half: nat, s: nat, x: Byte, y: Byte)
    requires half >= 256 && s < 2 * half && x != y
    ensures AddByte(half, AddByte(half, s, x), y) == AddByte(half, AddByte(half, s, y), x) <==> Blind(half, s, x, y)
  {
    hide AddByte;
    StepCases(half, s, x);
    StepCases(half, s, y);
    var v, w := AddByte(half, s, x), AddByte(half, s, y);
    StepCases(half, v, y);
    StepCases(half, w, x);
  }

  /** Such a pair, in words of 16 bits. */
  lemma BlindPair()
    ensures Blind(0x8000, 0xffff, 1, 0)
    ensures AddBytes(0x8000, 0xffff, [1, 0]) == AddBytes(0x8000, 0xffff, [0, 1])
  {
    SwapCounts(0x8000, 0xffff, [], 1, 0, []);
    assert [] + [1, 0] + [] == [1, 0] && [] + [0, 1] + [] == [0, 1];
  }
}
