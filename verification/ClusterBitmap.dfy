/** The allocation bitmap: an array of 8-bit words (`bitmap_t` of a big-endian host),
    searched, set and cleared in place. Bit i belongs to cluster i + 2. */
module ClusterBitmap {
  import opened Arith

  const CLUSTER_END: nat := 0xffff_ffff
  const FIRST_DATA_CLUSTER: nat := 2

  /** BMAP_MASK for 8-bit words. */
  function Mask(k: nat): bv8
    requires k < 8
  {
    if k < 4 then (if k < 2 then (if k == 0 then 1 else 2) else (if k == 2 then 4 else 8))
    else (if k < 6 then (if k == 4 then 16 else 32) else (if k == 6 then 64 else 128))
  }

  /** BMAP_GET within a word. */
  predicate Has(w: bv8, k: nat)
    requires k < 8
  {
    w & Mask(k) != 0
  }

  /** BMAP_SET and BMAP_CLR within a word. */
  function Put(w: bv8, k: nat, on: bool): bv8
    requires k < 8
  {
    if on then w | Mask(k) else w & !Mask(k)
  }

  predicate Bit(s: seq<bv8>, i: nat)
    requires i / 8 < |s|
  {
    Has(s[i / 8], i % 8)
  }

  function WithBit(s: seq<bv8>, i: nat, on: bool): (r: seq<bv8>)
    requires i / 8 < |s|
    ensures |r| == |s|
  {
    s[i / 8 := Put(s[i / 8], i % 8, on)]
  }

  /** How many of the bits [0, hi) are clear. */
  ghost function ClearBits(s: seq<bv8>, hi: nat): (n: nat)
    requires hi <= 8 * |s|
    ensures n <= hi && (hi == 0 ==> n == 0)
  {
    if hi == 0 then 0
    else ClearBits(s, hi - 1) + (if Bit(s, hi - 1) then 0 else 1)
  }

  lemma MaskIsShift(k: nat)
    requires k < 8
    ensures Mask(k) == (1 as bv8) << k
  {
    if k == 0 {} else if k == 1 {} else if k == 2 {} else if k == 3 {} else if k == 4 {}
    else if k == 5 {} else if k == 6 {} else { assert k == 7; }
  }

  lemma PutHas(w: bv8, k: nat, on: bool, j: nat)
    requires k < 8 && j < 8
    ensures Has(Put(w, k, on), j) == if j == k then on else Has(w, j)
  {
  }

  lemma FullWord(j: nat)
    requires j < 8
    ensures Has(0xff, j)
  {
  }

  lemma WordsEqual(a: bv8, b: bv8)
    requires forall k: nat | k < 8 :: Has(a, k) == Has(b, k)
    ensures a == b
  {
    assert Has(a, 0) == Has(b, 0) && Has(a, 1) == Has(b, 1);
    assert Has(a, 2) == Has(b, 2) && Has(a, 3) == Has(b, 3);
    assert Has(a, 4) == Has(b, 4) && Has(a, 5) == Has(b, 5);
    assert Has(a, 6) == Has(b, 6) && Has(a, 7) == Has(b, 7);
  }

  /** Setting or clearing a bit changes that bit and no other. */
  lemma WithBitBits(s: seq<bv8>, i: nat, on: bool)
    requires i < 8 * |s|
    ensures forall j: nat | j < 8 * |s| :: Bit(WithBit(s, i, on), j) == if j == i then on else Bit(s, j)
  {
    hide Has, Put;
    forall j: nat | j < 8 * |s|
      ensures Bit(WithBit(s, i, on), j) == if j == i then on else Bit(s, j)
    {
      PutHas(s[i / 8], i % 8, on, j % 8);
    }
  }

  /** A bitmap is determined by its bits. */
  lemma BitsDetermine(s: seq<bv8>, t: seq<bv8>)
    requires |s| == |t|
    requires forall j: nat | j < 8 * |s| :: Bit(s, j) == Bit(t, j)
    ensures s == t
  {
    hide Has;
    forall i | 0 <= i < |s|
      ensures s[i] == t[i]
    {
      forall k: nat | k < 8
        ensures Has(s[i], k) == Has(t[i], k)
      {
        assert Bit(s, 8 * i + k) == Bit(t, 8 * i + k);
        assert (8 * i + k) / 8 == i && (8 * i + k) % 8 == k;
      }
      WordsEqual(s[i], t[i]);
    }
  }

  lemma {:induction false} ClearBitsSet(s: seq<bv8>, i: nat, on: bool, hi: nat)
    requires i < 8 * |s| && hi <= 8 * |s| && Bit(s, i) != on
    ensures ClearBits(WithBit(s, i, on), hi) ==
            ClearBits(s, hi) + (if hi <= i then 0 else if on then -1 else 1)
  {
    hide Bit, WithBit;
    WithBitBits(s, i, on);
    if hi > 0 {
      ClearBitsSet(s, i, on, hi - 1);
    }
  }

  lemma {:induction false} NoClearBits(s: seq<bv8>, hi: nat)
    requires hi <= 8 * |s|
    ensures ClearBits(s, hi) == 0 <==> forall i: nat | i < hi :: Bit(s, i)
  {
    hide Bit;
    if hi > 0 {
      NoClearBits(s, hi - 1);
    }
  }

  /** find_bit_and_set: skip full words, then scan the bits of a word. It claims the
      lowest clear bit of [start, end), or reports that there is none. */
  method FindBitAndSet(bitmap: array<bv8>, start: nat, end: nat) returns (r: nat)
    requires end <= 8 * bitmap.Length && end < CLUSTER_END - 2
    modifies bitmap
    ensures r == CLUSTER_END ==> bitmap[..] == old(bitmap[..]) && forall i: nat | start <= i < end :: Bit(bitmap[..], i)
    ensures r != CLUSTER_END ==> start <= r - FIRST_DATA_CLUSTER < end && !Bit(old(bitmap[..]), r - 2)
    ensures r != CLUSTER_END ==> forall i: nat | start <= i < r - FIRST_DATA_CLUSTER :: Bit(old(bitmap[..]), i)
    ensures r != CLUSTER_END ==> bitmap[..] == WithBit(old(bitmap[..]), r - FIRST_DATA_CLUSTER, true)
  {
    hide Has, Put;
    var startIndex := start / 8;
    var endIndex := (end + 7) / 8;
    var i := startIndex;
    while i < endIndex
      invariant startIndex <= i
      invariant forall b: nat | start <= b < end && b < 8 * i :: Bit(bitmap[..], b)
      invariant bitmap[..] == old(bitmap[..])
    {
      if bitmap[i] == 0xff {
        forall b: nat | 8 * i <= b < 8 * (i + 1)
          ensures Bit(bitmap[..], b)
        {
          FullWord(b % 8);
        }
        i := i + 1;
        continue;
      }
      var startBit := Max(i * 8, start);
      var endBit := Min((i + 1) * 8, end);
      var c := startBit;
      while c < endBit
        invariant startBit <= c
        invariant forall b: nat | start <= b < end && b < c :: Bit(bitmap[..], b)
        invariant bitmap[..] == old(bitmap[..])
      {
        if !Has(bitmap[c / 8], c % 8) {
          bitmap[c / 8] := Put(bitmap[c / 8], c % 8, true);
          return c + FIRST_DATA_CLUSTER;
        }
        c := c + 1;
      }
      i := i + 1;
    }
    return CLUSTER_END;
  }

  const NIBBLE_BITS: seq<nat> := [0, 1, 1, 2, 1, 2, 2, 3, 1, 2, 2, 3, 2, 3, 3, 4]

  function One(w: bv8, k: nat): nat
    requires k < 8
  {
    if Has(w, k) then 1 else 0
  }

  lemma NibbleLow(w: bv8)
    ensures (w & 0xf) as nat < 16
    ensures NIBBLE_BITS[(w & 0xf) as nat] == One(w, 0) + One(w, 1) + One(w, 2) + One(w, 3)
  {
    var n := w & 0xf;
    if n == 0 {} else if n == 1 {} else if n == 2 {} else if n == 3 {} else if n == 4 {}
    else if n == 5 {} else if n == 6 {} else if n == 7 {} else if n == 8 {} else if n == 9 {}
    else if n == 10 {} else if n == 11 {} else if n == 12 {} else if n == 13 {} else if n == 14 {}
    else { assert n == 15; }
  }

  lemma NibbleHigh(w: bv8)
    ensures (w >> 4) as nat < 16
    ensures NIBBLE_BITS[(w >> 4) as nat] == One(w, 4) + One(w, 5) + One(w, 6) + One(w, 7)
  {
    var n := w >> 4;
    if n == 0 {} else if n == 1 {} else if n == 2 {} else if n == 3 {} else if n == 4 {}
    else if n == 5 {} else if n == 6 {} else if n == 7 {} else if n == 8 {} else if n == 9 {}
    else if n == 10 {} else if n == 11 {} else if n == 12 {} else if n == 13 {} else if n == 14 {}
    else { assert n == 15; }
  }

  ghost function Ones(w: bv8): nat {
    (One(w, 0) + One(w, 1) + One(w, 2) + One(w, 3)) + (One(w, 4) + One(w, 5) + One(w, 6) + One(w, 7))
  }

  /** The nibble table counts the set bits of a byte. */
  function ByteCount(w: bv8): (n: nat)
    ensures n == Ones(w)
  {
    NibbleLow(w);
    NibbleHigh(w);
    NIBBLE_BITS[(w & 0xf) as nat] + NIBBLE_BITS[(w >> 4) as nat]
  }

  lemma ClearBitsStep(s: seq<bv8>, i: nat, k: nat)
    requires i < |s| && k < 8
    ensures ClearBits(s, 8 * i + k + 1) == ClearBits(s, 8 * i + k) + 1 - One(s[i], k)
  {
    hide Has;
    assert (8 * i + k) / 8 == i && (8 * i + k) % 8 == k;
  }

  lemma ByteOfClearBits(s: seq<bv8>, i: nat)
    requires i < |s|
    ensures ClearBits(s, 8 * i + 8) == ClearBits(s, 8 * i) + 8 - Ones(s[i])
  {
    hide One, ClearBits;
    ClearBitsStep(s, i, 0);
    ClearBitsStep(s, i, 1);
    ClearBitsStep(s, i, 2);
    ClearBitsStep(s, i, 3);
    ClearBitsStep(s, i, 4);
    ClearBitsStep(s, i, 5);
    ClearBitsStep(s, i, 6);
    ClearBitsStep(s, i, 7);
  }

  /** exfat_count_free_clusters: whole bytes through the nibble table, then the bits
      of a trailing partial byte; bits at and past `size` are not counted. */
  method CountFreeClusters(bitmap: array<bv8>, size: nat) returns (free: nat)
    requires size <= 8 * bitmap.Length
    ensures free == ClearBits(bitmap[..], size)
  {
    hide Ones, Has, ClearBits;
    var whole := size / 8;
    var used := 0;
    var i := 0;
    while i < whole
      invariant i <= whole
      invariant used == 8 * i - ClearBits(bitmap[..], 8 * i)
    {
      ByteOfClearBits(bitmap[..], i);
      used := used + ByteCount(bitmap[i]);
      i := i + 1;
    }
    i := whole * 8;
    while i < size
      invariant whole * 8 <= i <= size
      invariant used == i - ClearBits(bitmap[..], i)
    {
      ClearBitsStep(bitmap[..], i / 8, i % 8);
      if Has(bitmap[i / 8], i % 8) {
        used := used + 1;
      }
      i := i + 1;
    }
    free := size - used;
  }
}
