/** The bytes of a file, as its chain and the cluster heap hold them, and the byte
    sequences that reads, writes and truncations stand for. */
module FileBytes {
  import opened Arith
  import opened ClusterBitmap
  import opened Chain
  import opened Common

  /** exfat_c2o relative to the start of the cluster heap, plus an offset inside. */
  function Addr(cs: nat, c: nat, j: nat): int {
    (c - FIRST_DATA_CLUSTER) * cs + j
  }

  lemma AddrInHeap(cs: nat, count: nat, c: nat, j: nat)
    requires ValidCluster(count, c) && j <= cs
    ensures 0 <= Addr(cs, c, j) <= count * cs
    ensures j < cs ==> Addr(cs, c, j) < count * cs
  {
    var k := c - FIRST_DATA_CLUSTER;
    MulMonotone(k + 1, count, cs);
    assert (k + 1) * cs == k * cs + cs;
  }

  /** Different clusters do not overlap. */
  lemma AddrApart(cs: nat, c: nat, j: nat, d: nat, k: nat)
    requires j < cs && k < cs && c != d
    ensures Addr(cs, c, j) != Addr(cs, d, k)
  {
    if c < d {
      MulMonotone(c + 1, d, cs);
      assert (c + 1) * cs == c * cs + cs;
    } else {
      MulMonotone(d + 1, c, cs);
      assert (d + 1) * cs == d * cs + cs;
    }
  }

  /** The chain covers this many bytes. */
  ghost predicate Covered(cs: nat, chain: seq<nat>, i: nat) {
    cs > 0 && i / cs < |chain|
  }

  ghost predicate HeapShape(heap: seq<Byte>, cs: nat, count: nat) {
    cs > 0 && |heap| == Times(count, cs)
  }

  /** The stored byte number i of a file, valid or stale. */
  ghost function Raw(heap: seq<Byte>, cs: nat, count: nat, chain: seq<nat>, i: nat): Byte
    requires HeapShape(heap, cs, count) && ValidChain(chain, count) && Covered(cs, chain, i)
  {
    AddrInHeap(cs, count, chain[i / cs], i % cs);
    heap[Addr(cs, chain[i / cs], i % cs)]
  }

  /** What a reader sees: stored bytes below ValidDataLength, zeros from there on. */
  ghost function Content(heap: seq<Byte>, cs: nat, count: nat, chain: seq<nat>, size: nat, valid: nat): (r: seq<Byte>)
    requires HeapShape(heap, cs, count) && ValidChain(chain, count)
    requires |chain| == DivRoundUp(size, cs)
    ensures |r| == size
    ensures forall i :: 0 <= i < size ==>
              Covered(cs, chain, i) && r[i] == if i < valid then Raw(heap, cs, count, chain, i) else 0
  {
    assert forall i :: 0 <= i < size ==> Covered(cs, chain, i) by {
      forall i | 0 <= i < size
        ensures Covered(cs, chain, i)
      {
        CoveredBelow(size, cs, i);
      }
    }
    seq(size, i requires 0 <= i < size => if i < valid then Raw(heap, cs, count, chain, i) else 0)
  }

  /** Storing `bytes` inside one cluster. */
  ghost function Stored(heap: seq<Byte>, cs: nat, count: nat, c: nat, off: nat, bytes: seq<Byte>): (r: seq<Byte>)
    requires HeapShape(heap, cs, count) && ValidCluster(count, c) && off + |bytes| <= cs
    ensures |r| == |heap|
  {
    AddrInHeap(cs, count, c, off);
    AddrInHeap(cs, count, c, off + |bytes|);
    var a := Addr(cs, c, off);
    heap[..a] + bytes + heap[a + |bytes|..]
  }

  /** A store changes the bytes it names in that cluster, and nothing in any other. */
  lemma StoredAt(heap: seq<Byte>, cs: nat, count: nat, c: nat, off: nat, bytes: seq<Byte>, d: nat, j: nat)
    requires HeapShape(heap, cs, count) && ValidCluster(count, c) && off + |bytes| <= cs
    requires ValidCluster(count, d) && j < cs
    ensures 0 <= Addr(cs, d, j) < |heap|
    ensures Stored(heap, cs, count, c, off, bytes)[Addr(cs, d, j)] ==
            if d == c && off <= j < off + |bytes| then bytes[j - off] else heap[Addr(cs, d, j)]
  {
    AddrInHeap(cs, count, d, j);
    AddrInHeap(cs, count, c, off);
    AddrInHeap(cs, count, c, off + |bytes|);
    var a, b := Addr(cs, c, off), Addr(cs, d, j);
    if d != c && a <= b < a + |bytes| {
      AddrApart(cs, c, off + (b - a), d, j);
      assert false;
    }
  }

  /** Storing into the k-th cluster of a chain, seen as bytes of the file. */
  lemma StoredInChain(heap: seq<Byte>, cs: nat, count: nat, chain: seq<nat>, k: nat, off: nat, bytes: seq<Byte>, i: nat)
    requires HeapShape(heap, cs, count) && ValidChain(chain, count) && k < |chain| && off + |bytes| <= cs
    requires Covered(cs, chain, i)
    ensures Raw(Stored(heap, cs, count, chain[k], off, bytes), cs, count, chain, i) ==
            if k * cs + off <= i < k * cs + off + |bytes| then bytes[i - (k * cs + off)]
            else Raw(heap, cs, count, chain, i)
  {
    StoredAt(heap, cs, count, chain[k], off, bytes, chain[i / cs], i % cs);
    DivModUnique(i, cs, k);
  }

  /** Cut to `n` bytes or extended to `n` bytes with zeros. */
  function Resized(s: seq<Byte>, n: nat): (r: seq<Byte>)
    ensures |r| == n
    ensures forall i :: 0 <= i < n ==> r[i] == if i < |s| then s[i] else 0
  {
    seq(n, i requires 0 <= i < n => if i < |s| then s[i] else 0)
  }

  /** `data` laid over `s` at `off`, the sequence growing with zeros as needed. */
  function Overlaid(s: seq<Byte>, off: nat, data: seq<Byte>): (r: seq<Byte>)
    ensures |r| == Max(|s|, off + |data|)
    ensures forall i :: 0 <= i < |r| ==>
              r[i] == if off <= i < off + |data| then data[i - off] else if i < |s| then s[i] else 0
  {
    seq(Max(|s|, off + |data|), i requires 0 <= i < Max(|s|, off + |data|) =>
      if off <= i < off + |data| then data[i - off] else if i < |s| then s[i] else 0)
  }

  /** Nothing was stored outside the clusters of this chain. */
  ghost predicate KeptOutside(before: seq<Byte>, after: seq<Byte>, cs: nat, count: nat, chain: seq<nat>)
    requires HeapShape(before, cs, count) && HeapShape(after, cs, count)
  {
    forall d, j: nat | ValidCluster(count, d) && d !in chain && j < cs ::
      0 <= Addr(cs, d, j) < |before| && after[Addr(cs, d, j)] == before[Addr(cs, d, j)]
  }

  lemma KeptSelf(heap: seq<Byte>, cs: nat, count: nat, chain: seq<nat>)
    requires HeapShape(heap, cs, count)
    ensures KeptOutside(heap, heap, cs, count, chain)
  {
    forall d, j: nat | ValidCluster(count, d) && d !in chain && j < cs
      ensures 0 <= Addr(cs, d, j) < |heap|
    {
      AddrInHeap(cs, count, d, j);
    }
  }

  lemma StoredKeepsOutside(before: seq<Byte>, heap: seq<Byte>, cs: nat, count: nat, chain: seq<nat>,
                           c: nat, off: nat, bytes: seq<Byte>)
    requires HeapShape(before, cs, count) && HeapShape(heap, cs, count) && KeptOutside(before, heap, cs, count, chain)
    requires ValidCluster(count, c) && off + |bytes| <= cs && c in chain
    ensures KeptOutside(before, Stored(heap, cs, count, c, off, bytes), cs, count, chain)
  {
    forall d, j: nat | ValidCluster(count, d) && d !in chain && j < cs
      ensures 0 <= Addr(cs, d, j) < |before|
      ensures Stored(heap, cs, count, c, off, bytes)[Addr(cs, d, j)] == before[Addr(cs, d, j)]
    {
      StoredAt(heap, cs, count, c, off, bytes, d, j);
    }
  }

  lemma KeptRaw(before: seq<Byte>, after: seq<Byte>, cs: nat, count: nat, touched: seq<nat>, chain: seq<nat>, i: nat)
    requires HeapShape(before, cs, count) && HeapShape(after, cs, count)
    requires KeptOutside(before, after, cs, count, touched)
    requires ValidChain(chain, count) && Disjoint(chain, touched) && Covered(cs, chain, i)
    ensures Raw(after, cs, count, chain, i) == Raw(before, cs, count, chain, i)
  {
    assert chain[i / cs] in chain;
  }

  /** The bytes of a file whose clusters were not stored into are the same. */
  lemma KeptContent(before: seq<Byte>, after: seq<Byte>, cs: nat, count: nat, touched: seq<nat>,
                    chain: seq<nat>, size: nat, valid: nat)
    requires HeapShape(before, cs, count) && HeapShape(after, cs, count)
    requires KeptOutside(before, after, cs, count, touched)
    requires ValidChain(chain, count) && Disjoint(chain, touched) && |chain| == DivRoundUp(size, cs)
    ensures Content(after, cs, count, chain, size, valid) == Content(before, cs, count, chain, size, valid)
  {
    hide KeptOutside, Disjoint, Raw, Times, DivRoundUp, ValidChain;
    forall i: nat | i < size
      ensures Covered(cs, chain, i) && Raw(after, cs, count, chain, i) == Raw(before, cs, count, chain, i)
    {
      CoveredBelow(size, cs, i);
      KeptRaw(before, after, cs, count, touched, chain, i);
    }
  }

  /** Every file reads as zeros on a medium of zeros. */
  lemma BlankReads(heap: seq<Byte>, cs: nat, count: nat, chain: seq<nat>, size: nat, valid: nat)
    requires HeapShape(heap, cs, count) && ValidChain(chain, count)
    requires |chain| == DivRoundUp(size, cs) && forall i :: 0 <= i < |heap| ==> heap[i] == 0
    ensures Content(heap, cs, count, chain, size, valid) == Resized([], size)
  {
    hide ValidChain, Times, DivRoundUp, HeapShape, Raw;
    forall i: nat | Covered(cs, chain, i)
      ensures Raw(heap, cs, count, chain, i) == 0
    {
      BlankByte(heap, cs, count, chain, i);
    }
  }

  lemma BlankByte(heap: seq<Byte>, cs: nat, count: nat, chain: seq<nat>, i: nat)
    requires HeapShape(heap, cs, count) && ValidChain(chain, count) && Covered(cs, chain, i)
    requires forall i :: 0 <= i < |heap| ==> heap[i] == 0
    ensures Raw(heap, cs, count, chain, i) == 0
  {
    AddrInHeap(cs, count, chain[i / cs], i % cs);
  }

  /** A truncation that zeroes, or hides behind ValidDataLength, everything past the old
      valid bytes cuts or zero-extends the content. */
  lemma TruncatedContent(heap: seq<Byte>, heap': seq<Byte>, cs: nat, count: nat,
                         chain: seq<nat>, size: nat, valid: nat, chain': seq<nat>, size': nat, valid': nat)
    requires HeapShape(heap, cs, count) && HeapShape(heap', cs, count)
    requires ValidChain(chain, count) && |chain| == DivRoundUp(size, cs) && valid <= size
    requires ValidChain(chain', count) && |chain'| == DivRoundUp(size', cs)
    requires chain <= chain' || chain' <= chain
    requires Min(valid, size') <= valid' <= size'
    requires forall i: nat | Covered(cs, chain', i) && i < valid' ::
               Raw(heap', cs, count, chain', i) == if i < valid then Raw(heap, cs, count, chain', i) else 0
    ensures Content(heap', cs, count, chain', size', valid') ==
            Resized(Content(heap, cs, count, chain, size, valid), size')
  {
    hide ValidChain, Times, DivRoundUp, HeapShape, Raw;
    var c := Content(heap, cs, count, chain, size, valid);
    var c' := Content(heap', cs, count, chain', size', valid');
    forall i: nat | i < size'
      ensures c'[i] == if i < size then c[i] else 0
    {
      assert Covered(cs, chain', i);
      if i < size {
        assert Covered(cs, chain, i);
        RawOfEither(heap, cs, count, chain, chain', i);
      }
    }
  }

  /** A byte that two chains cover, one of them a beginning of the other, is the same byte. */
  lemma RawOfEither(heap: seq<Byte>, cs: nat, count: nat, chain: seq<nat>, chain': seq<nat>, i: nat)
    requires HeapShape(heap, cs, count) && ValidChain(chain, count) && ValidChain(chain', count)
    requires Covered(cs, chain, i) && Covered(cs, chain', i) && (chain <= chain' || chain' <= chain)
    ensures Raw(heap, cs, count, chain, i) == Raw(heap, cs, count, chain', i)
  {
    hide ValidChain, Times;
    assert chain[i / cs] == chain'[i / cs];
  }

  /** The piece of a transfer at file position `pos` that stays inside one cluster. */
  lemma PieceAt(cs: nat, pos: nat, lsize: nat, k: nat, j: nat)
    requires cs > 0 && k == pos / cs && pos % cs + lsize <= cs && j < lsize
    ensures (pos + j) / cs == k && (pos + j) % cs == pos % cs + j
  {
    DivModUnique(pos, cs, k);
    DivModUnique(pos + j, cs, k);
  }

  /** After a piece that fills up a cluster, the transfer is at the start of the next. */
  lemma PieceEnd(cs: nat, pos: nat, lsize: nat)
    requires cs > 0 && pos % cs + lsize == cs
    ensures (pos + lsize) / cs == pos / cs + 1 && (pos + lsize) % cs == 0
  {
    var k := pos / cs;
    DivModUnique(pos, cs, k);
    assert (k + 1) * cs == k * cs + cs == pos + lsize;
    DivModUnique(pos + lsize, cs, k + 1);
  }

  /** The heap bytes of a piece are the file bytes at its position. */
  lemma PieceOfContent(heap: seq<Byte>, cs: nat, count: nat, chain: seq<nat>, size: nat, valid: nat,
                       pos: nat, k: nat, off: nat, lsize: nat)
    requires HeapShape(heap, cs, count) && ValidChain(chain, count) && |chain| == DivRoundUp(size, cs)
    requires k == pos / cs && off == pos % cs && k < |chain| && off + lsize <= cs && pos + lsize <= valid <= size
    ensures var a := Addr(cs, chain[k], off);
            && 0 <= a <= a + lsize <= |heap|
            && heap[a..a + lsize] == Content(heap, cs, count, chain, size, valid)[pos..pos + lsize]
  {
    hide ValidChain, DivRoundUp, Raw, Addr;
    var a := Addr(cs, chain[k], off);
    PieceInHeap(heap, cs, count, chain, k, off, lsize);
    var c := Content(heap, cs, count, chain, size, valid);
    var stored, read := heap[a..a + lsize], c[pos..pos + lsize];
    forall j: nat | j < lsize
      ensures stored[j] == read[j]
    {
      PieceAt(cs, pos, lsize, k, j);
      RawIs(heap, cs, count, chain, pos + j, k, off, j);
    }
  }

  lemma PieceInHeap(heap: seq<Byte>, cs: nat, count: nat, chain: seq<nat>, k: nat, off: nat, lsize: nat)
    requires HeapShape(heap, cs, count) && ValidChain(chain, count) && k < |chain| && off + lsize <= cs
    ensures 0 <= Addr(cs, chain[k], off) <= Addr(cs, chain[k], off) + lsize <= |heap|
  {
    AddrInHeap(cs, count, chain[k], off);
    AddrInHeap(cs, count, chain[k], off + lsize);
  }

  /** Byte j of a piece that starts at `off` in the k-th cluster. */
  lemma RawIs(heap: seq<Byte>, cs: nat, count: nat, chain: seq<nat>, i: nat, k: nat, off: nat, j: nat)
    requires HeapShape(heap, cs, count) && ValidChain(chain, count) && Covered(cs, chain, i)
    requires k == i / cs && off + j == i % cs
    ensures 0 <= Addr(cs, chain[k], off) && Addr(cs, chain[k], off) + j < |heap|
    ensures Raw(heap, cs, count, chain, i) == heap[Addr(cs, chain[k], off) + j]
  {
    AddrInHeap(cs, count, chain[k], off + j);
    AddrInHeap(cs, count, chain[k], off);
  }

  /** The stale bytes a write would uncover between ValidDataLength and its offset. */
  ghost predicate GapClean(heap: seq<Byte>, cs: nat, count: nat, chain: seq<nat>, valid: nat, offset: nat)
    requires HeapShape(heap, cs, count) && ValidChain(chain, count)
  {
    forall i: nat | valid <= i < offset && Covered(cs, chain, i) :: Raw(heap, cs, count, chain, i) == 0
  }

  /** The stored bytes after a write of `data` at `offset`. */
  ghost predicate Written(heap: seq<Byte>, heap': seq<Byte>, cs: nat, count: nat, chain: seq<nat>, offset: nat, data: seq<Byte>) {
    && HeapShape(heap, cs, count) && HeapShape(heap', cs, count) && ValidChain(chain, count)
    && KeptOutside(heap, heap', cs, count, chain)
    && forall i: nat | Covered(cs, chain, i) ::
         Raw(heap', cs, count, chain, i) ==
         if offset <= i < offset + |data| then data[i - offset] else Raw(heap, cs, count, chain, i)
  }

  lemma WrittenNothing(heap: seq<Byte>, cs: nat, count: nat, chain: seq<nat>, offset: nat)
    requires HeapShape(heap, cs, count) && ValidChain(chain, count)
    ensures Written(heap, heap, cs, count, chain, offset, [])
  {
    KeptSelf(heap, cs, count, chain);
  }

  /** The next piece of a write, stored in the k-th cluster. */
  lemma WrittenStep(heap: seq<Byte>, heap': seq<Byte>, cs: nat, count: nat, chain: seq<nat>, offset: nat,
                    done: seq<Byte>, piece: seq<Byte>, k: nat, off: nat)
    requires Written(heap, heap', cs, count, chain, offset, done)
    requires k < |chain| && k == (offset + |done|) / cs && off == (offset + |done|) % cs && off + |piece| <= cs
    ensures ValidCluster(count, chain[k])
    ensures Written(heap, Stored(heap', cs, count, chain[k], off, piece), cs, count, chain, offset, done + piece)
  {
    hide KeptOutside, Raw, Stored, Times, DivRoundUp;
    assert chain[k] in chain;
    StoredKeepsOutside(heap, heap', cs, count, chain, chain[k], off, piece);
    DivModUnique(offset + |done|, cs, k);
    var heap'' := Stored(heap', cs, count, chain[k], off, piece);
    forall i: nat | Covered(cs, chain, i)
      ensures Raw(heap'', cs, count, chain, i) ==
              if offset <= i < offset + |done + piece| then (done + piece)[i - offset] else Raw(heap, cs, count, chain, i)
    {
      StoredInChain(heap', cs, count, chain, k, off, piece, i);
    }
  }

  /** A write raises ValidDataLength past its end. What a reader then sees is the old
      content with the data laid over it exactly when no stale byte was uncovered. */
  lemma WrittenContent(heap: seq<Byte>, heap': seq<Byte>, cs: nat, count: nat, chain: seq<nat>,
                       size: nat, valid: nat, offset: nat, data: seq<Byte>)
    requires Written(heap, heap', cs, count, chain, offset, data)
    requires |chain| == DivRoundUp(size, cs) && valid <= size && offset + |data| <= size && data != []
    ensures Content(heap', cs, count, chain, size, Max(valid, offset + |data|)) ==
            Overlaid(Content(heap, cs, count, chain, size, valid), offset, data)
            <==> GapClean(heap, cs, count, chain, valid, offset)
  {
    hide KeptOutside, ValidChain, DivRoundUp, Times, Raw;
    var c := Content(heap, cs, count, chain, size, valid);
    var valid' := Max(valid, offset + |data|);
    var c' := Content(heap', cs, count, chain, size, valid');
    var o := Overlaid(c, offset, data);
    forall i: nat | i < size
      ensures Covered(cs, chain, i)
      ensures c'[i] == o[i] <==> (valid <= i < offset ==> Raw(heap, cs, count, chain, i) == 0)
    {
      CoveredBelow(size, cs, i);
    }
    if GapClean(heap, cs, count, chain, valid, offset) {
      assert forall i: nat | i < size :: c'[i] == o[i];
    }
    if c' == o {
      forall i: nat | valid <= i < offset && Covered(cs, chain, i)
        ensures Raw(heap, cs, count, chain, i) == 0
      {
        assert c'[i] == o[i];
      }
    }
  }

  /** Two stale sevens under a ValidDataLength of zero read as zeros; writing a nine over the
      second one uncovers the first. */
  lemma GapExample()
    ensures HeapShape([7, 7], 2, 1) && HeapShape([7, 9], 2, 1) && ValidChain([2], 1) && DivRoundUp(2, 2) == 1
    ensures Content([7, 7], 2, 1, [2], 2, 0) == [0, 0]
    ensures Written([7, 7], [7, 9], 2, 1, [2], 1, [9])
    ensures Content([7, 9], 2, 1, [2], 2, Max(0, 1 + 1)) == [7, 9]
    ensures Overlaid([0, 0], 1, [9]) == [0, 9]
  {
    assert DivRoundUp(2, 2) == 1 && Times(1, 2) == 2;
    assert ValidChain([2], 1);
    assert Addr(2, 2, 0) == 0 && Addr(2, 2, 1) == 1;
    forall i: nat | Covered(2, [2], i)
      ensures i < 2 && Raw([7, 7], 2, 1, [2], i) == 7 && Raw([7, 9], 2, 1, [2], i) == if i == 1 then 9 else 7
    {
      assert i / 2 == 0 && i % 2 == i;
    }
    CoveredBelow(2, 2, 0);
    CoveredBelow(2, 2, 1);
  }

  /** A write that starts at or before ValidDataLength, or behind the end, or writes nothing:
      a check that a caller can make. */
  predicate NoGap(size: nat, valid: nat, offset: nat, data: seq<Byte>) {
    data == [] || offset <= valid || offset > size
  }

  /** A write inside a file is sure to uncover nothing, whatever the medium holds, exactly when
      it starts at or before ValidDataLength. */
  lemma GapIsForced(cs: nat, count: nat, chain: seq<nat>, size: nat, valid: nat, offset: nat)
    requires cs > 0 && ValidChain(chain, count) && |chain| == DivRoundUp(size, cs) && offset <= size
    ensures (forall heap: seq<Byte> :: HeapShape(heap, cs, count) ==> GapClean(heap, cs, count, chain, valid, offset))
        <==> offset <= valid
  {
    if valid < offset {
      UncleanHeap(cs, count, chain, size, valid, offset);
      assert HeapShape(Ones(Times(count, cs)), cs, count);
    }
  }

  function Ones(n: nat): (s: seq<Byte>)
    ensures |s| == n && forall i :: 0 <= i < n ==> s[i] == 1
  {
    seq(n, i => 1)
  }

  lemma UncleanHeap(cs: nat, count: nat, chain: seq<nat>, size: nat, valid: nat, offset: nat)
    requires cs > 0 && ValidChain(chain, count) && |chain| == DivRoundUp(size, cs) && valid < offset <= size
    ensures HeapShape(Ones(Times(count, cs)), cs, count)
    ensures !GapClean(Ones(Times(count, cs)), cs, count, chain, valid, offset)
  {
    hide DivRoundUp;
    CoveredBelow(size, cs, valid);
    AddrInHeap(cs, count, chain[valid / cs], valid % cs);
    assert Raw(Ones(Times(count, cs)), cs, count, chain, valid) == 1;
  }

  /** On this medium the write leaves something else than the old content with the data laid
      over it. */
  ghost predicate WrittenWrong(heap: seq<Byte>, cs: nat, count: nat, chain: seq<nat>, size: nat, valid: nat,
                               offset: nat, data: seq<Byte>)
    requires ValidChain(chain, count) && cs > 0 && |chain| == DivRoundUp(size, cs)
  {
    && HeapShape(heap, cs, count)
    && (forall heap' :: Written(heap, heap', cs, count, chain, offset, data) ==>
          Content(heap', cs, count, chain, size, Max(valid, offset + |data|))
          != Overlaid(Content(heap, cs, count, chain, size, valid), offset, data))
  }

  /** For every write that fails the check there is such a medium. `size` is the size with
      room made. */
  lemma UnsafeWriteWrong(cs: nat, count: nat, chain: seq<nat>, size: nat, valid: nat, offset: nat, data: seq<Byte>)
    requires cs > 0 && ValidChain(chain, count) && |chain| == DivRoundUp(size, cs) && valid <= size
    requires !NoGap(size, valid, offset, data) && offset + |data| <= size
    ensures exists heap: seq<Byte> :: WrittenWrong(heap, cs, count, chain, size, valid, offset, data)
  {
    hide ValidChain, DivRoundUp, Times, GapClean, Content, Raw, KeptOutside;
    var heap := Ones(Times(count, cs));
    UncleanHeap(cs, count, chain, size, valid, offset);
    forall heap' | Written(heap, heap', cs, count, chain, offset, data)
      ensures Content(heap', cs, count, chain, size, Max(valid, offset + |data|))
              != Overlaid(Content(heap, cs, count, chain, size, valid), offset, data)
    {
      WrittenContent(heap, heap', cs, count, chain, size, valid, offset, data);
    }
    assert WrittenWrong(heap, cs, count, chain, size, valid, offset, data);
  }

  lemma ResizedTwice(s: seq<Byte>, m: nat, n: nat)
    requires m <= n
    ensures Resized(Resized(s, m), n) == if |s| <= m then Resized(s, n) else Resized(Resized(s, m), n)
    ensures Resized(s, |s|) == s
  {
  }

  lemma OverlaidResized(s: seq<Byte>, off: nat, data: seq<Byte>)
    ensures Overlaid(Resized(s, Max(|s|, off + |data|)), off, data) == Overlaid(s, off, data)
    ensures data == [] ==> Resized(s, Max(|s|, off)) == Overlaid(s, off, data)
  {
  }

  /** Lengthening a chain does not change what lies before the old end. */
  lemma GapCleanPrefix(heap: seq<Byte>, cs: nat, count: nat, chain: seq<nat>, chain': seq<nat>,
                       size: nat, valid: nat, offset: nat)
    requires HeapShape(heap, cs, count) && ValidChain(chain, count) && ValidChain(chain', count)
    requires |chain| == DivRoundUp(size, cs) && offset <= size && chain <= chain'
    ensures GapClean(heap, cs, count, chain, valid, offset) <==> GapClean(heap, cs, count, chain', valid, offset)
  {
    hide ValidChain, Times, DivRoundUp, HeapShape, Raw, Covered;
    forall i: nat | valid <= i < offset
      ensures Covered(cs, chain, i) && Covered(cs, chain', i)
      ensures Raw(heap, cs, count, chain, i) == Raw(heap, cs, count, chain', i)
    {
      RawOfPrefix(heap, cs, count, chain, chain', size, i);
    }
  }

  lemma RawOfPrefix(heap: seq<Byte>, cs: nat, count: nat, chain: seq<nat>, chain': seq<nat>, size: nat, i: nat)
    requires HeapShape(heap, cs, count) && ValidChain(chain, count) && ValidChain(chain', count)
    requires |chain| == DivRoundUp(size, cs) && i < size && chain <= chain'
    ensures Covered(cs, chain, i) && Covered(cs, chain', i)
    ensures Raw(heap, cs, count, chain, i) == Raw(heap, cs, count, chain', i)
  {
    hide ValidChain, Times, DivRoundUp, Raw;
    CoveredBelow(size, cs, i);
    RawOfEither(heap, cs, count, chain, chain', i);
  }
}
