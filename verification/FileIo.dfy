/** Byte-level reads and writes of a file (exfat_generic_pread and exfat_generic_pwrite),
    cluster by cluster through the chain. */
module FileIo {
  import opened Arith
  import opened ClusterBitmap
  import opened Chain
  import opened FileBytes
  import opened Clusters
  import opened Common

  /** The caller's buffer is no part of the volume. */
  predicate Apart(vol: Volume, buffer: array<Byte>) {
    buffer != vol.heap && buffer as object != vol.bitmap && buffer as object != vol.fat
  }

  /** exfat_pread from the cluster heap into a caller's buffer. */
  method LoadBytes(vol: Volume, cluster: nat, off: nat, size: nat, buffer: array<Byte>, at: nat)
    requires vol.Shape() && ValidCluster(vol.clusterCount, cluster) && off + size <= vol.clusterSize
    requires 0 <= Addr(vol.clusterSize, cluster, off) <= Addr(vol.clusterSize, cluster, off) + size <= vol.heap.Length
    requires at + size <= buffer.Length && Apart(vol, buffer)
    modifies buffer
    ensures buffer[..at] == old(buffer[..at]) && buffer[at + size..] == old(buffer[at + size..])
    ensures var a := Addr(vol.clusterSize, cluster, off); buffer[at..at + size] == vol.heap[a..a + size]
  {
    var a := Addr(vol.clusterSize, cluster, off);
    forall k | 0 <= k < size {
      buffer[at + k] := vol.heap[a + k];
    }
  }

  /** One round of the read loop: a piece inside the k-th cluster of the file. */
  method ReadPiece(vol: Volume, node: Node, cluster: nat, loffset: nat, lsize: nat, buffer: array<Byte>,
                   at: nat, ghost pos: nat, ghost k: nat) returns (next: nat)
    requires vol.Recorded(node) && vol.Readable(node) && Apart(vol, buffer)
    requires k == pos / vol.clusterSize && k < |vol.chains[node]|
    requires cluster == vol.chains[node][k] && loffset == pos % vol.clusterSize
    requires loffset + lsize <= vol.clusterSize && at + lsize <= buffer.Length && pos + lsize <= node.validSize
    modifies buffer
    ensures buffer[..at + lsize] == old(buffer[..at]) + vol.ContentOf(node)[pos..pos + lsize]
    ensures forall end :: at + lsize <= end <= buffer.Length ==> buffer[end..] == old(buffer[end..])
    ensures k + 1 < |vol.chains[node]| ==> next == vol.chains[node][k + 1]
  {
    hide Linked, Content, Addr, Times;
    ghost var chain := vol.chains[node];
    PieceOfContent(vol.heap[..], vol.clusterSize, vol.clusterCount, chain, node.size, node.validSize, pos, k, loffset, lsize);
    LoadBytes(vol, cluster, loffset, lsize, buffer, at);
    assert buffer[..at + lsize] == buffer[..at] + buffer[at..at + lsize];
    forall end | at + lsize <= end <= buffer.Length
      ensures buffer[end..] == old(buffer[end..])
    {
      assert buffer[end..] == buffer[at + lsize..][end - at - lsize..];
    }
    if k + 1 < |chain| {
      LinkAt(vol.fat[..], node.isContiguous, node.startCluster, chain, k + 1);
    }
    next := vol.Next(node, cluster);
  }

  /** Where a transfer stands: its next byte is in the k-th cluster, at this offset. */
  ghost predicate At(vol: Volume, node: Node, pos: nat, k: nat, cluster: nat, loffset: nat)
    reads vol
  {
    && vol.clusterSize > 0 && node in vol.chains
    && k == pos / vol.clusterSize && k < |vol.chains[node]|
    && cluster == vol.chains[node][k] && loffset == pos % vol.clusterSize
  }

  lemma NextAt(vol: Volume, node: Node, pos: nat, k: nat, cluster: nat, loffset: nat, lsize: nat, next: nat)
    requires At(vol, node, pos, k, cluster, loffset) && loffset + lsize == vol.clusterSize
    requires vol.Sized(node) && pos + lsize < node.size
    requires k + 1 < |vol.chains[node]| ==> next == vol.chains[node][k + 1]
    ensures At(vol, node, pos + lsize, k + 1, next, 0)
  {
    PieceEnd(vol.clusterSize, pos, lsize);
    CoveredBelow(node.size, vol.clusterSize, pos + lsize);
  }

  /** The first `done` bytes of the request are in the buffer; bytes past it are kept. */
  ghost predicate ReadSoFar(buffer: array<Byte>, content: seq<Byte>, offset: nat, done: nat, size: nat, tail: seq<Byte>)
    reads buffer
  {
    && done <= size <= buffer.Length && offset + done <= |content|
    && buffer[..done] == content[offset..offset + done]
    && buffer[size..] == tail
  }

  /** One round of the read loop with its bookkeeping. */
  method ReadStep(vol: Volume, node: Node, cluster: nat, loffset: nat, buffer: array<Byte>, bufp: nat, remainder: nat,
                  ghost offset: nat, ghost k: nat, ghost tail: seq<Byte>)
    returns (lsize: nat, next: nat)
    requires vol.OwnedClusters() && vol.Recorded(node) && vol.Readable(node) && Apart(vol, buffer)
    requires 0 < remainder && offset + bufp + remainder <= node.validSize
    requires At(vol, node, offset + bufp, k, cluster, loffset)
    requires ReadSoFar(buffer, vol.ContentOf(node), offset, bufp, bufp + remainder, tail)
    modifies buffer
    ensures 0 < lsize <= remainder
    ensures ReadSoFar(buffer, vol.ContentOf(node), offset, bufp + lsize, bufp + remainder, tail)
    ensures lsize < remainder ==> At(vol, node, offset + bufp + lsize, k + 1, next, 0)
  {
    hide vol.OwnedClusters, RecordedIn, vol.ContentOf, At, DivRoundUp;
    ghost var pos := offset + bufp;
    AtFacts(vol, node, pos, k, cluster, loffset);
    if !ValidCluster(vol.clusterCount, cluster) {
      assert false;
    }
    lsize := Min(vol.clusterSize - loffset, remainder);
    ghost var content := vol.ContentOf(node);
    next := ReadPiece(vol, node, cluster, loffset, lsize, buffer, bufp, pos, k);
    assert content[offset..pos] + content[pos..pos + lsize] == content[offset..pos + lsize];
    if lsize < remainder {
      NextAt(vol, node, pos, k, cluster, loffset, lsize, next);
    }
  }

  /** The read loop proper: everything asked for lies below ValidDataLength. */
  method ReadValid(vol: Volume, node: Node, buffer: array<Byte>, size: nat, offset: nat)
    requires vol.OwnedClusters() && vol.Recorded(node) && vol.Readable(node) && Apart(vol, buffer)
    requires 0 < size <= buffer.Length && offset + size <= node.validSize
    modifies buffer, node`fptrIndex, node`fptrCluster
    ensures vol.Recorded(node)
    ensures buffer[..size] == vol.ContentOf(node)[offset..offset + size]
    ensures buffer[size..] == old(buffer[size..])
  {
    hide vol.OwnedClusters, vol.Recorded, vol.ContentOf, vol.Readable, vol.Sized, vol.Shape, At;
    ReadableFacts(vol, node);
    var cluster, loffset, k := StartTransfer(vol, node, offset);
    var remainder: nat, bufp: nat := size, 0;
    while remainder > 0
      invariant bufp + remainder == size
      invariant vol.Recorded(node) && vol.OwnedClusters()
      invariant remainder > 0 ==> At(vol, node, offset + bufp, k, cluster, loffset)
      invariant ReadSoFar(buffer, vol.ContentOf(node), offset, bufp, size, old(buffer[size..]))
    {
      var lsize, next := ReadStep(vol, node, cluster, loffset, buffer, bufp, remainder, offset, k, old(buffer[size..]));
      cluster, k := next, k + 1;
      bufp := bufp + lsize;
      loffset := 0;
      remainder := remainder - lsize;
    }
  }

  lemma ReadableFacts(vol: Volume, node: Node)
    requires vol.Readable(node)
    ensures vol.Shape() && vol.Sized(node) && node.validSize <= node.size == |vol.ContentOf(node)|
  {
  }

  lemma AtFacts(vol: Volume, node: Node, pos: nat, k: nat, cluster: nat, loffset: nat)
    requires vol.OwnedClusters() && At(vol, node, pos, k, cluster, loffset)
    ensures k == pos / vol.clusterSize && loffset == pos % vol.clusterSize < vol.clusterSize
    ensures k < |vol.chains[node]| && cluster == vol.chains[node][k]
    ensures ValidCluster(vol.clusterCount, cluster)
  {
    vol.OwnedBitSet(node, k);
  }

  /** Seek to the cluster of the first byte of a transfer. */
  method StartTransfer(vol: Volume, node: Node, offset: nat) returns (cluster: nat, loffset: nat, ghost k: nat)
    requires vol.Shape() && vol.OwnedClusters() && vol.Recorded(node) && vol.Sized(node) && offset < node.size
    modifies node`fptrIndex, node`fptrCluster
    ensures vol.Recorded(node) && At(vol, node, offset, k, cluster, loffset)
  {
    hide vol.OwnedClusters, RecordedIn, DivRoundUp, Times, ValidChain;
    CoveredBelow(node.size, vol.clusterSize, offset);
    k := offset / vol.clusterSize;
    vol.OwnedChain(node);
    cluster := vol.AdvanceCluster(node, offset / vol.clusterSize, vol.chains[node]);
    vol.OwnedBitSet(node, k);
    if !ValidCluster(vol.clusterCount, cluster) {
      assert false;
    }
    loffset := offset % vol.clusterSize;
  }

  /** memset(buffer + at, 0, n), inside the first `size` bytes. */
  method Zero(buffer: array<Byte>, at: nat, n: nat, ghost size: nat)
    requires at + n <= size <= buffer.Length
    modifies buffer
    ensures buffer[..at] == old(buffer[..at]) && buffer[size..] == old(buffer[size..])
    ensures forall k :: at <= k < at + n ==> buffer[k] == 0
  {
    forall k | at <= k < at + n {
      buffer[k] := 0;
    }
  }

  /** Valid bytes followed by zeros make up the content. */
  lemma FrontAndZeros(bytes: nat, whole: seq<Byte>, content: seq<Byte>, offset: nat, r: nat)
    requires bytes <= r <= |whole| && offset + r <= |content|
    requires whole[..bytes] == content[offset..offset + bytes]
    requires forall k :: bytes <= k < r ==> whole[k] == 0
    requires forall k :: offset + bytes <= k < offset + r ==> content[k] == 0
    ensures whole[..r] == content[offset..offset + r]
  {
    forall k | 0 <= k < r
      ensures whole[..r][k] == content[offset..offset + r][k]
    {
      if k < bytes {
        assert whole[k] == whole[..bytes][k] == content[offset..offset + bytes][k];
      }
    }
  }

  lemma SuffixKept(before: seq<Byte>, after: seq<Byte>, i: nat, j: nat)
    requires i <= j <= |before| == |after| && after[i..] == before[i..]
    ensures after[j..] == before[j..]
  {
    assert before[j..] == before[i..][j - i..];
    assert after[j..] == after[i..][j - i..];
  }

  /** The zeros behind the valid bytes of a read. */
  method Pad(vol: Volume, node: Node, buffer: array<Byte>, size: nat, offset: nat, bytes: nat) returns (r: int)
    requires vol.Readable(node) && Apart(vol, buffer) && 0 < size <= buffer.Length && offset < node.size
    requires bytes == (if offset < node.validSize then node.validSize - offset else 0) < size
    requires buffer[..bytes] == vol.ContentOf(node)[offset..offset + bytes]
    modifies buffer
    ensures r == Min(size, node.size - offset)
    ensures buffer[..r] == vol.ContentOf(node)[offset..offset + r]
    ensures buffer[size..] == old(buffer[size..])
  {
    hide vol.ContentOf, DivRoundUp, Times, ValidChain;
    Zero(buffer, bytes, Min(size - bytes, node.size - node.validSize), size);
    r := Min(size, node.size - offset);
    ContentZeros(vol, node);
    FrontAndZeros(bytes, buffer[..], vol.ContentOf(node), offset, r);
  }

  /** exfat_generic_pread: bytes below ValidDataLength from the clusters, zeros from there
      to the end of the file. */
  method Pread(vol: Volume, node: Node, buffer: array<Byte>, size: nat, offset: int) returns (r: int)
    requires vol.Valid() && node in vol.chains && Apart(vol, buffer) && size <= buffer.Length
    modifies buffer, node`fptrIndex, node`fptrCluster
    ensures vol.Valid() && vol.Readable(node)
    ensures offset < 0 ==> r == -EINVAL
    ensures offset >= 0 ==> r == (if offset >= node.size then 0 else Min(size, node.size - offset))
    ensures r >= 0 ==> offset >= 0 && (r > 0 ==> buffer[..r] == vol.ContentOf(node)[offset..offset + r])
    ensures buffer[size..] == old(buffer[size..])
    decreases if offset >= 0 && offset + size > node.validSize then 1 else 0
  {
    hide vol.OwnedClusters, RecordedIn, Terminated, vol.ContentOf, DivRoundUp, Times, ValidChain;
    vol.ValidReadable();
    if offset < 0 {
      return -EINVAL;
    }
    if offset >= node.size {
      return 0;
    }
    if size == 0 {
      return 0;
    }
    if offset + size > node.validSize {
      var bytes := 0;
      if offset < node.validSize {
        bytes := Pread(vol, node, buffer, node.validSize - offset, offset);
        if bytes < 0 || bytes < node.validSize - offset {
          return bytes;
        }
      }
      SuffixKept(old(buffer[..]), buffer[..], bytes, size);
      r := Pad(vol, node, buffer, size, offset, bytes);
      return;
    }
    ReadValid(vol, node, buffer, size, offset);
    r := Min(size, node.size - offset);
  }

  lemma ContentZeros(vol: Volume, node: Node)
    requires vol.Readable(node)
    ensures forall k :: node.validSize <= k < node.size ==> vol.ContentOf(node)[k] == 0
  {
  }

  /** One round of the write loop. */
  method WriteStep(vol: Volume, node: Node, cluster: nat, loffset: nat, data: seq<Byte>, bufp: nat, remainder: nat,
                   ghost offset: nat, ghost k: nat, ghost before: seq<Byte>)
    returns (lsize: nat, next: nat)
    requires vol.OwnedClusters() && vol.Recorded(node) && vol.Readable(node)
    requires 0 < remainder && bufp + remainder == |data| && offset + |data| <= node.size
    requires At(vol, node, offset + bufp, k, cluster, loffset)
    requires Written(before, vol.heap[..], vol.clusterSize, vol.clusterCount, vol.chains[node], offset, data[..bufp])
    modifies vol.heap
    ensures 0 < lsize <= remainder
    ensures Written(before, vol.heap[..], vol.clusterSize, vol.clusterCount, vol.chains[node], offset, data[..bufp + lsize])
    ensures lsize < remainder ==> At(vol, node, offset + bufp + lsize, k + 1, next, 0)
  {
    hide vol.OwnedClusters, Linked, At, Written, DivRoundUp, Times;
    ghost var pos := offset + bufp;
    ghost var chain := vol.chains[node];
    AtFacts(vol, node, pos, k, cluster, loffset);
    if !ValidCluster(vol.clusterCount, cluster) {
      assert false;
    }
    lsize := Min(vol.clusterSize - loffset, remainder);
    WrittenStep(before, vol.heap[..], vol.clusterSize, vol.clusterCount, chain, offset,
                data[..bufp], data[bufp..bufp + lsize], k, loffset);
    vol.StoreBytes(cluster, loffset, data[bufp..bufp + lsize]);
    assert data[..bufp] + data[bufp..bufp + lsize] == data[..bufp + lsize];
    if k + 1 < |chain| {
      LinkAt(vol.fat[..], node.isContiguous, node.startCluster, chain, k + 1);
    }
    next := vol.Next(node, cluster);
    if lsize < remainder {
      NextAt(vol, node, pos, k, cluster, loffset, lsize, next);
    }
  }

  /** The write loop: everything written lies inside the file. */
  method WriteLoop(vol: Volume, node: Node, data: seq<Byte>, offset: nat)
    requires vol.OwnedClusters() && vol.Recorded(node) && vol.Readable(node)
    requires data != [] && offset + |data| <= node.size
    modifies vol.heap, node`fptrIndex, node`fptrCluster, node`validSize
    ensures vol.Recorded(node) && vol.Readable(node) && vol.OwnedClusters()
    ensures Written(old(vol.heap[..]), vol.heap[..], vol.clusterSize, vol.clusterCount, vol.chains[node], offset, data)
    ensures node.validSize == Max(old(node.validSize), offset + |data|)
  {
    hide vol.OwnedClusters, vol.Recorded, Written, At;
    WrittenNothing(vol.heap[..], vol.clusterSize, vol.clusterCount, vol.chains[node], offset);
    var cluster, loffset, k := StartTransfer(vol, node, offset);
    var remainder: nat, bufp: nat := |data|, 0;
    while remainder > 0
      invariant bufp + remainder == |data|
      invariant vol.Recorded(node) && vol.OwnedClusters() && vol.Readable(node)
      invariant remainder > 0 ==> At(vol, node, offset + bufp, k, cluster, loffset)
      invariant Written(old(vol.heap[..]), vol.heap[..], vol.clusterSize, vol.clusterCount, vol.chains[node], offset, data[..bufp])
      invariant node.validSize == if bufp == 0 then old(node.validSize) else Max(old(node.validSize), offset + bufp)
    {
      var lsize, next := WriteStep(vol, node, cluster, loffset, data, bufp, remainder, offset, k, old(vol.heap[..]));
      cluster, k := next, k + 1;
      bufp := bufp + lsize;
      loffset := 0;
      remainder := remainder - lsize;
      node.validSize := Max(node.validSize, offset + |data| - remainder);
    }
    assert data[..bufp] == data;
  }

  /** The write loop keeps the invariant and writes the file's own clusters only. */
  method WriteInside(vol: Volume, node: Node, data: seq<Byte>, offset: nat)
    requires vol.Valid() && node in vol.chains
    requires data != [] && offset + |data| <= node.size
    modifies vol.heap, node`fptrIndex, node`fptrCluster, node`validSize
    ensures vol.Valid() && vol.Readable(node)
    ensures node.validSize == Max(old(node.validSize), offset + |data|) && vol.FreeCount() == old(vol.FreeCount())
    ensures old(vol.Readable(node)) &&
            (vol.ContentOf(node) == Overlaid(old(vol.ContentOf(node)), offset, data) <==> old(vol.CleanTo(node, offset)))
    ensures forall m :: m in vol.chains && m != node ==>
              old(vol.Readable(m)) && vol.Readable(m) && vol.ContentOf(m) == old(vol.ContentOf(m))
    ensures vol.bitmap[..] == old(vol.bitmap[..])
  {
    hide vol.OwnedClusters, RecordedIn, Terminated, DivRoundUp, Times, ValidChain, Content, GapClean;
    vol.ValidReadable();
    ghost var heap0, valid0 := vol.heap[..], node.validSize;
    WriteLoop(vol, node, data, offset);
    WrittenContent(heap0, vol.heap[..], vol.clusterSize, vol.clusterCount, vol.chains[node], node.size, valid0, offset, data);
    vol.OthersContent(node, heap0);
  }

  /** The first truncation of a write: up to its offset, with zeros. */
  method ExtendToOffset(vol: Volume, node: Node, offset: nat) returns (rc: int)
    requires vol.Valid() && node in vol.chains && vol.Fits(offset)
    modifies vol`chains, vol`bitmapDirty, vol.bitmap, vol.fat, vol.heap, node
    ensures vol.Valid() && vol.chains.Keys == old(vol.chains).Keys
    ensures forall m :: m in vol.chains ==> old(vol.Readable(m)) && vol.Readable(m)
    ensures rc == 0 || rc == -ENOSPC
    ensures rc == 0 <==> vol.Clusters(Max(old(node.size), offset)) <= old(|vol.chains[node]| + vol.FreeCount())
    ensures rc == 0 ==> node.size == Max(old(node.size), offset)
    ensures vol.ContentOf(node) == Resized(old(vol.ContentOf(node)), node.size)
    ensures vol.CleanTo(node, offset) <==> old(vol.CleanTo(node, offset))
    ensures rc == 0 ==> node.validSize == if offset > old(node.size) then offset else old(node.validSize)
    ensures rc != 0 ==> node.size == old(node.size) && node.validSize == old(node.validSize)
    ensures vol.FreeCount() + |vol.chains[node]| == old(vol.FreeCount() + |vol.chains[node]|)
    ensures forall m :: m in vol.chains && m != node ==>
              vol.chains[m] == old(vol.chains)[m] && vol.ContentOf(m) == old(vol.ContentOf(m))
    ensures (old(vol.bitmapDirty) ==> vol.bitmapDirty) && (vol.bitmapDirty || vol.bitmap[..] == old(vol.bitmap[..]))
    ensures (old(node.isDirty) ==> node.isDirty) && (node.isDirty || (node.size == old(node.size) && node.validSize == old(node.validSize)))
  {
    hide vol.OwnedClusters, vol.Recorded, vol.Closed, vol.ContentOf, vol.FreeCount, vol.Fits, Content, ValidChain;
    vol.ValidReadable();
    ResizedTwice(vol.ContentOf(node), 0, 0);
    rc := 0;
    if offset > node.size {
      rc := vol.Truncate(node, offset, true);
    }
  }

  /** The second truncation of a write: up to its end, leaving ValidDataLength alone. */
  method ExtendToEnd(vol: Volume, node: Node, end: nat, ghost offset: nat) returns (rc: int)
    requires vol.Valid() && node in vol.chains && vol.Fits(end) && offset <= node.size
    modifies vol`chains, vol`bitmapDirty, vol.bitmap, vol.fat, vol.heap, node
    ensures vol.Valid() && vol.chains.Keys == old(vol.chains).Keys
    ensures forall m :: m in vol.chains ==> old(vol.Readable(m)) && vol.Readable(m)
    ensures rc == 0 || rc == -ENOSPC
    ensures rc == 0 <==> vol.Clusters(Max(old(node.size), end)) <= old(|vol.chains[node]| + vol.FreeCount())
    ensures node.size == if rc == 0 then Max(old(node.size), end) else old(node.size)
    ensures vol.ContentOf(node) == Resized(old(vol.ContentOf(node)), node.size)
    ensures vol.CleanTo(node, offset) <==> old(vol.CleanTo(node, offset))
    ensures node.validSize == old(node.validSize)
    ensures vol.FreeCount() + |vol.chains[node]| == old(vol.FreeCount() + |vol.chains[node]|)
    ensures forall m :: m in vol.chains && m != node ==>
              vol.chains[m] == old(vol.chains)[m] && vol.ContentOf(m) == old(vol.ContentOf(m))
    ensures (old(vol.bitmapDirty) ==> vol.bitmapDirty) && (vol.bitmapDirty || vol.bitmap[..] == old(vol.bitmap[..]))
    ensures (old(node.isDirty) ==> node.isDirty) && (node.isDirty || (node.size == old(node.size) && node.validSize == old(node.validSize)))
  {
    hide vol.OwnedClusters, vol.Recorded, vol.Closed, vol.ContentOf, vol.FreeCount, vol.Fits, Content, ValidChain;
    vol.ValidReadable();
    ResizedTwice(vol.ContentOf(node), 0, 0);
    ghost var chain, size0, valid0 := vol.chains[node], node.size, node.validSize;
    DivRoundUpMonotone(size0, Max(size0, end), vol.clusterSize);
    rc := 0;
    if end > node.size {
      rc := vol.Truncate(node, end, false);
      if rc == 0 {
        GapCleanPrefix(vol.heap[..], vol.clusterSize, vol.clusterCount, chain, vol.chains[node], size0, valid0, offset);
      }
    }
  }

  /** Both truncations: the file reaches the end of the write, or space ran out - in which
      case it may already have been extended to the offset. */
  method MakeRoom(vol: Volume, node: Node, n: nat, offset: nat) returns (rc: int)
    requires vol.Valid() && node in vol.chains && vol.Fits(offset + n)
    modifies vol`chains, vol`bitmapDirty, vol.bitmap, vol.fat, vol.heap, node
    ensures vol.Valid() && vol.chains.Keys == old(vol.chains).Keys
    ensures forall m :: m in vol.chains ==> old(vol.Readable(m)) && vol.Readable(m)
    ensures rc == 0 || rc == -ENOSPC
    ensures rc == 0 <==> vol.Clusters(Max(old(node.size), offset + n)) <= old(|vol.chains[node]| + vol.FreeCount())
    ensures node.size == if rc == 0 then Max(old(node.size), offset + n)
                         else if vol.Clusters(offset) <= old(|vol.chains[node]| + vol.FreeCount())
                         then Max(old(node.size), offset) else old(node.size)
    ensures vol.ContentOf(node) == Resized(old(vol.ContentOf(node)), node.size)
    ensures rc == 0 ==> (vol.CleanTo(node, offset) <==> old(vol.CleanTo(node, offset)))
    ensures node.validSize == if node.size > old(node.size) && offset > old(node.size) then offset else old(node.validSize)
    ensures rc != 0 && offset <= old(node.size) ==> node.size == old(node.size)
    ensures vol.FreeCount() + |vol.chains[node]| == old(vol.FreeCount() + |vol.chains[node]|)
    ensures forall m :: m in vol.chains && m != node ==>
              vol.chains[m] == old(vol.chains)[m] && vol.ContentOf(m) == old(vol.ContentOf(m))
    ensures (old(vol.bitmapDirty) ==> vol.bitmapDirty) && (vol.bitmapDirty || vol.bitmap[..] == old(vol.bitmap[..]))
    ensures (old(node.isDirty) ==> node.isDirty) && (node.isDirty || (node.size == old(node.size) && node.validSize == old(node.validSize)))
  {
    hide vol.Valid, vol.Readable, vol.ContentOf, vol.FreeCount, vol.Fits, vol.Clusters, vol.CleanTo, Resized;
    vol.ValidReadable();
    ReadableFacts(vol, node);
    ClustersMonotone(vol, offset, offset + n);
    ClustersMonotone(vol, node.size, offset);
    ClustersMonotone(vol, node.size, offset + n);
    ClustersMonotone(vol, offset + n, node.size);
    ResizedTwice(vol.ContentOf(node), offset, offset + n);
    rc := ExtendToOffset(vol, node, offset);
    if rc != 0 {
      return;
    }
    rc := ExtendToEnd(vol, node, offset + n, offset);
  }

  lemma ClustersMonotone(vol: Volume, a: nat, b: nat)
    requires vol.clusterSize > 0
    ensures a <= b ==> vol.Clusters(a) <= vol.Clusters(b)
    ensures a <= b && vol.Fits(b) ==> vol.Fits(a)
  {
    if a <= b {
      DivRoundUpMonotone(a, b, vol.clusterSize);
    }
  }

  /** A write without a gap uncovers nothing, on every medium. */
  lemma SafeWrite(vol: Volume, node: Node, offset: nat, data: seq<Byte>)
    requires vol.Readable(node) && NoGap(node.size, node.validSize, offset, data)
    ensures data == [] || vol.CleanTo(node, offset)
  {
  }

  /** ValidDataLength after a write: raised to the offset by the extension, and to the end of
      the data by the writing. */
  function ValidAfter(size: nat, valid: nat, size': nat, offset: int, n: nat, r: int): nat {
    if offset < 0 then valid
    else
      var v := if size' > size && offset > size then offset else valid;
      if r > 0 then Max(v, offset + n) else v
  }

  /** exfat_update_mtime */
  method UpdateMtime(vol: Volume, node: Node)
    requires vol.Valid() && node in vol.chains
    modifies node`isDirty
    ensures vol.Valid() && node.isDirty
    ensures forall m :: m in vol.chains ==> vol.Readable(m)
  {
    node.isDirty := true;
    vol.ValidReadable();
  }

  /** The write loop, and the new modification time of a file. */
  method WriteAndStamp(vol: Volume, node: Node, data: seq<Byte>, offset: nat)
    requires vol.Valid() && node in vol.chains
    requires data != [] && offset + |data| <= node.size
    modifies vol.heap, node`fptrIndex, node`fptrCluster, node`validSize, node`isDirty
    ensures vol.Valid() && vol.Readable(node)
    ensures node.validSize == Max(old(node.validSize), offset + |data|) && vol.FreeCount() == old(vol.FreeCount())
    ensures old(vol.Readable(node)) &&
            (vol.ContentOf(node) == Overlaid(old(vol.ContentOf(node)), offset, data) <==> old(vol.CleanTo(node, offset)))
    ensures forall m :: m in vol.chains && m != node ==>
              old(vol.Readable(m)) && vol.Readable(m) && vol.ContentOf(m) == old(vol.ContentOf(m))
    ensures vol.bitmap[..] == old(vol.bitmap[..]) && node.isDirty == (old(node.isDirty) || !node.directory)
  {
    hide vol.ContentOf, vol.CleanTo, vol.Recorded, vol.Closed, vol.Sized, vol.OwnedClusters, vol.FreeCount;
    WriteInside(vol, node, data, offset);
    if !node.directory {
      UpdateMtime(vol, node);
    }
  }

  /** exfat_generic_pwrite: extend the file if needed, then write through the chain. */
  method Pwrite(vol: Volume, node: Node, data: seq<Byte>, offset: int) returns (r: int)
    requires vol.Valid() && node in vol.chains
    requires offset >= 0 ==> vol.Fits(offset + |data|)
    modifies vol`chains, vol`bitmapDirty, vol.bitmap, vol.fat, vol.heap, node
    ensures vol.Valid() && vol.chains.Keys == old(vol.chains).Keys
    ensures forall m :: m in vol.chains ==> old(vol.Readable(m)) && vol.Readable(m)
    ensures offset < 0 ==> r == -EINVAL && vol.ContentOf(node) == old(vol.ContentOf(node)) && vol.chains == old(vol.chains)
    ensures offset >= 0 ==> r == |data| || r == -ENOSPC
    ensures offset >= 0 ==>
              (r >= 0 <==> vol.Clusters(Max(old(node.size), offset + |data|)) <= old(|vol.chains[node]| + vol.FreeCount()))
    ensures offset >= 0 && r >= 0 ==>
              (vol.ContentOf(node) == Overlaid(old(vol.ContentOf(node)), offset, data)
               <==> |data| == 0 || old(vol.CleanTo(node, offset)))
    ensures offset >= 0 && r >= 0 && NoGap(old(node.size), old(node.validSize), offset, data) ==>
              vol.ContentOf(node) == Overlaid(old(vol.ContentOf(node)), offset, data)
    ensures offset >= 0 && r < 0 ==>
              vol.ContentOf(node) == Resized(old(vol.ContentOf(node)),
                if offset > old(node.size) && vol.Clusters(offset) <= old(|vol.chains[node]| + vol.FreeCount())
                then offset else old(node.size))
    ensures node.validSize == ValidAfter(old(node.size), old(node.validSize), node.size, offset, |data|, r)
    ensures old(node.validSize == node.size) ==> node.validSize == node.size
    ensures vol.FreeCount() + |vol.chains[node]| == old(vol.FreeCount() + |vol.chains[node]|)
    ensures forall m :: m in vol.chains && m != node ==>
              vol.chains[m] == old(vol.chains)[m] && vol.ContentOf(m) == old(vol.ContentOf(m))
    ensures (old(vol.bitmapDirty) ==> vol.bitmapDirty) && (vol.bitmapDirty || vol.bitmap[..] == old(vol.bitmap[..]))
    ensures (old(node.isDirty) ==> node.isDirty) && (!node.directory && r > 0 ==> node.isDirty)
    ensures node.isDirty || node.size == old(node.size)
  {
    hide vol.Valid, vol.Readable, vol.ContentOf, vol.CleanTo, vol.FreeCount, vol.Fits, vol.Clusters;
    vol.ValidReadable();
    if offset < 0 {
      return -EINVAL;
    }
    if NoGap(node.size, node.validSize, offset, data) {
      SafeWrite(vol, node, offset, data);
    }
    OverlaidResized(vol.ContentOf(node), offset, data);
    var rc := MakeRoom(vol, node, |data|, offset);
    if rc != 0 {
      return rc;
    }
    if |data| == 0 {
      return 0;
    }
    WriteAndStamp(vol, node, data, offset);
    r := |data|;
  }
}
