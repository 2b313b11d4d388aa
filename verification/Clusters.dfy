/** The mounted volume: the cluster allocator, the seek cache, growing, shrinking and
    truncating files, and byte-level reads and writes through the cluster chains. */
module Clusters {
  import opened Arith
  import opened ClusterBitmap
  import opened Chain
  import opened FileBytes
  import opened Common

  const ENOSPC: int := 28
  const EIO: int := 5
  const EINVAL: int := 22
  /** What a call that ends in exfat_bug, which does not come back, gives here. */
  const BUG: int := 1

  /** exfat_mount refuses clusters larger than 32 MB. */
  const MAX_CLUSTER_SIZE: nat := 0x200_0000

  /** bytes2clusters: a 64-bit division whose quotient is narrowed to 32 bits. */
  function Bytes2Clusters(cs: nat, bytes: nat): nat
    requires cs > 0
  {
    (bytes + cs - 1) % 0x1_0000_0000_0000_0000 / cs % 0x1_0000_0000
  }

  /** The narrowing is harmless exactly when the true count fits in 32 bits. */
  lemma NarrowingHarmless(cs: nat, bytes: nat)
    requires 0 < cs <= MAX_CLUSTER_SIZE && bytes < 0x1_0000_0000_0000_0000
    ensures Bytes2Clusters(cs, bytes) == DivRoundUp(bytes, cs) <==> DivRoundUp(bytes, cs) < 0x1_0000_0000
  {
    var x := bytes + cs - 1;
    if x < 0x1_0000_0000_0000_0000 {
      assert x % 0x1_0000_0000_0000_0000 == x;
    } else {
      assert 0x1_0000_0000 * cs <= 0x1_0000_0000 * MAX_CLUSTER_SIZE <= x;
      DivAtLeast(x, cs, 0x1_0000_0000);
    }
  }

  /** A size that needs 2^32 clusters is taken for one that needs none. */
  lemma NarrowingExample()
    ensures Bytes2Clusters(4096, 0x1000_0000_0000) == 0 != DivRoundUp(0x1000_0000_0000, 4096)
  {
  }

  /** The cluster-related fields of struct exfat_node. */
  class Node {
    var startCluster: nat
    var size: nat
    var validSize: nat
    var isContiguous: bool
    var isDirty: bool
    var fptrIndex: nat
    var fptrCluster: nat
    const directory: bool

    /** allocate_node and init_node_meta2 for a new, empty entry. */
    constructor (directory: bool)
      ensures this.directory == directory
      ensures startCluster == CLUSTER_FREE && size == 0 && validSize == 0
      ensures fptrIndex == 0 && fptrCluster == CLUSTER_FREE && !isContiguous
    {
      startCluster, size, validSize := CLUSTER_FREE, 0, 0;
      this.directory := directory;
      isContiguous, isDirty := false, false;
      fptrIndex, fptrCluster := 0, CLUSTER_FREE;
    }
  }

  /** The links of a node, as the FAT contents `f` give them, spell out its chain, and
      its seek cache is on the chain. */
  ghost predicate RecordedIn(f: seq<nat>, n: Node, chain: seq<nat>)
    reads n`isContiguous, n`startCluster, n`fptrIndex, n`fptrCluster
  {
    && Linked(f, n.isContiguous, n.startCluster, chain)
    && (if chain == [] then n.fptrIndex == 0 && n.fptrCluster == CLUSTER_FREE
        else n.fptrIndex < |chain| && n.fptrCluster == chain[n.fptrIndex])
  }

  class Volume {
    const clusterSize: nat
    const clusterCount: nat
    const bitmap: array<bv8>
    const fat: array<nat>
    const heap: array<Byte>
    /** clusters of the bitmap file and the up-case table */
    ghost const system: set<nat>
    /** the chain of every known node */
    ghost var chains: map<Node, seq<nat>>
    var bitmapDirty: bool

    /** The fields of a volume as mounting fills them. */
    constructor (clusterSize: nat, clusterCount: nat, bitmap: array<bv8>, fat: array<nat>, heap: array<Byte>,
                 ghost system: set<nat>, ghost chains: map<Node, seq<nat>>)
      ensures this.clusterSize == clusterSize && this.clusterCount == clusterCount
      ensures this.bitmap == bitmap && this.fat == fat && this.heap == heap
      ensures this.system == system && this.chains == chains && !bitmapDirty
    {
      this.clusterSize, this.clusterCount := clusterSize, clusterCount;
      this.bitmap, this.fat, this.heap := bitmap, fat, heap;
      this.system, this.chains, this.bitmapDirty := system, chains, false;
    }

    ghost predicate Shape() {
      && 0 < clusterSize <= MAX_CLUSTER_SIZE
      && clusterCount + FIRST_DATA_CLUSTER == fat.Length
      && clusterCount < CLUSTER_END - 8
      && clusterCount <= 8 * bitmap.Length
      && heap.Length == Times(clusterCount, clusterSize)
      && bitmap as object != heap && fat as object != heap && bitmap as object != fat
    }

    /** exfat_next_cluster. */
    function Next(node: Node, cluster: nat): nat
      requires cluster < fat.Length
      reads node, fat
    {
      if node.isContiguous then cluster + 1 else fat[cluster]
    }

    ghost predicate OwnedClusters()
      reads this, bitmap
    {
      Owned(chains, system, bitmap[..], clusterCount)
    }

    ghost predicate Recorded(n: Node)
      reads this, fat, n`isContiguous, n`startCluster, n`fptrIndex, n`fptrCluster
    {
      n in chains && RecordedIn(fat[..], n, chains[n])
    }

    ghost predicate Closed(n: Node)
      requires Recorded(n)
      reads this, fat, n`isContiguous, n`startCluster, n`fptrIndex, n`fptrCluster
    {
      Terminated(fat[..], n.isContiguous, chains[n])
    }

    ghost predicate OthersRecordedIn(f: seq<nat>, node: Node)
      reads this, chains.Keys
    {
      forall m :: m in chains && m != node ==> RecordedIn(f, m, chains[m]) && Terminated(f, m.isContiguous, chains[m])
    }

    ghost predicate OthersRecorded(node: Node)
      reads this, fat, chains.Keys
    {
      OthersRecordedIn(fat[..], node)
    }

    /** A node whose entry set would be written differently is dirty, and stays so. */
    ghost predicate Marked(node: Node, start: nat, contiguous: bool, dirty: bool)
      reads node`startCluster, node`isContiguous, node`isDirty
    {
      (dirty ==> node.isDirty) && (node.isDirty || (node.startCluster == start && node.isContiguous == contiguous))
    }

    /** A bitmap that has changed is dirty, and stays so until it is flushed. */
    ghost predicate Noted(before: seq<bv8>, dirty: bool)
      reads this`bitmapDirty, bitmap
    {
      (dirty ==> bitmapDirty) && (bitmapDirty || bitmap[..] == before)
    }

    ghost predicate BitsPastEndKept(before: seq<bv8>)
      reads this, bitmap
    {
      && |before| == bitmap.Length
      && forall i: nat | clusterCount <= i < 8 * bitmap.Length :: Bit(bitmap[..], i) == Bit(before, i)
    }

    /** FAT entries written inside the chains of one node leave the others recorded. */
    lemma OthersFrame(node: Node, f: seq<nat>, touched: seq<nat>)
      requires |f| == fat.Length && OthersRecordedIn(f, node)
      requires forall m :: m in chains && m != node ==> Disjoint(chains[m], touched)
      requires forall c :: 0 <= c < fat.Length && c !in touched ==> fat[c] == f[c]
      ensures OthersRecorded(node)
    {
      forall m | m in chains && m != node
        ensures RecordedIn(fat[..], m, chains[m]) && Terminated(fat[..], m.isContiguous, chains[m])
      {
        FatFrame(f, fat[..], m.isContiguous, m.startCluster, chains[m]);
      }
    }

    /** The links of the node lead through these clusters: its chain, or, when the node is
        contiguous, the chain and any number of the clusters behind it. */
    ghost predicate Leads(node: Node, w: seq<nat>)
      reads this, fat, node`isContiguous, node`startCluster, node`fptrIndex, node`fptrCluster
    {
      ValidChain(w, clusterCount) && RecordedIn(fat[..], node, w)
    }

    /** ... and no further. */
    ghost predicate Stops(node: Node, w: seq<nat>)
      requires fat.Length == clusterCount + FIRST_DATA_CLUSTER && ValidChain(w, clusterCount)
      reads this, fat, node`isContiguous
    {
      w != [] ==> !ValidCluster(clusterCount, NextCluster(fat[..], node.isContiguous, w[|w| - 1]))
    }

    lemma LinksOn(node: Node, w: seq<nat>, k: nat)
      requires Shape() && ValidChain(w, clusterCount) && k < |w|
      requires Linked(fat[..], node.isContiguous, node.startCluster, w)
      ensures ValidCluster(clusterCount, w[k])
      ensures k + 1 < |w| ==>
        NextCluster(fat[..], node.isContiguous, w[k]) == w[k + 1] && ValidCluster(clusterCount, w[k + 1])
    {
      if k + 1 < |w| {
        LinkAt(fat[..], node.isContiguous, node.startCluster, w, k + 1);
      }
    }

    /** exfat_advance_cluster: walk forward from the cached position, or from the start
        when the cache is past the target. */
    method AdvanceCluster(node: Node, count: nat, ghost w: seq<nat>) returns (r: nat)
      requires Shape() && Leads(node, w)
      requires count < |w| || (Stops(node, w) && (w != [] || count == 0))
      modifies node`fptrIndex, node`fptrCluster
      ensures node.fptrIndex == count && node.fptrCluster == r
      ensures count < |w| ==> r == w[count] && Leads(node, w)
      ensures count >= |w| ==> !ValidCluster(clusterCount, r) && (w == [] ==> Leads(node, w))
    {
      hide Linked, ValidChain;
      if node.fptrIndex > count {
        StartOf(fat[..], node.isContiguous, node.startCluster, w);
        node.fptrIndex := 0;
        node.fptrCluster := node.startCluster;
      }
      var i := node.fptrIndex;
      while i < count
        invariant node.fptrIndex <= i <= count
        invariant i < |w| || count == 0
        invariant if i < |w| then node.fptrCluster == w[i] else node.fptrCluster == CLUSTER_FREE
        modifies node`fptrCluster
      {
        LinksOn(node, w, i);
        node.fptrCluster := Next(node, node.fptrCluster);
        i := i + 1;
        if !ValidCluster(clusterCount, node.fptrCluster) {
          break;
        }
      }
      node.fptrIndex := count;
      return node.fptrCluster;
    }

    lemma OwnedChain(node: Node)
      requires OwnedClusters() && node in chains
      ensures ValidChain(chains[node], clusterCount)
    {
    }

    /** allocate_cluster: the lowest free cluster at or after the hint, else the lowest. */
    method AllocateCluster(hint: nat) returns (cluster: nat)
      requires Shape() && hint < 0x1_0000_0000
      modifies bitmap, this`bitmapDirty
      ensures Noted(old(bitmap[..]), old(bitmapDirty))
      ensures cluster != CLUSTER_END ==> bitmapDirty
      ensures cluster == CLUSTER_END ==> bitmap[..] == old(bitmap[..]) && ClearBits(bitmap[..], clusterCount) == 0
      ensures cluster != CLUSTER_END ==>
                && ValidCluster(clusterCount, cluster)
                && !Bit(old(bitmap[..]), cluster - FIRST_DATA_CLUSTER)
                && bitmap[..] == WithBit(old(bitmap[..]), cluster - FIRST_DATA_CLUSTER, true)
      ensures cluster != CLUSTER_END && FIRST_DATA_CLUSTER <= hint <= cluster ==>
                forall i: nat | hint <= i + FIRST_DATA_CLUSTER < cluster :: Bit(old(bitmap[..]), i)
      ensures cluster != CLUSTER_END && !(FIRST_DATA_CLUSTER <= hint <= cluster) ==>
                forall i: nat | i + FIRST_DATA_CLUSTER < cluster :: Bit(old(bitmap[..]), i)
    {
      hide Bit, WithBit;
      // the subtraction is unsigned: a hint below 2 becomes a large number
      var index := (hint + 0x1_0000_0000 - FIRST_DATA_CLUSTER) % 0x1_0000_0000;
      if index >= clusterCount {
        index := 0;
      }
      cluster := FindBitAndSet(bitmap, index, clusterCount);
      if cluster == CLUSTER_END {
        cluster := FindBitAndSet(bitmap, 0, index);
      }
      if cluster == CLUSTER_END {
        NoClearBits(bitmap[..], clusterCount);
        return CLUSTER_END;
      }
      bitmapDirty := true;
    }

    /** free_cluster. */
    method FreeCluster(cluster: nat)
      requires Shape() && ValidCluster(clusterCount, cluster)
      modifies bitmap, this`bitmapDirty
      ensures bitmapDirty
      ensures bitmap[..] == WithBit(old(bitmap[..]), cluster - FIRST_DATA_CLUSTER, false)
    {
      hide Has, Put;
      var i := cluster - FIRST_DATA_CLUSTER;
      bitmap[i / 8] := Put(bitmap[i / 8], i % 8, false);
      bitmapDirty := true;
    }

    /** set_next_cluster: nothing to write for a contiguous file. */
    method SetNextCluster(contiguous: bool, current: nat, next: nat)
      requires current < fat.Length
      modifies fat
      ensures fat[..] == if contiguous then old(fat[..]) else old(fat[..])[current := next]
    {
      if contiguous {
        return;
      }
      fat[current] := next;
    }

    /** Part-way through shrink_file: `kept` is already a closed chain, and the links of
        the clusters still to be freed, `rest[j..]`, can be followed. */
    ghost predicate Freeing(node: Node, kept: seq<nat>, rest: seq<nat>, j: nat)
      reads this, fat, node
    {
      && j <= |rest|
      && node in chains
      && chains[node] == kept + rest[j..]
      && Linked(fat[..], node.isContiguous, node.startCluster, kept)
      && Terminated(fat[..], node.isContiguous, kept)
      && (forall i :: 0 <= i < |rest| ==> rest[i] < fat.Length)
      && (forall i :: j <= i < |rest| - 1 ==> Follows(fat[..], node.isContiguous, rest, i))
    }

    /** The chain of one node is disjoint from all the others. */
    lemma OwnedDisjoint(node: Node)
      requires OwnedClusters() && node in chains
      ensures forall m :: m in chains && m != node ==> Disjoint(chains[m], chains[node])
    {
    }

    /** One round of the freeing loop: read the next link, clear the FAT entry and the bit. */
    method FreeFirst(node: Node, previous: nat, ghost kept: seq<nat>, ghost rest: seq<nat>, ghost j: nat)
      returns (next: nat)
      requires Shape() && OwnedClusters() && Freeing(node, kept, rest, j)
      requires forall i :: 0 <= i < |kept| ==> kept[i] != previous
      requires forall i :: j < i < |rest| ==> rest[i] != previous
      requires j < |rest| && previous == rest[j] && ValidCluster(clusterCount, previous)
      modifies this`chains, this`bitmapDirty, bitmap, fat
      ensures bitmapDirty
      ensures OwnedClusters() && Freeing(node, kept, rest, j + 1)
      ensures chains == old(chains)[node := kept + rest[j + 1..]]
      ensures j + 1 < |rest| ==> next == rest[j + 1]
      ensures bitmap[..] == WithBit(old(bitmap[..]), previous - FIRST_DATA_CLUSTER, false)
      ensures Bit(old(bitmap[..]), previous - FIRST_DATA_CLUSTER)
      ensures forall c :: 0 <= c < fat.Length && c != previous ==> fat[c] == old(fat[c])
    {
      hide Owned, Bit, WithBit, ValidChain, Linked, Terminated, Without;
      assert chains[node][|kept|] == previous;
      WithoutFirst(kept, rest, j);
      OwnedBitSet(node, |kept|);
      ReleaseKeepsOwned(chains, system, bitmap[..], clusterCount, node, |kept|);
      next := Next(node, previous);
      if j + 1 < |rest| {
        assert Follows(fat[..], node.isContiguous, rest, j);
      }
      SetNextCluster(node.isContiguous, previous, CLUSTER_FREE);
      assert fat[..] == if node.isContiguous then old(fat[..]) else old(fat[..])[previous := CLUSTER_FREE];
      FreeCluster(previous);
      chains := chains[node := kept + rest[j + 1..]];
      FreeStep(old(fat[..]), fat[..], node.isContiguous, node.startCluster, kept, rest, j);
    }

    lemma OwnedBitSet(node: Node, k: nat)
      requires OwnedClusters() && node in chains && k < |chains[node]|
      ensures ValidCluster(clusterCount, chains[node][k])
      ensures Bit(bitmap[..], chains[node][k] - FIRST_DATA_CLUSTER)
    {
      var c := chains[node][k];
      assert c in chains[node];
      assert InSomeChain(chains, c);
      assert InSomeChain(chains, (c - FIRST_DATA_CLUSTER) + FIRST_DATA_CLUSTER);
    }

    /** The freeing loop of shrink_file. */
    method FreeClusters(node: Node, first: nat, difference: nat, ghost kept: seq<nat>, ghost rest: seq<nat>)
      requires Shape() && OwnedClusters()
      requires Freeing(node, kept, rest, 0) && 0 < |rest| == difference && first == rest[0]
      modifies this`chains, this`bitmapDirty, bitmap, fat
      ensures bitmapDirty
      ensures OwnedClusters()
      ensures chains == old(chains)[node := kept]
      ensures Linked(fat[..], node.isContiguous, node.startCluster, kept)
      ensures Terminated(fat[..], node.isContiguous, kept)
      ensures ClearBits(bitmap[..], clusterCount) == old(ClearBits(bitmap[..], clusterCount)) + difference
      ensures BitsPastEndKept(old(bitmap[..]))
      ensures forall c :: 0 <= c < fat.Length && c !in rest ==> fat[c] == old(fat[c])
    {
      hide Owned, Bit, WithBit;
      assert chains[node] == kept + rest;
      OwnedChain(node);
      var previous := first;
      var j := 0;
      while j < difference
        invariant j <= difference
        invariant OwnedClusters()
        invariant Freeing(node, kept, rest, j)
        invariant chains == old(chains)[node := kept + rest[j..]]
        invariant j < difference ==> previous == rest[j]
        invariant j > 0 ==> bitmapDirty
        invariant ClearBits(bitmap[..], clusterCount) == old(ClearBits(bitmap[..], clusterCount)) + j
        invariant BitsPastEndKept(old(bitmap[..]))
        invariant forall c :: 0 <= c < fat.Length && c !in rest ==> fat[c] == old(fat[c])
      {
        FreedIsDistinct(kept, rest, j, clusterCount);
        if !ValidCluster(clusterCount, previous) {
          assert false;
        }
        ghost var bits := bitmap[..];
        previous := FreeFirst(node, previous, kept, rest, j);
        ClearBitsSet(bits, rest[j] - FIRST_DATA_CLUSTER, false, clusterCount);
        WithBitBits(bits, rest[j] - FIRST_DATA_CLUSTER, false);
        j := j + 1;
      }
      assert kept + rest[difference..] == kept;
    }

    /** The cropping half of shrink_file: end the chain early and find what follows. */
    method CropFile(node: Node, current: nat, difference: nat) returns (previous: nat)
      requires Shape() && OwnedClusters() && Recorded(node)
      requires 0 < difference <= current == |chains[node]|
      modifies fat, node`startCluster, node`isDirty, node`fptrIndex, node`fptrCluster
      ensures Freeing(node, chains[node][..current - difference], chains[node][current - difference..], 0)
      ensures previous == chains[node][current - difference]
      ensures node.fptrIndex == 0 && node.fptrCluster == node.startCluster
      ensures forall c :: 0 <= c < fat.Length && c !in chains[node] ==> fat[c] == old(fat[c])
      ensures node.isDirty == (old(node.isDirty) || current == difference)
      ensures current > difference ==> node.startCluster == old(node.startCluster)
    {
      hide Owned, Bit, Terminated, ValidChain, Linked, Follows, ClearBits, Freeing;
      OwnedChain(node);
      ghost var chain := chains[node];
      ghost var k := current - difference;
      LinkAt(fat[..], node.isContiguous, node.startCluster, chain, k);
      if current > difference {
        var last := AdvanceCluster(node, current - difference - 1, chain);
        OwnedBitSet(node, k - 1);
        if !ValidCluster(clusterCount, last) {
          assert false;
        }
        previous := Next(node, last);
        SetNextCluster(node.isContiguous, last, CLUSTER_END);
      } else {
        previous := node.startCluster;
        node.startCluster := CLUSTER_FREE;
        node.isDirty := true;
      }
      node.fptrIndex := 0;
      node.fptrCluster := node.startCluster;
      CropKeepsLinks(old(fat[..]), fat[..], node.isContiguous, old(node.startCluster), chain, k, clusterCount);
      FreeingStarts(node, chain, k);
    }

    lemma FreeingStarts(node: Node, chain: seq<nat>, k: nat)
      requires node in chains && chains[node] == chain && k <= |chain|
      requires Linked(fat[..], node.isContiguous, node.startCluster, chain[..k])
      requires Terminated(fat[..], node.isContiguous, chain[..k])
      requires forall i :: 0 <= i < |chain| - k ==> chain[k..][i] < fat.Length
      requires forall i :: 0 <= i < |chain| - k - 1 ==> Follows(fat[..], node.isContiguous, chain[k..], i)
      ensures Freeing(node, chain[..k], chain[k..], 0)
    {
      assert chain == chain[..k] + chain[k..][0..];
    }

    method ShrinkFile(node: Node, current: nat, difference: nat) returns (rc: int)
      requires Shape() && OwnedClusters() && Recorded(node) && OthersRecorded(node)
      requires 0 < difference <= current == |chains[node]|
      modifies this`chains, this`bitmapDirty, bitmap, fat
      modifies node`startCluster, node`isDirty, node`fptrIndex, node`fptrCluster
      ensures bitmapDirty
      ensures OwnedClusters() && OthersRecorded(node) && Recorded(node) && Closed(node)
      ensures chains == old(chains)[node := old(chains[node])[..current - difference]]
      ensures ClearBits(bitmap[..], clusterCount) == old(ClearBits(bitmap[..], clusterCount)) + difference
      ensures BitsPastEndKept(old(bitmap[..]))
      ensures node.fptrIndex == 0 && rc == 0
      ensures Marked(node, old(node.startCluster), old(node.isContiguous), old(node.isDirty))
      ensures current == difference ==> node.isDirty
    {
      hide Owned, Bit, WithBit, Linked, Terminated, ClearBits, Freeing, Follows;
      OwnedDisjoint(node);
      ghost var chain := chains[node];
      ghost var kept, rest := chain[..current - difference], chain[current - difference..];
      var previous := CropFile(node, current, difference);
      FreeClusters(node, previous, difference, kept, rest);
      assert OthersRecordedIn(old(fat[..]), node);
      OthersFrame(node, old(fat[..]), chain);
      StartOf(fat[..], node.isContiguous, node.startCluster, kept);
      return 0;
    }

    /** make_noncontiguous: write out the links of the implicit run [first, last]. */
    method MakeNoncontiguous(first: nat, last: nat)
      requires first <= last < fat.Length
      modifies fat
      ensures fat[..] == RunWritten(old(fat[..]), first, last)
    {
      ghost var before := fat[..];
      var c := first;
      while c < last
        invariant first <= c <= last
        invariant fat[..] == RunWritten(before, first, c)
      {
        SetNextCluster(false, c, c + 1);
        c := c + 1;
      }
    }

    /** The part of grow_file's loop that hooks an granted cluster to the end of the
        chain, giving up contiguity when the new cluster does not follow the last. */
    method LinkCluster(node: Node, previous: nat, next: nat, ghost chain: seq<nat>)
      requires Linked(fat[..], node.isContiguous, node.startCluster, chain)
      requires ValidChain(chain, clusterCount) && chain != [] && previous == chain[|chain| - 1]
      requires next !in chain && next < fat.Length
      modifies fat, node`isContiguous, node`isDirty
      ensures Linked(fat[..], node.isContiguous, node.startCluster, chain + [next])
      ensures node.isContiguous == (old(node.isContiguous) && next == previous + 1)
      ensures forall c :: 0 <= c < fat.Length && c !in chain ==> fat[c] == old(fat[c])
      ensures Marked(node, old(node.startCluster), old(node.isContiguous), old(node.isDirty))
    {
      hide Linked, ValidChain;
      LinkAt(fat[..], node.isContiguous, node.startCluster, chain, |chain| - 1);
      AppendKeepsLinks(fat[..], node.isContiguous, node.startCluster, chain, next, clusterCount);
      if next != previous + 1 && node.isContiguous {
        LinkAt(fat[..], node.isContiguous, node.startCluster, chain, 0);
        RunIsConsecutive(fat[..], node.startCluster, chain, |chain| - 1);
        MakeNoncontiguous(node.startCluster, previous);
        node.isContiguous := false;
        node.isDirty := true;
      }
      SetNextCluster(node.isContiguous, previous, next);
    }

    /** Part-way through grow_file: the chain starts with the clusters the file had, the
        bits and the FAT outside the chain are as they were, and `added` clusters are new. */
    ghost predicate Growing(node: Node, chain: seq<nat>, added: nat, f: seq<nat>, bits: seq<bv8>, free: nat)
      requires clusterCount <= 8 * bitmap.Length
      reads this, bitmap, fat, node
    {
      && OwnedClusters() && Recorded(node)
      && |chains[node]| == |chain| + added && chain <= chains[node]
      && node.fptrIndex == (if chain == [] then 0 else |chain| - 1)
      && |f| == fat.Length
      && (forall c :: 0 <= c < fat.Length && c !in chains[node] ==> fat[c] == f[c])
      && BitsPastEndKept(bits)
      && ClearBits(bitmap[..], clusterCount) + added == free
      && (added == 0 ==> Closed(node))
    }

    /** allocate_cluster and the bookkeeping of ownership for one more cluster of `node`. */
    method ClaimCluster(node: Node, hint: nat) returns (next: nat)
      requires Shape() && OwnedClusters() && node in chains && hint < 0x1_0000_0000
      modifies bitmap, this`bitmapDirty, this`chains
      ensures Noted(old(bitmap[..]), old(bitmapDirty))
      ensures OwnedClusters()
      ensures next == CLUSTER_END ==>
                && bitmap[..] == old(bitmap[..]) && chains == old(chains)
                && ClearBits(bitmap[..], clusterCount) == 0
      ensures next != CLUSTER_END ==>
                && ValidCluster(clusterCount, next)
                && next !in old(chains[node])
                && chains == old(chains)[node := old(chains[node]) + [next]]
                && ClearBits(bitmap[..], clusterCount) == old(ClearBits(bitmap[..], clusterCount)) - 1
      ensures BitsPastEndKept(old(bitmap[..]))
    {
      hide Owned, Bit, WithBit;
      next := AllocateCluster(hint);
      if next != CLUSTER_END {
        ghost var bits := old(bitmap[..]);
        FreeIsUnowned(chains, system, bits, clusterCount, next);
        ClaimKeepsOwned(chains, system, bits, clusterCount, node, next);
        ClearBitsSet(bits, next - FIRST_DATA_CLUSTER, true, clusterCount);
        WithBitBits(bits, next - FIRST_DATA_CLUSTER, true);
        chains := chains[node := chains[node] + [next]];
      }
    }

    /** One round of grow_file's loop. */
    method GrowStep(node: Node, previous: nat, ghost chain: seq<nat>, ghost added: nat,
                    ghost f: seq<nat>, ghost bits: seq<bv8>, ghost free: nat) returns (next: nat)
      requires Shape() && Growing(node, chain, added, f, bits, free) && OthersRecordedIn(f, node)
      requires chains[node] != [] && previous == chains[node][|chains[node]| - 1]
      modifies this`chains, this`bitmapDirty, bitmap, fat, node`isContiguous, node`isDirty
      ensures Noted(old(bitmap[..]), old(bitmapDirty))
      ensures OthersRecordedIn(f, node)
      ensures node in chains && chains == old(chains)[node := chains[node]]
      ensures !ValidCluster(clusterCount, next) ==>
                && Growing(node, chain, added, f, bits, free) && ClearBits(bitmap[..], clusterCount) == 0
                && chains == old(chains) && bitmap[..] == old(bitmap[..])
      ensures ValidCluster(clusterCount, next) ==>
                && Growing(node, chain, added + 1, f, bits, free)
                && chains[node] != [] && next == chains[node][|chains[node]| - 1]
      ensures Marked(node, old(node.startCluster), old(node.isContiguous), old(node.isDirty))
    {
      hide Owned, Bit, WithBit, Linked, Terminated, ValidChain;
      ghost var now := chains[node];
      OwnedBitSet(node, |now| - 1);
      OwnedChain(node);
      next := ClaimCluster(node, previous + 1);
      if ValidCluster(clusterCount, next) {
        LinkCluster(node, previous, next, now);
      }
    }

    /** The out-of-space exit of grow_file: give back what was allocated so far. */
    method GrowUndo(node: Node, current: nat, count: nat,
                    ghost chain: seq<nat>, ghost f: seq<nat>, ghost bits: seq<bv8>, ghost free: nat)
      requires Shape() && Growing(node, chain, count, f, bits, free) && OthersRecordedIn(f, node)
      requires current == |chain|
      modifies this`chains, this`bitmapDirty, bitmap, fat
      modifies node`startCluster, node`isDirty, node`fptrIndex, node`fptrCluster
      ensures Noted(old(bitmap[..]), old(bitmapDirty))
      ensures OwnedClusters() && OthersRecorded(node) && Recorded(node) && Closed(node)
      ensures chains == old(chains)[node := chain]
      ensures ClearBits(bitmap[..], clusterCount) == free && BitsPastEndKept(bits)
      ensures Marked(node, old(node.startCluster), old(node.isContiguous), old(node.isDirty))
      ensures current == 0 && count > 0 ==> node.isDirty
    {
      hide Owned, Bit, WithBit, Linked, Terminated, ValidChain;
      OwnedDisjoint(node);
      OthersFrame(node, f, chains[node]);
      assert chains[node][..current] == chain;
      if count == 0 {
        assert chains[node][..current] == chains[node];
      } else {
        var _ := ShrinkFile(node, current + count, count);
      }
      assert chains == old(chains)[node := chain];
    }

    /** The END mark behind the grown chain. */
    method GrowFinish(node: Node, previous: nat, ghost chain: seq<nat>, ghost added: nat,
                      ghost f: seq<nat>, ghost bits: seq<bv8>, ghost free: nat)
      requires Shape() && Growing(node, chain, added, f, bits, free) && OthersRecordedIn(f, node)
      requires chains[node] != [] && previous == chains[node][|chains[node]| - 1]
      modifies fat
      ensures OwnedClusters() && OthersRecorded(node) && Recorded(node) && Closed(node)
    {
      hide Owned, Bit, WithBit, Linked, Terminated, ValidChain;
      OwnedChain(node);
      OwnedBitSet(node, |chains[node]| - 1);
      CloseKeepsLinks(fat[..], node.isContiguous, node.startCluster, chains[node], clusterCount);
      SetNextCluster(node.isContiguous, previous, CLUSTER_END);
      OwnedDisjoint(node);
      OthersFrame(node, f, chains[node]);
    }

    lemma GrowingFacts(node: Node, chain: seq<nat>, added: nat, f: seq<nat>, bits: seq<bv8>, free: nat)
      requires clusterCount <= 8 * bitmap.Length && Growing(node, chain, added, f, bits, free)
      ensures node in chains && chain <= chains[node] && |chains[node]| == |chain| + added
      ensures ClearBits(bitmap[..], clusterCount) + added == free
    {
    }

    /** The loop of grow_file and what follows it: allocate and hook up clusters until
        `difference` of them are there, or give all of them back. */
    method GrowLoop(node: Node, first: nat, current: nat, granted: nat, difference: nat,
                    ghost chain: seq<nat>, ghost f: seq<nat>, ghost bits: seq<bv8>, ghost free: nat)
      returns (rc: int)
      requires Shape() && Growing(node, chain, granted, f, bits, free) && OthersRecordedIn(f, node)
      requires chains[node] != [] && first == chains[node][|chains[node]| - 1]
      requires granted <= difference && 0 < difference && current == |chain|
      modifies this`chains, this`bitmapDirty, bitmap, fat
      modifies node`startCluster, node`isContiguous, node`isDirty, node`fptrIndex, node`fptrCluster
      ensures Noted(old(bitmap[..]), old(bitmapDirty))
      ensures OwnedClusters() && OthersRecorded(node) && Recorded(node) && Closed(node)
      ensures rc == 0 || rc == -ENOSPC
      ensures rc == 0 <==> difference <= free
      ensures rc == 0 ==>
                && |chains[node]| == current + difference && chain <= chains[node]
                && ClearBits(bitmap[..], clusterCount) == free - difference
                && chains == old(chains)[node := chains[node]]
      ensures rc != 0 ==>
                && chains == old(chains)[node := chain] && ClearBits(bitmap[..], clusterCount) == free
                && BitsPastEndKept(bits)
      ensures old(node.isDirty) ==> node.isDirty
      ensures rc != 0 ==>
        && Marked(node, old(node.startCluster), old(node.isContiguous), old(node.isDirty)) && (current == 0 && granted > 0 ==> node.isDirty)
    {
      hide OwnedClusters, Recorded, Closed, OthersRecordedIn, OthersRecorded, Growing, BitsPastEndKept;
      hide ClearBits, ValidCluster;
      var previous, count := first, granted;
      GrowingFacts(node, chain, count, f, bits, free);
      while count < difference
        invariant count <= difference
        invariant Growing(node, chain, count, f, bits, free) && Noted(old(bitmap[..]), old(bitmapDirty))
        invariant Marked(node, old(node.startCluster), old(node.isContiguous), old(node.isDirty)) && granted <= count
        invariant OthersRecordedIn(f, node)
        invariant node in chains
        invariant chains == old(chains)[node := chains[node]]
        invariant chains[node] != [] && previous == chains[node][|chains[node]| - 1]
      {
        GrowingFacts(node, chain, count, f, bits, free);
        var next := GrowStep(node, previous, chain, count, f, bits, free);
        if !ValidCluster(clusterCount, next) {
          GrowUndo(node, current, count, chain, f, bits, free);
          return -ENOSPC;
        }
        previous := next;
        count := count + 1;
      }
      GrowingFacts(node, chain, count, f, bits, free);
      GrowFinish(node, previous, chain, count, f, bits, free);
      return 0;
    }

    /** The last cluster of a file that has some. */
    method LastCluster(node: Node, current: nat) returns (previous: nat)
      requires Shape() && OwnedClusters() && Recorded(node) && OthersRecorded(node) && Closed(node)
      requires current == |chains[node]| > 0
      modifies node`fptrIndex, node`fptrCluster
      ensures OthersRecordedIn(fat[..], node)
      ensures ValidCluster(clusterCount, previous) && previous == chains[node][|chains[node]| - 1]
      ensures Growing(node, chains[node], 0, fat[..], bitmap[..], ClearBits(bitmap[..], clusterCount))
    {
      hide Owned, Bit, WithBit, Linked, Terminated, ValidChain, ClearBits;
      OwnedChain(node);
      previous := AdvanceCluster(node, current - 1, chains[node]);
      OwnedBitSet(node, current - 1);
      assert BitsPastEndKept(bitmap[..]);
    }

    /** The first cluster of an empty file. */
    method FirstCluster(node: Node) returns (previous: nat)
      requires Shape() && OwnedClusters() && Recorded(node) && OthersRecorded(node) && Closed(node)
      requires chains[node] == []
      modifies this`chains, this`bitmapDirty, bitmap
      modifies node`startCluster, node`isContiguous, node`fptrCluster
      ensures Noted(old(bitmap[..]), old(bitmapDirty))
      ensures OthersRecordedIn(fat[..], node)
      ensures !ValidCluster(clusterCount, previous) ==>
                && OwnedClusters() && Recorded(node) && Closed(node)
                && chains == old(chains) && bitmap[..] == old(bitmap[..]) && ClearBits(bitmap[..], clusterCount) == 0
      ensures ValidCluster(clusterCount, previous) ==>
                && Growing(node, [], 1, fat[..], old(bitmap[..]), old(ClearBits(bitmap[..], clusterCount)))
                && chains == old(chains)[node := [previous]]
      ensures !ValidCluster(clusterCount, previous) ==>
        node.startCluster == old(node.startCluster) && node.isContiguous == old(node.isContiguous)
    {
      hide Owned, Bit, WithBit, Linked, Terminated, ValidChain, ClearBits;
      previous := ClaimCluster(node, 0);
      if ValidCluster(clusterCount, previous) {
        node.fptrCluster := previous;
        node.startCluster := previous;
        node.isContiguous := true;
        SingleIsLinked(fat[..], previous);
        assert chains[node] == [previous];
      }
    }

    /** The first half of grow_file: find the last cluster of the file, or allocate the
        first one of an empty file. */
    method GrowStart(node: Node, current: nat) returns (previous: nat, granted: nat)
      requires Shape() && OwnedClusters() && Recorded(node) && OthersRecorded(node) && Closed(node)
      requires current == |chains[node]|
      modifies this`chains, this`bitmapDirty, bitmap
      modifies node`startCluster, node`isContiguous, node`fptrIndex, node`fptrCluster
      ensures Noted(old(bitmap[..]), old(bitmapDirty))
      ensures OthersRecordedIn(fat[..], node)
      ensures granted == (if current == 0 then 1 else 0)
      ensures !ValidCluster(clusterCount, previous) ==>
                && OwnedClusters() && Recorded(node) && Closed(node)
                && chains == old(chains) && bitmap[..] == old(bitmap[..]) && ClearBits(bitmap[..], clusterCount) == 0
      ensures ValidCluster(clusterCount, previous) ==>
                && Growing(node, old(chains[node]), granted, fat[..], old(bitmap[..]), old(ClearBits(bitmap[..], clusterCount)))
                && chains[node] != [] && previous == chains[node][|chains[node]| - 1]
                && chains == old(chains)[node := chains[node]]
      ensures current > 0 || !ValidCluster(clusterCount, previous) ==>
        node.startCluster == old(node.startCluster) && node.isContiguous == old(node.isContiguous)
      ensures ValidCluster(clusterCount, previous) && current == 0 ==> granted > 0
    {
      hide Owned, Bit, WithBit, Linked, Terminated, ValidChain, ClearBits;
      OwnedChain(node);
      EmptyIffFree(fat[..], node.isContiguous, node.startCluster, chains[node], clusterCount);
      granted := 0;
      if node.startCluster != CLUSTER_FREE {
        previous := LastCluster(node, current);
        if !ValidCluster(clusterCount, previous) {
          assert false;
        }
        assert chains == old(chains)[node := chains[node]];
      } else {
        if node.fptrIndex != 0 {
          assert false;
        }
        previous := FirstCluster(node);
        granted := 1;
      }
    }

    method GrowFile(node: Node, current: nat, difference: nat) returns (rc: int)
      requires Shape() && OwnedClusters() && Recorded(node) && OthersRecorded(node) && Closed(node)
      requires node in chains && difference > 0 && current == |chains[node]|
      modifies this`chains, this`bitmapDirty, bitmap, fat
      modifies node`startCluster, node`isContiguous, node`isDirty, node`fptrIndex, node`fptrCluster
      ensures Noted(old(bitmap[..]), old(bitmapDirty))
      ensures OwnedClusters() && OthersRecorded(node) && Recorded(node) && Closed(node)
      ensures rc == 0 || rc == -ENOSPC
      ensures rc == 0 <==> difference <= old(ClearBits(bitmap[..], clusterCount))
      ensures rc == 0 ==>
                && |chains[node]| == current + difference && old(chains[node]) <= chains[node]
                && chains == old(chains)[node := chains[node]]
                && ClearBits(bitmap[..], clusterCount) == old(ClearBits(bitmap[..], clusterCount)) - difference
      ensures rc != 0 ==> chains == old(chains) && bitmap[..] == old(bitmap[..])
      ensures old(node.isDirty) ==> node.isDirty
      ensures rc != 0 ==> Marked(node, old(node.startCluster), old(node.isContiguous), old(node.isDirty))
    {
      hide Recorded, Closed, OthersRecordedIn, Growing;
      hide ClearBits, ValidCluster, Owned, Bit;
      ghost var chain, f, bits := chains[node], fat[..], bitmap[..];
      ghost var free := ClearBits(bitmap[..], clusterCount);
      var previous, granted := GrowStart(node, current);
      if !ValidCluster(clusterCount, previous) {
        return -ENOSPC;
      }
      rc := GrowLoop(node, previous, current, granted, difference, chain, f, bits, free);
      if rc != 0 {
        assert chains == old(chains);
        SameChainsSameBits(chains, system, bits, bitmap[..], clusterCount);
        BitsDetermine(bits, bitmap[..]);
      }
    }

    ghost predicate Sized(n: Node)
      reads this, n`size, n`validSize
    {
      clusterSize > 0 && n in chains && |chains[n]| == DivRoundUp(n.size, clusterSize) && n.validSize <= n.size
    }

    /** The invariant between operations. */
    ghost predicate Valid()
      reads this, bitmap, fat, chains.Keys
    {
      && Shape() && OwnedClusters()
      && forall n :: n in chains ==> Recorded(n) && Closed(n) && Sized(n)
    }

    ghost predicate Readable(n: Node)
      reads this, n`size, n`validSize
    {
      Shape() && Sized(n) && ValidChain(chains[n], clusterCount)
    }

    /** The bytes a reader of the node sees. */
    ghost function ContentOf(n: Node): (r: seq<Byte>)
      requires Readable(n)
      reads this, heap, n`size, n`validSize
      ensures |r| == n.size
    {
      Content(heap[..], clusterSize, clusterCount, chains[n], n.size, n.validSize)
    }

    lemma ValidReadable()
      requires Valid()
      ensures forall n :: n in chains ==> Readable(n)
    {
    }

    /** The invariant with the sizes of one node set aside. */
    ghost predicate ValidBut(node: Node)
      reads this, bitmap, fat, chains.Keys
    {
      && Shape() && OwnedClusters() && OthersRecorded(node)
      && node in chains && Recorded(node) && Closed(node)
      && forall n :: n in chains && n != node ==> Sized(n)
    }

    lemma ValidAgain(node: Node)
      requires ValidBut(node) && Sized(node)
      ensures Valid()
    {
    }

    /** exfat_pwrite into the cluster heap, inside one cluster. */
    method StoreBytes(cluster: nat, off: nat, bytes: seq<Byte>)
      requires Shape() && ValidCluster(clusterCount, cluster) && off + |bytes| <= clusterSize
      modifies heap
      ensures heap[..] == Stored(old(heap[..]), clusterSize, clusterCount, cluster, off, bytes)
    {
      AddrInHeap(clusterSize, clusterCount, cluster, off);
      AddrInHeap(clusterSize, clusterCount, cluster, off + |bytes|);
      var a := Addr(clusterSize, cluster, off);
      forall k | 0 <= k < |bytes| {
        heap[a + k] := bytes[k];
      }
    }

    /** erase_raw. */
    method EraseRaw(cluster: nat, off: nat, size: nat)
      requires Shape() && ValidCluster(clusterCount, cluster) && off + size <= clusterSize
      modifies heap
      ensures heap[..] == Stored(old(heap[..]), clusterSize, clusterCount, cluster, off, seq(size, _ => 0))
    {
      StoreBytes(cluster, off, seq(size, _ => 0));
    }

    /** The stored bytes [begin, end) of a sequence of clusters are zero and those before `begin`
        are as in `before`; nothing is written outside these clusters. */
    ghost predicate Erased(w: seq<nat>, before: seq<Byte>, begin: nat, end: nat)
      reads heap
    {
      && Shape() && ValidChain(w, clusterCount)
      && |before| == heap.Length
      && KeptOutside(before, heap[..], clusterSize, clusterCount, w)
      && forall i: nat | Covered(clusterSize, w, i) && i < end ::
           Raw(heap[..], clusterSize, clusterCount, w, i) ==
           if i < begin then Raw(before, clusterSize, clusterCount, w, i) else 0
    }

    lemma ErasedFurther(w: seq<nat>, before: seq<Byte>, heap0: seq<Byte>, begin: nat, mid: nat, k: nat, off: nat, end: nat)
      requires Shape() && ValidChain(w, clusterCount)
      requires |before| == |heap0| == heap.Length && k < |w| && off <= clusterSize
      requires KeptOutside(before, heap0, clusterSize, clusterCount, w)
      requires forall i: nat | Covered(clusterSize, w, i) && i < mid ::
                 Raw(heap0, clusterSize, clusterCount, w, i) ==
                 if i < begin then Raw(before, clusterSize, clusterCount, w, i) else 0
      requires mid == k * clusterSize + off && begin <= mid <= end <= (k + 1) * clusterSize
      requires heap[..] == Stored(heap0, clusterSize, clusterCount, w[k], off, seq(end - mid, _ => 0))
      ensures Erased(w, before, begin, end)
    {
      var zeros: seq<Byte> := seq(end - mid, _ => 0);
      assert w[k] in w;
      StoredKeepsOutside(before, heap0, clusterSize, clusterCount, w, w[k], off, zeros);
      forall i: nat | Covered(clusterSize, w, i) && i < end
        ensures Raw(heap[..], clusterSize, clusterCount, w, i) ==
                if i < begin then Raw(before, clusterSize, clusterCount, w, i) else 0
      {
        StoredInChain(heap0, clusterSize, clusterCount, w, k, off, zeros, i);
      }
    }

    /** Erase from `begin` to the closest cluster boundary, or to `end` if that is nearer. */
    method EraseFirst(cluster: nat, begin: nat, end: nat, boundary: nat, ghost w: seq<nat>, ghost k: nat)
      requires Shape() && ValidChain(w, clusterCount) && begin < end
      requires k == begin / clusterSize < |w| && cluster == w[k] && boundary == NextBoundary(begin, clusterSize)
      modifies heap
      ensures Erased(w, old(heap[..]), begin, Min(boundary, end))
    {
      hide Raw, Stored, KeptOutside, NextBoundary;
      KeptSelf(heap[..], clusterSize, clusterCount, w);
      NextBoundaryBounds(begin, clusterSize);
      DivModUnique(begin, clusterSize, k);
      EraseRaw(cluster, begin % clusterSize, Min(boundary, end) - begin);
      ErasedFurther(w, old(heap[..]), old(heap[..]), begin, begin, k, begin % clusterSize, Min(boundary, end));
    }

    /** Erase the whole cluster after the k-th. */
    method EraseNext(next: nat, ghost w: seq<nat>, ghost k: nat, ghost before: seq<Byte>, ghost begin: nat)
      requires Shape() && ValidChain(w, clusterCount)
      requires k + 1 < |w| && next == w[k + 1] && begin <= Times(k + 1, clusterSize)
      requires Erased(w, before, begin, Times(k + 1, clusterSize))
      modifies heap
      ensures Erased(w, before, begin, Times(k + 2, clusterSize))
    {
      hide Raw, Stored, KeptOutside;
      ghost var heap0 := heap[..];
      EraseRaw(next, 0, clusterSize);
      assert (k + 2) * clusterSize == (k + 1) * clusterSize + clusterSize;
      ErasedFurther(w, before, heap0, begin, (k + 1) * clusterSize, k + 1, 0, (k + 2) * clusterSize);
    }

    lemma ErasedNothing(w: seq<nat>, begin: nat)
      requires Shape() && ValidChain(w, clusterCount)
      ensures Erased(w, heap[..], begin, begin)
    {
      KeptSelf(heap[..], clusterSize, clusterCount, w);
    }

    lemma ErasedLess(w: seq<nat>, before: seq<Byte>, begin: nat, end: nat, end': nat)
      requires Erased(w, before, begin, end) && end' <= end
      ensures Erased(w, before, begin, end')
    {
    }

    lemma BehindAll(w: seq<nat>, begin: nat, i: nat)
      requires clusterSize > 0 && (w == [] || begin / clusterSize >= |w|) && Covered(clusterSize, w, i)
      ensures i < begin
    {
      DivModUnique(begin, clusterSize, begin / clusterSize);
      if begin <= i {
        DivAtLeast(i, clusterSize, begin / clusterSize);
      }
    }

    /** None of the bytes from `begin` on is one that the clusters store. */
    lemma NothingToErase(w: seq<nat>, begin: nat, end: nat)
      requires Shape() && ValidChain(w, clusterCount) && (w == [] || begin / clusterSize >= |w|)
      ensures Erased(w, heap[..], begin, end)
    {
      hide Raw, KeptOutside, ValidChain, Covered;
      KeptSelf(heap[..], clusterSize, clusterCount, w);
      forall i: nat | Covered(clusterSize, w, i)
        ensures i < begin
      {
        BehindAll(w, begin, i);
      }
    }

    lemma LeadsFrom(node: Node, w: seq<nat>)
      requires Shape() && Leads(node, w)
      ensures ValidChain(w, clusterCount)
      ensures w == [] <==> node.startCluster < FIRST_DATA_CLUSTER
      ensures Linked(fat[..], node.isContiguous, node.startCluster, w)
    {
    }

    /** The end of an erasure that the clusters do not take: all they have from `begin` on is
        erased, then the walk finds no cluster. */
    ghost function EraseOutcome(w: seq<nat>, begin: nat, end: nat): int
      requires clusterSize > 0
    {
      if begin >= end || DivRoundUp(end, clusterSize) <= |w| then 0
      else if begin / clusterSize < |w| || (w == [] && begin / clusterSize > 0) then BUG
      else -EIO
    }

    /** erase_range. `w` is what the links of the node lead through; `end` may be behind that. */
    method EraseRange(node: Node, begin: nat, end: nat, ghost w: seq<nat>) returns (rc: int)
      requires Shape() && Leads(node, w)
      requires DivRoundUp(end, clusterSize) <= |w| || Stops(node, w)
      modifies heap, node`fptrIndex, node`fptrCluster
      ensures rc == EraseOutcome(w, begin, end)
      ensures Erased(w, old(heap[..]), begin, if rc == 0 then Max(begin, end) else Times(|w|, clusterSize))
      ensures rc == 0 || begin / clusterSize < |w| || w == [] ==> Leads(node, w)
      ensures begin < end && (w != [] || begin / clusterSize == 0) ==> node.fptrIndex == begin / clusterSize
    {
      hide ValidChain, Linked, RecordedIn, Erased, Leads, DivRoundUp, Times, NextBoundary;
      LeadsFrom(node, w);
      ErasedNothing(w, begin);
      if begin >= end {
        return 0;
      }
      CoveredBelow(end, clusterSize, begin);
      var boundary := NextBoundary(begin, clusterSize);
      NextBoundaryBounds(begin, clusterSize);
      if begin / clusterSize > 0 && node.startCluster < FIRST_DATA_CLUSTER {
        // exfat_next_cluster takes no cluster number below 2
        NothingToErase(w, begin, Times(|w|, clusterSize));
        return BUG;
      }
      ghost var before, k := heap[..], begin / clusterSize;
      var cluster := AdvanceCluster(node, begin / clusterSize, w);
      if !ValidCluster(clusterCount, cluster) {
        NothingToErase(w, begin, Times(|w|, clusterSize));
        return -EIO;
      }
      EraseFirst(cluster, begin, end, boundary, w, k);
      while boundary < end
        invariant begin / clusterSize <= k < |w| && cluster == w[k]
        invariant begin <= boundary == Times(k + 1, clusterSize)
        invariant Leads(node, w)
        invariant Erased(w, before, begin, Min(boundary, end))
        decreases end - boundary
        modifies heap
      {
        LeadsFrom(node, w);
        LinksOn(node, w, k);
        UnitsFor(end, clusterSize, k + 1);
        TimesStep(k + 1, clusterSize);
        cluster := Next(node, cluster);
        if !ValidCluster(clusterCount, cluster) {
          return BUG;
        }
        EraseNext(cluster, w, k, before, begin);
        k := k + 1;
        boundary := boundary + clusterSize;
        ErasedLess(w, before, begin, boundary, Min(boundary, end));
      }
      UnitsFor(end, clusterSize, k + 1);
      return 0;
    }

    ghost function FreeCount(): nat
      requires Shape()
      reads bitmap
    {
      ClearBits(bitmap[..], clusterCount)
    }

    lemma NarrowSize(node: Node)
      requires Shape() && OwnedClusters() && Sized(node)
      ensures Bytes2Clusters(clusterSize, node.size) == |chains[node]|
    {
      OwnedChain(node);
      Pigeonhole(chains[node], clusterCount);
      DivRoundUpBounds(node.size, clusterSize);
      MulMonotone(|chains[node]|, CLUSTER_END, clusterSize);
      assert CLUSTER_END * clusterSize <= CLUSTER_END * MAX_CLUSTER_SIZE;
      NarrowingHarmless(clusterSize, node.size);
    }

    lemma FitsNarrow(size: nat)
      requires Shape() && Fits(size)
      ensures Bytes2Clusters(clusterSize, size) == DivRoundUp(size, clusterSize)
    {
      DivRoundUpBounds(size, clusterSize);
      MulMonotone(DivRoundUp(size, clusterSize), 0xffff_ffff, clusterSize);
      assert 0xffff_ffff * clusterSize <= 0xffff_ffff * MAX_CLUSTER_SIZE;
      NarrowingHarmless(clusterSize, size);
    }

    /** The chain adjustment of exfat_truncate, before sizes are updated. */
    method AdjustChain(node: Node, c2: nat) returns (rc: int)
      requires Valid() && node in chains
      modifies this`chains, this`bitmapDirty, bitmap, fat
      modifies node`startCluster, node`isContiguous, node`isDirty, node`fptrIndex, node`fptrCluster
      ensures Noted(old(bitmap[..]), old(bitmapDirty))
      ensures ValidBut(node)
      ensures rc == 0 || rc == -ENOSPC
      ensures rc == 0 <==> c2 <= |old(chains[node])| + old(FreeCount())
      ensures chains == old(chains)[node := chains[node]]
      ensures rc == 0 ==>
                && |chains[node]| == c2 && FreeCount() + c2 == old(FreeCount()) + |old(chains[node])|
                && (old(chains[node]) <= chains[node] || chains[node] <= old(chains[node]))
      ensures rc != 0 ==> chains == old(chains) && bitmap[..] == old(bitmap[..])
      ensures old(node.isDirty) ==> node.isDirty
      ensures rc != 0 ==> Marked(node, old(node.startCluster), old(node.isContiguous), old(node.isDirty))
    {
      hide OwnedClusters, RecordedIn, ClearBits;
      var c1 := Bytes2Clusters(clusterSize, node.size);
      NarrowSize(node);
      rc := 0;
      if c1 < c2 {
        rc := GrowFile(node, c1, c2 - c1);
      } else if c1 > c2 {
        rc := ShrinkFile(node, c1, c1 - c2);
      }
    }

    function Clusters(size: nat): nat
      requires clusterSize > 0
    {
      DivRoundUp(size, clusterSize)
    }

    /** A write at `offset` uncovers no stale byte of the file. */
    ghost predicate CleanTo(node: Node, offset: nat)
      requires Readable(node)
      reads this, heap, node`size, node`validSize
    {
      offset <= node.size ==>
        GapClean(heap[..], clusterSize, clusterCount, chains[node], node.validSize, offset)
    }

    /** What exfat_truncate has to know about its new size. */
    ghost predicate Fits(size: nat) {
      clusterSize > 0 && DivRoundUp(size, clusterSize) < 0x1_0000_0000
    }

    /** exfat_truncate after the chain has its new length. */
    method FinishTruncate(node: Node, size: nat, erase: bool, ghost chain: seq<nat>)
      requires ValidBut(node) && |chains[node]| == DivRoundUp(size, clusterSize)
      requires ValidChain(chain, clusterCount) && |chain| == DivRoundUp(node.size, clusterSize) && node.validSize <= node.size
      requires chain <= chains[node] || chains[node] <= chain
      modifies heap, node
      ensures ValidBut(node) && Sized(node) && Readable(node) && node.size == size
      ensures node.validSize == if erase then size else Min(old(node.validSize), size)
      ensures ContentOf(node) ==
              Resized(Content(old(heap[..]), clusterSize, clusterCount, chain, old(node.size), old(node.validSize)), size)
      ensures !erase ==> heap[..] == old(heap[..])
      ensures KeptOutside(old(heap[..]), heap[..], clusterSize, clusterCount, chains[node])
      ensures node.isDirty
    {
      hide Owned, Linked, Terminated, Raw, KeptOutside, DivRoundUp;
      ghost var size0, valid0 := node.size, node.validSize;
      OwnedChain(node);
      if erase {
        var erased := EraseRange(node, node.validSize, size, chains[node]);
        node.validSize := size;
      } else {
        KeptSelf(heap[..], clusterSize, clusterCount, chains[node]);
        node.validSize := Min(node.validSize, size);
      }
      TruncatedContent(old(heap[..]), heap[..], clusterSize, clusterCount,
                       chain, size0, valid0, chains[node], size, node.validSize);
      node.size := size;
      node.isDirty := true;
    }

    /** Files whose clusters are not touched read as before. */
    lemma OthersContent(node: Node, before: seq<Byte>)
      requires Valid() && node in chains && |before| == heap.Length
      requires KeptOutside(before, heap[..], clusterSize, clusterCount, chains[node])
      ensures forall m :: m in chains ==> Readable(m)
      ensures forall m :: m in chains && m != node ==>
                ContentOf(m) == Content(before, clusterSize, clusterCount, chains[m], m.size, m.validSize)
    {
      ValidReadable();
      OwnedDisjoint(node);
      forall m | m in chains && m != node
        ensures Readable(m)
        ensures ContentOf(m) == Content(before, clusterSize, clusterCount, chains[m], m.size, m.validSize)
      {
        OwnedChain(m);
        KeptContent(before, heap[..], clusterSize, clusterCount, chains[node], chains[m], m.size, m.validSize);
      }
    }

    method Truncate(node: Node, size: nat, erase: bool) returns (rc: int)
      requires Valid() && node in chains && Fits(size)
      modifies this`chains, this`bitmapDirty, bitmap, fat, heap, node
      ensures Noted(old(bitmap[..]), old(bitmapDirty))
      ensures Valid() && chains.Keys == old(chains).Keys
      ensures rc == 0 || rc == -ENOSPC
      ensures rc == 0 <==> DivRoundUp(size, clusterSize) <= old(|chains[node]| + FreeCount())
      ensures forall m :: m in chains ==> old(Readable(m)) && Readable(m)
      ensures rc == 0 ==> node.size == size && ContentOf(node) == Resized(old(ContentOf(node)), size)
      ensures FreeCount() + |chains[node]| == old(FreeCount() + |chains[node]|)
      ensures rc == 0 && size != old(node.size) ==>
                node.validSize == if erase then size else Min(old(node.validSize), size)
      ensures rc != 0 || size == old(node.size) ==>
                && chains == old(chains) && bitmap[..] == old(bitmap[..])
                && node.size == old(node.size) && node.validSize == old(node.validSize)
                && ContentOf(node) == old(ContentOf(node))
      ensures !erase || rc != 0 ==> heap[..] == old(heap[..])
      ensures old(chains[node]) <= chains[node] || chains[node] <= old(chains[node])
      ensures forall m :: m in chains && m != node ==> chains[m] == old(chains)[m] && ContentOf(m) == old(ContentOf(m))
      ensures Marked(node, old(node.startCluster), old(node.isContiguous), old(node.isDirty))
      ensures node.isDirty || (node.size == old(node.size) && node.validSize == old(node.validSize))
    {
      hide OwnedClusters, Recorded, Closed, OthersRecorded, KeptOutside, ClearBits, DivRoundUp;
      ValidReadable();
      var c2 := Bytes2Clusters(clusterSize, size);
      FitsNarrow(size);
      if node.size == size {
        assert Resized(ContentOf(node), size) == ContentOf(node);
        return 0;
      }
      rc := AdjustChain(node, c2);
      if rc != 0 {
        ValidAgain(node);
        ValidReadable();
        return rc;
      }
      FinishTruncate(node, size, erase, old(chains[node]));
      ValidAgain(node);
      OthersContent(node, old(heap[..]));
      return 0;
    }

    /** The clusters that the links of a node lead through: its chain, and when it is contiguous
        all clusters of the heap behind that. */
    ghost function Reach(node: Node): seq<nat>
      requires node in chains
      reads this, node`isContiguous
    {
      var chain := chains[node];
      if node.isContiguous && chain != [] && ValidCluster(clusterCount, chain[0])
      then seq(clusterCount + FIRST_DATA_CLUSTER - chain[0], i requires 0 <= i => chain[0] + i)
      else chain
    }

    lemma ReachLeads(node: Node)
      requires Shape() && OwnedClusters() && Recorded(node) && Closed(node)
      ensures Leads(node, Reach(node)) && Stops(node, Reach(node))
      ensures chains[node] <= Reach(node) && (chains[node] == [] ==> Reach(node) == [])
      ensures Linked(fat[..], node.isContiguous, node.startCluster, chains[node])
      ensures Terminated(fat[..], node.isContiguous, chains[node])
      ensures |Reach(node)| < 0x1_0000_0000
    {
      hide Owned, Bit;
      OwnedChain(node);
      Pigeonhole(chains[node], clusterCount);
      var chain, w := chains[node], Reach(node);
      if node.isContiguous && chain != [] {
        forall i | 0 <= i < |chain|
          ensures chain[i] == chain[0] + i
        {
          RunIsConsecutive(fat[..], node.startCluster, chain, i);
        }
        forall i | 0 <= i < |w| - 1
          ensures Follows(fat[..], true, w, i)
        {
          assert w[i + 1] == w[i] + 1;
        }
      }
    }

    /** exfat_truncate to a size that needs 2^32 clusters or more. The narrowed count decides
        whether there is space; when there is, the chain gets that count, and the invariant is
        gone with the new size. An erasure runs off the chain and never sets the size: it ends
        with an error, or in exfat_bug, when there is no cluster to go on to. Until then it has
        erased all that the links lead to behind the valid bytes, which for a contiguous file
        are the clusters of others as well. */
    method TruncateOversized(node: Node, size: nat, erase: bool) returns (rc: int)
      requires Valid() && node in chains && !Fits(size)
      modifies this`chains, this`bitmapDirty, bitmap, fat, heap, node
      ensures Noted(old(bitmap[..]), old(bitmapDirty))
      ensures node in chains && chains.Keys == old(chains).Keys
      ensures forall m :: m in chains && m != node ==> chains[m] == old(chains)[m] && Readable(m) && old(Readable(m))
      ensures rc == -ENOSPC <==> Bytes2Clusters(clusterSize, size) > old(|chains[node]| + FreeCount())
      ensures rc == -ENOSPC ==>
                && Valid() && chains == old(chains) && bitmap[..] == old(bitmap[..])
                && node.size == old(node.size) && node.validSize == old(node.validSize)
      ensures rc != -ENOSPC ==> |chains[node]| == Bytes2Clusters(clusterSize, size)
      ensures rc != -ENOSPC && !erase ==> rc == 0 && node.size == size && !Valid()
      ensures rc == -ENOSPC || !erase ==> heap[..] == old(heap[..])
      ensures rc != -ENOSPC && erase ==>
                && rc == EraseOutcome(Reach(node), node.validSize, size) != 0
                && node.size == old(node.size) && node.validSize == old(node.validSize)
                && Erased(Reach(node), old(heap[..]), node.validSize, Times(|Reach(node)|, clusterSize))
                && (Valid() <==> && |chains[node]| == old(|chains[node]|)
                                 && (chains[node] == [] || node.validSize / clusterSize < |chains[node]|))
      ensures rc != -ENOSPC && erase ==>
        forall m :: m in chains && m != node && (!node.isContiguous || Disjoint(chains[m], Reach(node))) ==>
          ContentOf(m) == old(ContentOf(m))
    {
      hide OwnedClusters, Recorded, Closed, OthersRecorded, ClearBits, DivRoundUp, Erased, Leads, Stops, Reach, KeptOutside,
        Content, EraseOutcome, Linked;
      ValidReadable();
      var c2 := Bytes2Clusters(clusterSize, size);
      OversizedDiffers(node, size);
      rc := AdjustChain(node, c2);
      if rc != 0 {
        ValidAgain(node);
        ValidReadable();
        return;
      }
      if erase {
        ghost var before := heap[..];
        rc := EraseOff(node, size);
        ValidIff(node);
        OthersKept(node, Reach(node), before, node.validSize, Times(|Reach(node)|, clusterSize));
        return;
      }
      node.validSize := Min(node.validSize, size);
      node.size := size;
      node.isDirty := true;
      return 0;
    }

    /** The erasure of exfat_truncate when it runs off the chain. */
    method EraseOff(node: Node, size: nat) returns (rc: int)
      requires ValidBut(node) && !Fits(size) && node.validSize < size
      modifies heap, node`fptrIndex, node`fptrCluster
      ensures rc == EraseOutcome(Reach(node), node.validSize, size)
      ensures rc == BUG || rc == -EIO
      ensures Erased(Reach(node), old(heap[..]), node.validSize, Times(|Reach(node)|, clusterSize))
      ensures OthersRecorded(node) && (Recorded(node) ==> Closed(node))
      ensures Recorded(node) <==> chains[node] == [] || node.validSize / clusterSize < |chains[node]|
    {
      hide ValidBut, OwnedClusters, RecordedIn, Recorded, Closed, Linked, Terminated, ValidChain, Leads, Stops, Reach,
        Erased, EraseOutcome, Sized, Fits, DivRoundUp, Times, Max;
      ButParts(node);
      ReachLeads(node);
      ghost var w := Reach(node);
      rc := EraseRange(node, node.validSize, size, w);
      OffOutcome(w, node.validSize, size);
      StillRecorded(node, w, node.validSize / clusterSize);
    }

    lemma ButParts(node: Node)
      requires ValidBut(node)
      ensures Shape() && OwnedClusters() && OthersRecorded(node) && node in chains && Recorded(node) && Closed(node)
      ensures node.validSize / clusterSize >= 0
    {
    }

    lemma ValidIff(node: Node)
      requires Shape() && OwnedClusters() && node in chains && OthersRecorded(node)
      requires Recorded(node) ==> Closed(node)
      requires forall m :: m in chains && m != node ==> Sized(m)
      ensures Valid() <==> Recorded(node) && Sized(node)
    {
    }

    lemma OffOutcome(w: seq<nat>, begin: nat, end: nat)
      requires Shape() && !Fits(end) && |w| < 0x1_0000_0000 && begin < end
      ensures EraseOutcome(w, begin, end) == BUG || EraseOutcome(w, begin, end) == -EIO
    {
    }

    lemma StillRecorded(node: Node, w: seq<nat>, index: nat)
      requires node in chains && chains[node] <= w && (chains[node] == [] ==> w == [])
      requires Linked(fat[..], node.isContiguous, node.startCluster, chains[node])
      requires w == [] || index < |w| ==> Leads(node, w)
      requires w != [] || index == 0 ==> node.fptrIndex == index
      requires Terminated(fat[..], node.isContiguous, chains[node])
      ensures Recorded(node) <==> chains[node] == [] || index < |chains[node]|
      ensures Recorded(node) ==> Closed(node)
    {
      hide Linked, Terminated;
    }

    /** Files none of whose clusters is among those erased read as before. */
    lemma OthersKept(node: Node, w: seq<nat>, before: seq<Byte>, begin: nat, end: nat)
      requires Shape() && OwnedClusters() && node in chains && forall m :: m in chains && m != node ==> Sized(m)
      requires w == Reach(node) && Erased(w, before, begin, end)
      ensures forall m :: m in chains && m != node && (!node.isContiguous || Disjoint(chains[m], w)) ==>
        && Readable(m)
        && ContentOf(m) == Content(before, clusterSize, clusterCount, chains[m], m.size, m.validSize)
    {
      hide KeptOutside, Content, Raw, Covered, Owned, ValidChain, DivRoundUp, Disjoint;
      OwnedDisjoint(node);
      forall m | m in chains && m != node && (!node.isContiguous || Disjoint(chains[m], w))
        ensures Readable(m)
        ensures ContentOf(m) == Content(before, clusterSize, clusterCount, chains[m], m.size, m.validSize)
      {
        OwnedChain(m);
        KeptContent(before, heap[..], clusterSize, clusterCount, w, chains[m], m.size, m.validSize);
      }
    }

    /** A byte of another file that has its place at position `at` of the erased clusters: zero
        when the erasure comes to it. */
    lemma OthersErased(w: seq<nat>, before: seq<Byte>, begin: nat, end: nat, chain: seq<nat>, i: nat, at: nat)
      requires Erased(w, before, begin, end) && ValidChain(chain, clusterCount) && Covered(clusterSize, chain, i)
      requires Covered(clusterSize, w, at) && at < end
      requires chain[i / clusterSize] == w[at / clusterSize] && i % clusterSize == at % clusterSize
      ensures Raw(heap[..], clusterSize, clusterCount, chain, i) ==
        if at < begin then Raw(before, clusterSize, clusterCount, chain, i) else 0
    {
      hide KeptOutside, ValidChain;
    }

    lemma OversizedDiffers(node: Node, size: nat)
      requires Valid() && node in chains && !Fits(size)
      ensures Bytes2Clusters(clusterSize, size) < 0x1_0000_0000 <= DivRoundUp(size, clusterSize)
      ensures node.size != size && |chains[node]| == DivRoundUp(node.size, clusterSize) && node.validSize <= node.size < size
    {
      hide DivRoundUp;
      assert Recorded(node) && Sized(node);
      OwnedChain(node);
      Pigeonhole(chains[node], clusterCount);
      if size <= node.size {
        DivRoundUpMonotone(size, node.size, clusterSize);
      }
    }

    /** allocate_node and tree_attach, as far as clusters are concerned: a new empty file. */
    method CreateNode(directory: bool) returns (node: Node)
      requires Valid()
      modifies this`chains
      ensures Valid() && fresh(node) && node !in old(chains)
      ensures chains == old(chains)[node := []] && node.size == 0 && node.validSize == 0
      ensures forall m :: m in old(chains) ==> Readable(m) && ContentOf(m) == old(ContentOf(m))
    {
      hide Owned, DivRoundUp;
      DivRoundUpZero(clusterSize);
      node := new Node(directory);
      EmptyChainKeepsOwned(chains, chains[node := []], system, bitmap[..], clusterCount, node);
      chains := chains[node := []];
      ValidReadable();
    }

    /** exfat_cleanup_node of an unlinked node: free its clusters, then the node itself. */
    method CleanupNode(node: Node) returns (rc: int)
      requires Valid() && node in chains
      modifies this`chains, this`bitmapDirty, bitmap, fat, heap, node
      ensures Noted(old(bitmap[..]), old(bitmapDirty))
      ensures Valid() && rc == 0
      ensures chains.Keys == old(chains).Keys - {node}
      ensures FreeCount() == old(FreeCount() + |chains[node]|)
      ensures forall m :: m in chains ==>
                chains[m] == old(chains)[m] && old(Readable(m)) && Readable(m) && ContentOf(m) == old(ContentOf(m))
    {
      hide Owned, RecordedIn, Terminated, ClearBits, Content, ValidChain, DivRoundUp;
      DivRoundUpZero(clusterSize);
      rc := Truncate(node, 0, true);
      EmptyChainKeepsOwned(chains, chains - {node}, system, bitmap[..], clusterCount, node);
      chains := chains - {node};
    }
  }

  /** Writing the END mark behind a chain closes it. */
  lemma CloseKeepsLinks(fat: seq<nat>, contiguous: bool, start: nat, chain: seq<nat>, count: nat)
    requires Linked(fat, contiguous, start, chain) && ValidChain(chain, count) && chain != []
    ensures chain[|chain| - 1] < |fat|
    ensures var fat' := if contiguous then fat else fat[chain[|chain| - 1] := CLUSTER_END];
            Linked(fat', contiguous, start, chain) && Terminated(fat', contiguous, chain)
  {
    var last := chain[|chain| - 1];
    var fat' := if contiguous then fat else fat[last := CLUSTER_END];
    forall i | 0 <= i < |chain| - 1
      ensures Follows(fat', contiguous, chain, i)
    {
      assert Follows(fat, contiguous, chain, i);
    }
  }

  lemma EmptyIffFree(fat: seq<nat>, contiguous: bool, start: nat, chain: seq<nat>, count: nat)
    requires Linked(fat, contiguous, start, chain) && ValidChain(chain, count)
    ensures chain == [] <==> start == CLUSTER_FREE
  {
  }

  lemma SingleIsLinked(fat: seq<nat>, c: nat)
    requires c < |fat|
    ensures Linked(fat, true, c, [c])
  {
  }

  /** The FAT after make_noncontiguous. */
  ghost function RunWritten(fat: seq<nat>, first: nat, last: nat): seq<nat> {
    seq(|fat|, c requires 0 <= c < |fat| => if first <= c < last then c + 1 else fat[c])
  }

  /** The FAT after a cluster has been linked behind a chain. */
  ghost function Appended(fat: seq<nat>, contiguous: bool, start: nat, last: nat, next: nat): seq<nat>
    requires last < |fat|
  {
    if !contiguous then fat[last := next]
    else if next == last + 1 then fat
    else RunWritten(fat, start, last)[last := next]
  }

  lemma {:induction false} RunIsConsecutive(fat: seq<nat>, start: nat, chain: seq<nat>, i: nat)
    requires Linked(fat, true, start, chain) && i < |chain|
    ensures chain[i] == start + i
  {
    if i > 0 {
      RunIsConsecutive(fat, start, chain, i - 1);
      assert Follows(fat, true, chain, i - 1);
    }
  }

  /** Whichever way the cluster is linked, the chain is recorded with it at the end, and
      nothing outside the chain is written. */
  lemma AppendKeepsLinks(fat: seq<nat>, contiguous: bool, start: nat, chain: seq<nat>, next: nat, count: nat)
    requires Linked(fat, contiguous, start, chain) && chain != []
    requires ValidChain(chain, count) && next !in chain && next < |fat|
    ensures chain[|chain| - 1] < |fat|
    ensures var last := chain[|chain| - 1]; var fat' := Appended(fat, contiguous, start, last, next);
            && Linked(fat', contiguous && next == last + 1, start, chain + [next])
            && forall c :: 0 <= c < |fat| && c !in chain ==> fat'[c] == fat[c]
  {
    var last := chain[|chain| - 1];
    var fat' := Appended(fat, contiguous, start, last, next);
    var contiguous' := contiguous && next == last + 1;
    forall i | 0 <= i < |chain|
      ensures Follows(fat', contiguous', chain + [next], i)
    {
      if contiguous {
        RunIsConsecutive(fat, start, chain, i);
        RunIsConsecutive(fat, start, chain, |chain| - 1);
      }
      if i < |chain| - 1 {
        assert Follows(fat, contiguous, chain, i);
        assert chain[i] != last;
      }
    }
    forall c | 0 <= c < |fat| && c !in chain
      ensures fat'[c] == fat[c]
    {
      if contiguous && start <= c <= last {
        RunIsConsecutive(fat, start, chain, |chain| - 1);
        RunIsConsecutive(fat, start, chain, c - start);
      }
    }
  }

  lemma StartOf(fat: seq<nat>, contiguous: bool, start: nat, chain: seq<nat>)
    requires Linked(fat, contiguous, start, chain)
    ensures start == if chain == [] then CLUSTER_FREE else chain[0]
  {
  }

  /** The k-th cluster of a chain is where its recorded predecessor points. */
  lemma LinkAt(fat: seq<nat>, contiguous: bool, start: nat, chain: seq<nat>, k: nat)
    requires Linked(fat, contiguous, start, chain) && k < |chain|
    ensures k == 0 ==> start == chain[k]
    ensures k > 0 ==> chain[k - 1] < |fat| && chain[k] == NextCluster(fat, contiguous, chain[k - 1])
  {
    if k > 0 {
      assert Follows(fat, contiguous, chain, k - 1);
    }
  }

  /** Clearing the entry of the cluster being freed touches no other link. */
  lemma FreeStep(fat: seq<nat>, fat': seq<nat>, contiguous: bool, start: nat, kept: seq<nat>, rest: seq<nat>, j: nat)
    requires j < |rest| && rest[j] < |fat|
    requires fat' == if contiguous then fat else fat[rest[j] := CLUSTER_FREE]
    requires forall i :: 0 <= i < |kept| ==> kept[i] != rest[j]
    requires forall i :: j < i < |rest| ==> rest[i] != rest[j]
    requires Linked(fat, contiguous, start, kept) && Terminated(fat, contiguous, kept)
    requires forall i :: j <= i < |rest| - 1 ==> Follows(fat, contiguous, rest, i)
    ensures Linked(fat', contiguous, start, kept) && Terminated(fat', contiguous, kept)
    ensures forall i :: j + 1 <= i < |rest| - 1 ==> Follows(fat', contiguous, rest, i)
  {
    FatFrame(fat, fat', contiguous, start, kept);
    forall i | j + 1 <= i < |rest| - 1
      ensures Follows(fat', contiguous, rest, i)
    {
      assert Follows(fat, contiguous, rest, i);
    }
  }

  lemma WithoutFirst(kept: seq<nat>, rest: seq<nat>, j: nat)
    requires j < |rest|
    ensures Without(kept + rest[j..], |kept|) == kept + rest[j + 1..]
  {
  }

  lemma FreedIsDistinct(kept: seq<nat>, rest: seq<nat>, j: nat, count: nat)
    requires ValidChain(kept + rest, count) && j < |rest|
    ensures ValidCluster(count, rest[j])
    ensures forall i :: 0 <= i < |kept| ==> kept[i] != rest[j]
    ensures forall i :: j < i < |rest| ==> rest[i] != rest[j]
  {
    var chain := kept + rest;
    assert chain[|kept| + j] == rest[j];
    forall i | 0 <= i < |kept| ensures kept[i] != rest[j] {
      assert chain[i] == kept[i];
    }
    forall i | j < i < |rest| ensures rest[i] != rest[j] {
      assert chain[|kept| + i] == rest[i];
    }
  }

  /** Ending a chain early: the front is closed, the rest can still be followed. */
  lemma CropKeepsLinks(fat: seq<nat>, fat': seq<nat>, contiguous: bool, start: nat, chain: seq<nat>,
                       k: nat, count: nat)
    requires k < |chain| && Linked(fat, contiguous, start, chain)
    requires ValidChain(chain, count)
    requires fat' == if k == 0 || contiguous then fat else fat[chain[k - 1] := CLUSTER_END]
    ensures Linked(fat', contiguous, if k == 0 then CLUSTER_FREE else start, chain[..k])
    ensures Terminated(fat', contiguous, chain[..k])
    ensures forall i :: 0 <= i < |chain| - k ==> chain[k..][i] < |fat|
    ensures forall i :: 0 <= i < |chain| - k - 1 ==> Follows(fat', contiguous, chain[k..], i)
  {
    forall i | 0 <= i < k - 1
      ensures Follows(fat', contiguous, chain[..k], i)
    {
      assert Follows(fat, contiguous, chain, i);
    }
    forall i | 0 <= i < |chain| - k - 1
      ensures Follows(fat', contiguous, chain[k..], i)
    {
      assert Follows(fat, contiguous, chain, k + i);
    }
  }
}
