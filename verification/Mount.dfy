/** Mounting: the size of the root directory, and that a formatted volume is one that the
    allocator keeps valid. */
module Mount {
  import opened Arith
  import opened ClusterBitmap
  import opened Chain
  import opened Common
  import Clusters
  import Mkfs

  /** A non-empty chain kept in the FAT, closed by the end mark. */
  ghost predicate RootChain(fat: seq<nat>, count: nat, start: nat, chain: seq<nat>) {
    chain != [] && ValidChain(chain, count) && Linked(fat, false, start, chain) && Terminated(fat, false, chain)
  }

  /** The walk of rootdir_size has passed these clusters and goes on at `next`. */
  ghost predicate Walked(fat: seq<nat>, count: nat, start: nat, passed: seq<nat>, next: nat) {
    && (forall i :: 0 <= i < |passed| ==> ValidCluster(count, passed[i]) && passed[i] < |fat|)
    && (passed != [] ==> passed[0] == start)
    && (forall i :: 0 <= i < |passed| - 1 ==> Follows(fat, false, passed, i))
    && next == if passed == [] then start else fat[passed[|passed| - 1]]
  }

  /** rootdir_size: 0 stands for the errors. */
  method RootdirSize(fat: seq<nat>, count: nat, clusterSize: nat, start: nat) returns (size: nat)
    requires |fat| == count + FIRST_DATA_CLUSTER && count < CLUSTER_END - 8 && clusterSize > 0
    ensures size > 0 <==> exists chain :: RootChain(fat, count, start, chain)
    ensures forall chain :: RootChain(fat, count, start, chain) ==> size == |chain| * clusterSize
  {
    hide RootChain;
    var clusters, cluster := 0, start;
    ghost var passed := [];
    while true
      invariant clusters == |passed| <= count && Walked(fat, count, start, passed, cluster)
      invariant passed != [] ==> cluster != CLUSTER_END
      decreases count - clusters
    {
      if clusters == count {
        NoneLonger(fat, count, start, passed, cluster);
        return 0;
      }
      if !ValidCluster(count, cluster) {
        NoneThrough(fat, count, start, passed, cluster);
        return 0;
      }
      MoreWalked(fat, count, start, passed, cluster);
      passed := passed + [cluster];
      cluster := fat[cluster];
      clusters := clusters + 1;
      if cluster == CLUSTER_END {
        break;
      }
    }
    WalkIsChain(fat, count, start, passed);
    Positive(clusters, clusterSize);
    return clusters * clusterSize;
  }

  /** A chain and a walk from the same start agree as far as both go. */
  lemma {:induction false} SameWalk(fat: seq<nat>, count: nat, start: nat, passed: seq<nat>, next: nat, chain: seq<nat>, i: nat)
    requires Walked(fat, count, start, passed, next) && RootChain(fat, count, start, chain)
    requires i < |passed| && i < |chain|
    ensures passed[i] == chain[i]
  {
    if i > 0 {
      SameWalk(fat, count, start, passed, next, chain, i - 1);
      assert Follows(fat, false, passed, i - 1);
      assert Follows(fat, false, chain, i - 1);
    }
  }

  /** The walk goes on where the chain does: it ends exactly where the chain ends. */
  lemma WalkThenChain(fat: seq<nat>, count: nat, start: nat, passed: seq<nat>, next: nat, chain: seq<nat>)
    requires Walked(fat, count, start, passed, next) && RootChain(fat, count, start, chain)
    ensures |passed| < |chain| ==> next == chain[|passed|]
    ensures |passed| == |chain| ==> next == CLUSTER_END
  {
    if 0 < |passed| <= |chain| {
      SameWalk(fat, count, start, passed, next, chain, |passed| - 1);
      if |passed| < |chain| {
        assert Follows(fat, false, chain, |passed| - 1);
      }
    }
  }

  /** A chain whose walk has met no end mark within its length does not exist. */
  lemma NoneLonger(fat: seq<nat>, count: nat, start: nat, passed: seq<nat>, next: nat)
    requires count < CLUSTER_END - 8 && |passed| == count && Walked(fat, count, start, passed, next) && (passed != [] ==> next != CLUSTER_END)
    ensures forall chain :: !RootChain(fat, count, start, chain)
  {
    forall chain
      ensures !RootChain(fat, count, start, chain)
    {
      if RootChain(fat, count, start, chain) {
        Pigeonhole(chain, count);
        NotPast(fat, count, start, passed, next, chain);
      }
    }
  }

  lemma NoneThrough(fat: seq<nat>, count: nat, start: nat, passed: seq<nat>, next: nat)
    requires count < CLUSTER_END - 8
    requires Walked(fat, count, start, passed, next) && (passed != [] ==> next != CLUSTER_END) && !ValidCluster(count, next)
    ensures forall chain :: !RootChain(fat, count, start, chain)
  {
    forall chain
      ensures !RootChain(fat, count, start, chain)
    {
      if RootChain(fat, count, start, chain) {
        NotPast(fat, count, start, passed, next, chain);
        WalkThenChain(fat, count, start, passed, next, chain);
      }
    }
  }

  /** A walk that has met no end mark is still inside every chain from its start. */
  lemma {:induction false} NotPast(fat: seq<nat>, count: nat, start: nat, passed: seq<nat>, next: nat, chain: seq<nat>)
    requires Walked(fat, count, start, passed, next) && RootChain(fat, count, start, chain)
    requires passed != [] ==> next != CLUSTER_END
    requires count < CLUSTER_END - 8
    ensures |passed| < |chain|
    decreases |passed|
  {
    if passed != [] {
      FewerWalked(fat, count, start, passed, next);
      NotPast(fat, count, start, passed[..|passed| - 1], passed[|passed| - 1], chain);
      WalkThenChain(fat, count, start, passed, next, chain);
    }
  }

  /** A walk that ends at an end mark is a chain: it cannot have met a cluster twice. */
  lemma WalkIsChain(fat: seq<nat>, count: nat, start: nat, passed: seq<nat>)
    requires |fat| == count + FIRST_DATA_CLUSTER && count < CLUSTER_END - 8
    requires passed != [] && Walked(fat, count, start, passed, CLUSTER_END)
    ensures RootChain(fat, count, start, passed)
    ensures forall chain :: RootChain(fat, count, start, chain) ==> |chain| == |passed|
  {
    forall i, j | 0 <= i < j < |passed|
      ensures passed[i] != passed[j]
    {
      if passed[i] == passed[j] {
        Shifted(fat, count, start, passed, i, j, |passed| - 1 - j);
      }
    }
    forall chain | RootChain(fat, count, start, chain)
      ensures |chain| == |passed|
    {
      WalkThenChain(fat, count, start, passed, CLUSTER_END, chain);
      FewerWalked(fat, count, start, passed, CLUSTER_END);
      NotPast(fat, count, start, passed[..|passed| - 1], passed[|passed| - 1], chain);
    }
  }

  lemma FewerWalked(fat: seq<nat>, count: nat, start: nat, passed: seq<nat>, next: nat)
    requires Walked(fat, count, start, passed, next) && passed != []
    ensures Walked(fat, count, start, passed[..|passed| - 1], passed[|passed| - 1])
  {
    var last := |passed| - 1;
    assert last > 0 ==> Follows(fat, false, passed, last - 1);
    forall i | 0 <= i < last - 1
      ensures Follows(fat, false, passed[..last], i)
    {
      assert Follows(fat, false, passed, i);
    }
  }

  lemma MoreWalked(fat: seq<nat>, count: nat, start: nat, passed: seq<nat>, next: nat)
    requires |fat| == count + FIRST_DATA_CLUSTER
    requires Walked(fat, count, start, passed, next) && ValidCluster(count, next)
    ensures Walked(fat, count, start, passed + [next], fat[next])
  {
    forall i | 0 <= i < |passed|
      ensures Follows(fat, false, passed + [next], i)
    {
      assert i < |passed| - 1 ==> Follows(fat, false, passed, i);
    }
  }

  /** From two equal places on, a walk goes the same way. */
  lemma {:induction false} Shifted(fat: seq<nat>, count: nat, start: nat, passed: seq<nat>, i: nat, j: nat, m: nat)
    requires Walked(fat, count, start, passed, CLUSTER_END) && i < j && j + m < |passed| && passed[i] == passed[j]
    ensures passed[i + m] == passed[j + m] && Follows(fat, false, passed, i + m)
  {
    if m > 0 {
      Shifted(fat, count, start, passed, i, j, m - 1);
      assert Follows(fat, false, passed, i + m - 1) && Follows(fat, false, passed, j + m - 1);
    }
    assert Follows(fat, false, passed, i + m);
  }

  // ---- The first mount of a formatted volume.

  lemma OwnedByAnother<M, N>(a: M, b: N, chain: seq<nat>, system: set<nat>, bits: seq<bv8>, count: nat)
    requires Owned(map[a := chain], system, bits, count)
    ensures Owned(map[b := chain], system, bits, count)
  {
    hide Bit;
    var before, after := map[a := chain], map[b := chain];
    forall c: nat
      ensures InSomeChain(before, c) <==> c in chain
      ensures InSomeChain(after, c) <==> c in chain
    {
      assert a in before && b in after;
    }
  }

  /** The default cluster sizes leave few enough clusters to be numbered. */
  lemma DefaultCount(p: Mkfs.Params)
    requires p.Accepted() && Mkfs.DefaultClusterSize(p.ClusterSize(), p.volumeSize)
    ensures Mkfs.HeapClusters(p) < CLUSTER_END - 8
  {
    hide Mkfs.DefaultBits, Mkfs.Params.Accepted;
    Mkfs.HeapFits(p);
    if p.volumeSize >= 32 * 1024 * Mkfs.MB {
      var i :| Mkfs.DefaultBits(i, p.volumeSize) && p.ClusterSize() == Pow2(i);
      Mkfs.DefaultBandThree(p.volumeSize, i);
    }
  }

  /** The root directory of a formatted volume is one closed chain of one cluster. */
  lemma FreshChain(p: Mkfs.Params, sb: Mkfs.SuperBlock, fat: seq<nat>, bits: seq<bv8>)
    requires p.Accepted() && Mkfs.Fresh(p, sb, fat, bits)
    ensures sb.clusterCount == Mkfs.HeapClusters(p) <= 8 * |bits|
    ensures |Mkfs.MountedFat(fat, sb.clusterCount)| == sb.clusterCount + FIRST_DATA_CLUSTER
    ensures RootChain(Mkfs.MountedFat(fat, sb.clusterCount), sb.clusterCount, sb.rootdirCluster, Mkfs.RootChain(p))
    ensures |Mkfs.RootChain(p)| == 1 == DivRoundUp(p.ClusterSize(), p.ClusterSize())
  {
    hide Bit;
    assert Mkfs.TheRoot in map[Mkfs.TheRoot := Mkfs.RootChain(p)];
  }

  /** A volume whose only node is a root with this chain. */
  lemma OneRoot(vol: Clusters.Volume, root: Clusters.Node, chain: seq<nat>)
    requires vol.Shape() && vol.chains == map[root := chain]
    requires Owned<Clusters.Node>(map[root := chain], vol.system, vol.bitmap[..], vol.clusterCount)
    requires RootChain(vol.fat[..], vol.clusterCount, root.startCluster, chain) && !root.isContiguous
    requires root.fptrIndex == 0 && root.fptrCluster == root.startCluster
    requires root.validSize == root.size && |chain| == DivRoundUp(root.size, vol.clusterSize)
    ensures vol.Valid()
  {
    hide Bit, DivRoundUp;
    assert vol.OwnedClusters();
    forall n | n in vol.chains
      ensures vol.Recorded(n) && vol.Closed(n) && vol.Sized(n)
    {
      assert n == root && vol.chains[n] == chain;
      assert Clusters.RecordedIn(vol.fat[..], n, chain);
    }
  }

  method ToArray<T(0)>(s: seq<T>) returns (a: array<T>)
    ensures fresh(a) && a[..] == s
  {
    a := new T[|s|];
    forall i | 0 <= i < |s| {
      a[i] := s[i];
    }
  }

  /** Formatting and then mounting gives a volume that satisfies the whole invariant, with the
      root directory as the only node. Mounting refuses clusters larger than 32 MB. */
  method MountFresh(p: Mkfs.Params) returns (vol: Clusters.Volume, root: Clusters.Node)
    requires p.Accepted() && p.ClusterSize() <= Clusters.MAX_CLUSTER_SIZE
    requires Mkfs.HeapClusters(p) < CLUSTER_END - 8
    ensures fresh(vol) && fresh(root) && vol.Valid()
    ensures vol.chains == map[root := Mkfs.RootChain(p)] && vol.system == Mkfs.SystemClusters(p)
    ensures vol.clusterSize == p.ClusterSize() && vol.clusterCount == Mkfs.HeapClusters(p)
    ensures root.size == root.validSize == p.Size(Mkfs.RootDir)
    ensures fresh(vol.bitmap) && fresh(vol.fat) && fresh(vol.heap)
    ensures forall i :: 0 <= i < vol.heap.Length ==> vol.heap[i] == 0
  {
    hide Owned, Linked, Terminated, ValidChain, Bit, DivRoundUp, RoundUp, Mkfs.MountedFat, RootChain, Mkfs.RootChain,
      Mkfs.SystemClusters, Mkfs.HeapClusters;
    var sb, written, bits := Mkfs.Format(p);
    var count, cs := sb.clusterCount, p.ClusterSize();
    var fatNow := Mkfs.MountedFat(written, count);
    FreshChain(p, sb, written, bits);
    root := new Clusters.Node(true);
    root.startCluster, root.fptrCluster := sb.rootdirCluster, sb.rootdirCluster;
    root.size := RootdirSize(fatNow, count, cs, sb.rootdirCluster);
    root.validSize := root.size;
    OwnedByAnother<Mkfs.File, Clusters.Node>(Mkfs.TheRoot, root, Mkfs.RootChain(p), Mkfs.SystemClusters(p), bits, count);
    vol := Assemble(cs, count, bits, fatNow, Mkfs.SystemClusters(p), root, Mkfs.RootChain(p));
  }

  /** What mounting reads from the device, in memory. */
  method Assemble(cs: nat, count: nat, bits: seq<bv8>, fatNow: seq<nat>, ghost system: set<nat>,
                  root: Clusters.Node, ghost chain: seq<nat>) returns (vol: Clusters.Volume)
    requires 0 < cs <= Clusters.MAX_CLUSTER_SIZE && count < CLUSTER_END - 8 && count <= 8 * |bits|
    requires |fatNow| == count + FIRST_DATA_CLUSTER && Owned<Clusters.Node>(map[root := chain], system, bits, count)
    requires RootChain(fatNow, count, root.startCluster, chain) && !root.isContiguous
    requires root.fptrIndex == 0 && root.fptrCluster == root.startCluster
    requires root.validSize == root.size && |chain| == DivRoundUp(root.size, cs)
    ensures fresh(vol) && vol.Valid() && vol.chains == map[root := chain] && vol.system == system
    ensures vol.clusterSize == cs && vol.clusterCount == count
    ensures fresh(vol.bitmap) && fresh(vol.fat) && fresh(vol.heap)
    ensures forall i :: 0 <= i < vol.heap.Length ==> vol.heap[i] == 0
  {
    hide Owned, RootChain, Bit, DivRoundUp, Times;
    var bitmap := ToArray(bits);
    var fat := ToArray(fatNow);
    var heap := new Byte[Times(count, cs)](_ => 0);
    vol := new Clusters.Volume(cs, count, bitmap, fat, heap, system, map[root := chain]);
    OneRoot(vol, root, chain);
  }
}
