/** How the clusters of a file are recorded - an implicit run or a linked list in the
    FAT - and who owns which cluster. Everything here is about values: the FAT and the
    bitmap are sequences, the files are the keys of a map to their chains. */
module Chain {
  import opened ClusterBitmap
  import opened Common

  const CLUSTER_FREE: nat := 0

  /** The negation of CLUSTER_INVALID. */
  predicate ValidCluster(count: nat, c: nat) {
    FIRST_DATA_CLUSTER <= c < count + FIRST_DATA_CLUSTER
  }

  /** What exfat_next_cluster reads: the next number of a run, or the FAT entry. */
  function NextCluster(fat: seq<nat>, contiguous: bool, c: nat): nat
    requires c < |fat|
  {
    if contiguous then c + 1 else fat[c]
  }

  /** The recorded start and links spell out exactly this chain. */
  ghost predicate Linked(fat: seq<nat>, contiguous: bool, start: nat, chain: seq<nat>) {
    && (forall i :: 0 <= i < |chain| ==> chain[i] < |fat|)
    && start == (if chain == [] then CLUSTER_FREE else chain[0])
    && (forall i :: 0 <= i < |chain| - 1 ==> Follows(fat, contiguous, chain, i))
  }

  ghost predicate Follows(fat: seq<nat>, contiguous: bool, chain: seq<nat>, i: nat)
    requires i < |chain| - 1
  {
    chain[i] < |fat| && chain[i + 1] == NextCluster(fat, contiguous, chain[i])
  }

  /** A chain kept in the FAT ends in the END mark. */
  ghost predicate Terminated(fat: seq<nat>, contiguous: bool, chain: seq<nat>)
    requires forall i :: 0 <= i < |chain| ==> chain[i] < |fat|
  {
    !contiguous && chain != [] ==> fat[chain[|chain| - 1]] == CLUSTER_END
  }

  ghost predicate ValidChain(chain: seq<nat>, count: nat) {
    && (forall i :: 0 <= i < |chain| ==> ValidCluster(count, chain[i]))
    && (forall i, j :: 0 <= i < j < |chain| ==> chain[i] != chain[j])
  }

  ghost predicate Disjoint(a: seq<nat>, b: seq<nat>) {
    forall c :: c in a ==> c !in b
  }

  ghost predicate InSomeChain<N>(chains: map<N, seq<nat>>, c: nat) {
    exists n :: n in chains && c in chains[n]
  }

  /** The ownership invariant: chains are valid, duplicate-free, pairwise disjoint and
      clear of the system clusters, and the set bits are exactly the clusters in use. */
  ghost predicate Owned<N>(chains: map<N, seq<nat>>, system: set<nat>, bits: seq<bv8>, count: nat) {
    && count <= 8 * |bits|
    && (forall n :: n in chains ==> ValidChain(chains[n], count))
    && (forall n, m :: n in chains && m in chains && n != m ==> Disjoint(chains[n], chains[m]))
    && (forall n, c :: n in chains && c in chains[n] ==> c !in system)
    && (forall i: nat | i < count ::
          Bit(bits, i) <==> i + FIRST_DATA_CLUSTER in system || InSomeChain(chains, i + FIRST_DATA_CLUSTER))
  }

  lemma FreeIsUnowned<N>(chains: map<N, seq<nat>>, system: set<nat>, bits: seq<bv8>, count: nat, c: nat)
    requires Owned(chains, system, bits, count)
    requires ValidCluster(count, c) && !Bit(bits, c - FIRST_DATA_CLUSTER)
    ensures c !in system && forall n :: n in chains ==> c !in chains[n]
  {
    forall n | n in chains
      ensures c !in chains[n]
    {
      if c in chains[n] {
        assert InSomeChain(chains, (c - FIRST_DATA_CLUSTER) + FIRST_DATA_CLUSTER);
      }
    }
  }

  /** The clusters of a chain and the free clusters together are no more than there are. */
  lemma {:induction false} FreeAndOwned(bits: seq<bv8>, chain: seq<nat>, count: nat)
    requires count <= 8 * |bits| && ValidChain(chain, count)
    requires forall i :: 0 <= i < |chain| ==> Bit(bits, chain[i] - FIRST_DATA_CLUSTER)
    ensures ClearBits(bits, count) + |chain| <= count
    decreases |chain|
  {
    hide Bit, WithBit, ClearBits;
    if chain != [] {
      var b := chain[0] - FIRST_DATA_CLUSTER;
      WithBitBits(bits, b, false);
      ClearBitsSet(bits, b, false, count);
      FreeAndOwned(WithBit(bits, b, false), chain[1..], count);
    }
  }

  /** Claiming a free cluster for the end of one chain keeps the ownership invariant. */
  lemma ClaimKeepsOwned<N>(chains: map<N, seq<nat>>, system: set<nat>, bits: seq<bv8>, count: nat, n: N, c: nat)
    requires Owned(chains, system, bits, count) && n in chains
    requires ValidCluster(count, c) && !Bit(bits, c - FIRST_DATA_CLUSTER)
    ensures Owned(chains[n := chains[n] + [c]], system, WithBit(bits, c - FIRST_DATA_CLUSTER, true), count)
  {
    hide Bit, WithBit;
    FreeIsUnowned(chains, system, bits, count, c);
    WithBitBits(bits, c - FIRST_DATA_CLUSTER, true);
    var chains' := chains[n := chains[n] + [c]];
    forall d: nat
      ensures InSomeChain(chains', d) <==> d == c || InSomeChain(chains, d)
    {
      if InSomeChain(chains, d) {
        var m :| m in chains && d in chains[m];
        assert m in chains' && d in chains'[m];
      }
      if d == c {
        assert n in chains' && d in chains'[n];
      }
    }
  }

  /** Releasing the k-th cluster of one chain keeps the ownership invariant. */
  lemma ReleaseKeepsOwned<N>(chains: map<N, seq<nat>>, system: set<nat>, bits: seq<bv8>, count: nat, n: N, k: nat)
    requires Owned(chains, system, bits, count) && n in chains && k < |chains[n]|
    requires ValidCluster(count, chains[n][k])
    ensures Owned(chains[n := Without(chains[n], k)], system,
                  WithBit(bits, chains[n][k] - FIRST_DATA_CLUSTER, false), count)
  {
    hide Bit, WithBit;
    var c := chains[n][k];
    WithBitBits(bits, c - FIRST_DATA_CLUSTER, false);
    var rest := Without(chains[n], k);
    var chains' := chains[n := rest];
    forall i | 0 <= i < |rest|
      ensures rest[i] == chains[n][if i < k then i else i + 1]
    {
    }
    assert ValidChain(rest, count);
    assert c !in rest;
    forall d | d in chains[n] && d != c
      ensures d in rest
    {
      var i :| 0 <= i < |chains[n]| && chains[n][i] == d;
      assert rest[if i < k then i else i - 1] == d;
    }
    forall d: nat
      ensures InSomeChain(chains', d) <==> d != c && InSomeChain(chains, d)
    {
      if InSomeChain(chains, d) && d != c {
        var m :| m in chains && d in chains[m];
        assert m in chains' && d in chains'[m];
      }
      if InSomeChain(chains', d) {
        var m :| m in chains' && d in chains'[m];
        assert m in chains && d in chains[m];
        assert c in chains[n];
      }
    }
    assert c in chains[n];
  }

  /** A node without clusters can come and go. */
  lemma EmptyChainKeepsOwned<N>(chains: map<N, seq<nat>>, chains': map<N, seq<nat>>, system: set<nat>, bits: seq<bv8>, count: nat, n: N)
    requires Owned(chains, system, bits, count)
    requires (n !in chains && chains' == chains[n := []]) || (n in chains && chains[n] == [] && chains' == chains - {n})
    ensures Owned(chains', system, bits, count)
  {
    forall c: nat
      ensures InSomeChain(chains', c) <==> InSomeChain(chains, c)
    {
      if InSomeChain(chains, c) {
        var m :| m in chains && c in chains[m];
        assert m in chains' && c in chains'[m];
      }
    }
  }

  /** Two states with the same chains own the same clusters, so their bitmaps agree. */
  lemma SameChainsSameBits<N>(chains: map<N, seq<nat>>, system: set<nat>, a: seq<bv8>, b: seq<bv8>, count: nat)
    requires Owned(chains, system, a, count) && Owned(chains, system, b, count)
    ensures forall i: nat | i < count :: Bit(a, i) == Bit(b, i)
  {
  }

  /** Writing FAT entries outside a chain leaves that chain recorded. */
  lemma FatFrame(fat: seq<nat>, fat': seq<nat>, contiguous: bool, start: nat, chain: seq<nat>)
    requires |fat| == |fat'| && Linked(fat, contiguous, start, chain)
    requires forall c :: 0 <= c < |fat| && c in chain ==> fat'[c] == fat[c]
    ensures Linked(fat', contiguous, start, chain)
    ensures Terminated(fat, contiguous, chain) ==> Terminated(fat', contiguous, chain)
  {
    forall i | 0 <= i < |chain|
      ensures fat'[chain[i]] == fat[chain[i]]
    {
      assert chain[i] in chain;
    }
    forall i | 0 <= i < |chain| - 1
      ensures Follows(fat', contiguous, chain, i)
    {
      assert Follows(fat, contiguous, chain, i);
    }
  }

  ghost function Elements(s: seq<nat>): set<nat> {
    set c | c in s
  }

  /** No chain is longer than the cluster heap: distinct numbers, all in range. */
  lemma Pigeonhole(chain: seq<nat>, count: nat)
    requires ValidChain(chain, count)
    ensures |chain| <= count
  {
    DistinctCardinality(chain);
    BoundedCardinality(Elements(chain), count);
  }

  lemma {:induction false} DistinctCardinality(s: seq<nat>)
    requires forall i, j :: 0 <= i < j < |s| ==> s[i] != s[j]
    ensures |Elements(s)| == |s|
  {
    if s != [] {
      var last := s[|s| - 1];
      var init := s[..|s| - 1];
      DistinctCardinality(init);
      assert Elements(s) == Elements(init) + {last};
      assert last !in Elements(init);
    } else {
      assert Elements(s) == {};
    }
  }

  lemma {:induction false} BoundedCardinality(s: set<nat>, count: nat)
    requires forall c :: c in s ==> ValidCluster(count, c)
    ensures |s| <= count
  {
    if count > 0 {
      BoundedCardinality(s - {count + 1}, count - 1);
    } else {
      assert s == {};
    }
  }
}
