/** The entries of a directory in the clusters of its node: how they are read, written, and cut
    or lengthened. */
module Stores {
  import opened Arith
  import opened Chain
  import ClusterBitmap
  import opened Common
  import opened EntrySet
  import opened Format
  import Clusters
  import FileBytes
  import FileIo

  lemma {:induction false} FlatLength(entries: seq<Entry>)
    ensures |Flat(entries)| == ENTRY_SIZE * |entries|
  {
    if entries != [] {
      FlatLength(entries[1..]);
    }
  }

  lemma {:induction false} FlatAt(entries: seq<Entry>, e: nat, k: nat)
    requires e < |entries| && k < ENTRY_SIZE
    ensures |Flat(entries)| == ENTRY_SIZE * |entries| && Flat(entries)[ENTRY_SIZE * e + k] == entries[e][k]
  {
    FlatLength(entries);
    if e > 0 {
      FlatAt(entries[1..], e - 1, k);
    }
  }

  /** The entries that some bytes are. */
  function Cut(bytes: seq<Byte>, n: nat): (r: seq<Entry>)
    requires |bytes| == ENTRY_SIZE * n
  {
    seq(n, e requires 0 <= e < n => bytes[ENTRY_SIZE * e..ENTRY_SIZE * e + ENTRY_SIZE])
  }

  /** Entries `at` to `at + |set|` replaced. */
  function Put(entries: seq<Entry>, at: nat, set_: seq<Entry>): (r: seq<Entry>)
    requires at + |set_| <= |entries|
    ensures |r| == |entries|
    ensures forall e :: 0 <= e < |entries| ==> r[e] == if at <= e < at + |set_| then set_[e - at] else entries[e]
  {
    entries[..at] + set_ + entries[at + |set_|..]
  }

  /** A directory cut, or lengthened by zeros. */
  function ToLength(entries: seq<Entry>, n: nat): (r: seq<Entry>)
    ensures |r| == n
    ensures forall e :: 0 <= e < n ==> r[e] == if e < |entries| then entries[e] else ZERO_ENTRY
  {
    seq(n, e requires 0 <= e < n => if e < |entries| then entries[e] else ZERO_ENTRY)
  }

  /** Bytes are entries in one way only. */
  lemma CutFlat(entries: seq<Entry>)
    ensures |Flat(entries)| == ENTRY_SIZE * |entries| && Cut(Flat(entries), |entries|) == entries
  {
    hide Flat;
    FlatLength(entries);
    var bytes := Flat(entries);
    forall e | 0 <= e < |entries|
      ensures bytes[ENTRY_SIZE * e..ENTRY_SIZE * e + ENTRY_SIZE] == entries[e]
    {
      forall k | 0 <= k < ENTRY_SIZE
        ensures bytes[ENTRY_SIZE * e..ENTRY_SIZE * e + ENTRY_SIZE][k] == entries[e][k]
      {
        FlatAt(entries, e, k);
      }
    }
  }

  /** Entries are equal when each of their bytes is. */
  lemma SameFlat(bytes: seq<Byte>, entries: seq<Entry>)
    requires |bytes| == ENTRY_SIZE * |entries|
    requires forall e, k :: 0 <= e < |entries| && 0 <= k < ENTRY_SIZE ==> bytes[ENTRY_SIZE * e + k] == entries[e][k]
    ensures bytes == Flat(entries)
  {
    hide Flat;
    FlatLength(entries);
    forall i | 0 <= i < |bytes|
      ensures bytes[i] == Flat(entries)[i]
    {
      var e, k := i / ENTRY_SIZE, i % ENTRY_SIZE;
      FlatAt(entries, e, k);
      assert bytes[ENTRY_SIZE * e + k] == entries[e][k];
    }
  }

  lemma FlatSlice(entries: seq<Entry>, at: nat, n: nat)
    requires at + n <= |entries|
    ensures |Flat(entries)| == ENTRY_SIZE * |entries|
    ensures Flat(entries)[ENTRY_SIZE * at..ENTRY_SIZE * at + ENTRY_SIZE * n] == Flat(entries[at..at + n])
  {
    hide Flat;
    FlatLength(entries);
    var part, bytes := entries[at..at + n], Flat(entries)[ENTRY_SIZE * at..ENTRY_SIZE * at + ENTRY_SIZE * n];
    forall e, k | 0 <= e < n && 0 <= k < ENTRY_SIZE
      ensures bytes[ENTRY_SIZE * e + k] == part[e][k]
    {
      FlatAt(entries, at + e, k);
    }
    SameFlat(bytes, part);
  }

  lemma PutByte(entries: seq<Entry>, at: nat, set_: seq<Entry>, e: nat, k: nat)
    requires at + |set_| <= |entries| && e < |entries| && k < ENTRY_SIZE
    ensures |Flat(entries)| == ENTRY_SIZE * |entries| && |Flat(set_)| == ENTRY_SIZE * |set_|
    ensures FileBytes.Overlaid(Flat(entries), ENTRY_SIZE * at, Flat(set_))[ENTRY_SIZE * e + k] == Put(entries, at, set_)[e][k]
  {
    hide Flat;
    FlatLength(entries);
    FlatLength(set_);
    FlatAt(entries, e, k);
    if at <= e < at + |set_| {
      FlatAt(set_, e - at, k);
      assert ENTRY_SIZE * e + k - ENTRY_SIZE * at == ENTRY_SIZE * (e - at) + k;
    }
  }

  lemma FlatPut(entries: seq<Entry>, at: nat, set_: seq<Entry>)
    requires at + |set_| <= |entries|
    ensures FileBytes.Overlaid(Flat(entries), ENTRY_SIZE * at, Flat(set_)) == Flat(Put(entries, at, set_))
  {
    hide Flat, Put;
    FlatLength(entries);
    FlatLength(set_);
    var bytes := FileBytes.Overlaid(Flat(entries), ENTRY_SIZE * at, Flat(set_));
    forall e, k | 0 <= e < |entries| && 0 <= k < ENTRY_SIZE
      ensures bytes[ENTRY_SIZE * e + k] == Put(entries, at, set_)[e][k]
    {
      PutByte(entries, at, set_, e, k);
    }
    SameFlat(bytes, Put(entries, at, set_));
  }

  lemma FlatToLength(entries: seq<Entry>, n: nat)
    ensures FileBytes.Resized(Flat(entries), ENTRY_SIZE * n) == Flat(ToLength(entries, n))
  {
    hide Flat;
    FlatLength(entries);
    var bytes := FileBytes.Resized(Flat(entries), ENTRY_SIZE * n);
    forall e, k | 0 <= e < n && 0 <= k < ENTRY_SIZE
      ensures bytes[ENTRY_SIZE * e + k] == ToLength(entries, n)[e][k]
    {
      if e < |entries| {
        FlatAt(entries, e, k);
      }
    }
    SameFlat(bytes, ToLength(entries, n));
  }

  /** What the heap has of a file: its clusters and its bytes. */
  datatype Kept = Kept(chain: seq<nat>, content: seq<Byte>)

  class Store {
    const vol: Clusters.Volume
    const node: Clusters.Node

    constructor (vol: Clusters.Volume, node: Clusters.Node)
      ensures this.vol == vol && this.node == node
    {
      this.vol, this.node := vol, node;
    }

    /** The node's content is these entries. */
    ghost predicate Holds(entries: seq<Entry>)
      reads vol, vol.bitmap, vol.fat, vol.heap, vol.chains.Keys, node
    {
      && vol.Valid() && node in vol.chains && vol.Readable(node)
      && node.size == node.validSize == ENTRY_SIZE * |entries| && vol.ContentOf(node) == Flat(entries)
    }

    /** All other files of the volume. */
    ghost function Others(): map<Clusters.Node, Kept>
      reads vol, vol.heap, vol.chains.Keys
    {
      map m | m in vol.chains && m != node && vol.Readable(m) :: Kept(vol.chains[m], vol.ContentOf(m))
    }

    /** The free clusters of the volume. */
    ghost function Free(): nat
      requires vol.Shape()
      reads vol, vol.bitmap
    {
      vol.FreeCount()
    }

    lemma HeldSize(entries: seq<Entry>)
      requires Holds(entries)
      ensures node.size == ENTRY_SIZE * |entries|
    {
    }

    /** The clusters of the node, counted. */
    lemma HeldClusters(entries: seq<Entry>)
      requires Holds(entries)
      ensures vol.Shape() && node in vol.chains && |vol.chains[node]| == vol.Clusters(ENTRY_SIZE * |entries|)
      ensures Free() + |vol.chains[node]| <= vol.clusterCount < 0xffff_ffff
    {
      hide Owned, DivRoundUp, ClusterBitmap.ClearBits, ClusterBitmap.Bit;
      vol.OwnedChain(node);
      forall i | 0 <= i < |vol.chains[node]|
        ensures ClusterBitmap.Bit(vol.bitmap[..], vol.chains[node][i] - ClusterBitmap.FIRST_DATA_CLUSTER)
      {
        vol.OwnedBitSet(node, i);
      }
      FreeAndOwned(vol.bitmap[..], vol.chains[node], vol.clusterCount);
    }

    /** read_entries */
    method ReadEntries(at: nat, n: nat, ghost entries: seq<Entry>) returns (out: seq<Entry>)
      requires Holds(entries) && n > 0 && at + n <= |entries|
      modifies node`fptrIndex, node`fptrCluster
      ensures Holds(entries) && out == entries[at..at + n]
      ensures vol.chains == old(vol.chains) && Others() == old(Others()) && Free() == old(Free())
    {
      hide vol.Valid, vol.ContentOf, Flat, vol.FreeCount;
      var buffer := new Byte[ENTRY_SIZE * n];
      var r := FileIo.Pread(vol, node, buffer, ENTRY_SIZE * n, ENTRY_SIZE * at);
      FlatSlice(entries, at, n);
      CutFlat(entries[at..at + n]);
      assert buffer[..r] == buffer[..];
      out := Cut(buffer[..], n);
    }

    /** write_entries */
    method WriteEntries(at: nat, set_: seq<Entry>, ghost entries: seq<Entry>)
      requires Holds(entries) && set_ != [] && at + |set_| <= |entries|
      modifies vol`chains, vol`bitmapDirty, vol.bitmap, vol.fat, vol.heap, node
      ensures Holds(Put(entries, at, set_))
      ensures vol.chains.Keys == old(vol.chains).Keys && Others() == old(Others()) && Free() == old(Free())
    {
      hide vol.Valid, vol.ContentOf, Flat, vol.FreeCount, DivRoundUp, FileBytes.Overlaid;
      HeldClusters(entries);
      DivRoundUpMonotone(ENTRY_SIZE * at + ENTRY_SIZE * |set_|, node.size, vol.clusterSize);
      FlatPut(entries, at, set_);
      FlatLength(set_);
      var r := FileIo.Pwrite(vol, node, Flat(set_), ENTRY_SIZE * at);
      HeldClusters(Put(entries, at, set_));
    }

    /** exfat_truncate of a directory. */
    method Resize(n: nat, ghost entries: seq<Entry>) returns (rc: int)
      requires Holds(entries) && vol.Fits(ENTRY_SIZE * n)
      modifies vol`chains, vol`bitmapDirty, vol.bitmap, vol.fat, vol.heap, node
      ensures rc == 0 <==> vol.Clusters(ENTRY_SIZE * n) <= old(|vol.chains[node]| + Free())
      ensures Holds(if rc == 0 then ToLength(entries, n) else entries)
      ensures vol.chains.Keys == old(vol.chains).Keys && Others() == old(Others())
      ensures Free() + |vol.chains[node]| == old(Free() + |vol.chains[node]|)
    {
      hide vol.Valid, vol.ContentOf, Flat, vol.FreeCount, DivRoundUp, FileBytes.Resized;
      FlatToLength(entries, n);
      rc := vol.Truncate(node, ENTRY_SIZE * n, true);
    }
  }
}
