/** The root directory that the formatter writes, and that mounting reads back. */
module FreshRoots {
  import opened Arith
  import opened Chain
  import opened Common
  import opened EntrySet
  import opened Format
  import opened Stores
  import opened Directories
  import ClusterBitmap
  import Clusters
  import FileBytes
  import Mkfs
  import Mount
  import Slots
  import Utf

  /** init_label_entry: without a label the entry is not in use. */
  function LabelEntry(units: seq<Utf.Unit>): (e: Entry)
    requires |units| == ENAME_MAX
    ensures CString(units) == [] ==> e[0] == ENTRY_LABEL - VALID
    ensures CString(units) != [] ==> e[0] == ENTRY_LABEL && e[1] == |CString(units)| && Label(e) == units
  {
    if CString(units) == [] then ZERO_ENTRY[0 := ENTRY_LABEL - VALID]
    else
      UnitsBack(units, |CString(units)|);
      UnitsEntry(units, |CString(units)|)
  }

  /** The units of a label, behind its length. */
  function UnitsEntry(units: seq<Utf.Unit>, n: nat): (e: Entry)
    requires |units| == ENAME_MAX && n <= ENAME_MAX
    ensures e[0] == ENTRY_LABEL && e[1] == n
  {
    seq(ENTRY_SIZE, b requires 0 <= b < ENTRY_SIZE =>
      if b == 0 then ENTRY_LABEL
      else if b == 1 then n
      else if b % 2 == 0 then units[b / 2 - 1] % 0x100
      else units[b / 2 - 1] / 0x100)
  }

  lemma UnitsBack(units: seq<Utf.Unit>, n: nat)
    requires |units| == ENAME_MAX && n <= ENAME_MAX
    ensures Label(UnitsEntry(units, n)) == units
  {
    hide UnitsEntry;
    forall m | 0 <= m < ENAME_MAX
      ensures Label(UnitsEntry(units, n))[m] == units[m]
    {
      UnitBack(units, n, m);
    }
  }

  lemma UnitBack(units: seq<Utf.Unit>, n: nat, m: nat)
    requires |units| == ENAME_MAX && n <= ENAME_MAX && m < ENAME_MAX
    ensures Le16(UnitsEntry(units, n), 2 + 2 * m) == units[m]
  {
    var e := UnitsEntry(units, n);
    var low, high := 2 + 2 * m, 3 + 2 * m;
    assert low / 2 - 1 == m && low % 2 == 0 && e[low] == units[m] % 0x100;
    assert high / 2 - 1 == m && high % 2 == 1 && e[high] == units[m] / 0x100;
  }

  /** init_bitmap_entry */
  function BitmapEntry(p: Mkfs.Params): (e: Entry)
    requires p.Valid() && p.CbmSize() < 0x1_0000_0000
    ensures e[0] == ENTRY_BITMAP && Le32(e, 20) == ClusterBitmap.FIRST_DATA_CLUSTER && Le64(e, 24) == p.CbmSize()
  {
    hide Le16, PutLe16, PutLe32, PutLe64;
    var start := PutLe32(ZERO_ENTRY[0 := ENTRY_BITMAP], 20, ClusterBitmap.FIRST_DATA_CLUSTER);
    SameLe32(PutLe64(start, 24, p.CbmSize()), start, 20, 24, 32);
    PutLe64(start, 24, p.CbmSize())
  }

  /** init_upcase_entry; the checksum is that of the table. */
  function UpcaseEntry(p: Mkfs.Params, sum: nat): (e: Entry)
    requires p.Valid() && Mkfs.UpcaseCluster(p) < 0x1_0000_0000 && sum < 0x1_0000_0000
    ensures e[0] == ENTRY_UPCASE && Le32(e, 20) == Mkfs.UpcaseCluster(p) && Le64(e, 24) == Mkfs.UPCASE_SIZE
  {
    hide Le16, PutLe16, PutLe32, PutLe64;
    var checked := PutLe32(ZERO_ENTRY[0 := ENTRY_UPCASE], 4, sum);
    var start := PutLe32(checked, 20, Mkfs.UpcaseCluster(p));
    SameLe32(PutLe64(start, 24, Mkfs.UPCASE_SIZE), start, 20, 24, 32);
    PutLe64(start, 24, Mkfs.UPCASE_SIZE)
  }

  /** What the formatter takes the root directory from. */
  ghost predicate Formattable(p: Mkfs.Params, units: seq<Utf.Unit>, sum: nat) {
    && p.Accepted() && Mkfs.HeapClusters(p) < ClusterBitmap.CLUSTER_END - 8
    && |units| == ENAME_MAX && sum < 0x1_0000_0000
  }

  lemma Numbers(p: Mkfs.Params)
    requires p.Accepted() && Mkfs.HeapClusters(p) < ClusterBitmap.CLUSTER_END - 8
    ensures p.CbmSize() == DivRoundUp(Mkfs.HeapClusters(p), 8) < 0x1_0000_0000
    ensures Mkfs.UpcaseCluster(p) < 0x1_0000_0000
    ensures ValidCluster(Mkfs.HeapClusters(p), Mkfs.UpcaseCluster(p))
    ensures ValidCluster(Mkfs.HeapClusters(p), ClusterBitmap.FIRST_DATA_CLUSTER)
  {
    hide Mkfs.CbmClusters, Mkfs.UctClusters, Mkfs.Params.CbmSize, Mkfs.Params.UctPosition,
      Mkfs.Params.HeapStart, Mkfs.Params.ClusterSize, Mkfs.Params.ClustersMax, DivRoundUp, RoundUp;
    Mkfs.CbmNotEmpty(p);
    DivRoundUpAtMost(Mkfs.HeapClusters(p), 8);
    Mkfs.HeapFits(p);
    Mkfs.UpcaseStart(p);
  }

  lemma DivRoundUpAtMost(x: nat, d: nat)
    requires d > 0
    ensures DivRoundUp(x, d) <= x
  {
    MulMonotone(1, d, x);
    UnitsFor(x, d, x);
  }

  /** rootdir_write, into a cluster of zeros. */
  method WriteRoot(p: Mkfs.Params, units: seq<Utf.Unit>, sum: nat) returns (entries: seq<Entry>)
    requires Formattable(p, units, sum)
    ensures entries == RootEntries(p, units, sum)
  {
    Numbers(p);
    entries := [LabelEntry(units)];
    entries := entries + [BitmapEntry(p)];
    entries := entries + [UpcaseEntry(p, sum)];
  }

  ghost function RootEntries(p: Mkfs.Params, units: seq<Utf.Unit>, sum: nat): (r: seq<Entry>)
    requires Formattable(p, units, sum)
    ensures |r| == 3
  {
    Numbers(p);
    [LabelEntry(units), BitmapEntry(p), UpcaseEntry(p, sum)]
  }

  /** A label that mounting takes: none, or one without an unpaired high surrogate. */
  predicate LabelRead(units: seq<Utf.Unit>) {
    CString(units) == [] || Utf.Paired(units)
  }

  lemma FirstIn(s: seq<Found>)
    requires s != []
    ensures s[0] in s
  {
  }

  lemma NoneListed(found: seq<Found>)
    requires Lists([], [], 0, found)
    ensures found == []
  {
    if found != [] {
      FirstIn(found);
      assert false;
    }
  }

  /** Mounting reads the root directory of a formatted volume, and finds no file there, exactly
      when the label can be read. */
  lemma RootReadable(p: Mkfs.Params, units: seq<Utf.Unit>, sum: nat, g: Geometry, entries: seq<Entry>)
    requires Formattable(p, units, sum) && g.clusterCount == Mkfs.HeapClusters(p) && |entries| >= 3
    requires forall e :: 0 <= e < |entries| ==> entries[e] == if e < 3 then RootEntries(p, units, sum)[e] else ZERO_ENTRY
    ensures ReadFrom(g, false, entries, 0) == if LabelRead(units) then Some([]) else None
    ensures LabelRead(units) ==> SystemSound(g, false, entries) && SystemSound(g, true, entries) && HasUpcase(entries, 0)
    ensures forall e :: 0 <= e < |entries| && entries[e][0] >= VALID ==> SystemType(entries[e][0])
  {
    hide Parsed, Label, LabelEntry, BitmapEntry, UpcaseEntry, ReadFrom, DivRoundUp;
    Numbers(p);
    Utf.UnitsFit(units, LABEL_ROOM);
    if LabelRead(units) {
      assert Image(g, [], [], entries);
      ReadsBack(g, false, [], [], entries, 0);
      SoundLater(g, false, true, entries);
      NoneListed(ReadFrom(g, false, entries, 0).value);
      HasNext(entries, 0);
      HasNext(entries, 1);
      HasNext(entries, 2);
    } else {
      ReadsNext(g, false, entries, 0);
    }
  }

  /** A label that the formatter takes from UTF-8 with an encoded high surrogate is not read. */
  lemma UnreadableLabel()
    ensures Utf.Utf16Of([0xed, 0xa0, 0x80], ENAME_MAX + 1) == Utf.Ok([0xd800])
    ensures !LabelRead([0xd800, 0, 0, 0, 0, 0, 0, 0, 0, 0, 0, 0, 0, 0, 0])
  {
    var bytes: seq<Byte> := [0xed, 0xa0, 0x80];
    assert Utf.FromUtf8(bytes) == Utf.Char(0xd800, 3);
    assert Utf.ToUtf16(0xd800) == [0xd800] && bytes[3..] == [];
    assert Utf.Utf16Of([], ENAME_MAX) == Utf.Ok([]);
    var front: seq<Utf.Unit> := [0xd800];
    assert front + [] == front;
  }

  // ---- From formatting to the first directory.

  lemma SectorsOfEntries(p: Mkfs.Params) returns (perCluster: nat)
    requires p.Valid() && p.sectorSize % 512 == 0 && p.ClusterSize() <= Clusters.MAX_CLUSTER_SIZE
    ensures perCluster >= 16 && p.ClusterSize() == ENTRY_SIZE * perCluster
    ensures Mkfs.HeapClusters(p) < 0x1_0000_0000 ==> Mkfs.HeapClusters(p) * p.ClusterSize() < 0x1_0000_0000_0000_0000
  {
    var k := p.sectorSize / 512;
    perCluster := 16 * (k * p.sectorsPerCluster);
    assert p.sectorSize == 512 * k;
    assert p.ClusterSize() == 512 * k * p.sectorsPerCluster == 512 * (k * p.sectorsPerCluster);
    Positive(k, p.sectorsPerCluster);
    MulMonotone(Mkfs.HeapClusters(p), 0x1_0000_0000, p.ClusterSize());
  }

  /** The content of a node on a medium of zeros. */
  lemma BlankContent(store: Store, n: nat)
    requires store.vol.Valid() && store.node in store.vol.chains && store.vol.Readable(store.node)
    requires store.node.size == store.node.validSize == ENTRY_SIZE * n
    requires forall i :: 0 <= i < store.vol.heap.Length ==> store.vol.heap[i] == 0
    ensures store.Holds(ToLength([], n))
  {
    hide ToLength, DivRoundUp, Owned, FileBytes.Content, FileBytes.Resized, store.vol.Valid;
    var vol, node := store.vol, store.node;
    FlatToLength([], n);
    FileBytes.BlankReads(vol.heap[..], vol.clusterSize, vol.clusterCount, vol.chains[node], node.size, node.validSize);
  }

  lemma FormattableFacts(p: Mkfs.Params, units: seq<Utf.Unit>, sum: nat)
    requires Formattable(p, units, sum)
    ensures p.Accepted() && p.Valid() && Mkfs.HeapClusters(p) < ClusterBitmap.CLUSTER_END - 8
  {
  }

  /** The store of a root directory of zeros. */
  method FirstStore(vol: Clusters.Volume, root: Clusters.Node, perCluster: nat) returns (store: Store)
    requires vol.Valid() && root in vol.chains && root.size == root.validSize == ENTRY_SIZE * perCluster
    requires forall i :: 0 <= i < vol.heap.Length ==> vol.heap[i] == 0
    ensures fresh(store) && store.vol == vol && store.node == root && store.Holds(ToLength([], perCluster))
  {
    hide vol.Valid, ToLength;
    vol.ValidReadable();
    store := new Store(vol, root);
    BlankContent(store, perCluster);
  }

  /** The object of a root directory that has been read, without files. */
  method RootFile(g: Geometry, upcase: bool, store: Store, perCluster: nat, entries: seq<Entry>) returns (d: DirectoryFile)
    requires g.Valid() && perCluster >= 16 && |entries| == perCluster && store.Holds(entries)
    requires store.vol.clusterSize == ENTRY_SIZE * perCluster && g == Geometry(store.vol.clusterSize, store.vol.clusterCount)
    requires forall e :: 0 <= e < |entries| && entries[e][0] >= VALID ==> SystemType(entries[e][0])
    requires SystemSound(g, upcase, entries)
    ensures fresh(d) && d.Valid() && d.slots.root && d.infos == [] && d.slots.kids == [] && d.upcase == upcase
    ensures d.store == store && d.entries == entries
  {
    hide Store.Holds, SystemSound, DirectoryFile.Valid;
    DivModUnique(perCluster, perCluster, 1);
    var slots := new Slots.Directory(true, perCluster);
    slots.types := Types(entries);
    d := new DirectoryFile(g, upcase, slots, store, entries);
  }

  /** A formatted volume. What the formatter writes at the place of the root directory on the
      medium is written to its cluster here. */
  method FormatVolume(p: Mkfs.Params, units: seq<Utf.Unit>, sum: nat) returns (store: Store, ghost entries: seq<Entry>)
    requires Formattable(p, units, sum) && p.sectorSize % 512 == 0 && p.ClusterSize() <= Clusters.MAX_CLUSTER_SIZE
    ensures fresh(store) && fresh(store.node) && store.Holds(entries)
    ensures fresh(store.vol) && fresh(store.vol.bitmap) && fresh(store.vol.fat) && fresh(store.vol.heap)
    ensures store.vol.chains.Keys == {store.node} && store.vol.system == Mkfs.SystemClusters(p)
    ensures store.vol.clusterSize == p.ClusterSize() == ENTRY_SIZE * |entries| && store.vol.clusterCount == Mkfs.HeapClusters(p)
    ensures |entries| >= 16
    ensures forall e :: 0 <= e < |entries| ==> entries[e] == if e < 3 then RootEntries(p, units, sum)[e] else ZERO_ENTRY
  {
    hide Formattable, Mkfs.Params.ClusterSize, Mkfs.HeapClusters, RootEntries, Store.Holds, Clusters.Volume.Valid, Mkfs.RootChain,
      Mkfs.SystemClusters, Mkfs.Params.Accepted;
    FormattableFacts(p, units, sum);
    ghost var n := SectorsOfEntries(p);
    var perCluster := p.ClusterSize() / ENTRY_SIZE;
    var vol, root := Mount.MountFresh(p);
    store := FirstStore(vol, root, perCluster);
    var written := WriteRoot(p, units, sum);
    store.WriteEntries(0, written, ToLength([], perCluster));
    entries := Put(ToLength([], perCluster), 0, written);
  }

  /** Formatting and mounting: reading the root directory succeeds exactly when the label can be
      read, and then it is a directory without files, and the up-case table is known. */
  method MountRoot(p: Mkfs.Params, units: seq<Utf.Unit>, sum: nat) returns (d: DirectoryFile?)
    requires Formattable(p, units, sum) && p.sectorSize % 512 == 0 && p.ClusterSize() <= Clusters.MAX_CLUSTER_SIZE
    ensures d != null <==> LabelRead(units)
    ensures d != null ==>
      && fresh(d) && d.Valid() && d.slots.root && d.infos == [] && d.slots.kids == [] && d.upcase
      && d.store.vol.chains.Keys == {d.store.node} && d.store.vol.system == Mkfs.SystemClusters(p)
      && d.store.vol.clusterCount == Mkfs.HeapClusters(p) && |d.entries| >= 3 && d.entries[..3] == RootEntries(p, units, sum)
  {
    hide Formattable, Mkfs.Params.ClusterSize, Mkfs.HeapClusters, RootEntries, LabelRead, SystemSound, ReadFrom,
      HasUpcase, Store.Holds, DirectoryFile.Valid, Mkfs.SystemClusters, Mkfs.Params.Accepted;
    FormattableFacts(p, units, sum);
    ghost var n := SectorsOfEntries(p);
    var store, entries := FormatVolume(p, units, sum);
    store.HeldSize(entries);
    var all := store.ReadEntries(0, store.node.size / ENTRY_SIZE, entries);
    assert all == entries;
    var g := Geometry(store.vol.clusterSize, store.vol.clusterCount);
    RootReadable(p, units, sum, g, all);
    var found, upcase := CacheDirectory(g, false, all);
    if found.None? {
      return null;
    }
    d := RootFile(g, upcase, store, |all|, all);
  }
}
