/** The formatter: where it places its objects, what it writes into the super block, the FAT and
    the bitmap, and that a fresh volume satisfies the ownership invariant. */
module Mkfs {
  import opened Arith
  import opened ClusterBitmap
  import opened Chain

  const ENTRY_SIZE := 4
  const UPCASE_SIZE := 5836
  const CHAR_BIT := 8
  const LAST_DATA_CLUSTER := 0xffff_fff6

  datatype Object = Vbr | Fat | Cbm | Uct | RootDir

  /** The objects in the order they are written; the boot region is written twice. */
  const OBJECTS := [Vbr, Vbr, Fat, Cbm, Uct, RootDir]

  datatype Params = Params(sectorSize: nat, sectorsPerCluster: nat, volumeSize: nat) {
    predicate Valid() {
      && sectorSize >= 512 && sectorsPerCluster >= 1
      && ClustersMax() < 0x1_0000_0000
    }

    function ClusterSize(): (cs: nat)
      ensures sectorSize > 0 && sectorsPerCluster > 0 ==> cs > 0
    {
      if sectorSize > 0 && sectorsPerCluster > 0 then Positive(sectorSize, sectorsPerCluster); sectorSize * sectorsPerCluster
      else 0
    }

    function ClustersMax(): nat {
      if ClusterSize() > 0 then Quotient(volumeSize, ClusterSize()) else 0
    }

    function FatPosition(): nat { 128 * sectorSize }

    function FatEnd(): nat { FatPosition() + ENTRY_SIZE * ClustersMax() }

    /** Whole clusters before the heap. */
    function HeapStart(): nat
      requires Valid()
    {
      DivRoundUp(FatEnd(), ClusterSize())
    }

    function CbmPosition(): nat
      requires Valid()
    {
      RoundUp(FatEnd(), ClusterSize())
    }

    /** Bytes from the start of the heap to the end of the volume. */
    function HeapBytes(): nat
      requires Valid()
    {
      if volumeSize < CbmPosition() then 0 else volumeSize - CbmPosition()
    }

    function CbmSize(): nat
      requires Valid()
    {
      DivRoundUp(Quotient(HeapBytes(), ClusterSize()), CHAR_BIT)
    }

    function UctPosition(): nat
      requires Valid()
    {
      RoundUp(CbmPosition() + CbmSize(), ClusterSize())
    }

    function RootPosition(): nat
      requires Valid()
    {
      RoundUp(UctPosition() + UPCASE_SIZE, ClusterSize())
    }

    function Alignment(o: Object): (a: nat)
      requires Valid()
      ensures a > 0
    {
      match o
      case Vbr => sectorSize
      case Fat => 128 * sectorSize
      case Cbm | Uct | RootDir => ClusterSize()
    }

    function Size(o: Object): nat
      requires Valid()
    {
      match o
      case Vbr => 12 * sectorSize
      case Fat => ENTRY_SIZE * ClustersMax()
      case Cbm => CbmSize()
      case Uct => UPCASE_SIZE
      case RootDir => ClusterSize()
    }

    /** Where object i of the table starts, in closed form. */
    function Place(i: nat): nat
      requires Valid() && i < |OBJECTS|
    {
      if i == 0 then 0
      else if i == 1 then 12 * sectorSize
      else if i == 2 then FatPosition()
      else if i == 3 then CbmPosition()
      else if i == 4 then UctPosition()
      else RootPosition()
    }

    /** Where the first object of the kind starts. */
    function PlaceOf(o: Object): nat
      requires Valid()
    {
      match o
      case Vbr => 0
      case Fat => FatPosition()
      case Cbm => CbmPosition()
      case Uct => UctPosition()
      case RootDir => RootPosition()
    }

    /** check_size: everything fits. */
    predicate Accepted() {
      Valid() && RootPosition() + ClusterSize() <= volumeSize
    }
  }

  /** Each object starts at the first aligned position after the one before it. */
  lemma PlaceStep(p: Params, i: nat)
    requires p.Valid() && i + 1 < |OBJECTS|
    ensures p.Place(i + 1) == RoundUp(p.Place(i) + p.Size(OBJECTS[i]), p.Alignment(OBJECTS[i + 1]))
  {
    hide RoundUp, DivRoundUp;
    if i == 0 {
      RoundUpIs(12 * p.sectorSize, p.sectorSize, 12);
    } else if i == 1 {
      RoundUpIs(24 * p.sectorSize, 128 * p.sectorSize, 1);
    }
  }

  lemma RoundUpIs(x: nat, d: nat, k: nat)
    requires d > 0 && x <= k * d < x + d
    ensures RoundUp(x, d) == k * d
  {
    DivRoundUpUnique(x, d, k);
  }

  lemma EveryObjectListed(o: Object)
    ensures o in OBJECTS
  {
    assert OBJECTS[0] == Vbr && OBJECTS[2] == Fat && OBJECTS[3] == Cbm && OBJECTS[4] == Uct && OBJECTS[5] == RootDir;
  }

  /** get_position */
  method GetPosition(p: Params, o: Object) returns (position: nat)
    requires p.Valid()
    ensures position == p.PlaceOf(o)
  {
    hide RoundUp;
    position := 0;
    RoundUpIs(0, p.sectorSize, 0);
    EveryObjectListed(o);
    var i := 0;
    while i < |OBJECTS|
      invariant i <= |OBJECTS| && forall j :: 0 <= j < i ==> OBJECTS[j] != o
      invariant i < |OBJECTS| ==> RoundUp(position, p.Alignment(OBJECTS[i])) == p.Place(i)
    {
      position := RoundUp(position, p.Alignment(OBJECTS[i]));
      if OBJECTS[i] == o {
        return;
      }
      if i + 1 < |OBJECTS| {
        PlaceStep(p, i);
      }
      position := position + p.Size(OBJECTS[i]);
      i := i + 1;
    }
    assert false;
  }

  /** check_size */
  method CheckSize(p: Params) returns (ok: bool)
    requires p.Valid()
    ensures ok <==> p.Accepted()
  {
    hide RoundUp;
    var position: nat := 0;
    RoundUpIs(0, p.sectorSize, 0);
    var i := 0;
    while i < |OBJECTS|
      invariant i <= |OBJECTS|
      invariant i < |OBJECTS| ==> RoundUp(position, p.Alignment(OBJECTS[i])) == p.Place(i)
      invariant i == |OBJECTS| ==> position == p.Place(5) + p.Size(RootDir)
    {
      position := RoundUp(position, p.Alignment(OBJECTS[i]));
      if i + 1 < |OBJECTS| {
        PlaceStep(p, i);
      }
      position := position + p.Size(OBJECTS[i]);
      i := i + 1;
    }
    return position <= p.volumeSize;
  }

  lemma NextObject(p: Params, i: nat)
    requires p.Valid() && i + 1 < |OBJECTS|
    ensures p.Place(i) + p.Size(OBJECTS[i]) <= p.Place(i + 1)
  {
    hide RoundUp;
    PlaceStep(p, i);
    RoundUpAtLeast(p.Place(i) + p.Size(OBJECTS[i]), p.Alignment(OBJECTS[i + 1]));
  }

  /** The objects follow each other without overlap. */
  lemma {:induction false} ObjectsApart(p: Params, i: nat, j: nat)
    requires p.Valid() && i < j < |OBJECTS|
    ensures p.Place(i) + p.Size(OBJECTS[i]) <= p.Place(j)
    decreases j - i
  {
    NextObject(p, i);
    if i + 1 < j {
      ObjectsApart(p, i + 1, j);
    }
  }

  /** On an accepted volume they all lie inside it. */
  lemma ObjectsInside(p: Params, i: nat)
    requires p.Accepted() && i < |OBJECTS|
    ensures p.Place(i) + p.Size(OBJECTS[i]) <= p.volumeSize
  {
    if i < 5 {
      ObjectsApart(p, i, 5);
    }
  }

  /** A gigabyte in clusters of 32 KB: the heap starts at cluster 6, the bitmap and the up-case
      table have one cluster each, and the root is the third. */
  lemma Gigabyte()
    ensures var p := Params(512, 64, 0x4000_0000);
      && p.Accepted() && p.HeapStart() == 6 && HeapClusters(p) == 32762
      && CbmClusters(p) == 1 && UctClusters(p) == 1 && p.RootPosition() == 8 * 32768
  {
    var p := Params(512, 64, 0x4000_0000);
    assert p.ClusterSize() == 32768 && p.ClustersMax() == 32768;
    assert p.FatEnd() == 128 * 512 + 4 * 32768;
    DivRoundUpUnique(p.FatEnd(), 32768, 6);
    assert p.CbmPosition() == 6 * 32768 && p.HeapBytes() == 32762 * 32768;
    DivRoundUpUnique(32762, CHAR_BIT, 4096);
    assert p.CbmSize() == 4096;
    DivRoundUpUnique(4096, 32768, 1);
    DivRoundUpUnique(6 * 32768 + 4096, 32768, 7);
    DivRoundUpUnique(UPCASE_SIZE, 32768, 1);
    DivRoundUpUnique(7 * 32768 + UPCASE_SIZE, 32768, 8);
  }

  lemma RoundUpAtLeast(x: nat, d: nat)
    requires d > 0
    ensures x <= RoundUp(x, d)
  {
    DivRoundUpBounds(x, d);
  }

  // ---- The super block.

  datatype SuperBlock = SuperBlock(sectorCount: nat, fatSectorStart: nat, fatSectorCount: nat,
                                   clusterSectorStart: nat, clusterCount: nat, rootdirCluster: nat)

  /** Clusters of the bitmap file and of the up-case table. */
  function CbmClusters(p: Params): nat
    requires p.Valid()
  {
    DivRoundUp(p.CbmSize(), p.ClusterSize())
  }

  function UctClusters(p: Params): nat
    requires p.Valid()
  {
    DivRoundUp(UPCASE_SIZE, p.ClusterSize())
  }

  /** Clusters of the heap. */
  function HeapClusters(p: Params): nat
    requires p.Valid()
  {
    if p.HeapStart() <= p.ClustersMax() then p.ClustersMax() - p.HeapStart() else 0
  }

  /** Rounding up to sectors and then to clusters is rounding up to clusters. */
  lemma RoundTwice(x: nat, d: nat, e: nat)
    requires d > 0 && e > 0
    ensures d * e > 0 && DivRoundUp(x, d * e) == DivRoundUp(DivRoundUp(x, d), e)
    ensures RoundUp(x, d * e) == RoundUp(DivRoundUp(x, d), e) * d
  {
    hide DivRoundUp;
    Positive(d, e);
    var a := DivRoundUp(x, d);
    var b := DivRoundUp(a, e);
    DivRoundUpBounds(x, d);
    DivRoundUpBounds(a, e);
    MulMonotone(a, b * e, d);
    MulMonotone(b * e, a + e - 1, d);
    assert b * e * d == b * (d * e) && (a + e - 1) * d == a * d + e * d - d;
    DivRoundUpUnique(x, d * e, b);
  }

  lemma RoundShifted(k: nat, x: nat, d: nat)
    requires d > 0
    ensures DivRoundUp(k * d + x, d) == k + DivRoundUp(x, d)
  {
    DivRoundUpBounds(x, d);
    assert (k + DivRoundUp(x, d)) * d == k * d + DivRoundUp(x, d) * d;
    DivRoundUpUnique(k * d + x, d, k + DivRoundUp(x, d));
  }

  /** The heap's objects start at consecutive whole clusters. */
  lemma HeapPlaces(p: Params)
    requires p.Valid()
    ensures p.CbmPosition() == p.HeapStart() * p.ClusterSize()
    ensures p.UctPosition() == (p.HeapStart() + CbmClusters(p)) * p.ClusterSize()
    ensures p.RootPosition() == (p.HeapStart() + CbmClusters(p) + UctClusters(p)) * p.ClusterSize()
  {
    hide DivRoundUp;
    RoundShifted(p.HeapStart(), p.CbmSize(), p.ClusterSize());
    RoundShifted(p.HeapStart() + CbmClusters(p), UPCASE_SIZE, p.ClusterSize());
  }

  /** An accepted volume has room for the heap's three objects behind the FAT. */
  lemma HeapFits(p: Params)
    requires p.Accepted()
    ensures p.HeapStart() + CbmClusters(p) + UctClusters(p) + 1 <= p.ClustersMax()
    ensures p.HeapBytes() / p.ClusterSize() == HeapClusters(p)
    ensures p.HeapStart() >= 1
  {
    hide DivRoundUp, RoundUp;
    var cs, n := p.ClusterSize(), p.HeapStart() + CbmClusters(p) + UctClusters(p);
    HeapPlaces(p);
    NextMultiple(n, cs);
    DivAtLeast(p.volumeSize, cs, n + 1);
    AtLeastOne(p.FatEnd(), cs);
    ClustersLeft(p.volumeSize, cs, p.HeapStart());
  }

  /** Whole clusters before a boundary and after it. */
  lemma ClustersLeft(v: nat, cs: nat, k: nat)
    requires cs > 0 && k <= v / cs
    ensures k * cs <= v && (v - k * cs) / cs == v / cs - k
  {
    var m := v / cs;
    DivModUnique(v, cs, m);
    MulMonotone(k, m, cs);
    assert (m - k) * cs == m * cs - k * cs;
    DivModUnique(v - k * cs, cs, m - k);
  }

  lemma AtLeastOne(x: nat, d: nat)
    requires d > 0 && x > 0
    ensures DivRoundUp(x, d) >= 1
  {
    DivRoundUpBounds(x, d);
  }

  /** What a mounter needs of the geometry. */
  ghost predicate Consistent(p: Params, sb: SuperBlock)
    requires p.Valid()
  {
    && sb.sectorCount * p.sectorSize <= p.volumeSize < (sb.sectorCount + 1) * p.sectorSize
    && sb.fatSectorStart * p.sectorSize == p.FatPosition()
    && sb.fatSectorStart + sb.fatSectorCount == sb.clusterSectorStart
    && sb.clusterSectorStart * p.sectorSize == p.CbmPosition()
    && sb.fatSectorCount * p.sectorSize >= p.Size(Fat)
    && sb.clusterCount + p.HeapStart() == p.ClustersMax()
    && sb.clusterSectorStart * p.sectorSize + sb.clusterCount * p.ClusterSize() <= p.volumeSize
    && p.CbmSize() == DivRoundUp(sb.clusterCount, CHAR_BIT)
    && sb.rootdirCluster >= FIRST_DATA_CLUSTER
    && p.CbmPosition() + (sb.rootdirCluster - FIRST_DATA_CLUSTER) * p.ClusterSize() == p.RootPosition()
  }

  /** init_sb: two separate computations of where the heap starts, and they agree. */
  method InitSb(p: Params) returns (sb: SuperBlock)
    requires p.Accepted()
    ensures Consistent(p, sb)
    ensures sb.rootdirCluster == FIRST_DATA_CLUSTER + CbmClusters(p) + UctClusters(p)
  {
    hide RoundUp, DivRoundUp, Consistent;
    var clustersMax := p.volumeSize / p.ClusterSize();
    var fatSectors := DivRoundUp(clustersMax * ENTRY_SIZE, p.sectorSize);
    var fatStart := p.Alignment(Fat) / p.sectorSize;
    FatStartIs(p.sectorSize);
    RoundUpAtLeast(fatStart + fatSectors, p.sectorsPerCluster);
    var fatCount := RoundUp(fatStart + fatSectors, p.sectorsPerCluster) - fatStart;
    var cbm := GetPosition(p, Cbm);
    var root := GetPosition(p, RootDir);
    assert clustersMax == p.ClustersMax() && fatStart == 128;
    InitSbIsConsistent(p, fatSectors, fatCount);
    RootFromHeap(p);
    sb := SuperBlock(p.volumeSize / p.sectorSize, fatStart, fatCount, cbm / p.sectorSize,
      clustersMax - (fatStart + fatCount) / p.sectorsPerCluster,
      (root - cbm) / p.ClusterSize() + FIRST_DATA_CLUSTER);
  }

  lemma FatStartIs(d: nat)
    requires d > 0
    ensures 128 * d / d == 128
  {
    DivModUnique(128 * d, d, 128);
  }

  lemma InitSbIsConsistent(p: Params, fatSectors: nat, fatCount: nat)
    requires p.Accepted()
    requires fatSectors == DivRoundUp(p.ClustersMax() * ENTRY_SIZE, p.sectorSize)
    requires fatCount + 128 == RoundUp(128 + fatSectors, p.sectorsPerCluster)
    ensures Quotient(128 + fatCount, p.sectorsPerCluster) + HeapClusters(p) == p.ClustersMax()
    ensures Consistent(p, SuperBlock(Quotient(p.volumeSize, p.sectorSize), 128, fatCount, Quotient(p.CbmPosition(), p.sectorSize),
      HeapClusters(p), CbmClusters(p) + UctClusters(p) + FIRST_DATA_CLUSTER))
  {
    hide DivRoundUp, RoundUp;
    HeapFits(p);
    SectorsOfHeap(p, fatSectors);
    DivModUnique(p.HeapStart() * p.sectorsPerCluster, p.sectorsPerCluster, p.HeapStart());
    HeapInSectors(p);
    DivModUnique(p.volumeSize, p.sectorSize, p.volumeSize / p.sectorSize);
    NextMultiple(p.volumeSize / p.sectorSize, p.sectorSize);
    RootFromHeap(p);
    FatBeforeHeap(p);
    HeapEnd(p);
  }

  lemma NextMultiple(k: nat, d: nat)
    ensures (k + 1) * d == k * d + d
  {
  }

  lemma HeapInSectors(p: Params)
    requires p.Valid()
    ensures p.CbmPosition() / p.sectorSize == p.HeapStart() * p.sectorsPerCluster
    ensures p.HeapStart() * p.sectorsPerCluster * p.sectorSize == p.CbmPosition()
  {
    hide DivRoundUp;
    var k := p.HeapStart();
    HeapPlaces(p);
    assert k * (p.sectorSize * p.sectorsPerCluster) == k * p.sectorsPerCluster * p.sectorSize;
    DivModUnique(p.CbmPosition(), p.sectorSize, k * p.sectorsPerCluster);
  }

  lemma RootFromHeap(p: Params)
    requires p.Valid()
    ensures p.RootPosition() >= p.CbmPosition()
    ensures (p.RootPosition() - p.CbmPosition()) / p.ClusterSize() == CbmClusters(p) + UctClusters(p)
    ensures p.CbmPosition() + (CbmClusters(p) + UctClusters(p)) * p.ClusterSize() == p.RootPosition()
  {
    hide DivRoundUp;
    var k, m, cs := p.HeapStart(), CbmClusters(p) + UctClusters(p), p.ClusterSize();
    HeapPlaces(p);
    assert (k + m) * cs == k * cs + m * cs;
    DivModUnique(m * cs, cs, m);
  }

  lemma FatBeforeHeap(p: Params)
    requires p.Valid()
    ensures p.HeapStart() * p.sectorsPerCluster >= 128
    ensures (p.HeapStart() * p.sectorsPerCluster - 128) * p.sectorSize == p.CbmPosition() - p.FatPosition() >= p.Size(Fat)
  {
    hide DivRoundUp, RoundUp;
    HeapInSectors(p);
    RoundUpAtLeast(p.FatEnd(), p.ClusterSize());
    var h := p.HeapStart() * p.sectorsPerCluster;
    if h < 128 {
      MulMonotone(h + 1, 128, p.sectorSize);
      NextMultiple(h, p.sectorSize);
    }
    assert (h - 128) * p.sectorSize == h * p.sectorSize - 128 * p.sectorSize;
  }

  lemma HeapEnd(p: Params)
    requires p.Accepted()
    ensures p.CbmPosition() + HeapClusters(p) * p.ClusterSize() <= p.volumeSize
  {
    hide DivRoundUp, RoundUp;
    HeapFits(p);
    HeapPlaces(p);
    ClustersLeft(p.volumeSize, p.ClusterSize(), p.ClustersMax());
    Distribute(p.HeapStart(), HeapClusters(p), p.ClusterSize());
  }

  /** The heap's first cluster, counted in sectors. */
  lemma SectorsOfHeap(p: Params, fatSectors: nat)
    requires p.Valid() && fatSectors == DivRoundUp(p.ClustersMax() * ENTRY_SIZE, p.sectorSize)
    ensures RoundUp(128 + fatSectors, p.sectorsPerCluster) == p.HeapStart() * p.sectorsPerCluster
  {
    hide DivRoundUp;
    RoundShifted(128, p.ClustersMax() * ENTRY_SIZE, p.sectorSize);
    RoundTwice(p.FatEnd(), p.sectorSize, p.sectorsPerCluster);
  }

  // ---- The FAT and the bitmap.

  function Run(start: nat, n: nat): (r: seq<nat>)
    ensures |r| == n && forall i :: 0 <= i < n ==> r[i] == start + i
  {
    seq(n, i requires 0 <= i < n => start + i)
  }

  /** fat_write_entries: a chain of consecutive clusters, closed by the end mark. */
  method WriteEntries(fat: seq<nat>, length: nat, clusterSize: nat) returns (r: seq<nat>)
    requires clusterSize > 0 && length > 0
    ensures DivRoundUp(length, clusterSize) >= 1
    ensures |r| == |fat| + DivRoundUp(length, clusterSize) && r[..|fat|] == fat
    ensures forall c :: |fat| <= c < |r| - 1 ==> r[c] == c + 1
    ensures r[|r| - 1] == CLUSTER_END
  {
    hide DivRoundUp;
    AtLeastOne(length, clusterSize);
    var cluster := |fat|;
    var end := cluster + DivRoundUp(length, clusterSize);
    r := fat;
    while cluster < end - 1
      invariant |fat| <= cluster <= end - 1 && |r| == cluster && r[..|fat|] == fat
      invariant forall c :: |fat| <= c < cluster ==> r[c] == c + 1
    {
      r := r + [cluster + 1];
      cluster := cluster + 1;
    }
    r := r + [CLUSTER_END];
  }

  /** The FAT holds the media word, a word of ones, and three runs from cluster 2 on: bitmap,
      up-case table, root directory. */
  ghost predicate ThreeRuns(p: Params, fat: seq<nat>)
    requires p.Valid()
  {
    var a, b := CbmClusters(p), UctClusters(p);
    && |fat| == 2 + a + b + 1 && a >= 1 && b >= 1
    && fat[0] == 0xffff_fff8 && fat[1] == 0xffff_ffff
    && (forall c :: 2 <= c < 2 + a - 1 ==> fat[c] == c + 1) && fat[2 + a - 1] == CLUSTER_END
    && (forall c :: 2 + a <= c < 2 + a + b - 1 ==> fat[c] == c + 1) && fat[2 + a + b - 1] == CLUSTER_END
    && fat[2 + a + b] == CLUSTER_END
  }

  /** fat_write */
  method WriteFat(p: Params) returns (fat: seq<nat>)
    requires p.Accepted()
    ensures ThreeRuns(p, fat)
  {
    hide DivRoundUp, RoundUp;
    CbmNotEmpty(p);
    OneCluster(p.ClusterSize());
    var start := [0xffff_fff8, 0xffff_ffff];
    var cbm := WriteEntries(start, p.CbmSize(), p.ClusterSize());
    var uct := WriteEntries(cbm, UPCASE_SIZE, p.ClusterSize());
    fat := WriteEntries(uct, p.Size(RootDir), p.ClusterSize());
    assert forall c :: 0 <= c < |uct| ==> fat[c] == fat[..|uct|][c] == uct[c];
    assert forall c :: 0 <= c < |cbm| ==> uct[c] == uct[..|cbm|][c] == cbm[c];
    assert forall c :: 0 <= c < |start| ==> cbm[c] == cbm[..|start|][c] == start[c];
  }

  lemma OneCluster(d: nat)
    requires d > 0
    ensures DivRoundUp(d, d) == 1
  {
    DivRoundUpUnique(d, d, 1);
  }

  lemma CbmNotEmpty(p: Params)
    requires p.Accepted()
    ensures p.CbmSize() > 0 && p.CbmPosition() <= p.volumeSize
    ensures p.CbmSize() == DivRoundUp(HeapClusters(p), CHAR_BIT)
  {
    hide RoundUp, DivRoundUp;
    ObjectsInside(p, 3);
    HeapFits(p);
    AtLeastOne(HeapClusters(p), CHAR_BIT);
  }

  lemma ZeroWord(k: nat)
    requires k < 8
    ensures !Has(0, k)
  {
    if k == 0 {} else if k == 1 {} else if k == 2 {} else if k == 3 {} else if k == 4 {}
    else if k == 5 {} else if k == 6 {} else { assert k == 7; }
  }

  function Allocated(p: Params): nat
    requires p.Valid()
  {
    CbmClusters(p) + UctClusters(p) + DivRoundUp(p.ClusterSize(), p.ClusterSize())
  }

  function ZeroWords(n: nat): seq<bv8> { seq(n, i => 0) }

  lemma ZeroWordsClear(n: nat)
    ensures forall i: nat | i < 8 * n :: !Bit(ZeroWords(n), i)
  {
    forall i: nat | i < 8 * n
      ensures !Bit(ZeroWords(n), i)
    {
      ZeroWord(i % 8);
    }
  }

  /** cbm_write into a bitmap file that was erased to zeros. */
  method WriteBitmap(p: Params) returns (bits: seq<bv8>)
    requires p.Accepted()
    ensures |bits| == p.CbmSize() && Allocated(p) <= HeapClusters(p) <= 8 * |bits|
    ensures forall i: nat | i < 8 * |bits| :: Bit(bits, i) <==> i < Allocated(p)
  {
    hide RoundUp, DivRoundUp, Bit, WithBit;
    CbmNotEmpty(p);
    HeapFits(p);
    OneCluster(p.ClusterSize());
    WordsHold(HeapClusters(p));
    var inUse := CbmClusters(p) + UctClusters(p) + DivRoundUp(p.ClusterSize(), p.ClusterSize());
    var bitmapSize := RoundUp(inUse, CHAR_BIT);
    WrittenFits(inUse, HeapClusters(p));
    bits := ZeroWords(p.CbmSize());
    ZeroWordsClear(p.CbmSize());
    var i := 0;
    while i < bitmapSize
      invariant i <= bitmapSize && |bits| == p.CbmSize()
      invariant forall j: nat | j < 8 * |bits| :: Bit(bits, j) <==> j < i && j < inUse
    {
      if i < inUse {
        WithBitBits(bits, i, true);
        bits := WithBit(bits, i, true);
      }
      i := i + 1;
    }
  }

  lemma WordsHold(n: nat)
    ensures n <= 8 * DivRoundUp(n, CHAR_BIT)
  {
  }

  /** The bytes cbm_write writes are inside the bitmap file. */
  lemma WrittenFits(n: nat, m: nat)
    requires n <= m
    ensures n <= RoundUp(n, CHAR_BIT) <= 8 * DivRoundUp(m, CHAR_BIT)
  {
    RoundUpAtLeast(n, CHAR_BIT);
    DivRoundUpMonotone(n, m, CHAR_BIT);
  }

  // ---- A fresh volume.

  datatype File = TheRoot

  ghost function SystemClusters(p: Params): set<nat>
    requires p.Valid()
  {
    Elements(Run(2, CbmClusters(p) + UctClusters(p)))
  }

  function RootChain(p: Params): seq<nat>
    requires p.Valid()
  {
    [2 + CbmClusters(p) + UctClusters(p)]
  }

  /** The FAT as a mounter sees it: what was written, and zeros up to the last cluster. */
  function MountedFat(fat: seq<nat>, count: nat): seq<nat> {
    if |fat| < count + 2 then fat + seq(count + 2 - |fat|, i => 0) else fat
  }

  lemma UpcaseStart(p: Params)
    requires p.Valid()
    ensures p.UctPosition() >= p.CbmPosition()
    ensures (p.UctPosition() - p.CbmPosition()) / p.ClusterSize() == CbmClusters(p)
  {
    hide DivRoundUp;
    var k, a, cs := p.HeapStart(), CbmClusters(p), p.ClusterSize();
    HeapPlaces(p);
    assert (k + a) * cs == k * cs + a * cs;
    DivModUnique(a * cs, cs, a);
  }

  /** The start cluster that init_upcase_entry records. */
  function UpcaseCluster(p: Params): nat
    requires p.Valid()
  {
    UpcaseStart(p);
    (p.UctPosition() - p.CbmPosition()) / p.ClusterSize() + FIRST_DATA_CLUSTER
  }

  /** What the first mount finds. */
  ghost predicate Fresh(p: Params, sb: SuperBlock, fat: seq<nat>, bits: seq<bv8>)
    requires p.Valid()
  {
    var mounted := MountedFat(fat, sb.clusterCount);
    && Consistent(p, sb)
    && |mounted| == sb.clusterCount + 2
    && Owned(map[TheRoot := RootChain(p)], SystemClusters(p), bits, sb.clusterCount)
    && Linked(mounted, false, sb.rootdirCluster, RootChain(p)) && Terminated(mounted, false, RootChain(p))
    && |RootChain(p)| == DivRoundUp(p.Size(RootDir), p.ClusterSize())
    && Linked(mounted, false, FIRST_DATA_CLUSTER, Run(2, CbmClusters(p)))
    && Terminated(mounted, false, Run(2, CbmClusters(p)))
    && Linked(mounted, false, UpcaseCluster(p), Run(2 + CbmClusters(p), UctClusters(p)))
    && Terminated(mounted, false, Run(2 + CbmClusters(p), UctClusters(p)))
  }

  lemma RunsLinked(p: Params, fat: seq<nat>, count: nat)
    requires p.Valid() && ThreeRuns(p, fat) && |fat| <= count + 2
    ensures |MountedFat(fat, count)| == count + 2
    ensures Linked(MountedFat(fat, count), false, 2 + CbmClusters(p) + UctClusters(p), RootChain(p))
    ensures Terminated(MountedFat(fat, count), false, RootChain(p))
    ensures Linked(MountedFat(fat, count), false, 2, Run(2, CbmClusters(p)))
    ensures Terminated(MountedFat(fat, count), false, Run(2, CbmClusters(p)))
    ensures Linked(MountedFat(fat, count), false, 2 + CbmClusters(p), Run(2 + CbmClusters(p), UctClusters(p)))
    ensures Terminated(MountedFat(fat, count), false, Run(2 + CbmClusters(p), UctClusters(p)))
  {
    hide DivRoundUp, RoundUp;
    var mounted, a, b := MountedFat(fat, count), CbmClusters(p), UctClusters(p);
    assert forall c :: 0 <= c < |fat| ==> mounted[c] == fat[c];
    RunLinked(mounted, 2, a);
    RunLinked(mounted, 2 + a, b);
  }

  lemma RunLinked(fat: seq<nat>, start: nat, n: nat)
    requires n >= 1 && start + n <= |fat|
    requires forall c :: start <= c < start + n - 1 ==> fat[c] == c + 1
    requires fat[start + n - 1] == CLUSTER_END
    ensures Linked(fat, false, start, Run(start, n)) && Terminated(fat, false, Run(start, n))
  {
    var run := Run(start, n);
    forall i | 0 <= i < |run| - 1
      ensures Follows(fat, false, run, i)
    {
      assert fat[run[i]] == run[i] + 1;
    }
  }

  lemma FreshOwned(p: Params, bits: seq<bv8>, count: nat)
    requires p.Valid() && CbmClusters(p) + UctClusters(p) + 1 <= count <= 8 * |bits|
    requires forall i: nat | i < 8 * |bits| :: Bit(bits, i) <==> i < CbmClusters(p) + UctClusters(p) + 1
    ensures Owned(map[TheRoot := RootChain(p)], SystemClusters(p), bits, count)
  {
    hide DivRoundUp, RoundUp, Bit;
    var chains, n := map[TheRoot := RootChain(p)], CbmClusters(p) + UctClusters(p);
    forall i: nat | i < count
      ensures Bit(bits, i) <==> i + 2 in SystemClusters(p) || InSomeChain(chains, i + 2)
    {
      if i < n {
        assert Run(2, n)[i] == i + 2;
      }
      if i == n {
        assert TheRoot in chains && i + 2 in chains[TheRoot];
      }
    }
  }

  /** A formatted volume satisfies everything the allocator keeps. */
  method Format(p: Params) returns (sb: SuperBlock, fat: seq<nat>, bits: seq<bv8>)
    requires p.Accepted()
    ensures Fresh(p, sb, fat, bits) && |bits| == p.CbmSize()
  {
    hide DivRoundUp, RoundUp, Bit, ThreeRuns, Linked, Terminated, Owned, MountedFat;
    sb := InitSb(p);
    fat := WriteFat(p);
    bits := WriteBitmap(p);
    HeapFits(p);
    OneCluster(p.ClusterSize());
    FatLength(p, fat);
    RunsLinked(p, fat, sb.clusterCount);
    FreshOwned(p, bits, sb.clusterCount);
    UpcaseStart(p);
  }

  lemma FatLength(p: Params, fat: seq<nat>)
    requires p.Valid() && ThreeRuns(p, fat)
    ensures |fat| == 2 + CbmClusters(p) + UctClusters(p) + 1
  {
  }

  // ---- The default cluster size, and the FAT's reach.

  const MB := 0x10_0000

  /** choose_spc_bits: cluster size by band, then the smallest that a FAT can number. */
  method ChooseSpcBits(sectorBits: nat, volumeSize: nat) returns (bits: int)
    requires 9 <= sectorBits <= 12
    ensures bits >= 0 ==> DefaultClusterSize(Pow2(sectorBits + bits), volumeSize)
    ensures bits < 0 ==> bits == -1 && volumeSize > LAST_DATA_CLUSTER * Pow2(31)
  {
    Pow2Values();
    if volumeSize < 256 * MB {
      return 12 - sectorBits;
    }
    if volumeSize < 32 * 1024 * MB {
      return 15 - sectorBits;
    }
    var i := 17;
    while i < 32
      invariant 17 <= i <= 32
      invariant i > 17 ==> DivRoundUp(volumeSize, Pow2(i - 1)) > LAST_DATA_CLUSTER
    {
      if DivRoundUp(volumeSize, Pow2(i)) <= LAST_DATA_CLUSTER {
        assert DefaultBits(i, volumeSize);
        return i - sectorBits;
      }
      i := i + 1;
    }
    MoreThan(volumeSize, Pow2(31), LAST_DATA_CLUSTER);
    return -1;
  }

  lemma MoreThan(x: nat, d: nat, k: nat)
    requires d > 0
    ensures DivRoundUp(x, d) > k <==> x > k * d
  {
    var q := DivRoundUp(x, d);
    DivRoundUpBounds(x, d);
    if q > k {
      MulMonotone(k + 1, q, d);
      assert (k + 1) * d == k * d + d;
    } else {
      MulMonotone(q, k, d);
    }
  }

  ghost predicate DefaultBits(i: nat, volumeSize: nat) {
    && 17 <= i < 32 && DivRoundUp(volumeSize, Pow2(i)) <= LAST_DATA_CLUSTER
    && (i > 17 ==> DivRoundUp(volumeSize, Pow2(i - 1)) > LAST_DATA_CLUSTER)
  }

  ghost predicate DefaultClusterSize(clusterSize: nat, volumeSize: nat) {
    if volumeSize < 256 * MB then clusterSize == 4096
    else if volumeSize < 32 * 1024 * MB then clusterSize == 32768
    else exists i :: DefaultBits(i, volumeSize) && clusterSize == Pow2(i)
  }

  /** In every size band the heap starts at least two clusters in. */
  lemma DefaultHeapStart(p: Params)
    requires p.sectorSize >= 512 && p.sectorsPerCluster >= 1 && DefaultClusterSize(p.ClusterSize(), p.volumeSize)
    ensures p.Valid() && p.HeapStart() >= 2
  {
    hide DivRoundUp;
    var cs, v := p.ClusterSize(), p.volumeSize;
    DivModUnique(v, cs, v / cs);
    if v < 256 * MB {
    } else if v < 32 * 1024 * MB {
    } else {
      var i :| DefaultBits(i, v) && cs == Pow2(i);
      DefaultBandThree(v, i);
    }
    MoreThan(p.FatEnd(), cs, 1);
  }

  lemma DefaultBandThree(v: nat, i: nat)
    requires v >= 32 * 1024 * MB && DefaultBits(i, v)
    ensures v / Pow2(i) <= LAST_DATA_CLUSTER && 4 * (v / Pow2(i)) >= Pow2(i)
  {
    hide DivRoundUp;
    Pow2Values();
    Pow2Small(i);
    MoreThan(v, Pow2(i), LAST_DATA_CLUSTER);
    QuotientAtMost(v, Pow2(i), LAST_DATA_CLUSTER);
    if i == 17 {
      DivAtLeast(v, 0x2_0000, 0x4_0000);
    } else {
      MoreThan(v, Pow2(i - 1), LAST_DATA_CLUSTER);
      HalfTwice(v, Pow2(i - 1));
    }
  }

  lemma QuotientAtMost(x: nat, d: nat, k: nat)
    requires d > 0 && x <= k * d
    ensures x / d <= k
  {
    DivModUnique(x, d, x / d);
    if x / d > k {
      MulMonotone(k + 1, x / d, d);
    }
  }

  lemma HalfTwice(x: nat, h: nat)
    requires h > 0 && x > LAST_DATA_CLUSTER * h
    ensures x / (2 * h) >= 0x7fff_fffb
  {
    assert 0x7fff_fffb * (2 * h) == LAST_DATA_CLUSTER * h;
    DivAtLeast(x, 2 * h, 0x7fff_fffb);
  }

  lemma Pow2Values()
    ensures Pow2(12) == 4096 && Pow2(15) == 32768 && Pow2(17) == 0x2_0000 && Pow2(31) == 0x8000_0000
  {
    assert Pow2(3) == 8 && Pow2(4) == 16;
    Pow2Sum(4, 4);
    Pow2Sum(8, 4);
    Pow2Sum(12, 3);
    Pow2Sum(12, 4);
    Pow2Sum(16, 15);
  }

  lemma Pow2Small(i: nat)
    requires i < 32
    ensures Pow2(i) <= 0x8000_0000
  {
    Pow2Values();
    Pow2Sum(i, 31 - i);
    MulMonotone(1, Pow2(31 - i), Pow2(i));
  }

  lemma Distribute(a: nat, b: nat, d: nat)
    ensures (a + b) * d == a * d + b * d
  {
  }

  /** With the default cluster size the FAT region has an entry for every cluster number. */
  lemma FatCoversHeap(p: Params, sb: SuperBlock)
    requires p.Accepted() && DefaultClusterSize(p.ClusterSize(), p.volumeSize) && Consistent(p, sb)
    ensures ENTRY_SIZE * (sb.clusterCount + 2) <= sb.fatSectorCount * p.sectorSize
    ensures sb.fatSectorStart * p.sectorSize + ENTRY_SIZE * (sb.clusterCount + 2) <= sb.clusterSectorStart * p.sectorSize
  {
    hide DivRoundUp, RoundUp, DefaultClusterSize, Params.HeapStart, Params.ClustersMax;
    DefaultHeapStart(p);
    Distribute(sb.fatSectorStart, sb.fatSectorCount, p.sectorSize);
  }
}
