/** Whole runs of file operations, against a plain specification: a map of byte sequences
    and a number of free clusters. */
module FileRuns {
  import opened Arith
  import opened ClusterBitmap
  import opened Chain
  import opened FileBytes
  import opened Clusters
  import opened FileIo
  import opened Common

  const ENOENT: int := 2
  const EEXIST: int := 17

  datatype Op =
    | Create(id: nat)
    | Remove(id: nat)
    | SetSize(id: nat, size: nat)
    | Write(id: nat, offset: int, data: seq<Byte>)
    | Read(id: nat, offset: int, size: nat)

  /** What the caller of an operation sees. */
  datatype Outcome = Outcome(rc: int, bytes: seq<Byte>)

  /** A file as it is read, and how much of it was ever written: ValidDataLength. */
  datatype File = File(bytes: seq<Byte>, valid: nat)

  /** The specification state: the files by name, and the clusters nobody owns. */
  datatype Disk = Disk(files: map<nat, File>, free: nat)

  function SpecStep(cs: nat, d: Disk, op: Op): (Disk, Outcome)
    requires cs > 0
  {
    if op.Create? then
      if op.id in d.files then (d, Outcome(-EEXIST, []))
      else (d.(files := d.files[op.id := File([], 0)]), Outcome(0, []))
    else if op.id !in d.files then (d, Outcome(-ENOENT, []))
    else
      var f, v := d.files[op.id].bytes, d.files[op.id].valid;
      var room := DivRoundUp(|f|, cs) + d.free;
      match op
      case Remove(id) => (Disk(d.files - {id}, room), Outcome(0, []))
      case SetSize(id, size) =>
        if DivRoundUp(size, cs) > room then (d, Outcome(-ENOSPC, []))
        else
          (Disk(d.files[id := File(Resized(f, size), if size == |f| then v else size)], room - DivRoundUp(size, cs)), Outcome(0, []))
      case Write(id, offset, data) =>
        if offset < 0 then (d, Outcome(-EINVAL, []))
        else if DivRoundUp(Max(|f|, offset + |data|), cs) <= room then
          var n := Max(|f|, offset + |data|);
          (Disk(d.files[id := File(Overlaid(f, offset, data), ValidAfter(|f|, v, n, offset, |data|, |data|))],
                room - DivRoundUp(n, cs)),
           Outcome(|data|, []))
        else
          // the file may still have been extended up to the offset
          var n := if offset > |f| && DivRoundUp(offset, cs) <= room then offset else |f|;
          if DivRoundUp(n, cs) > room then (d, Outcome(-ENOSPC, []))
          else
            (Disk(d.files[id := File(Resized(f, n), ValidAfter(|f|, v, n, offset, |data|, -ENOSPC))],
                  room - DivRoundUp(n, cs)),
             Outcome(-ENOSPC, []))
      case Read(id, offset, size) =>
        if offset < 0 then (d, Outcome(-EINVAL, []))
        else if offset >= |f| then (d, Outcome(0, []))
        else (d, Outcome(Min(size, |f| - offset), f[offset..offset + Min(size, |f| - offset)]))
  }

  /** What is read after a write is what was written, and what was there before everywhere else;
      behind the old end there are zeros. */
  lemma ReadsWritten(cs: nat, d: Disk, id: nat, offset: nat, data: seq<Byte>, at: nat, n: nat)
    requires cs > 0 && id in d.files && SpecStep(cs, d, Write(id, offset, data)).1.rc >= 0
    requires n > 0 && at + n <= Max(|d.files[id].bytes|, offset + |data|)
    ensures var d' := SpecStep(cs, d, Write(id, offset, data)).0; var read := SpecStep(cs, d', Read(id, at, n));
      && read.0 == d' && read.1.rc == n == |read.1.bytes|
      && forall k :: 0 <= k < n ==>
           read.1.bytes[k] == if offset <= at + k < offset + |data| then data[at + k - offset]
                              else if at + k < |d.files[id].bytes| then d.files[id].bytes[at + k] else 0
  {
    hide DivRoundUp, ValidAfter;
  }

  /** The same after a resize. */
  lemma ReadsResized(cs: nat, d: Disk, id: nat, size: nat, at: nat, n: nat)
    requires cs > 0 && id in d.files && SpecStep(cs, d, SetSize(id, size)).1.rc >= 0 && n > 0 && at + n <= size
    ensures var d' := SpecStep(cs, d, SetSize(id, size)).0; var read := SpecStep(cs, d', Read(id, at, n));
      && read.0 == d' && read.1.rc == n == |read.1.bytes|
      && forall k :: 0 <= k < n ==> read.1.bytes[k] == if at + k < |d.files[id].bytes| then d.files[id].bytes[at + k] else 0
  {
    hide DivRoundUp;
  }

  /** Clusters owned by one file. */
  function ClustersOf(cs: nat, d: Disk, id: nat): nat
    requires cs > 0
  {
    if id in d.files then DivRoundUp(|d.files[id].bytes|, cs) else 0
  }

  /** The clusters that an operation needs its file to have. */
  function Needs(cs: nat, d: Disk, op: Op): nat
    requires cs > 0 && op.id in d.files
  {
    match op
    case SetSize(id, size) => DivRoundUp(size, cs)
    case Write(id, offset, data) => if offset < 0 then 0 else DivRoundUp(Max(|d.files[id].bytes|, offset + |data|), cs)
    case _ => 0
  }

  /** An operation concerns its own file only, loses no cluster, and is refused only when the
      name is taken or missing, the offset is negative, or there are too few free clusters. */
  lemma OnlyItsFile(cs: nat, d: Disk, op: Op)
    requires cs > 0
    ensures var d', out := SpecStep(cs, d, op).0, SpecStep(cs, d, op).1;
      && (forall i :: i in d.files && i != op.id ==> i in d'.files && d'.files[i] == d.files[i])
      && (forall i :: i in d'.files && i != op.id ==> i in d.files)
      && d'.free + ClustersOf(cs, d', op.id) == d.free + ClustersOf(cs, d, op.id)
      && (op.Create? || op.Remove? || op.id in d.files ==> (op.id in d'.files <==> if out.rc >= 0 then !op.Remove? else op.id in d.files))
      && (out.rc < 0 <==>
            || (op.Create? && op.id in d.files)
            || (!op.Create? && op.id !in d.files)
            || ((op.Write? || op.Read?) && op.offset < 0)
            || (!op.Create? && op.id in d.files && Needs(cs, d, op) > d.free + ClustersOf(cs, d, op.id)))
  {
    hide DivRoundUp, ValidAfter;
    if op.id in d.files {
      DivRoundUpZero(cs);
      FitsAlready(cs, d, op);
    } else {
      DivRoundUpZero(cs);
    }
  }

  lemma FitsAlready(cs: nat, d: Disk, op: Op)
    requires cs > 0 && op.id in d.files
    ensures op.Write? && op.offset > |d.files[op.id].bytes| ==>
      DivRoundUp(|d.files[op.id].bytes|, cs) <= DivRoundUp(op.offset, cs)
  {
    if op.Write? && op.offset > |d.files[op.id].bytes| {
      DivRoundUpMonotone(|d.files[op.id].bytes|, op.offset, cs);
    }
  }

  function SpecRun(cs: nat, d: Disk, ops: seq<Op>): (Disk, seq<Outcome>)
    requires cs > 0
  {
    if ops == [] then (d, [])
    else
      var (d1, outs) := SpecRun(cs, d, ops[..|ops| - 1]);
      var (d2, out) := SpecStep(cs, d1, ops[|ops| - 1]);
      (d2, outs + [out])
  }

  /** What a caller can check: sizes below 2^32 clusters, and no write behind ValidDataLength. */
  predicate OpSafe(cs: nat, d: Disk, op: Op)
    requires cs > 0
  {
    match op
    case SetSize(_, size) => DivRoundUp(size, cs) < 0x1_0000_0000
    case Write(id, offset, data) => offset >= 0 ==>
      && DivRoundUp(offset + |data|, cs) < 0x1_0000_0000
      && (id in d.files ==> NoGap(|d.files[id].bytes|, d.files[id].valid, offset, data))
    case _ => true
  }

  /** Every operation of the run is safe when its turn comes. */
  ghost predicate RunSafe(cs: nat, d: Disk, ops: seq<Op>)
    requires cs > 0
  {
    forall k :: 0 <= k < |ops| ==> OpSafe(cs, SpecRun(cs, d, ops[..k]).0, ops[k])
  }

  type Table = map<nat, Node>

  /** The names stand for different nodes of the volume. */
  ghost predicate Tabled(vol: Volume, table: Table)
    reads vol, vol.bitmap, vol.fat, vol.chains.Keys
  {
    && vol.Valid()
    && (forall i :: i in table ==> table[i] in vol.chains && vol.Readable(table[i]))
    && (forall i, j :: i in table && j in table && i != j ==> table[i] != table[j])
  }

  ghost function FileOf(vol: Volume, n: Node): File
    requires vol.Readable(n)
    reads vol, vol.heap, n
  {
    File(vol.ContentOf(n), n.validSize)
  }

  ghost function View(vol: Volume, table: Table): Disk
    requires Tabled(vol, table)
    reads vol, vol.bitmap, vol.fat, vol.heap, vol.chains.Keys
  {
    Disk(map i | i in table :: FileOf(vol, table[i]), vol.FreeCount())
  }

  /** The view is known once every named file is. */
  lemma ViewIs(vol: Volume, table: Table, files: map<nat, File>)
    requires Tabled(vol, table) && files.Keys == table.Keys
    requires forall i :: i in table ==> FileOf(vol, table[i]) == files[i]
    ensures View(vol, table) == Disk(files, vol.FreeCount())
  {
  }

  lemma TabledShape(vol: Volume, table: Table)
    requires Tabled(vol, table)
    ensures vol.Shape()
  {
  }

  lemma ViewFile(vol: Volume, table: Table, id: nat)
    requires Tabled(vol, table) && id in table
    ensures View(vol, table).files.Keys == table.Keys
    ensures View(vol, table).files[id] == FileOf(vol, table[id])
    ensures |vol.ContentOf(table[id])| == table[id].size
  {
  }

  lemma TabledFile(vol: Volume, table: Table, id: nat)
    requires Tabled(vol, table) && id in table
    ensures var n := table[id];
            && n in vol.chains && |vol.chains[n]| == DivRoundUp(n.size, vol.clusterSize)
            && |vol.ContentOf(n)| == n.size
            && Resized(vol.ContentOf(n), n.size) == vol.ContentOf(n)
  {
  }

  method PerformCreate(vol: Volume, table: Table, id: nat) returns (table': Table)
    requires Tabled(vol, table) && id !in table
    modifies vol`chains
    ensures Tabled(vol, table') && id in table' && fresh(table'[id]) && table' == table[id := table'[id]]
    ensures (View(vol, table'), Outcome(0, [])) == SpecStep(vol.clusterSize, old(View(vol, table)), Create(id))
  {
    hide vol.Valid, vol.Readable, vol.ContentOf, vol.FreeCount;
    ghost var files := View(vol, table).files;
    var node := vol.CreateNode(false);
    table' := table[id := node];
    vol.ValidReadable();
    ViewIs(vol, table', files[id := File([], 0)]);
  }

  method PerformRemove(vol: Volume, table: Table, id: nat) returns (table': Table)
    requires Tabled(vol, table) && id in table
    modifies vol`chains, vol`bitmapDirty, vol.bitmap, vol.fat, vol.heap, table[id]
    ensures Tabled(vol, table') && table' == table - {id}
    ensures (View(vol, table'), Outcome(0, [])) == SpecStep(vol.clusterSize, old(View(vol, table)), Remove(id))
  {
    hide vol.Valid, vol.ContentOf, vol.FreeCount;
    ghost var files := View(vol, table).files;
    var rc := vol.CleanupNode(table[id]);
    table' := table - {id};
    ViewIs(vol, table', files - {id});
  }

  lemma SpecSetSize(cs: nat, d: Disk, id: nat, size: nat, rc: int, g: File, free: nat)
    requires cs > 0 && id in d.files
    requires var f, room := d.files[id], DivRoundUp(|d.files[id].bytes|, cs) + d.free;
      && free + DivRoundUp(|g.bytes|, cs) == room
      && (rc == 0 || rc == -ENOSPC) && (rc == 0 <==> DivRoundUp(size, cs) <= room)
      && g == if rc == 0 then File(Resized(f.bytes, size), if size == |f.bytes| then f.valid else size) else f
    ensures (Disk(d.files[id := g], free), Outcome(rc, [])) == SpecStep(cs, d, SetSize(id, size))
  {
    hide Resized, DivRoundUp;
    assert d.files[id := d.files[id]] == d.files;
  }

  lemma SpecWrite(cs: nat, d: Disk, id: nat, offset: int, data: seq<Byte>, rc: int, g: File, free: nat)
    requires cs > 0 && id in d.files
    requires var f, room := d.files[id].bytes, DivRoundUp(|d.files[id].bytes|, cs) + d.free;
      && free + DivRoundUp(|g.bytes|, cs) == room
      && (offset < 0 ==> rc == -EINVAL && g == d.files[id])
      && (offset >= 0 ==>
            && (rc == |data| || rc == -ENOSPC)
            && (rc >= 0 <==> DivRoundUp(Max(|f|, offset + |data|), cs) <= room)
            && g.bytes == (if rc >= 0 then Overlaid(f, offset, data)
                           else Resized(f, if offset > |f| && DivRoundUp(offset, cs) <= room then offset else |f|))
            && g.valid == ValidAfter(|f|, d.files[id].valid, |g.bytes|, offset, |data|, rc))
    ensures (Disk(d.files[id := g], free), Outcome(rc, [])) == SpecStep(cs, d, Write(id, offset, data))
  {
    hide Resized, DivRoundUp, Overlaid, ValidAfter;
    ResizedTwice(d.files[id].bytes, 0, 0);
    ValidKept(|d.files[id].bytes|, d.files[id].valid, offset, |data|);
    assert d.files[id := d.files[id]] == d.files;
  }

  lemma ValidKept(size: nat, valid: nat, offset: int, n: nat)
    ensures ValidAfter(size, valid, size, offset, n, -ENOSPC) == valid
  {
  }

  method PerformSetSize(vol: Volume, table: Table, id: nat, size: nat) returns (rc: int)
    requires Tabled(vol, table) && id in table && vol.Fits(size)
    modifies vol`chains, vol`bitmapDirty, vol.bitmap, vol.fat, vol.heap, table[id]
    ensures Tabled(vol, table)
    ensures (View(vol, table), Outcome(rc, [])) == SpecStep(vol.clusterSize, old(View(vol, table)), SetSize(id, size))
  {
    hide vol.Valid, vol.Readable, vol.ContentOf, vol.FreeCount, vol.Fits, vol.CleanTo, vol.Sized, vol.Shape, DivRoundUp, Resized, Overlaid,
      SpecStep;
    TabledShape(vol, table);
    TabledFile(vol, table, id);
    ghost var files := View(vol, table).files;
    rc := vol.Truncate(table[id], size, true);
    TabledFile(vol, table, id);
    ViewIs(vol, table, files[id := FileOf(vol, table[id])]);
    SpecSetSize(vol.clusterSize, old(View(vol, table)), id, size, rc, FileOf(vol, table[id]), vol.FreeCount());
  }

  /** Writes that start at or before ValidDataLength, or behind the end. */
  method PerformWrite(vol: Volume, table: Table, id: nat, offset: int, data: seq<Byte>) returns (rc: int)
    requires Tabled(vol, table) && id in table && (offset >= 0 ==> vol.Fits(offset + |data|))
    requires offset >= 0 ==> NoGap(table[id].size, table[id].validSize, offset, data)
    modifies vol`chains, vol`bitmapDirty, vol.bitmap, vol.fat, vol.heap, table[id]
    ensures Tabled(vol, table)
    ensures (View(vol, table), Outcome(rc, [])) == SpecStep(vol.clusterSize, old(View(vol, table)), Write(id, offset, data))
  {
    hide vol.Valid, vol.Readable, vol.ContentOf, vol.FreeCount, vol.Fits, vol.CleanTo, vol.Sized, vol.Shape, DivRoundUp, Resized, Overlaid,
      SpecStep, NoGap;
    TabledShape(vol, table);
    TabledFile(vol, table, id);
    ghost var files := View(vol, table).files;
    rc := Pwrite(vol, table[id], data, offset);
    TabledFile(vol, table, id);
    ViewIs(vol, table, files[id := FileOf(vol, table[id])]);
    SpecWrite(vol.clusterSize, old(View(vol, table)), id, offset, data, rc, FileOf(vol, table[id]), vol.FreeCount());
  }

  lemma SpecRead(cs: nat, d: Disk, id: nat, offset: int, size: nat, rc: int, got: seq<Byte>)
    requires cs > 0 && id in d.files
    requires offset < 0 ==> rc == -EINVAL
    requires offset >= 0 ==> rc == if offset >= |d.files[id].bytes| then 0 else Min(size, |d.files[id].bytes| - offset)
    requires got == if rc > 0 then d.files[id].bytes[offset..offset + rc] else []
    ensures SpecStep(cs, d, Read(id, offset, size)) == (d, Outcome(rc, got))
  {
  }

  method PerformRead(vol: Volume, table: Table, id: nat, offset: int, size: nat) returns (out: Outcome)
    requires Tabled(vol, table) && id in table
    modifies table[id]
    ensures Tabled(vol, table)
    ensures (View(vol, table), out) == SpecStep(vol.clusterSize, old(View(vol, table)), Read(id, offset, size))
  {
    hide vol.Valid, vol.ContentOf, vol.FreeCount, SpecStep;
    ghost var files := View(vol, table).files;
    var buffer := new Byte[size](_ => 0);
    var rc := Pread(vol, table[id], buffer, size, offset);
    out := Outcome(rc, if rc > 0 then buffer[..rc] else []);
    ViewIs(vol, table, files);
    SpecRead(vol.clusterSize, Disk(files, vol.FreeCount()), id, offset, size, rc, out.bytes);
  }

  lemma SpecRefused(cs: nat, d: Disk, op: Op)
    requires cs > 0
    ensures op.Create? && op.id in d.files ==> SpecStep(cs, d, op) == (d, Outcome(-EEXIST, []))
    ensures !op.Create? && op.id !in d.files ==> SpecStep(cs, d, op) == (d, Outcome(-ENOENT, []))
  {
  }

  /** An operation on a file that exists. */
  method PerformOn(vol: Volume, table: Table, op: Op) returns (table': Table, out: Outcome)
    requires Tabled(vol, table) && OpSafe(vol.clusterSize, View(vol, table), op) && !op.Create? && op.id in table
    modifies vol`chains, vol`bitmapDirty, vol.bitmap, vol.fat, vol.heap, table[op.id]
    ensures Tabled(vol, table') && table'.Keys <= table.Keys && forall i :: i in table' ==> table'[i] == table[i]
    ensures (View(vol, table'), out) == SpecStep(vol.clusterSize, old(View(vol, table)), op)
  {
    hide Tabled, DivRoundUp, View, SpecStep, NoGap, vol.ContentOf;
    TabledShape(vol, table);
    ViewFile(vol, table, op.id);
    table', out := table, Outcome(0, []);
    if op.Remove? {
      table' := PerformRemove(vol, table, op.id);
    } else if op.SetSize? {
      var rc := PerformSetSize(vol, table, op.id, op.size);
      out := Outcome(rc, []);
    } else if op.Write? {
      var rc := PerformWrite(vol, table, op.id, op.offset, op.data);
      out := Outcome(rc, []);
    } else {
      out := PerformRead(vol, table, op.id, op.offset, op.size);
    }
  }

  method Perform(vol: Volume, table: Table, op: Op) returns (table': Table, out: Outcome)
    requires Tabled(vol, table) && OpSafe(vol.clusterSize, View(vol, table), op)
    modifies vol`chains, vol`bitmapDirty, vol.bitmap, vol.fat, vol.heap, table.Values
    ensures Tabled(vol, table')
    ensures (View(vol, table'), out) == SpecStep(vol.clusterSize, old(View(vol, table)), op)
    ensures forall i :: i in table' ==> table'[i] in table.Values || fresh(table'[i])
  {
    SpecRefused(vol.clusterSize, View(vol, table), op);
    assert View(vol, table).files.Keys == table.Keys;
    hide Tabled, View, SpecStep, OpSafe;
    if op.Create? && op.id !in table {
      table' := PerformCreate(vol, table, op.id);
      out := Outcome(0, []);
    } else if op.Create? {
      table', out := table, Outcome(-EEXIST, []);
    } else if op.id !in table {
      table', out := table, Outcome(-ENOENT, []);
    } else {
      assert table[op.id] in table.Values;
      table', out := PerformOn(vol, table, op);
    }
  }

  lemma RunStarts(cs: nat, d: Disk)
    requires cs > 0
    ensures SpecRun(cs, d, []) == (d, [])
  {
  }

  lemma RunStep(cs: nat, d: Disk, ops: seq<Op>, k: nat)
    requires cs > 0 && k < |ops|
    ensures var (d1, outs) := SpecRun(cs, d, ops[..k]); var (d2, out) := SpecStep(cs, d1, ops[k]);
            SpecRun(cs, d, ops[..k + 1]) == (d2, outs + [out])
  {
    hide SpecStep;
    assert ops[..k + 1][..k] == ops[..k];
  }

  /** Any sequence of safe operations is observed as the specification says, to the last byte
      and the last error code, and leaves the volume valid. */
  method Run(vol: Volume, table0: Table, ops: seq<Op>) returns (table: Table, outs: seq<Outcome>)
    requires Tabled(vol, table0) && RunSafe(vol.clusterSize, View(vol, table0), ops)
    modifies vol`chains, vol`bitmapDirty, vol.bitmap, vol.fat, vol.heap, table0.Values
    ensures Tabled(vol, table)
    ensures (View(vol, table), outs) == SpecRun(vol.clusterSize, old(View(vol, table0)), ops)
  {
    hide View, SpecStep, OpSafe, SpecRun;
    RunStarts(vol.clusterSize, View(vol, table0));
    ghost var d0 := View(vol, table0);
    table, outs := table0, [];
    var k := 0;
    while k < |ops|
      invariant k <= |ops| && Tabled(vol, table)
      invariant forall i :: i in table ==> table[i] in table0.Values || fresh(table[i])
      invariant (View(vol, table), outs) == SpecRun(vol.clusterSize, d0, ops[..k])
    {
      var out;
      table, out := Perform(vol, table, ops[k]);
      outs := outs + [out];
      RunStep(vol.clusterSize, d0, ops, k);
      k := k + 1;
    }
    assert ops[..k] == ops;
  }

  // ---- Files without a gap.

  /** No file has a gap between ValidDataLength and its end. */
  ghost predicate Full(d: Disk) {
    forall i :: i in d.files ==> d.files[i].valid == |d.files[i].bytes|
  }

  predicate OpFits(cs: nat, op: Op)
    requires cs > 0
  {
    match op
    case SetSize(_, size) => DivRoundUp(size, cs) < 0x1_0000_0000
    case Write(_, offset, data) => offset >= 0 ==> DivRoundUp(offset + |data|, cs) < 0x1_0000_0000
    case _ => true
  }

  lemma FullStep(cs: nat, d: Disk, op: Op)
    requires cs > 0 && Full(d)
    ensures Full(SpecStep(cs, d, op).0)
    ensures OpFits(cs, op) ==> OpSafe(cs, d, op)
  {
    hide DivRoundUp;
  }

  lemma {:induction false} FullRun(cs: nat, d: Disk, ops: seq<Op>)
    requires cs > 0 && Full(d)
    ensures Full(SpecRun(cs, d, ops).0)
    decreases |ops|
  {
    if ops != [] {
      FullRun(cs, d, ops[..|ops| - 1]);
      FullStep(cs, SpecRun(cs, d, ops[..|ops| - 1]).0, ops[|ops| - 1]);
    }
  }

  /** No operation ever leaves a gap: from files without one, every run of sizes in range is
      safe. */
  lemma FullRunsAreSafe(cs: nat, d: Disk, ops: seq<Op>)
    requires cs > 0 && Full(d) && forall k :: 0 <= k < |ops| ==> OpFits(cs, ops[k])
    ensures RunSafe(cs, d, ops)
  {
    forall k | 0 <= k < |ops|
      ensures OpSafe(cs, SpecRun(cs, d, ops[..k]).0, ops[k])
    {
      FullRun(cs, d, ops[..k]);
      FullStep(cs, SpecRun(cs, d, ops[..k]).0, ops[k]);
    }
  }
}
