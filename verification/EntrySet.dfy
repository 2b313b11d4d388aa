/** The entry set of a file on disk: what commit_entry, exfat_flush_node and rename_entry write,
    and what parse_file_entries accepts. */
module EntrySet {
  import opened Arith
  import opened Chain
  import opened ClusterBitmap
  import opened Common
  import opened Checksums
  import opened Format
  import Clusters
  import Names

  type Entry = e: seq<Byte> | |e| == 32 witness seq(32, i => 0)

  const ATTRIB_DIR := 0x10
  const FLAG_ALWAYS1 := 1
  const FLAG_CONTIGUOUS := 2

  // ---- Little-endian fields.

  function Le16(e: Entry, at: nat): (v: nat)
    requires at + 2 <= 32
    ensures v < 0x1_0000
  {
    (e[at] as nat) + 0x100 * (e[at + 1] as nat)
  }

  function Le32(e: Entry, at: nat): (v: nat)
    requires at + 4 <= 32
    ensures v < 0x1_0000_0000
  {
    Le16(e, at) + 0x1_0000 * Le16(e, at + 2)
  }

  function Le64(e: Entry, at: nat): (v: nat)
    requires at + 8 <= 32
    ensures v < 0x1_0000_0000_0000_0000
  {
    Le32(e, at) + 0x1_0000_0000 * Le32(e, at + 4)
  }

  predicate SameOutside(a: Entry, b: Entry, from: nat, to: nat) {
    forall i :: 0 <= i < 32 && !(from <= i < to) ==> a[i] == b[i]
  }

  function PutLe16(e: Entry, at: nat, v: nat): (r: Entry)
    requires at + 2 <= 32 && v < 0x1_0000
    ensures Le16(r, at) == v && SameOutside(r, e, at, at + 2)
  {
    e[at := v % 0x100][at + 1 := v / 0x100]
  }

  function PutLe32(e: Entry, at: nat, v: nat): (r: Entry)
    requires at + 4 <= 32 && v < 0x1_0000_0000
    ensures Le32(r, at) == v && SameOutside(r, e, at, at + 4)
  {
    PutLe16(PutLe16(e, at, v % 0x1_0000), at + 2, v / 0x1_0000)
  }

  function PutLe64(e: Entry, at: nat, v: nat): (r: Entry)
    requires at + 8 <= 32 && v < 0x1_0000_0000_0000_0000
    ensures Le64(r, at) == v && SameOutside(r, e, at, at + 8)
  {
    PutLe32(PutLe32(e, at, v % 0x1_0000_0000), at + 4, v / 0x1_0000_0000)
  }

  // ---- The checksum of an entry set.

  /** Entry sets are summed in 16 bits. */
  const HALF := 0x8000

  /** The bytes a checksum is computed from: all but the checksum field. */
  function Summed(entries: seq<Entry>): seq<Byte>
    requires entries != []
  {
    entries[0][..2] + entries[0][4..] + Flat(entries[1..])
  }

  function Flat(entries: seq<Entry>): seq<Byte> {
    if entries == [] then [] else entries[0] + Flat(entries[1..])
  }

  function Checksum(entries: seq<Entry>): (r: nat)
    requires entries != []
    ensures r < 0x1_0000
  {
    AddBytes(HALF, 0, Summed(entries))
  }

  method StartChecksum(entry: Entry) returns (sum: nat)
    ensures sum == AddBytes(HALF, 0, entry[..2] + entry[4..]) && sum < 0x1_0000
  {
    hide AddByte;
    sum := 0;
    var i := 0;
    while i < 32
      invariant i <= 32 && sum < 0x1_0000
      invariant sum == AddBytes(HALF, 0, entry[..Min(i, 2)] + entry[4..Max(i, 4)])
    {
      if i != 2 && i != 3 {
        AddOne(HALF, 0, entry[..Min(i, 2)] + entry[4..Max(i, 4)], entry[i]);
        sum := AddByte(HALF, sum, entry[i]);
        if i < 2 {
          assert entry[..i] + entry[4..4] + [entry[i]] == entry[..i + 1] + entry[4..4];
        } else {
          assert entry[..2] + entry[4..i] + [entry[i]] == entry[..2] + entry[4..i + 1];
        }
      }
      i := i + 1;
    }
    assert entry[4..32] == entry[4..];
  }

  method AddChecksum(entry: Entry, start: nat) returns (sum: nat)
    requires start < 0x1_0000
    ensures sum == AddBytes(HALF, start, entry) && sum < 0x1_0000
  {
    sum := start;
    var i := 0;
    while i < 32
      invariant i <= 32 && sum < 0x1_0000 && sum == AddBytes(HALF, start, entry[..i])
    {
      AddOne(HALF, start, entry[..i], entry[i]);
      assert entry[..i] + [entry[i]] == entry[..i + 1];
      sum := AddByte(HALF, sum, entry[i]);
      i := i + 1;
    }
    assert entry[..32] == entry;
  }

  lemma {:induction false} FlatSplit(entries: seq<Entry>, i: nat)
    requires i < |entries|
    ensures Flat(entries) == Flat(entries[..i]) + entries[i] + Flat(entries[i + 1..])
  {
    if i > 0 {
      FlatSplit(entries[1..], i - 1);
      assert entries[..i][1..] == entries[1..][..i - 1] && entries[1..][i..] == entries[i + 1..];
    }
  }

  /** The bytes that a name hash is computed from: the up-cased units, low byte first. */
  function HashedBytes(t: Names.UpcaseTable, name: seq<nat>): seq<Byte>
    requires IsName(name) || name == []
    requires forall u :: 0 <= u < |t| ==> t[u] < 0x1_0000
    decreases |name|
  {
    if name == [] then []
    else
      var c := t[name[0]];
      [c % 0x100, c / 0x100] + if |name| == 1 then [] else HashedBytes(t, name[1..])
  }

  /** exfat_calc_name_hash */
  method CalcNameHash(t: Names.UpcaseTable, name: seq<nat>) returns (hash: nat)
    requires IsName(name) && forall u :: 0 <= u < |t| ==> t[u] < 0x1_0000
    ensures hash < 0x1_0000 && hash == AddBytes(HALF, 0, HashedBytes(t, name))
  {
    hide AddByte;
    hash := 0;
    var i := 0;
    while i < |name|
      invariant i <= |name| && hash < 0x1_0000
      invariant AddBytes(HALF, 0, HashedBytes(t, name)) ==
        AddBytes(HALF, hash, if i == |name| then [] else HashedBytes(t, name[i..]))
    {
      var c := t[name[i]];
      ghost var rest := if i + 1 == |name| then [] else HashedBytes(t, name[i + 1..]);
      assert name[i..][1..] == name[i + 1..];
      HashedTwo(hash, c % 0x100, c / 0x100, rest);
      hash := AddByte(HALF, hash, c % 0x100);
      hash := AddByte(HALF, hash, c / 0x100);
      i := i + 1;
    }
  }

  lemma HashedTwo(sum: nat, x: Byte, y: Byte, rest: seq<Byte>)
    requires sum < 0x1_0000
    ensures AddBytes(HALF, sum, [x, y] + rest) == AddBytes(HALF, AddByte(HALF, AddByte(HALF, sum, x), y), rest)
  {
    hide AddByte;
    assert ([x, y] + rest)[1..] == [y] + rest && ([y] + rest)[1..] == rest;
  }

  /** Names that are the same under the table have the same hash. */
  lemma {:induction false} SameNameSameHash(t: Names.UpcaseTable, a: seq<nat>, b: seq<nat>)
    requires (IsName(a) || a == []) && (IsName(b) || b == []) && forall u :: 0 <= u < |t| ==> t[u] < 0x1_0000
    requires |a| == |b| && forall i :: 0 <= i < |a| ==> t[a[i]] == t[b[i]]
    ensures HashedBytes(t, a) == HashedBytes(t, b)
    decreases |a|
  {
    if |a| > 1 {
      SameNameSameHash(t, a[1..], b[1..]);
    }
  }

  /** The checksum is a word of 16 bits, in which a zero byte is a rotation. */
  lemma SumsSixteenBits(sum: nat, k: nat)
    requires sum < 0x1_0000 && k < 16
    ensures HALF == Pow2(15)
    ensures BitOf(AddByte(HALF, sum, 0), k) <==> BitOf(sum, if k < 15 then k + 1 else 0)
  {
    Pow2Sixteen();
    ZeroRotates(16, sum, k);
  }

  lemma SummedInFirst(entries: seq<Entry>, k: nat, v: Byte) returns (front: seq<Byte>, back: seq<Byte>)
    requires entries != [] && k < 32 && (k < 2 || k >= 4)
    ensures Summed(entries[0 := entries[0][k := v]]) == front + [v] + back
    ensures Summed(entries) == front + [entries[0][k]] + back
  {
    hide Flat;
    var changed, x, rest := entries[0 := entries[0][k := v]], entries[0], Flat(entries[1..]);
    assert changed[1..] == entries[1..];
    if k < 2 {
      front, back := x[..k], x[k + 1..2] + x[4..] + rest;
    } else {
      front, back := x[..2] + x[4..k], x[k + 1..] + rest;
    }
  }

  lemma SummedInOther(entries: seq<Entry>, e: nat, k: nat, v: Byte) returns (front: seq<Byte>, back: seq<Byte>)
    requires 0 < e < |entries| && k < 32
    ensures Summed(entries[e := entries[e][k := v]]) == front + [v] + back
    ensures Summed(entries) == front + [entries[e][k]] + back
  {
    hide Flat;
    var changed, x := entries[e := entries[e][k := v]], entries[e];
    FlatSplit(entries[1..], e - 1);
    FlatSplit(changed[1..], e - 1);
    assert changed[1..][..e - 1] == entries[1..][..e - 1] && changed[1..][e..] == entries[1..][e..];
    var head := entries[0][..2] + entries[0][4..] + Flat(entries[1..][..e - 1]);
    front, back := head + x[..k], x[k + 1..] + Flat(entries[1..][e..]);
    assert x == x[..k] + [x[k]] + x[k + 1..] && x[k := v] == x[..k] + [v] + x[k + 1..];
  }

  /** A single byte changed anywhere in a set, but for the checksum itself, changes the checksum. */
  lemma SetByteCounts(entries: seq<Entry>, e: nat, k: nat, v: Byte)
    requires e < |entries| && k < 32 && (e == 0 ==> k < 2 || k >= 4) && v != entries[e][k]
    ensures Checksum(entries[e := entries[e][k := v]]) != Checksum(entries)
  {
    hide AddBytes, Summed;
    var front, back;
    if e == 0 {
      front, back := SummedInFirst(entries, k, v);
    } else {
      front, back := SummedInOther(entries, e, k, v);
    }
    ByteCounts(HALF, 0, front, v, entries[e][k], back);
  }

  lemma {:induction false} FlatStep(entries: seq<Entry>, i: nat)
    requires i < |entries|
    ensures Flat(entries[..i + 1]) == Flat(entries[..i]) + entries[i]
  {
    if i == 0 {
      assert entries[..1] == [entries[0]] && entries[..0] == [];
      assert Flat([entries[0]]) == entries[0] + Flat([]);
    } else {
      FlatStep(entries[1..], i - 1);
      assert entries[..i + 1][1..] == entries[1..][..i] && entries[..i][1..] == entries[1..][..i - 1];
    }
  }

  /** exfat_calc_checksum */
  method CalcChecksum(entries: seq<Entry>) returns (sum: nat)
    requires entries != []
    ensures sum == Checksum(entries) && sum < 0x1_0000
  {
    hide AddBytes, AddByte;
    sum := StartChecksum(entries[0]);
    ghost var head, rest := entries[0][..2] + entries[0][4..], entries[1..];
    assert rest[..0] == [] && head + [] == head;
    var i := 1;
    while i < |entries|
      invariant 1 <= i <= |entries| && sum < 0x1_0000
      invariant sum == AddBytes(HALF, 0, head + Flat(rest[..i - 1]))
    {
      FlatStep(rest, i - 1);
      AddBytesConcat(HALF, 0, head + Flat(rest[..i - 1]), entries[i]);
      assert head + Flat(rest[..i - 1]) + entries[i] == head + Flat(rest[..i]);
      sum := AddChecksum(entries[i], sum);
      i := i + 1;
    }
    assert rest[..|rest|] == rest;
  }

  function Sealed(entries: seq<Entry>): (r: seq<Entry>)
    requires entries != []
    ensures |r| == |entries| && r[1..] == entries[1..] && SameOutside(r[0], entries[0], 2, 4)
  {
    entries[0 := PutLe16(entries[0], 2, Checksum(entries))]
  }

  /** Storing the checksum does not change it: a sealed set carries its own checksum. */
  lemma SealedIsValid(entries: seq<Entry>)
    requires entries != []
    ensures Le16(Sealed(entries)[0], 2) == Checksum(Sealed(entries)) == Checksum(entries)
  {
    var r := Sealed(entries);
    assert r[0][..2] == entries[0][..2] && r[0][4..] == entries[0][4..];
  }

  // ---- What a reader accepts.

  function Types(entries: seq<Entry>): (r: seq<Byte>)
    ensures |r| == |entries| && forall i :: 0 <= i < |entries| ==> r[i] == entries[i][0]
  {
    seq(|entries|, i requires 0 <= i < |entries| => entries[i][0])
  }

  /** File, file info, k names, and then only optional entries. */
  predicate RegularAt(types: seq<Byte>, k: nat) {
    && 1 <= k && 2 + k <= |types|
    && types[0] == ENTRY_FILE && types[1] == ENTRY_FILE_INFO
    && (forall i :: 2 <= i < 2 + k ==> types[i] == ENTRY_FILE_NAME)
    && (forall i :: 2 + k <= i < |types| ==> types[i] >= ENTRY_FILE_TAIL)
  }

  ghost predicate Regular(types: seq<Byte>) {
    exists k :: RegularAt(types, k)
  }

  /** The first i types with k names among them have passed the transition checks. */
  ghost predicate Passed(types: seq<Byte>, i: nat, k: nat) {
    && i <= |types| && (i <= 2 ==> k == 0) && (i > 2 ==> 1 <= k <= i - 2)
    && (i > 0 ==> types[0] == ENTRY_FILE) && (i > 1 ==> types[1] == ENTRY_FILE_INFO)
    && (forall j :: 2 <= j < 2 + k ==> types[j] == ENTRY_FILE_NAME)
    && (forall j :: 2 + k <= j < i ==> types[j] >= ENTRY_FILE_TAIL)
  }

  const NO_ENTRY: int := -1

  /** One transition of check_entries. */
  predicate MayFollow(previous: int, current: int) {
    if previous == NO_ENTRY then current == ENTRY_FILE
    else if previous == ENTRY_FILE then current == ENTRY_FILE_INFO
    else if previous == ENTRY_FILE_INFO then current == ENTRY_FILE_NAME
    else if previous == ENTRY_FILE_NAME then current == ENTRY_FILE_NAME || current == NO_ENTRY || current >= ENTRY_FILE_TAIL
    else if ENTRY_FILE_TAIL <= previous then current >= ENTRY_FILE_TAIL || current == NO_ENTRY
    else false
  }

  lemma PassedStep(types: seq<Byte>, i: nat, k: nat)
    requires Passed(types, i, k) && i < |types|
    requires MayFollow(if i == 0 then NO_ENTRY else types[i - 1], types[i])
    ensures Passed(types, i + 1, if i >= 2 && types[i] == ENTRY_FILE_NAME then k + 1 else k)
  {
  }

  lemma PassedStuck(types: seq<Byte>, i: nat, k: nat)
    requires Passed(types, i, k)
    requires !MayFollow(if i == 0 then NO_ENTRY else types[i - 1], if i < |types| then types[i] else NO_ENTRY)
    ensures !Regular(types)
  {
    if i > 2 {
      assert types[2 + k - 1] == ENTRY_FILE_NAME;
    }
    forall m
      ensures !RegularAt(types, m)
    {
    }
  }

  /** check_entries accepts exactly the regular sequences of entry types. */
  method CheckEntries(entries: seq<Entry>) returns (ok: bool)
    ensures ok <==> Regular(Types(entries))
  {
    ghost var types := Types(entries);
    ghost var k: nat := 0;
    var n := |entries|;
    var previous: int := NO_ENTRY;
    var i := 0;
    while i < n + 1
      invariant i <= n + 1
      invariant i <= n ==> Passed(types, i, k) && previous == if i == 0 then NO_ENTRY else types[i - 1] as int
      invariant i == n + 1 ==> Regular(types)
    {
      var current: int := if i < n then entries[i][0] else NO_ENTRY;
      if !MayFollow(previous, current) {
        PassedStuck(types, i, k);
        return false;
      }
      if i < n {
        PassedStep(types, i, k);
        k := if i >= 2 && types[i] == ENTRY_FILE_NAME then k + 1 else k;
      } else {
        assert RegularAt(types, k);
      }
      previous := current;
      i := i + 1;
    }
    return true;
  }

  /** The geometry a reader checks sizes against. */
  datatype Geometry = Geometry(clusterSize: nat, clusterCount: nat) {
    ghost predicate Valid() {
      0 < clusterSize && clusterCount < 0xffff_fff7 && clusterCount * clusterSize < 0x1_0000_0000_0000_0000
    }
  }

  /** What parse_file_entries takes from an entry set into the node, times left out. */
  datatype Info = Info(attrib: nat, continuations: nat, name: seq<nat>,
                       validSize: nat, size: nat, startCluster: nat, contiguous: bool)

  predicate IsDir(attrib: nat) { attrib / ATTRIB_DIR % 2 == 1 }

  /** The name units of a run of entries, one after the other. */
  function Units(entries: seq<Entry>): (r: seq<nat>)
    ensures |r| == ENAME_MAX * |entries|
  {
    seq(ENAME_MAX * |entries|, m requires 0 <= m < ENAME_MAX * |entries| => Le16(entries[m / ENAME_MAX], 2 + 2 * (m % ENAME_MAX)))
  }

  function Decoded(entries: seq<Entry>): Info
    requires |entries| >= 2 && |entries| >= 2 + NameEntries(entries[1][3])
  {
    Info(Le16(entries[0], 4), entries[0][1], CString(Units(entries[2..2 + NameEntries(entries[1][3])])),
         Le64(entries[1], 8), Le64(entries[1], 24), Le32(entries[1], 20), entries[1][1] / FLAG_CONTIGUOUS % 2 == 1)
  }

  /** check_node, its repairs answered with no. */
  predicate NodeAccepted(g: Geometry, i: Info, actual: nat, stored: nat) {
    && actual == stored
    && i.validSize <= i.size
    && (i.size == 0 ==> i.startCluster == CLUSTER_FREE)
    && (i.size > 0 ==> ValidCluster(g.clusterCount, i.startCluster))
    && i.size <= g.clusterCount * g.clusterSize
    && !(i.size == 0 && i.contiguous)
    && (IsDir(i.attrib) && g.clusterSize > 0 ==> i.size % g.clusterSize == 0)
  }

  /** parse_file_entries on the entries that the first one announces. */
  ghost function Parsed(g: Geometry, entries: seq<Entry>): Option<Info>
    requires entries != [] && |entries| == 1 + entries[0][1] as nat
  {
    if !Regular(Types(entries)) then None
    else if entries[0][1] < 2 || entries[1][1] >= 4 then None
    else if entries[0][1] < 1 + NameEntries(entries[1][3]) then None
    else if NodeAccepted(g, Decoded(entries), Checksum(entries), Le16(entries[0], 2)) then Some(Decoded(entries))
    else None
  }

  /** A set is accepted exactly when it is regular and long enough for its name, carries its own
      checksum, and describes sizes and a start that the heap can hold. */
  lemma AcceptedExactly(g: Geometry, entries: seq<Entry>)
    requires entries != [] && |entries| == 1 + entries[0][1] as nat && g.clusterSize > 0
    ensures Parsed(g, entries).Some? <==>
      && Regular(Types(entries)) && |entries| >= 3 && |entries| >= 2 + NameEntries(entries[1][3])
      && entries[1][1] <= FLAG_ALWAYS1 + FLAG_CONTIGUOUS
      && Le16(entries[0], 2) == Checksum(entries)
      && var valid, size, start, contiguous := Le64(entries[1], 8), Le64(entries[1], 24), Le32(entries[1], 20), entries[1][1] >= 2;
      && valid <= size <= g.clusterCount * g.clusterSize
      && (if size == 0 then start == CLUSTER_FREE && !contiguous else 2 <= start < g.clusterCount + 2)
      && (IsDir(Le16(entries[0], 4)) ==> size % g.clusterSize == 0)
    ensures Parsed(g, entries).Some? ==>
      var i := Parsed(g, entries).value;
      && i.attrib == Le16(entries[0], 4) && i.continuations == |entries| - 1
      && i.validSize == Le64(entries[1], 8) && i.size == Le64(entries[1], 24) && i.startCluster == Le32(entries[1], 20)
      && (i.contiguous <==> entries[1][1] >= 2)
      && i.name == CString(Units(entries[2..2 + NameEntries(entries[1][3])]))
  {
    hide Regular, Checksum, Le16, Le32, Le64, CString, Units, NameEntries, Types;
  }

  /** A set of which one byte is not as it was written is refused, wherever that byte is, its
      length apart. */
  lemma OneByteRefused(g: Geometry, entries: seq<Entry>, i: Info, e: nat, k: nat, v: Byte)
    requires Stored(g, entries, i) && e < |entries| && k < 32 && v != entries[e][k] && !(e == 0 && k == 1)
    ensures var changed := entries[e := entries[e][k := v]];
      |changed| == 1 + changed[0][1] as nat && Parsed(g, changed) == None
  {
    hide Regular, Checksum, CString, Units, NameEntries, Types, Decoded, Le32, Le64;
    var changed := entries[e := entries[e][k := v]];
    if e == 0 && 2 <= k < 4 {
      ChecksumKept(entries, changed);
    } else {
      SetByteCounts(entries, e, k, v);
    }
  }

  /** The checksum field does not go into the checksum. */
  lemma ChecksumKept(a: seq<Entry>, b: seq<Entry>)
    requires a != [] && |a| == |b| && SameOutside(a[0], b[0], 2, 4) && a[1..] == b[1..]
    ensures Checksum(a) == Checksum(b)
  {
    hide AddBytes;
    assert a[0][..2] == b[0][..2] && a[0][4..] == b[0][4..];
  }

  /** init_node_name, block by block, and the reading of the name up to its terminator. */
  method ReadName(entries: seq<Entry>) returns (name: seq<nat>)
    ensures name == CString(Units(entries))
  {
    var buffer := [];
    var i := 0;
    while i < |entries|
      invariant i <= |entries| && |buffer| == ENAME_MAX * i
      invariant forall m :: 0 <= m < |buffer| ==> buffer[m] == Units(entries)[m]
    {
      buffer := buffer + seq(ENAME_MAX, j requires 0 <= j < ENAME_MAX => Le16(entries[i], 2 + 2 * j));
      i := i + 1;
    }
    assert buffer == Units(entries);
    name := ReadString(buffer);
  }

  method ReadString(buffer: seq<nat>) returns (name: seq<nat>)
    ensures name == CString(buffer)
  {
    name := [];
    var i := 0;
    while i < |buffer| && buffer[i] != 0
      invariant i <= |buffer| && CString(buffer) == name + CString(buffer[i..])
    {
      assert buffer[i..][1..] == buffer[i + 1..];
      name := name + [buffer[i]];
      i := i + 1;
    }
  }

  method ParseFileEntries(g: Geometry, entries: seq<Entry>) returns (r: Option<Info>)
    requires entries != [] && |entries| == 1 + entries[0][1] as nat
    ensures r == Parsed(g, entries)
  {
    var regular := CheckEntries(entries);
    if !regular {
      return None;
    }
    if entries[0][1] < 2 {
      return None;
    }
    if entries[1][1] >= 4 {
      return None;
    }
    var mandatory := 2 + NameEntries(entries[1][3]);
    if entries[0][1] < mandatory - 1 {
      return None;
    }
    var name := ReadName(entries[2..mandatory]);
    var info := Info(Le16(entries[0], 4), entries[0][1], name,
                     Le64(entries[1], 8), Le64(entries[1], 24), Le32(entries[1], 20), entries[1][1] / FLAG_CONTIGUOUS % 2 == 1);
    var checksum := CalcChecksum(entries);
    if !NodeAccepted(g, info, checksum, Le16(entries[0], 2)) {
      return None;
    }
    return Some(info);
  }

  // ---- What is written.

  /** A time stamp as it is stored. */
  datatype Stamp = Stamp(date: nat, time: nat, cs: Byte, tzo: Byte) {
    predicate Valid() { date < 0x1_0000 && time < 0x1_0000 }
  }

  predicate IsName(name: seq<nat>) {
    1 <= |name| <= NAME_MAX && forall i :: 0 <= i < |name| ==> 0 < name[i] < 0x1_0000
  }

  /** Unit m of a name in its zero-filled buffer. */
  function Padded(name: seq<nat>, m: nat): (u: nat)
    requires forall i :: 0 <= i < |name| ==> name[i] < 0x1_0000
    ensures u < 0x1_0000
  {
    if m < |name| then name[m] else 0
  }

  function NameByte(name: seq<nat>, i: nat, b: nat): Byte
    requires b < 32 && forall i :: 0 <= i < |name| ==> name[i] < 0x1_0000
  {
    if b == 0 then ENTRY_FILE_NAME
    else if b == 1 then 0
    else
      var u := Padded(name, ENAME_MAX * i + (b - 2) / 2);
      if b % 2 == 0 then u % 0x100 else u / 0x100
  }

  /** The i-th name entry. */
  function NameEntry(name: seq<nat>, i: nat): (e: Entry)
    requires forall i :: 0 <= i < |name| ==> name[i] < 0x1_0000
    ensures e[0] == ENTRY_FILE_NAME
    ensures forall j :: 0 <= j < ENAME_MAX ==> Le16(e, 2 + 2 * j) == Padded(name, ENAME_MAX * i + j)
  {
    var e: seq<Byte> := seq(32, b requires 0 <= b < 32 => NameByte(name, i, b));
    assert forall j :: 0 <= j < ENAME_MAX ==>
      e[2 + 2 * j] == Padded(name, ENAME_MAX * i + j) % 0x100 && e[2 + 2 * j + 1] == Padded(name, ENAME_MAX * i + j) / 0x100;
    e
  }

  /** Name entries that spell the name out. */
  predicate Spells(entries: seq<Entry>, name: seq<nat>)
    requires forall i :: 0 <= i < |name| ==> name[i] < 0x1_0000
  {
    && |entries| == NameEntries(|name|)
    && forall i :: 0 <= i < |entries| ==> entries[i] == NameEntry(name, i)
  }

  lemma {:induction false} CStringOf(units: seq<nat>, name: seq<nat>)
    requires |name| <= |units| && units[..|name|] == name && 0 !in name
    requires |name| < |units| ==> units[|name|] == 0
    ensures CString(units) == name
  {
    if name == [] {
    } else {
      assert units[0] == name[0] && name[0] in name;
      assert units[1..][..|name| - 1] == name[1..];
      CStringOf(units[1..], name[1..]);
      assert name == [name[0]] + name[1..];
    }
  }

  lemma SpelledUnit(entries: seq<Entry>, name: seq<nat>, m: nat)
    requires IsName(name) && Spells(entries, name) && m < |Units(entries)|
    ensures Units(entries)[m] == Padded(name, m)
  {
    hide NameEntry, Le16, Padded, NameEntries;
    var q, j := m / ENAME_MAX, m % ENAME_MAX;
    assert ENAME_MAX * q + j == m && q < |entries|;
    assert entries[q] == NameEntry(name, q);
  }

  /** A name that is written is read back. */
  lemma SpelledIsRead(entries: seq<Entry>, name: seq<nat>)
    requires IsName(name) && Spells(entries, name)
    ensures CString(Units(entries)) == name
  {
    hide NameEntry, Le16, NameEntries, Units, CString;
    var units := Units(entries);
    EnoughUnits(name);
    forall m | 0 <= m < |units|
      ensures units[m] == Padded(name, m)
    {
      SpelledUnit(entries, name, m);
    }
    assert units[..|name|] == name;
    CStringOf(units, name);
  }

  lemma EnoughUnits(name: seq<nat>)
    ensures |name| <= ENAME_MAX * NameEntries(|name|)
  {
    DivRoundUpBounds(|name|, ENAME_MAX);
  }

  method WriteName(name: seq<nat>) returns (entries: seq<Entry>)
    requires forall i :: 0 <= i < |name| ==> name[i] < 0x1_0000
    ensures Spells(entries, name)
  {
    entries := [];
    var i := 0;
    while i < NameEntries(|name|)
      invariant i <= NameEntries(|name|) && |entries| == i
      invariant forall j :: 0 <= j < i ==> entries[j] == NameEntry(name, j)
    {
      entries := entries + [NameEntry(name, i)];
      i := i + 1;
    }
  }

  lemma NameEntriesRange(length: nat)
    requires 1 <= length <= NAME_MAX
    ensures 1 <= NameEntries(length) <= 17
  {
    DivRoundUpBounds(length, ENAME_MAX);
  }

  const ZERO_ENTRY: Entry := [0, 0, 0, 0, 0, 0, 0, 0, 0, 0, 0, 0, 0, 0, 0, 0, 0, 0, 0, 0, 0, 0, 0, 0, 0, 0, 0, 0, 0, 0, 0, 0]

  /** The creation time, and the modification and access times, as an entry has them. */
  predicate Created(e: Entry, t: Stamp) {
    Le16(e, 8) == t.time && Le16(e, 10) == t.date && e[20] == t.cs && e[22] == t.tzo
  }

  predicate Touched(e: Entry, m: Stamp, a: Stamp) {
    && Le16(e, 12) == m.time && Le16(e, 14) == m.date && e[21] == m.cs && e[23] == m.tzo
    && Le16(e, 16) == a.time && Le16(e, 18) == a.date && e[24] == a.tzo
  }

  function PutTimes(e: Entry, t: Stamp): (r: Entry)
    requires t.Valid()
    ensures SameOutside(r, e, 8, 25) && Created(r, t) && Touched(r, t, t)
  {
    var times := PutLe16(PutLe16(PutLe16(e, 8, t.time), 12, t.time), 16, t.time);
    var dates := PutLe16(PutLe16(PutLe16(times, 10, t.date), 14, t.date), 18, t.date);
    dates[20 := t.cs][21 := t.cs][22 := t.tzo][23 := t.tzo][24 := t.tzo]
  }

  /** The modification and access times, and nothing else. */
  function PutChange(e: Entry, m: Stamp, a: Stamp): (r: Entry)
    requires m.Valid() && a.Valid()
    ensures SameOutside(r, e, 12, 25) && r[20] == e[20] && r[22] == e[22] && Touched(r, m, a)
  {
    var modified := PutLe16(PutLe16(e, 12, m.time), 14, m.date);
    var accessed := PutLe16(PutLe16(modified, 16, a.time), 18, a.date);
    accessed[21 := m.cs][23 := m.tzo][24 := a.tzo]
  }

  /** A node that exfat_flush_node may have to store: the ownership invariant keeps every node
      so (see OwnedIsStorable). */
  predicate Storable(g: Geometry, i: Info) {
    && i.attrib < 0x1_0000
    && i.validSize <= i.size <= g.clusterCount * g.clusterSize
    && (i.size == 0 ==> i.startCluster == CLUSTER_FREE)
    && (i.size > 0 ==> ValidCluster(g.clusterCount, i.startCluster))
    && (IsDir(i.attrib) && g.clusterSize > 0 ==> i.size % g.clusterSize == 0)
  }

  /** Empty files are stored as non-contiguous. */
  function AsStored(i: Info): Info {
    i.(contiguous := i.size != 0 && i.contiguous)
  }

  /** The set on disk is complete, and a reader gets this out of it. */
  ghost predicate Stored(g: Geometry, entries: seq<Entry>, i: Info) {
    && entries != [] && |entries| == 1 + entries[0][1] as nat
    && Parsed(g, entries) == Some(i)
    && i.attrib < 0x1_0000
  }

  lemma RegularSet(entries: seq<Entry>, k: nat)
    requires |entries| == 2 + k && k >= 1
    requires entries[0][0] == ENTRY_FILE && entries[1][0] == ENTRY_FILE_INFO
    requires forall i :: 2 <= i < |entries| ==> entries[i][0] == ENTRY_FILE_NAME
    ensures Regular(Types(entries))
  {
    assert RegularAt(Types(entries), k);
  }

  /** The two info entries say this of the node, its name apart. */
  predicate Describes(meta1: Entry, meta2: Entry, i: Info) {
    && meta1[0] == ENTRY_FILE && meta1[1] == i.continuations && Le16(meta1, 4) == i.attrib
    && meta2[0] == ENTRY_FILE_INFO && meta2[1] < 4 && i.contiguous == (meta2[1] / FLAG_CONTIGUOUS % 2 == 1)
    && Le64(meta2, 8) == i.validSize && Le64(meta2, 24) == i.size && Le32(meta2, 20) == i.startCluster
  }

  /** Info entries and a spelled name, with the checksum filled in, are read back. */
  lemma AssembledIsStored(g: Geometry, meta1: Entry, meta2: Entry, names: seq<Entry>, i: Info)
    requires IsName(i.name) && Spells(names, i.name) && i.continuations == 1 + NameEntries(|i.name|)
    requires Describes(meta1, meta2, i) && meta2[3] == |i.name|
    requires Storable(g, i) && i == AsStored(i)
    ensures Stored(g, Sealed([meta1, meta2] + names), i)
  {
    hide Spells, CString, Units, NameEntries, Checksum, Le64, Le32, DivRoundUp;
    NameEntriesRange(|i.name|);
    SpelledLength(names, i.name);
    SpelledIsRead(names, i.name);
    var entries := [meta1, meta2] + names;
    var r := Sealed(entries);
    SealedIsValid(entries);
    SameLe16(r[0], meta1, 4);
    assert r[1] == r[1..][0] == meta2;
    assert r[2..2 + |names|] == r[1..][1..] == names;
    RegularSet(r, |names|);
  }

  lemma SpelledLength(names: seq<Entry>, name: seq<nat>)
    requires IsName(name) && Spells(names, name)
    ensures |names| == NameEntries(|name|) && forall j :: 0 <= j < |names| ==> names[j][0] == ENTRY_FILE_NAME
  {
  }

  lemma SameLe16(a: Entry, b: Entry, at: nat)
    requires 4 <= at <= 30 && SameOutside(a, b, 2, 4)
    ensures Le16(a, at) == Le16(b, at) && a[0] == b[0] && a[1] == b[1]
  {
  }

  function NewMeta1(continuations: Byte, attrib: nat, now: Stamp): (e: Entry)
    requires attrib < 0x1_0000 && now.Valid()
    ensures e[0] == ENTRY_FILE && e[1] == continuations && Le16(e, 4) == attrib
    ensures Created(e, now) && Touched(e, now, now)
  {
    var blank: Entry := ZERO_ENTRY[0 := ENTRY_FILE][1 := continuations];
    PutTimes(PutLe16(blank, 4, attrib), now)
  }

  function NewMeta2(nameLength: Byte, hash: nat): (e: Entry)
    requires hash < 0x1_0000
    ensures e[0] == ENTRY_FILE_INFO && e[1] == FLAG_ALWAYS1 && e[3] == nameLength
    ensures Le64(e, 8) == 0 && Le64(e, 24) == 0 && Le32(e, 20) == CLUSTER_FREE && Le16(e, 4) == hash
  {
    var blank: Entry := ZERO_ENTRY[0 := ENTRY_FILE_INFO][1 := FLAG_ALWAYS1][3 := nameLength];
    PutLe16(blank, 4, hash)
  }

  /** commit_entry: the set of a new, empty file; a reader finds it and its name. */
  method CommitEntry(g: Geometry, name: seq<nat>, hash: nat, attrib: nat, now: Stamp) returns (entries: seq<Entry>)
    requires IsName(name) && hash < 0x1_0000 && attrib < 0x1_0000 && now.Valid()
    ensures Stored(g, entries, Info(attrib, 1 + NameEntries(|name|), name, 0, 0, CLUSTER_FREE, false))
    ensures Created(entries[0], now) && Touched(entries[0], now, now)
    ensures |entries| >= 2 && Le16(entries[1], 4) == hash
  {
    hide Spells, NameEntries, Stored, NewMeta1, NewMeta2, Le64, Le32, Le16, Checksum, Created, Touched;
    NameEntriesRange(|name|);
    ghost var info := Info(attrib, 1 + NameEntries(|name|), name, 0, 0, CLUSTER_FREE, false);
    var meta1 := NewMeta1(1 + NameEntries(|name|), attrib, now);
    var meta2 := NewMeta2(|name|, hash);
    var names := WriteName(name);
    entries := [meta1, meta2] + names;
    var sum := CalcChecksum(entries);
    EmptyIsStorable(g, info);
    AssembledIsStored(g, meta1, meta2, names, info);
    SameTimes(PutLe16(meta1, 2, sum), meta1, 2, 4);
    entries := entries[0 := PutLe16(meta1, 2, sum)];
  }

  /** Writing a field outside the times leaves the times. */
  lemma SameTimes(a: Entry, b: Entry, from: nat, to: nat)
    requires SameOutside(a, b, from, to) && to <= 8
    ensures forall t: Stamp :: Created(a, t) == Created(b, t)
    ensures forall m: Stamp, n: Stamp :: Touched(a, m, n) == Touched(b, m, n)
  {
  }

  lemma EmptyIsStorable(g: Geometry, i: Info)
    requires i.attrib < 0x1_0000 && i.size == i.validSize == 0 && i.startCluster == CLUSTER_FREE
    ensures Storable(g, i)
  {
  }

  /** The four fields of meta2 that follow the node. */
  function FlushedMeta2(e: Entry, i: Info): (r: Entry)
    requires i.validSize < 0x1_0000_0000_0000_0000 && i.size < 0x1_0000_0000_0000_0000 && i.startCluster < 0x1_0000_0000
    ensures r[0] == e[0] && r[3] == e[3] && r[4] == e[4] && r[5] == e[5]
    ensures r[1] == FLAG_ALWAYS1 + (if AsStored(i).contiguous then FLAG_CONTIGUOUS else 0)
    ensures Le64(r, 8) == i.validSize && Le64(r, 24) == i.size && Le32(r, 20) == i.startCluster
  {
    hide Le16, PutLe64, PutLe32, PutLe16;
    var valid := PutLe64(e, 8, i.validSize);
    var size := PutLe64(valid, 24, i.size);
    var start := PutLe32(size, 20, i.startCluster);
    SameLe64(size, valid, 8, 24, 32);
    SameLe64(start, size, 8, 20, 24);
    SameLe64(start, size, 24, 20, 24);
    var flags := FLAG_ALWAYS1 + (if AsStored(i).contiguous then FLAG_CONTIGUOUS else 0);
    var r: Entry := start[1 := flags];
    SameLe64(r, start, 8, 1, 2);
    SameLe64(r, start, 24, 1, 2);
    SameLe32(r, start, 20, 1, 2);
    r
  }

  lemma SameLe32(a: Entry, b: Entry, at: nat, from: nat, to: nat)
    requires at + 4 <= 32 && SameOutside(a, b, from, to) && (at + 4 <= from || to <= at)
    ensures Le32(a, at) == Le32(b, at)
  {
  }

  lemma SameLe64(a: Entry, b: Entry, at: nat, from: nat, to: nat)
    requires at + 8 <= 32 && SameOutside(a, b, from, to) && (at + 8 <= from || to <= at)
    ensures Le64(a, at) == Le64(b, at)
  {
    SameLe32(a, b, at, from, to);
    SameLe32(a, b, at + 4, from, to);
  }

  /** Every stored set has the two info entries, and they describe what is read. */
  lemma StoredDescribes(g: Geometry, entries: seq<Entry>, i: Info)
    requires Stored(g, entries, i)
    ensures |entries| >= 2 && Storable(g, i) && i == AsStored(i) && Describes(entries[0], entries[1], i)
  {
    hide CString, Units, NameEntries, Checksum, Le64, Le32;
    var k :| RegularAt(Types(entries), k);
  }

  /** New info entries in front of the old rest, with the checksum filled in, are read back. */
  lemma StoredLength(g: Geometry, entries: seq<Entry>, i: Info)
    requires Stored(g, entries, i)
    ensures |entries| >= 3
  {
  }

  lemma FlushedIsStored(g: Geometry, entries: seq<Entry>, before: Info, meta1: Entry, meta2: Entry, i: Info)
    requires Stored(g, entries, before) && |entries| >= 2
    requires i.name == before.name && i.continuations == before.continuations
    requires Storable(g, i) && i == AsStored(i)
    requires Describes(meta1, meta2, i) && meta2[3] == entries[1][3]
    ensures Stored(g, Sealed([meta1, meta2] + entries[2..]), i)
  {
    hide CString, Units, NameEntries, Checksum, Le64, Le32, Regular;
    var fresher := [meta1, meta2] + entries[2..];
    var r := Sealed(fresher);
    SealedIsValid(fresher);
    SameLe16(r[0], meta1, 4);
    assert r[1] == r[1..][0] == meta2;
    assert r[2..] == r[1..][1..] == entries[2..];
    StoredDescribes(g, entries, before);
    forall j | 0 <= j < |r|
      ensures r[j][0] == entries[j][0]
    {
      assert j >= 2 ==> r[j] == r[2..][j - 2] && entries[j] == entries[2..][j - 2];
    }
    assert Types(r) == Types(entries);
    var m := 2 + NameEntries(entries[1][3]);
    assert r[2..m] == r[2..][..m - 2] == entries[2..][..m - 2] == entries[2..m];
  }

  /** exfat_flush_node: reads the set, checks it, and writes it back with the node's sizes,
      start, attributes and times. It never fails on a stored set, and the name stays. */
  method FlushNode(g: Geometry, entries: seq<Entry>, node: Info, m: Stamp, a: Stamp, ghost before: Info)
    returns (ok: bool, out: seq<Entry>)
    requires g.Valid() && Stored(g, entries, before)
    requires node.name == before.name && node.continuations == before.continuations
    requires Storable(g, node) && m.Valid() && a.Valid()
    ensures ok && Stored(g, out, AsStored(node))
    ensures Touched(out[0], m, a) && forall t: Stamp :: Created(out[0], t) == Created(entries[0], t)
    ensures |out| == |entries| >= 2 && Le16(out[1], 4) == Le16(entries[1], 4) && out[2..] == entries[2..]
  {
    hide Regular, CString, Units, NameEntries, Checksum, FlushedMeta2, Le64, Le32, PutChange, PutLe16, Created, Touched;
    StoredLength(g, entries, before);
    ok := CheckEntries(entries);
    if !ok {
      return false, entries;
    }
    StoredDescribes(g, entries, before);
    FitsWords(g, node);
    var meta1 := PutLe16(PutChange(entries[0], m, a), 4, node.attrib);
    var meta2 := FlushedMeta2(entries[1], node);
    out := [meta1, meta2] + entries[2..];
    var sum := CalcChecksum(out);
    FlushedIsStored(g, entries, before, meta1, meta2, AsStored(node));
    ChangedTimes(entries[0], PutChange(entries[0], m, a));
    SameTimes(meta1, PutChange(entries[0], m, a), 4, 6);
    SameTimes(PutLe16(meta1, 2, sum), meta1, 2, 4);
    out := out[0 := PutLe16(out[0], 2, sum)];
  }

  lemma ChangedTimes(e: Entry, r: Entry)
    requires SameOutside(r, e, 12, 25) && r[20] == e[20] && r[22] == e[22]
    ensures forall t: Stamp :: Created(r, t) == Created(e, t)
  {
  }

  lemma FitsWords(g: Geometry, i: Info)
    requires g.Valid() && Storable(g, i)
    ensures i.validSize < 0x1_0000_0000_0000_0000 && i.size < 0x1_0000_0000_0000_0000 && i.startCluster < 0x1_0000_0000
  {
  }

  lemma RenamedDescribes(meta1: Entry, meta2: Entry, i: Info, name: seq<nat>, hash: nat)
    requires Describes(meta1, meta2, i) && IsName(name) && hash < 0x1_0000
    ensures NameEntries(|name|) <= 17
    ensures var r1: Entry, r2: Entry := meta1[1 := 1 + NameEntries(|name|)], meta2[3 := |name|];
      && Describes(r1, PutLe16(r2, 4, hash), i.(name := name, continuations := 1 + NameEntries(|name|)))
      && PutLe16(r2, 4, hash)[3] == |name|
  {
    hide NameEntries, PutLe16;
    NameEntriesRange(|name|);
    var r1: Entry, r2: Entry := meta1[1 := 1 + NameEntries(|name|)], meta2[3 := |name|];
    var r3 := PutLe16(r2, 4, hash);
    assert SameOutside(r3, meta2, 3, 6);
    SameLe64(r3, meta2, 8, 3, 6);
    SameLe64(r3, meta2, 24, 3, 6);
    SameLe32(r3, meta2, 20, 3, 6);
  }

  /** rename_entry: the old info entries with the new name behind them. */
  method RenameEntry(g: Geometry, entries: seq<Entry>, name: seq<nat>, hash: nat, ghost before: Info)
    returns (out: seq<Entry>)
    requires Stored(g, entries, before) && IsName(name) && hash < 0x1_0000
    ensures Stored(g, out, before.(name := name, continuations := 1 + NameEntries(|name|)))
    ensures forall t: Stamp :: Created(out[0], t) == Created(entries[0], t)
    ensures forall m: Stamp, a: Stamp :: Touched(out[0], m, a) == Touched(entries[0], m, a)
    ensures |out| >= 2 && Le16(out[1], 4) == hash
  {
    hide CString, Units, NameEntries, Checksum, Le64, Le32, Le16, Spells, Stored, Describes, PutLe16, Created, Touched;
    NameEntriesRange(|name|);
    StoredDescribes(g, entries, before);
    var meta1: Entry := entries[0][1 := 1 + NameEntries(|name|)];
    var meta2: Entry := entries[1][3 := |name|];
    meta2 := PutLe16(meta2, 4, hash);
    RenamedDescribes(entries[0], entries[1], before, name, hash);
    var names := WriteName(name);
    out := [meta1, meta2] + names;
    var sum := CalcChecksum(out);
    AssembledIsStored(g, meta1, meta2, names, before.(name := name, continuations := 1 + NameEntries(|name|)));
    SameTimes(meta1, entries[0], 1, 2);
    SameTimes(PutLe16(meta1, 2, sum), meta1, 2, 4);
    out := out[0 := PutLe16(meta1, 2, sum)];
  }

  // ---- A file's whole life on disk.

  datatype Change =
    | Flush(node: Info, m: Stamp, a: Stamp)
    | Rename(name: seq<nat>, hash: nat)

  /** A flush stores what the node says, under the name it has; a rename changes the name. */
  function Changed(i: Info, c: Change): Info {
    match c
    case Flush(node, m, a) => AsStored(node.(name := i.name, continuations := i.continuations))
    case Rename(name, hash) => i.(name := name, continuations := 1 + NameEntries(|name|))
  }

  function AllChanged(i: Info, changes: seq<Change>): Info
    decreases |changes|
  {
    if changes == [] then i else AllChanged(Changed(i, changes[0]), changes[1..])
  }

  predicate MayChange(g: Geometry, c: Change) {
    match c
    case Flush(node, m, a) => Storable(g, node) && m.Valid() && a.Valid()
    case Rename(name, hash) => IsName(name) && hash < 0x1_0000
  }

  /** Whatever is flushed and however often the file is renamed, a reader finds the last name
      and the last sizes, start, attributes and contiguity. */
  method Live(g: Geometry, name: seq<nat>, hash: nat, attrib: nat, now: Stamp, changes: seq<Change>)
    returns (entries: seq<Entry>)
    requires g.Valid() && IsName(name) && hash < 0x1_0000 && attrib < 0x1_0000 && now.Valid()
    requires forall j :: 0 <= j < |changes| ==> MayChange(g, changes[j])
    ensures Stored(g, entries,
      AllChanged(Info(attrib, 1 + NameEntries(|name|), name, 0, 0, CLUSTER_FREE, false), changes))
  {
    hide Stored, NameEntries, Storable, IsName, AsStored;
    entries := CommitEntry(g, name, hash, attrib, now);
    var first := Info(attrib, 1 + NameEntries(|name|), name, 0, 0, CLUSTER_FREE, false);
    var info := first;
    var j := 0;
    while j < |changes|
      invariant j <= |changes| && Stored(g, entries, info)
      invariant AllChanged(first, changes) == AllChanged(info, changes[j..])
    {
      assert changes[j..][0] == changes[j] && changes[j..][1..] == changes[j + 1..];
      assert MayChange(g, changes[j]);
      match changes[j] {
        case Flush(node, m, a) =>
          var named := node.(name := info.name, continuations := info.continuations);
          SameStorable(g, node, named);
          var ok;
          ok, entries := FlushNode(g, entries, named, m, a, info);
        case Rename(newName, newHash) =>
          entries := RenameEntry(g, entries, newName, newHash, info);
      }
      info := Changed(info, changes[j]);
      j := j + 1;
    }
  }

  lemma SameStorable(g: Geometry, a: Info, b: Info)
    requires Storable(g, a) && b == a.(name := b.name, continuations := b.continuations)
    ensures Storable(g, b)
  {
  }

  /** The ownership invariant makes every node one that a reader accepts. That no file is larger
      than the heap needs that the clusters of its chain are distinct. */
  lemma OwnedIsStorable(v: Clusters.Volume, n: Clusters.Node, i: Info)
    requires v.Valid() && n in v.chains
    requires i.attrib < 0x1_0000 && i.size == n.size && i.validSize == n.validSize && i.startCluster == n.startCluster
    requires IsDir(i.attrib) ==> n.size % v.clusterSize == 0
    ensures Storable(Geometry(v.clusterSize, v.clusterCount), i)
  {
    var chain := v.chains[n];
    assert v.Recorded(n) && v.Sized(n);
    assert ValidChain(chain, v.clusterCount);
    Pigeonhole(chain, v.clusterCount);
    DivRoundUpBounds(n.size, v.clusterSize);
    MulMonotone(|chain|, v.clusterCount, v.clusterSize);
    if n.size == 0 {
      DivRoundUpZero(v.clusterSize);
    }
  }
}
