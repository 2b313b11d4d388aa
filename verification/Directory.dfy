/** A directory in the clusters of its node: what create, unlink, rename and flush write there,
    and what reading the directory back finds. */
module Directories {
  import opened Arith
  import opened Chain
  import opened Common
  import opened EntrySet
  import opened Format
  import opened Stores
  import ClusterBitmap
  import Clusters
  import FileBytes
  import Slots
  import Utf

  /** Entries of the root that describe no node. */
  predicate SystemType(t: Byte) {
    t == ENTRY_BITMAP || t == ENTRY_UPCASE || t == ENTRY_LABEL
  }

  /** The up-case table has this many bytes when nothing in it is compressed. */
  const UPCASE_BYTES := 0x2_0000

  /** Room for a label and its terminator. */
  const LABEL_ROOM := 3 * ENAME_MAX + 1

  /** The units of a label entry. */
  function Label(e: Entry): seq<Utf.Unit> {
    seq(ENAME_MAX, m requires 0 <= m < ENAME_MAX => Le16(e, 2 + 2 * m))
  }

  /** What readdir demands of an entry that describes no node. The up-case table is looked at
      only if there is none yet. */
  predicate SystemAccepted(g: Geometry, upcase: bool, e: Entry)
    requires SystemType(e[0])
  {
    if e[0] == ENTRY_UPCASE then
      upcase || (ValidCluster(g.clusterCount, Le32(e, 20)) && 0 < Le64(e, 24) <= UPCASE_BYTES && Le64(e, 24) % 2 == 0)
    else if e[0] == ENTRY_BITMAP then
      ValidCluster(g.clusterCount, Le32(e, 20)) && Le64(e, 24) >= DivRoundUp(g.clusterCount, 8)
    else e[1] <= ENAME_MAX && Utf.Utf8Of(Label(e), LABEL_ROOM).Ok?
  }

  /** Every system entry is one that readdir takes. */
  ghost predicate SystemSound(g: Geometry, upcase: bool, entries: seq<Entry>) {
    forall e :: 0 <= e < |entries| && SystemType(entries[e][0]) ==> SystemAccepted(g, upcase, entries[e])
  }

  /** A node as reading finds it: where its entry set starts, and what the set says. */
  datatype Found = Found(offset: nat, info: Info)

  // ---- Reading.

  /** What readdir finds from an offset on; None is a directory that cannot be read. */
  ghost function ReadFrom(g: Geometry, upcase: bool, entries: seq<Entry>, offset: nat): Option<seq<Found>>
    requires offset <= |entries|
    decreases |entries| - offset
  {
    if offset == |entries| then Some([])
    else
      var e := entries[offset];
      if e[0] == ENTRY_FILE then
        var n := 1 + e[1] as nat;
        if offset + n > |entries| then None
        else
          var parsed := Parsed(g, entries[offset..offset + n]);
          var rest := ReadFrom(g, upcase, entries, offset + n);
          if parsed.None? || rest.None? then None else Some([Found(offset, parsed.value)] + rest.value)
      else if SystemType(e[0]) then
        if SystemAccepted(g, upcase, e) then ReadFrom(g, upcase || e[0] == ENTRY_UPCASE, entries, offset + 1) else None
      else if e[0] < VALID then ReadFrom(g, upcase, entries, offset + 1)
      else None
  }

  /** readdir's checks of an entry that describes no node. */
  method CheckSystem(g: Geometry, upcase: bool, e: Entry) returns (ok: bool)
    requires SystemType(e[0])
    ensures ok == SystemAccepted(g, upcase, e)
  {
    if e[0] == ENTRY_UPCASE {
      if upcase {
        return true;
      }
      if !ValidCluster(g.clusterCount, Le32(e, 20)) {
        return false;
      }
      var size := Le64(e, 24);
      return !(size == 0 || size > UPCASE_BYTES || size % 2 != 0);
    }
    if e[0] == ENTRY_BITMAP {
      if !ValidCluster(g.clusterCount, Le32(e, 20)) {
        return false;
      }
      return !(Le64(e, 24) < DivRoundUp(g.clusterCount, 8));
    }
    if e[1] > ENAME_MAX {
      return false;
    }
    var text := Utf.Utf16ToUtf8(Label(e), LABEL_ROOM);
    return text.Ok?;
  }

  /** exfat_cache_directory. `upcase` says whether there is an up-case table, before and after. */
  method CacheDirectory(g: Geometry, upcase: bool, entries: seq<Entry>) returns (r: Option<seq<Found>>, upcase': bool)
    ensures r == ReadFrom(g, upcase, entries, 0)
    ensures r.Some? ==>
      (upcase' <==> upcase || HasUpcase(entries, 0))
  {
    hide Parsed, ReadFrom, SystemAccepted, HasUpcase;
    var list := [];
    var offset := 0;
    upcase' := upcase;
    ReadsNext(g, upcase, entries, 0);
    while offset < |entries|
      invariant offset <= |entries|
      invariant ReadFrom(g, upcase, entries, 0) == Prefixed(list, ReadFrom(g, upcase', entries, offset))
      invariant upcase' || HasUpcase(entries, offset) <==> upcase || HasUpcase(entries, 0)
      decreases |entries| - offset
    {
      ReadsNext(g, upcase', entries, offset);
      HasNext(entries, offset);
      var e := entries[offset];
      if e[0] == ENTRY_FILE {
        var n := 1 + e[1] as nat;
        if offset + n > |entries| {
          return None, upcase';
        }
        var parsed := ParseFileEntries(g, entries[offset..offset + n]);
        if parsed.None? {
          return None, upcase';
        }
        list := list + [Found(offset, parsed.value)];
        offset := offset + n;
      } else if SystemType(e[0]) {
        var ok := CheckSystem(g, upcase', e);
        if !ok {
          return None, upcase';
        }
        upcase' := upcase' || e[0] == ENTRY_UPCASE;
        offset := offset + 1;
      } else if e[0] < VALID {
        offset := offset + 1;
      } else {
        return None, upcase';
      }
    }
    ReadsNext(g, upcase', entries, offset);
    HasNext(entries, offset);
    assert list + [] == list;
    return Some(list), upcase';
  }

  /** The entries from an offset on have an up-case table among them, outside file sets. */
  ghost predicate HasUpcase(entries: seq<Entry>, offset: nat)
    requires offset <= |entries|
    decreases |entries| - offset
  {
    && offset < |entries|
    && var e := entries[offset];
    if e[0] == ENTRY_FILE then offset + 1 + e[1] as nat <= |entries| && HasUpcase(entries, offset + 1 + e[1] as nat)
    else e[0] == ENTRY_UPCASE || HasUpcase(entries, offset + 1)
  }

  lemma HasNext(entries: seq<Entry>, offset: nat)
    requires offset <= |entries|
    ensures offset == |entries| ==> !HasUpcase(entries, offset)
    ensures offset < |entries| ==>
      var e := entries[offset];
      if e[0] == ENTRY_FILE then
        offset + 1 + e[1] as nat <= |entries| ==> (HasUpcase(entries, offset) <==> HasUpcase(entries, offset + 1 + e[1] as nat))
      else HasUpcase(entries, offset) <==> e[0] == ENTRY_UPCASE || HasUpcase(entries, offset + 1)
  {
  }

  ghost function Prefixed(list: seq<Found>, rest: Option<seq<Found>>): Option<seq<Found>> {
    if rest.None? then None else Some(list + rest.value)
  }

  lemma ReadsNext(g: Geometry, upcase: bool, entries: seq<Entry>, offset: nat)
    requires offset <= |entries|
    ensures offset == |entries| ==> ReadFrom(g, upcase, entries, offset) == Some([])
    ensures offset == 0 ==> ReadFrom(g, upcase, entries, 0) == Prefixed([], ReadFrom(g, upcase, entries, 0))
    ensures offset < |entries| ==>
      var e := entries[offset]; var n := 1 + e[1] as nat;
      if e[0] == ENTRY_FILE then
        if offset + n > |entries| then ReadFrom(g, upcase, entries, offset) == None
        else
          && (forall list: seq<Found> :: var p := Parsed(g, entries[offset..offset + n]);
                Prefixed(list, ReadFrom(g, upcase, entries, offset))
                == if p.None? then None else Prefixed(list + [Found(offset, p.value)], ReadFrom(g, upcase, entries, offset + n)))
          && (Parsed(g, entries[offset..offset + n]).None? ==> ReadFrom(g, upcase, entries, offset) == None)
      else if SystemType(e[0]) then
        ReadFrom(g, upcase, entries, offset) ==
          if SystemAccepted(g, upcase, e) then ReadFrom(g, upcase || e[0] == ENTRY_UPCASE, entries, offset + 1) else None
      else if e[0] < VALID then ReadFrom(g, upcase, entries, offset) == ReadFrom(g, upcase, entries, offset + 1)
      else ReadFrom(g, upcase, entries, offset) == None
  {
    hide Parsed, SystemAccepted;
    if ReadFrom(g, upcase, entries, offset).Some? {
      assert [] + ReadFrom(g, upcase, entries, offset).value == ReadFrom(g, upcase, entries, offset).value;
    }
    if offset < |entries| && entries[offset][0] == ENTRY_FILE && offset + 1 + entries[offset][1] as nat <= |entries| {
      var n := 1 + entries[offset][1] as nat;
      var p, rest := Parsed(g, entries[offset..offset + n]), ReadFrom(g, upcase, entries, offset + n);
      if p.Some? && rest.Some? {
        forall list: seq<Found>
          ensures list + ([Found(offset, p.value)] + rest.value) == (list + [Found(offset, p.value)]) + rest.value
        {
        }
      }
    }
  }

  // ---- What is on disk for a list of children.

  /** The set of the i-th child is where the child says, and says what the child is. */
  ghost predicate SetOnDisk(g: Geometry, entries: seq<Entry>, k: Slots.Kid, i: Info) {
    && Slots.End(k) <= |entries|
    && Stored(g, entries[k.offset..Slots.End(k)], i)
    && k.continuations == i.continuations && k.nameLength == |i.name|
  }

  /** Entry sets for all children, and nothing else in use but system entries. */
  ghost predicate Image(g: Geometry, kids: seq<Slots.Kid>, infos: seq<Info>, entries: seq<Entry>) {
    && |infos| == |kids| && Slots.Disjoint(kids)
    && (forall i :: 0 <= i < |kids| ==> SetOnDisk(g, entries, kids[i], infos[i]))
    && (forall e :: 0 <= e < |entries| && entries[e][0] >= VALID && !Slots.Taken(kids, e) ==> SystemType(entries[e][0]))
  }

  /** What reading finds is exactly the children from this offset on, in the order of their
      places. */
  ghost predicate Lists(kids: seq<Slots.Kid>, infos: seq<Info>, from: nat, found: seq<Found>)
    requires |infos| == |kids|
  {
    && (forall i, j :: 0 <= i < j < |found| ==> found[i].offset < found[j].offset)
    && (forall i :: 0 <= i < |kids| && kids[i].offset >= from ==> Found(kids[i].offset, infos[i]) in found)
    && (forall f :: f in found ==> f.offset >= from && Among(kids, infos, f))
  }

  ghost predicate Among(kids: seq<Slots.Kid>, infos: seq<Info>, f: Found)
    requires |infos| == |kids|
  {
    exists i :: 0 <= i < |kids| && f == Found(kids[i].offset, infos[i])
  }

  lemma StoredShape(g: Geometry, set_: seq<Entry>, i: Info)
    requires Stored(g, set_, i)
    ensures |set_| == 1 + i.continuations && set_[0][0] == ENTRY_FILE && set_[0][1] as nat == i.continuations
    ensures forall e :: 0 <= e < |set_| ==> set_[e][0] >= VALID && !SystemType(set_[e][0])
    ensures Parsed(g, set_) == Some(i)
  {
  }

  /** No entry set reaches across this place. */
  ghost predicate Between(kids: seq<Slots.Kid>, at: nat) {
    forall i :: 0 <= i < |kids| && kids[i].offset < at ==> Slots.End(kids[i]) <= at
  }

  /** A set is read, and then the rest. */
  lemma ReadsSet(g: Geometry, upcase: bool, kids: seq<Slots.Kid>, infos: seq<Info>, entries: seq<Entry>, i: nat)
    requires Image(g, kids, infos, entries) && i < |kids| && Slots.End(kids[i]) <= |entries|
    requires ReadFrom(g, upcase, entries, Slots.End(kids[i])).Some?
    requires Lists(kids, infos, Slots.End(kids[i]), ReadFrom(g, upcase, entries, Slots.End(kids[i])).value)
    ensures kids[i].offset < |entries| && ReadFrom(g, upcase, entries, kids[i].offset).Some?
    ensures Lists(kids, infos, kids[i].offset, ReadFrom(g, upcase, entries, kids[i].offset).value)
  {
    hide Stored, Parsed, Slots.Disjoint, SystemAccepted, Lists;
    assert SetOnDisk(g, entries, kids[i], infos[i]);
    SetParsed(g, entries, kids[i], infos[i]);
    PastSet(g, kids, infos, entries, i);
    ListsOneMore(kids, infos, i, ReadFrom(g, upcase, entries, Slots.End(kids[i])).value);
  }

  /** An entry of no set is passed over. */
  lemma ReadsOther(g: Geometry, upcase: bool, kids: seq<Slots.Kid>, infos: seq<Info>, entries: seq<Entry>, from: nat)
    requires Image(g, kids, infos, entries) && SystemSound(g, upcase, entries) && from < |entries| && !Slots.Taken(kids, from)
    ensures ReadFrom(g, upcase, entries, from) == ReadFrom(g, upcase || entries[from][0] == ENTRY_UPCASE, entries, from + 1)
  {
    hide Parsed, SystemAccepted, Slots.Taken, SetOnDisk, Slots.Disjoint, SystemSound;
    if SystemType(entries[from][0]) {
      SoundAt(g, upcase, entries, from);
    }
  }

  lemma ListsFromNext(kids: seq<Slots.Kid>, infos: seq<Info>, from: nat, found: seq<Found>)
    requires |infos| == |kids| && Lists(kids, infos, from + 1, found) && forall i :: 0 <= i < |kids| ==> kids[i].offset != from
    ensures Lists(kids, infos, from, found)
  {
  }

  lemma NothingBehind(g: Geometry, kids: seq<Slots.Kid>, infos: seq<Info>, entries: seq<Entry>)
    requires Image(g, kids, infos, entries)
    ensures |infos| == |kids| && Lists(kids, infos, |entries|, [])
  {
    hide Stored, Slots.Disjoint;
    assert forall i :: 0 <= i < |kids| ==> SetOnDisk(g, entries, kids[i], infos[i]);
  }

  /** Reading from a place between entry sets finds exactly the children behind it. */
  lemma {:induction false} ReadsBack(g: Geometry, upcase: bool, kids: seq<Slots.Kid>, infos: seq<Info>, entries: seq<Entry>, from: nat)
    requires Image(g, kids, infos, entries) && SystemSound(g, upcase, entries) && from <= |entries| && Between(kids, from)
    ensures |infos| == |kids|
    ensures ReadFrom(g, upcase, entries, from).Some? && Lists(kids, infos, from, ReadFrom(g, upcase, entries, from).value)
    decreases |entries| - from
  {
    hide Image, ReadFrom, Lists, Between, SystemSound;
    NothingBehind(g, kids, infos, entries);
    ReadsNext(g, upcase, entries, from);
    if from == |entries| {
    } else if i :| 0 <= i < |kids| && kids[i].offset == from {
      PastSet(g, kids, infos, entries, i);
      ReadsBack(g, upcase, kids, infos, entries, Slots.End(kids[i]));
      ReadsSet(g, upcase, kids, infos, entries, i);
    } else {
      NotTaken(kids, from);
      var upcase' := upcase || entries[from][0] == ENTRY_UPCASE;
      SoundLater(g, upcase, upcase', entries);
      ReadsOther(g, upcase, kids, infos, entries, from);
      ReadsBack(g, upcase', kids, infos, entries, from + 1);
      ListsFromNext(kids, infos, from, ReadFrom(g, upcase', entries, from + 1).value);
    }
  }

  lemma SoundAt(g: Geometry, upcase: bool, entries: seq<Entry>, e: nat)
    requires SystemSound(g, upcase, entries) && e < |entries| && SystemType(entries[e][0])
    ensures SystemAccepted(g, upcase, entries[e])
  {
  }

  /** With an up-case table at hand no less is accepted. */
  lemma SoundLater(g: Geometry, upcase: bool, upcase': bool, entries: seq<Entry>)
    requires SystemSound(g, upcase, entries) && (upcase ==> upcase')
    ensures SystemSound(g, upcase', entries)
  {
    forall e | 0 <= e < |entries| && SystemType(entries[e][0])
      ensures SystemAccepted(g, upcase', entries[e])
    {
      assert SystemAccepted(g, upcase, entries[e]);
    }
  }

  lemma SetParsed(g: Geometry, entries: seq<Entry>, k: Slots.Kid, i: Info)
    requires SetOnDisk(g, entries, k, i)
    ensures entries[k.offset][0] == ENTRY_FILE && 1 + entries[k.offset][1] as nat == 1 + k.continuations
    ensures Parsed(g, entries[k.offset..Slots.End(k)]) == Some(i)
  {
    hide Parsed;
    StoredShape(g, entries[k.offset..Slots.End(k)], i);
  }

  lemma PastSet(g: Geometry, kids: seq<Slots.Kid>, infos: seq<Info>, entries: seq<Entry>, i: nat)
    requires Image(g, kids, infos, entries) && i < |kids|
    ensures Slots.End(kids[i]) <= |entries| && Between(kids, Slots.End(kids[i]))
    ensures forall j :: 0 <= j < |kids| && kids[j].offset >= kids[i].offset && j != i ==> kids[j].offset >= Slots.End(kids[i])
  {
    hide Stored;
    assert SetOnDisk(g, entries, kids[i], infos[i]);
    forall j | 0 <= j < |kids| && j != i
      ensures Slots.Apart(kids[j], kids[i])
    {
      assert if i < j then Slots.Apart(kids[i], kids[j]) else Slots.Apart(kids[j], kids[i]);
    }
  }

  lemma NotTaken(kids: seq<Slots.Kid>, at: nat)
    requires Between(kids, at) && forall i :: 0 <= i < |kids| ==> kids[i].offset != at
    ensures !Slots.Taken(kids, at) && Between(kids, at + 1)
  {
  }

  lemma ListsOneMore(kids: seq<Slots.Kid>, infos: seq<Info>, i: nat, rest: seq<Found>)
    requires |infos| == |kids| && i < |kids| && Lists(kids, infos, Slots.End(kids[i]), rest)
    requires forall j :: 0 <= j < |kids| && kids[j].offset >= kids[i].offset && j != i ==> kids[j].offset >= Slots.End(kids[i])
    ensures Lists(kids, infos, kids[i].offset, [Found(kids[i].offset, infos[i])] + rest)
  {
    var f := Found(kids[i].offset, infos[i]);
    var all := [f] + rest;
    assert Among(kids, infos, f);
    assert forall m :: 0 < m < |all| ==> all[m] == rest[m - 1] && all[m] in rest;
    forall j | 0 <= j < |kids| && kids[j].offset >= kids[i].offset
      ensures Found(kids[j].offset, infos[j]) in all
    {
      if j == i {
        assert all[0] == f;
      } else {
        assert Found(kids[j].offset, infos[j]) in rest;
      }
    }
  }

  // ---- What each change keeps.

  /** erase_entries: the in-use bits go. */
  function EraseEntry(e: Entry): (r: Entry)
    ensures r[0] < VALID
  {
    e[0 := Slots.EraseType(e[0])]
  }

  function EraseSet(entries: seq<Entry>, k: Slots.Kid): (r: seq<Entry>)
    ensures |r| == |entries|
    ensures forall e :: 0 <= e < |entries| ==> r[e] == if Slots.Covers(k, e) then EraseEntry(entries[e]) else entries[e]
  {
    seq(|entries|, e requires 0 <= e < |entries| => if Slots.Covers(k, e) then EraseEntry(entries[e]) else entries[e])
  }

  /** erase_entries: a set is read, its in-use bits go, and it is written again. */
  function ErasedEntries(set_: seq<Entry>): (r: seq<Entry>)
    ensures |r| == |set_| && forall e :: 0 <= e < |set_| ==> r[e] == EraseEntry(set_[e])
  {
    seq(|set_|, e requires 0 <= e < |set_| => EraseEntry(set_[e]))
  }

  lemma EraseIsPut(entries: seq<Entry>, k: Slots.Kid)
    requires Slots.End(k) <= |entries|
    ensures Put(entries, k.offset, ErasedEntries(entries[k.offset..Slots.End(k)])) == EraseSet(entries, k)
  {
  }

  /** A set none of whose entries changed. */
  lemma SetKept(g: Geometry, before: seq<Entry>, after: seq<Entry>, k: Slots.Kid, i: Info)
    requires SetOnDisk(g, before, k, i) && Slots.End(k) <= |after|
    requires forall e :: k.offset <= e < Slots.End(k) ==> after[e] == before[e]
    ensures SetOnDisk(g, after, k, i)
  {
    hide Stored;
    assert after[k.offset..Slots.End(k)] == before[k.offset..Slots.End(k)];
  }

  lemma PutIsThere(entries: seq<Entry>, at: nat, set_: seq<Entry>)
    requires at + |set_| <= |entries|
    ensures Put(entries, at, set_)[at..at + |set_|] == set_
  {
  }

  /** A set laid on free entries is apart from the others. */
  lemma LaidApart(kids: seq<Slots.Kid>, k: Slots.Kid)
    requires Slots.Disjoint(kids) && forall e :: k.offset <= e < Slots.End(k) ==> !Slots.Taken(kids, e)
    ensures forall m :: 0 <= m < |kids| ==> Slots.Apart(k, kids[m])
    ensures Slots.Disjoint([k] + kids)
  {
    hide Slots.Taken;
    forall m | 0 <= m < |kids|
      ensures Slots.Apart(k, kids[m])
    {
      Slots.FreeIsApart(kids, k, m);
    }
  }

  /** A set written on free entries. */
  lemma CommitKeepsImage(g: Geometry, kids: seq<Slots.Kid>, infos: seq<Info>, entries: seq<Entry>,
                         k: Slots.Kid, i: Info, set_: seq<Entry>)
    requires Image(g, kids, infos, entries) && Stored(g, set_, i)
    requires k.continuations == i.continuations && k.nameLength == |i.name| && Slots.End(k) <= |entries|
    requires forall e :: k.offset <= e < Slots.End(k) ==> !Slots.Taken(kids, e)
    ensures k.offset + |set_| == Slots.End(k)
    ensures Image(g, [k] + kids, [i] + infos, Put(entries, k.offset, set_))
  {
    hide Stored, Slots.Taken, Slots.Disjoint, Put;
    StoredShape(g, set_, i);
    PutIsThere(entries, k.offset, set_);
    LaidApart(kids, k);
    var after, all, says := Put(entries, k.offset, set_), [k] + kids, [i] + infos;
    assert SetOnDisk(g, after, k, i);
    forall m | 0 <= m < |kids|
      ensures SetOnDisk(g, after, kids[m], infos[m])
    {
      SetKept(g, entries, after, kids[m], infos[m]);
    }
    forall e | 0 <= e < |after| && after[e][0] >= VALID && !Slots.Taken(all, e)
      ensures SystemType(after[e][0])
    {
      Slots.TakenHead(k, kids, e);
    }
  }

  /** A set erased. */
  lemma EraseKeepsImage(g: Geometry, kids: seq<Slots.Kid>, infos: seq<Info>, entries: seq<Entry>, j: nat)
    requires Image(g, kids, infos, entries) && j < |kids|
    ensures Image(g, Without(kids, j), Without(infos, j), EraseSet(entries, kids[j]))
  {
    hide Stored, Slots.Taken, Slots.Disjoint;
    var after, rest, says := EraseSet(entries, kids[j]), Without(kids, j), Without(infos, j);
    OthersApart(kids, j);
    forall m | 0 <= m < |rest|
      ensures SetOnDisk(g, after, rest[m], says[m])
    {
      var o := if m < j then m else m + 1;
      assert rest[m] == kids[o] && says[m] == infos[o] && SetOnDisk(g, entries, kids[o], infos[o]);
      SetKept(g, entries, after, kids[o], infos[o]);
    }
    forall e | 0 <= e < |after| && after[e][0] >= VALID && !Slots.Taken(rest, e)
      ensures SystemType(after[e][0])
    {
      TakenWithout(kids, j, e);
    }
  }

  lemma OthersApart(kids: seq<Slots.Kid>, j: nat)
    requires Slots.Disjoint(kids) && j < |kids|
    ensures Slots.Disjoint(Without(kids, j))
    ensures forall m :: 0 <= m < |kids| - 1 ==> Slots.Apart(Without(kids, j)[m], kids[j])
  {
    forall m | 0 <= m < |kids| - 1
      ensures Without(kids, j)[m] == kids[if m < j then m else m + 1]
    {
    }
  }

  lemma TakenWithout(kids: seq<Slots.Kid>, j: nat, e: nat)
    requires j < |kids|
    ensures Slots.Taken(kids, e) && !Slots.Covers(kids[j], e) ==> Slots.Taken(Without(kids, j), e)
  {
    if Slots.Taken(kids, e) && !Slots.Covers(kids[j], e) {
      var i :| 0 <= i < |kids| && Slots.Covers(kids[i], e);
      assert Without(kids, j)[if i < j then i else i - 1] == kids[i];
    }
  }

  /** A set rewritten in place. */
  lemma FlushKeepsImage(g: Geometry, kids: seq<Slots.Kid>, infos: seq<Info>, entries: seq<Entry>, j: nat, i: Info, set_: seq<Entry>)
    requires Image(g, kids, infos, entries) && j < |kids| && Stored(g, set_, i)
    requires i.continuations == infos[j].continuations && |i.name| == |infos[j].name|
    ensures Slots.End(kids[j]) <= |entries| && kids[j].offset + |set_| == Slots.End(kids[j])
    ensures Image(g, kids, infos[j := i], Put(entries, kids[j].offset, set_))
  {
    hide Stored, Slots.Disjoint, Slots.Taken;
    assert SetOnDisk(g, entries, kids[j], infos[j]);
    StoredShape(g, set_, i);
    PutIsThere(entries, kids[j].offset, set_);
    PastSet(g, kids, infos, entries, j);
    var after := Put(entries, kids[j].offset, set_);
    forall m | 0 <= m < |kids|
      ensures SetOnDisk(g, after, kids[m], infos[j := i][m])
    {
      if m != j {
        AnyTwoApart(kids, m, j);
        assert SetOnDisk(g, entries, kids[m], infos[m]);
        SetKept(g, entries, after, kids[m], infos[m]);
      }
    }
    forall e | 0 <= e < |after| && after[e][0] >= VALID && !Slots.Taken(kids, e)
      ensures SystemType(after[e][0])
    {
      CoveredIsTaken(kids, j, e);
    }
  }

  lemma AnyTwoApart(kids: seq<Slots.Kid>, a: nat, b: nat)
    requires Slots.Disjoint(kids) && a < |kids| && b < |kids| && a != b
    ensures Slots.Apart(kids[a], kids[b])
  {
    assert if a < b then Slots.Apart(kids[a], kids[b]) else Slots.Apart(kids[b], kids[a]);
  }

  lemma CoveredIsTaken(kids: seq<Slots.Kid>, j: nat, e: nat)
    requires j < |kids|
    ensures Slots.Covers(kids[j], e) ==> Slots.Taken(kids, e)
  {
  }

  /** The directory cut or lengthened, all sets staying inside. */
  lemma ResizeKeepsImage(g: Geometry, kids: seq<Slots.Kid>, infos: seq<Info>, before: seq<Entry>, after: seq<Entry>)
    requires Image(g, kids, infos, before) && Slots.Inside(kids, |after|)
    requires forall e :: 0 <= e < |after| ==> after[e] == if e < |before| then before[e] else ZERO_ENTRY
    ensures Image(g, kids, infos, after)
  {
    hide Stored, Slots.Disjoint, Slots.Taken;
    forall m | 0 <= m < |kids|
      ensures SetOnDisk(g, after, kids[m], infos[m])
    {
      assert SetOnDisk(g, before, kids[m], infos[m]);
      SetKept(g, before, after, kids[m], infos[m]);
    }
  }

  /** File sets have no system entries: neither writing nor erasing one makes one. */
  lemma SoundKept(g: Geometry, upcase: bool, entries: seq<Entry>, at: nat, set_: seq<Entry>)
    requires SystemSound(g, upcase, entries) && at + |set_| <= |entries|
    requires forall e :: 0 <= e < |set_| ==> !SystemType(set_[e][0])
    ensures SystemSound(g, upcase, Put(entries, at, set_))
  {
    hide SystemAccepted, Put;
  }

  lemma SoundResized(g: Geometry, upcase: bool, entries: seq<Entry>, n: nat)
    requires SystemSound(g, upcase, entries)
    ensures SystemSound(g, upcase, ToLength(entries, n))
  {
    hide SystemAccepted, ToLength;
  }

  lemma SoundErased(g: Geometry, upcase: bool, entries: seq<Entry>, k: Slots.Kid)
    requires SystemSound(g, upcase, entries)
    ensures SystemSound(g, upcase, EraseSet(entries, k))
  {
    hide SystemAccepted, EraseSet, EraseEntry;
  }

  /** What one directory goes through. */
  datatype Change =
    | Make(name: seq<nat>, hash: nat, attrib: nat, now: Stamp)
    | Unlink(j: nat)
    | Retitle(j: nat, name: seq<nat>, hash: nat)
    | Flush(j: nat, node: Info, m: Stamp, a: Stamp)

  predicate MayAsk(g: Geometry, c: Change) {
    match c
    case Make(name, hash, attrib, now) => IsName(name) && hash < 0x1_0000 && attrib < 0x1_0000 && now.Valid()
    case Unlink(j) => true
    case Retitle(j, name, hash) => IsName(name) && hash < 0x1_0000
    case Flush(j, node, m, a) => Storable(g, node) && m.Valid() && a.Valid()
  }

  /** The children after a change that was made. */
  function After(infos: seq<Info>, c: Change): seq<Info> {
    match c
    case Make(name, hash, attrib, now) => [NewInfo(name, attrib)] + infos
    case Unlink(j) => if j < |infos| then Without(infos, j) else infos
    case Retitle(j, name, hash) => if j < |infos| then [Retitled(infos[j], name)] + Without(infos, j) else infos
    case Flush(j, node, m, a) => if j < |infos| then infos[j := AsStored(Named(node, infos[j]))] else infos
  }

  /** A node's state under the name it has. */
  function Named(node: Info, i: Info): Info {
    node.(name := i.name, continuations := i.continuations)
  }

  function AllAfter(infos: seq<Info>, changes: seq<Change>, oks: seq<bool>): seq<Info>
    requires |oks| == |changes|
  {
    if changes == [] then infos
    else
      var last := |changes| - 1;
      var before := AllAfter(infos, changes[..last], oks[..last]);
      if oks[last] then After(before, changes[last]) else before
  }

  /** The entries in use in one place are in use in the other. */
  ghost predicate SameUse(types: seq<Byte>, entries: seq<Entry>) {
    |types| == |entries| && forall e :: 0 <= e < |types| ==> (types[e] >= VALID <==> entries[e][0] >= VALID)
  }

  /** A directory and the free clusters of its volume, as values. */
  datatype State = State(kids: seq<Slots.Kid>, types: seq<Byte>, infos: seq<Info>, free: nat)

  /** No slot for a name of this length, and no space to make one. */
  ghost predicate NoSlot(root: bool, perCluster: nat, s: State, length: nat)
    requires perCluster > 0
  {
    Slots.NoRoom(root, s.kids, s.types, Slots.SetLength(length), perCluster, s.free)
  }

  /** A set for a name of this length takes the slot that find_slot chooses in `s`, the sets
      `rest` being there and the entries of `gone` erased in between. */
  ghost predicate Lays(root: bool, perCluster: nat, s: State, rest: seq<Slots.Kid>, gone: Option<Slots.Kid>, length: nat, s': State)
    requires perCluster > 0
  {
    exists o: nat, grown: seq<Byte> ::
      && Slots.Chosen(root, s.kids, s.types, Slots.SetLength(length), perCluster, o, grown)
      && o + Slots.SetLength(length) <= |grown|
      && s'.kids == [Slots.NewKid(o, length)] + rest
      && s'.types == Slots.Overwritten(if gone.Some? then Slots.Erased(grown, gone.value) else grown, o, Slots.SetTypes(length))
  }

  /** One change: when it is made, and what it makes of the directory. */
  ghost predicate Steps(root: bool, perCluster: nat, s: State, c: Change, ok: bool, s': State)
    requires perCluster > 0
  {
    && (!ok ==> s' == s)
    && (ok ==>
          && s'.infos == After(s.infos, c)
          && Slots.Room(s'.free, |s'.types|, perCluster) == Slots.Room(s.free, |s.types|, perCluster))
    && match c
       case Make(name, _, _, _) =>
         && (ok <==> !NoSlot(root, perCluster, s, |name|))
         && (ok ==> Lays(root, perCluster, s, s.kids, None, |name|, s'))
       case Unlink(j) =>
         && (ok <==> j < |s.kids|)
         && (ok ==>
               && s'.kids == Without(s.kids, j)
               && s'.types == Slots.Shrunk(Slots.Erased(s.types, s.kids[j]), s'.kids, s.kids[j].offset, perCluster))
       case Retitle(j, name, _) =>
         && (ok <==> j < |s.kids| && !NoSlot(root, perCluster, s, |name|))
         && (ok ==> Lays(root, perCluster, s, Without(s.kids, j), Some(s.kids[j]), |name|, s'))
       case Flush(j, _, _, _) =>
         && (ok <==> j < |s.kids|)
         && (ok ==> s'.kids == s.kids && s'.types == s.types)
  }

  lemma LaysNow(root: bool, perCluster: nat, s: State, rest: seq<Slots.Kid>, gone: Option<Slots.Kid>, length: nat,
                o: nat, grown: seq<Byte>, s': State)
    requires perCluster > 0 && Slots.Chosen(root, s.kids, s.types, Slots.SetLength(length), perCluster, o, grown)
    requires o + Slots.SetLength(length) <= |grown| && s'.kids == [Slots.NewKid(o, length)] + rest
    requires s'.types == Slots.Overwritten(if gone.Some? then Slots.Erased(grown, gone.value) else grown, o, Slots.SetTypes(length))
    ensures Lays(root, perCluster, s, rest, gone, length, s')
  {
  }

  lemma LaysOnce(root: bool, perCluster: nat, s: State, rest: seq<Slots.Kid>, gone: Option<Slots.Kid>, length: nat, a: State, b: State)
    requires perCluster > 0 && Lays(root, perCluster, s, rest, gone, length, a) && Lays(root, perCluster, s, rest, gone, length, b)
    ensures a.kids == b.kids && a.types == b.types
  {
    hide Slots.Chosen, Slots.Overwritten, Slots.Erased, Slots.SetLength, Slots.SetTypes;
    var n := Slots.SetLength(length);
    var o: nat, grown: seq<Byte> :| && Slots.Chosen(root, s.kids, s.types, n, perCluster, o, grown) && o + n <= |grown|
      && a.kids == [Slots.NewKid(o, length)] + rest
      && a.types == Slots.Overwritten(if gone.Some? then Slots.Erased(grown, gone.value) else grown, o, Slots.SetTypes(length));
    var o': nat, grown': seq<Byte> :| && Slots.Chosen(root, s.kids, s.types, n, perCluster, o', grown') && o' + n <= |grown'|
      && b.kids == [Slots.NewKid(o', length)] + rest
      && b.types == Slots.Overwritten(if gone.Some? then Slots.Erased(grown', gone.value) else grown', o', Slots.SetTypes(length));
    Slots.ChosenOnce(root, s.kids, s.types, n, perCluster, o, grown, o', grown');
  }

  lemma StepInfos(root: bool, perCluster: nat, s: State, c: Change, ok: bool, s': State)
    requires perCluster > 0 && Steps(root, perCluster, s, c, ok, s')
    ensures s'.infos == if ok then After(s.infos, c) else s.infos
  {
  }

  /** A change has one outcome. */
  lemma StepsOnce(root: bool, perCluster: nat, s: State, c: Change, ok: bool, a: State, ok': bool, b: State)
    requires perCluster > 0 && Steps(root, perCluster, s, c, ok, a) && Steps(root, perCluster, s, c, ok', b)
    ensures ok == ok' && a == b
  {
    hide Lays, NoSlot, After, Without, Slots.Shrunk, Slots.Erased, Quotient;
    if ok {
      match c {
        case Make(name, _, _, _) => LaysOnce(root, perCluster, s, s.kids, None, |name|, a, b);
        case Retitle(j, name, _) => LaysOnce(root, perCluster, s, Without(s.kids, j), Some(s.kids[j]), |name|, a, b);
        case _ =>
      }
    }
  }

  /** The states of a run, one after the other. */
  ghost predicate Runs(root: bool, perCluster: nat, trace: seq<State>, changes: seq<Change>, oks: seq<bool>)
    requires perCluster > 0
  {
    && |trace| == |changes| + 1 && |oks| == |changes|
    && forall k :: 0 <= k < |changes| ==> Steps(root, perCluster, trace[k], changes[k], oks[k], trace[k + 1])
  }

  /** The answers of a run and the states it goes through are those of the changes alone. */
  lemma {:induction false} RunsOnce(root: bool, perCluster: nat, trace: seq<State>, changes: seq<Change>, oks: seq<bool>,
                                    trace': seq<State>, oks': seq<bool>, k: nat)
    requires perCluster > 0 && Runs(root, perCluster, trace, changes, oks) && Runs(root, perCluster, trace', changes, oks')
    requires trace[0] == trace'[0] && k <= |changes|
    ensures trace[k] == trace'[k] && (k < |changes| ==> oks[k] == oks'[k])
  {
    hide Steps;
    if k > 0 {
      RunsOnce(root, perCluster, trace, changes, oks, trace', oks', k - 1);
      StepsOnce(root, perCluster, trace[k - 1], changes[k - 1], oks[k - 1], trace[k], oks'[k - 1], trace'[k]);
    }
    if k < |changes| {
      StepsOnce(root, perCluster, trace[k], changes[k], oks[k], trace[k + 1], oks'[k], trace'[k + 1]);
    }
  }

  /** A directory's size in whole clusters. */
  lemma WholeEntries(n: nat, perCluster: nat)
    requires perCluster > 0 && n % perCluster == 0
    ensures DivRoundUp(ENTRY_SIZE * n, ENTRY_SIZE * perCluster) == Quotient(n, perCluster)
  {
    var q := n / perCluster;
    DivModUnique(n, perCluster, q);
    assert ENTRY_SIZE * n == q * (ENTRY_SIZE * perCluster);
    DivRoundUpUnique(ENTRY_SIZE * n, ENTRY_SIZE * perCluster, q);
  }

  class DirectoryFile {
    const g: Geometry
    /** the places of the entry sets */
    const slots: Slots.Directory
    /** the clusters of the directory, on the volume */
    const store: Store
    /** whether the volume has its up-case table when the directory is read */
    const upcase: bool
    /** what each child is: the nodes in memory */
    var infos: seq<Info>
    /** the entries on the volume */
    ghost var entries: seq<Entry>

    /** The node's content is the entries, and the volume has the directory's cluster size. */
    ghost predicate Backed()
      reads this`entries, store.vol, store.vol.bitmap, store.vol.fat, store.vol.heap, store.vol.chains.Keys, store.node
    {
      && store.Holds(entries)
      && store.vol.clusterSize == ENTRY_SIZE * slots.perCluster && slots.perCluster > 0
      && g == Geometry(store.vol.clusterSize, store.vol.clusterCount)
    }

    ghost predicate Valid()
      reads this, slots, store.vol, store.vol.bitmap, store.vol.fat, store.vol.heap, store.vol.chains.Keys, store.node
    {
      Imaged() && Backed()
    }

    /** The entries have the sets of the children, where the children say. */
    ghost predicate Imaged()
      reads this, slots
    {
      && g.Valid() && slots.Valid() && Slots.AllSnug(slots.kids, slots.perCluster)
      && SameUse(slots.types, entries) && Image(g, slots.kids, infos, entries) && SystemSound(g, upcase, entries)
    }

    /** A directory without children; the root may have its system entries. */
    constructor (g: Geometry, upcase: bool, slots: Slots.Directory, store: Store, ghost entries: seq<Entry>)
      requires g.Valid() && slots.Valid() && slots.kids == [] && SameUse(slots.types, entries)
      requires forall e :: 0 <= e < |entries| && entries[e][0] >= VALID ==> SystemType(entries[e][0])
      requires SystemSound(g, upcase, entries)
      requires store.Holds(entries) && store.vol.clusterSize == ENTRY_SIZE * slots.perCluster
      requires g == Geometry(store.vol.clusterSize, store.vol.clusterCount)
      ensures Valid() && this.slots == slots && this.store == store && this.entries == entries && infos == []
      ensures this.upcase == upcase
    {
      this.upcase := upcase;
      this.g, this.slots, this.store, this.entries, this.infos := g, slots, store, entries, [];
    }

    ghost function Snapshot(): State
      requires store.vol.Shape()
      reads this`infos, slots, store.vol, store.vol.bitmap
    {
      State(slots.kids, slots.types, infos, store.Free())
    }

    /** No cluster has come or gone since so many were free and the directory had so many entries. */
    ghost predicate RoomIs(free: nat, size: nat)
      reads slots, store.vol, store.vol.bitmap
    {
      && store.vol.Shape() && slots.perCluster > 0
      && Slots.Room(store.Free(), |slots.types|, slots.perCluster) == Slots.Room(free, size, slots.perCluster)
    }

    lemma BackedFacts()
      requires Backed()
      ensures store.Holds(entries) && store.vol.Shape() && store.node in store.vol.chains
      ensures store.node.size == ENTRY_SIZE * |entries|
      ensures store.vol.clusterSize == ENTRY_SIZE * slots.perCluster && g == Geometry(store.vol.clusterSize, store.vol.clusterCount)
    {
    }

    lemma SlotFacts()
      requires slots.Valid()
      ensures |slots.types| > 0 && slots.perCluster > 0 && |slots.types| % slots.perCluster == 0
      ensures Slots.Inside(slots.kids, |slots.types|)
    {
    }

    lemma StillBacked()
      requires store.Holds(entries) && store.vol.clusterSize == ENTRY_SIZE * slots.perCluster && slots.perCluster > 0
      requires g == Geometry(store.vol.clusterSize, store.vol.clusterCount)
      ensures Backed()
    {
    }

    /** Dropping the cache and reading the directory again finds exactly the children. */
    method Reload() returns (r: Option<seq<Found>>)
      requires Valid()
      modifies store.node`fptrIndex, store.node`fptrCluster
      ensures Valid() && r.Some? && |infos| == |slots.kids| && Lists(slots.kids, infos, 0, r.value)
      ensures store.Free() == old(store.Free()) && store.Others() == old(store.Others())
    {
      hide SystemSound, Image, Lists, Slots.Good, Slots.AllSnug, Backed, store.Holds, store.vol.FreeCount;
      BackedFacts();
      SlotFacts();
      ImageLength(g, slots.kids, infos, entries);
      var all := store.ReadEntries(0, store.node.size / ENTRY_SIZE, entries);
      assert all == entries;
      var upcase';
      r, upcase' := CacheDirectory(g, upcase, all);
      ReadsBack(g, upcase, slots.kids, infos, entries, 0);
      StillBacked();
    }

    /** exfat_truncate of a directory that was cut or lengthened. Whether there was space for it
        has been found out by counting; the truncation finds the same. */
    method Follow(ghost before: seq<Byte>, ghost left: nat)
      requires Image(g, slots.kids, infos, entries) && SystemSound(g, upcase, entries)
      requires slots.Valid() && SameUse(before, entries) && Backed()
      requires forall e :: 0 <= e < |slots.types| ==> slots.types[e] == if e < |before| then before[e] else 0
      requires |before| % slots.perCluster == 0
      requires Slots.Room(left, |slots.types|, slots.perCluster) == Slots.Room(store.Free(), |before|, slots.perCluster)
      modifies this`entries, store.vol`chains, store.vol`bitmapDirty, store.vol.bitmap, store.vol.fat, store.vol.heap, store.node
      ensures SameUse(slots.types, entries) && Image(g, slots.kids, infos, entries) && SystemSound(g, upcase, entries) && Backed()
      ensures entries == ToLength(old(entries), |slots.types|)
      ensures store.Free() == left && store.Others() == old(store.Others())
    {
      hide SystemSound, Image, Slots.Good, DivRoundUp, Quotient, ToLength, Backed, store.Holds, store.vol.FreeCount;
      BackedFacts();
      SlotFacts();
      store.HeldClusters(entries);
      WholeEntries(|before|, slots.perCluster);
      WholeEntries(|slots.types|, slots.perCluster);
      ghost var had := entries;
      var rc := store.Resize(|slots.types|, entries);
      assert rc == 0;
      entries := ToLength(entries, |slots.types|);
      ResizeKeepsImage(g, slots.kids, infos, had, entries);
      SoundResized(g, upcase, had, |slots.types|);
      store.HeldClusters(entries);
      StillBacked();
    }

    /** write_entries. */
    method Write(at: nat, set_: seq<Entry>)
      requires Backed() && set_ != [] && at + |set_| <= |entries|
      modifies this`entries, store.vol`chains, store.vol`bitmapDirty, store.vol.bitmap, store.vol.fat, store.vol.heap, store.node
      ensures Backed() && entries == Put(old(entries), at, set_)
      ensures store.Free() == old(store.Free()) && store.Others() == old(store.Others())
    {
      hide Backed, store.Holds, store.vol.FreeCount, Put;
      BackedFacts();
      store.WriteEntries(at, set_, entries);
      entries := Put(entries, at, set_);
      StillBacked();
    }

    /** read_entries. */
    method Read(at: nat, n: nat) returns (set_: seq<Entry>)
      requires Backed() && n > 0 && at + n <= |entries|
      modifies store.node`fptrIndex, store.node`fptrCluster
      ensures Backed() && set_ == entries[at..at + n]
      ensures store.Free() == old(store.Free()) && store.Others() == old(store.Others())
    {
      hide Backed, store.Holds, store.vol.FreeCount;
      BackedFacts();
      set_ := store.ReadEntries(at, n, entries);
      StillBacked();
    }

    /** The free clusters of the volume, counted. */
    method CountFree() returns (free: nat)
      requires Backed()
      ensures store.vol.Shape() && free == store.Free()
    {
      hide store.Holds;
      BackedFacts();
      free := ClusterBitmap.CountFreeClusters(store.vol.bitmap, store.vol.clusterCount);
    }

    /** find_slot, on the volume. */
    method Slot(n: nat) returns (rc: Slots.Rc, offset: nat)
      requires Valid() && n > 0
      modifies this`entries, slots`types
      modifies store.vol`chains, store.vol`bitmapDirty, store.vol.bitmap, store.vol.fat, store.vol.heap, store.node
      ensures Valid() && slots.kids == old(slots.kids) && store.Others() == old(store.Others())
      ensures RoomIs(old(store.Free()), old(|slots.types|))
      ensures rc.NoSpace? <==> old(Slots.NoRoom(slots.root, slots.kids, slots.types, n, slots.perCluster, store.Free()))
      ensures rc.NoSpace? ==> entries == old(entries) && slots.types == old(slots.types) && store.Free() == old(store.Free())
      ensures rc.Ok? ==> offset + n <= |slots.types| && forall e :: offset <= e < offset + n ==> !Slots.Taken(slots.kids, e)
      ensures rc.Ok? ==> |old(entries)| <= |entries| && entries == ToLength(old(entries), |entries|)
      ensures slots.perCluster > 0
      ensures rc.Ok? ==> Slots.Chosen(slots.root, slots.kids, old(slots.types), n, slots.perCluster, offset, slots.types)
    {
      hide SystemSound, Image, Slots.Good, Slots.AllSnug, Slots.Chosen, Slots.NoRoom, Slots.Spent, Slots.NoneAcceptable, Slots.AtTail, Slots.TailClean,
        Slots.Taken, Slots.Acceptable, Slots.Room, Backed, ToLength, store.Others, store.Free;
      SlotFacts();
      BackedFacts();
      ghost var before := slots.types;
      var free := CountFree();
      var left;
      rc, offset, left := slots.FindSlot(n, free);
      if rc.Ok? {
        Follow(before, left);
      }
    }

    /** A node becomes the first child, its set having been written. */
    method Adopt(offset: nat, info: Info, ghost before: seq<Entry>, ghost set_: seq<Entry>)
      requires g.Valid() && slots.Valid() && Slots.AllSnug(slots.kids, slots.perCluster)
      requires SameUse(slots.types, before) && Image(g, slots.kids, infos, before) && SystemSound(g, upcase, before)
      requires Stored(g, set_, info) && info.continuations == 1 + NameEntries(|info.name|)
      requires offset + |set_| <= |before| && entries == Put(before, offset, set_)
      requires |set_| == Slots.SetLength(|info.name|)
      requires forall e :: offset <= e < offset + |set_| ==> !Slots.Taken(slots.kids, e)
      modifies this`infos, slots
      ensures Imaged() && slots.kids == [Slots.NewKid(offset, |info.name|)] + old(slots.kids) && infos == [info] + old(infos)
      ensures |slots.types| == |old(slots.types)| && offset + Slots.SetLength(|info.name|) <= |slots.types|
      ensures slots.types == Slots.Overwritten(old(slots.types), offset, Slots.SetTypes(|info.name|))
    {
      hide SystemSound, Image, Slots.Good, Slots.AllSnug, Stored, Slots.Taken, Slots.Overwritten, Slots.SetTypes, Put;
      CommitSameUse(g, slots.types, before, offset, |info.name|, set_, info);
      CommitKeepsImage(g, slots.kids, infos, before, Slots.NewKid(offset, |info.name|), info, set_);
      StoredShape(g, set_, info);
      SoundKept(g, upcase, before, offset, set_);
      slots.Commit(offset, |info.name|);
      infos := [info] + infos;
    }

    lemma ImagedFacts()
      requires Imaged()
      ensures g.Valid() && slots.Valid() && Slots.AllSnug(slots.kids, slots.perCluster)
      ensures SameUse(slots.types, entries) && Image(g, slots.kids, infos, entries) && SystemSound(g, upcase, entries)
      ensures |slots.types| == |entries| > 0 && |infos| == |slots.kids|
    {
      ImageLength(g, slots.kids, infos, entries);
    }

    /** A set is written on free entries, and its node becomes the first child. */
    method Lay(offset: nat, set_: seq<Entry>, info: Info)
      requires Valid() && Stored(g, set_, info) && info.continuations == 1 + NameEntries(|info.name|)
      requires offset + Slots.SetLength(|info.name|) <= |slots.types|
      requires forall e :: offset <= e < offset + Slots.SetLength(|info.name|) ==> !Slots.Taken(slots.kids, e)
      modifies this, slots
      modifies store.vol`chains, store.vol`bitmapDirty, store.vol.bitmap, store.vol.fat, store.vol.heap, store.node
      ensures Valid() && slots.kids == [Slots.NewKid(offset, |info.name|)] + old(slots.kids) && infos == [info] + old(infos)
      ensures |set_| == Slots.SetLength(|info.name|) && offset + |set_| <= |old(entries)| && entries == Put(old(entries), offset, set_)
      ensures store.Others() == old(store.Others()) && store.Free() == old(store.Free()) && |slots.types| == |old(slots.types)|
      ensures slots.types == Slots.Overwritten(old(slots.types), offset, Slots.SetTypes(|info.name|))
    {
      hide Imaged, SystemSound, Image, Slots.Good, Slots.AllSnug, Stored, Slots.Taken, SameUse, Slots.Room, Backed, Put, store.Others,
        store.Free, NameEntries, Slots.Overwritten, Slots.SetTypes, Slots.Disjoint, SetOnDisk;
      BackedFacts();
      ImagedFacts();
      SetHasLength(g, set_, info);
      ghost var before := entries;
      Write(offset, set_);
      Adopt(offset, info, before, set_);
      BackedFacts();
    }

    /** create, in this directory. */
    method Create(name: seq<nat>, hash: nat, attrib: nat, now: Stamp) returns (rc: Slots.Rc)
      requires Valid() && IsName(name) && hash < 0x1_0000 && attrib < 0x1_0000 && now.Valid()
      modifies this, slots
      modifies store.vol`chains, store.vol`bitmapDirty, store.vol.bitmap, store.vol.fat, store.vol.heap, store.node
      ensures Valid() && store.Others() == old(store.Others()) && RoomIs(old(store.Free()), old(|slots.types|))
      ensures rc.NoSpace? <==> NoSlot(slots.root, slots.perCluster, old(Snapshot()), |name|)
      ensures rc.NoSpace? ==> Snapshot() == old(Snapshot()) && entries == old(entries)
      ensures rc.Ok? ==> Lays(slots.root, slots.perCluster, old(Snapshot()), old(slots.kids), None, |name|, Snapshot())
      ensures rc.Ok? ==> infos == [NewInfo(name, attrib)] + old(infos)
    {
      hide Valid, Stored, Slots.NoRoom, Slots.Taken, Slots.Chosen, Slots.Overwritten, Slots.SetTypes, Lays, Put, ToLength,
        NameEntries, Slots.Room, store.Others, store.Free;
      ShapeNow();
      ghost var before := Snapshot();
      var offset;
      rc, offset := Slot(Slots.SetLength(|name|));
      if rc.NoSpace? {
        return;
      }
      ghost var grown := slots.types;
      var set_ := CommitEntry(g, name, hash, attrib, now);
      Lay(offset, set_, NewInfo(name, attrib));
      LaysNow(slots.root, slots.perCluster, before, before.kids, None, |name|, offset, grown, Snapshot());
    }

    lemma ShapeNow()
      requires Valid()
      ensures store.vol.Shape() && slots.perCluster > 0 && |infos| == |slots.kids|
      ensures RoomIs(store.Free(), |slots.types|)
    {
    }

    /** erase_node, and the child leaves the list. */
    method Remove(j: nat)
      requires Valid() && j < |slots.kids|
      modifies this, slots
      modifies store.vol`chains, store.vol`bitmapDirty, store.vol.bitmap, store.vol.fat, store.vol.heap, store.node
      ensures Valid() && slots.kids == Without(old(slots.kids), j) && slots.types == Slots.Erased(old(slots.types), old(slots.kids)[j])
      ensures j < |old(infos)| && infos == Without(old(infos), j) && entries == EraseSet(old(entries), old(slots.kids)[j])
      ensures forall e :: !Slots.Taken(old(slots.kids), e) ==> !Slots.Taken(slots.kids, e)
      ensures store.Others() == old(store.Others()) && store.Free() == old(store.Free())
    {
      hide Imaged, SystemSound, Image, Slots.Good, Slots.AllSnug, Slots.Taken, Slots.Erased, Without, SameUse, Backed, EraseSet,
        store.Others, store.Free, Slots.Disjoint, SetOnDisk;
      ImagedFacts();
      ImageAt(g, slots.kids, infos, entries, j);
      ghost var before := entries;
      EraseEntries(slots.kids[j]);
      Orphan(j, before);
    }

    /** erase_entries */
    method EraseEntries(kid: Slots.Kid)
      requires Backed() && Slots.End(kid) <= |entries|
      modifies this`entries, store.vol`chains, store.vol`bitmapDirty, store.vol.bitmap, store.vol.fat, store.vol.heap, store.node
      ensures Backed() && entries == EraseSet(old(entries), kid)
      ensures store.Free() == old(store.Free()) && store.Others() == old(store.Others())
    {
      hide Backed, Put, EraseSet, ErasedEntries, store.Others, store.Free;
      EraseIsPut(entries, kid);
      var set_ := Read(kid.offset, Slots.End(kid) - kid.offset);
      Write(kid.offset, ErasedEntries(set_));
    }

    /** A child leaves the list, its set having been erased. */
    method Orphan(j: nat, ghost before: seq<Entry>)
      requires g.Valid() && slots.Valid() && Slots.AllSnug(slots.kids, slots.perCluster) && j < |slots.kids|
      requires SameUse(slots.types, before) && Image(g, slots.kids, infos, before) && SystemSound(g, upcase, before)
      requires entries == EraseSet(before, slots.kids[j])
      modifies this`infos, slots
      ensures Imaged() && slots.kids == Without(old(slots.kids), j) && slots.types == Slots.Erased(old(slots.types), old(slots.kids)[j])
      ensures j < |old(infos)| && infos == Without(old(infos), j)
      ensures forall e :: !Slots.Taken(old(slots.kids), e) ==> !Slots.Taken(slots.kids, e)
    {
      hide SystemSound, Image, Slots.Good, Slots.AllSnug, Slots.Taken, Without;
      ImageLength(g, slots.kids, infos, before);
      EraseKeepsImage(g, slots.kids, infos, before, j);
      SoundErased(g, upcase, before, slots.kids[j]);
      EraseSameUse(slots.types, before, slots.kids[j]);
      Slots.StillFree(slots.kids, j);
      SnugLess(slots.kids, slots.types, slots.perCluster, j);
      infos := Without(infos, j);
      slots.Erase(j);
    }

    /** `delete`, in this directory. */
    method Unlink(j: nat)
      requires Valid() && j < |slots.kids|
      modifies this, slots
      modifies store.vol`chains, store.vol`bitmapDirty, store.vol.bitmap, store.vol.fat, store.vol.heap, store.node
      ensures Valid() && slots.kids == Without(old(slots.kids), j) && slots.perCluster > 0
      ensures slots.types == Slots.Shrunk(Slots.Erased(old(slots.types), old(slots.kids)[j]), slots.kids,
                                          old(slots.kids)[j].offset, slots.perCluster)
      ensures j < |old(infos)| && infos == Without(old(infos), j)
      ensures entries == ToLength(EraseSet(old(entries), old(slots.kids)[j]), |entries|)
      ensures store.Others() == old(store.Others()) && RoomIs(old(store.Free()), old(|slots.types|))
    {
      hide SystemSound, Image, Slots.Good, Slots.AllSnug, Slots.Follows, Slots.TailsFit, Slots.ShrunkSize, Slots.Room, Without, Slots.Taken,
        Slots.Erased, Backed, EraseSet, ToLength, store.Others, store.Free;
      SlotFacts();
      SnugLess(slots.kids, slots.types, slots.perCluster, j);
      var deleted := slots.kids[j].offset;
      Remove(j);
      Shrink(deleted);
    }

    /** shrink_directory, on the volume. */
    method Shrink(deleted: nat)
      requires Valid() && (Slots.Follows(slots.kids, deleted) || Slots.TailsFit(slots.kids, slots.perCluster))
      modifies this`entries, slots`types
      modifies store.vol`chains, store.vol`bitmapDirty, store.vol.bitmap, store.vol.fat, store.vol.heap, store.node
      ensures Valid() && slots.kids == old(slots.kids) && slots.types == Slots.Shrunk(old(slots.types), slots.kids, deleted, slots.perCluster)
      ensures entries == ToLength(old(entries), |entries|)
      ensures store.Others() == old(store.Others()) && RoomIs(old(store.Free()), old(|slots.types|))
    {
      hide SystemSound, Image, Slots.Good, Slots.AllSnug, Slots.Follows, Slots.TailsFit, Slots.ShrunkSize, Slots.Room, Backed, ToLength,
        store.Others, store.Free;
      SlotFacts();
      BackedFacts();
      ghost var before := slots.types;
      var free := CountFree();
      var left := slots.ShrinkDirectory(deleted, free);
      Follow(before, left);
    }

    /** find_slot and rename_entry, in this directory. */
    method Rename(j: nat, name: seq<nat>, hash: nat) returns (rc: Slots.Rc)
      requires Valid() && j < |slots.kids| && IsName(name) && hash < 0x1_0000
      modifies this, slots
      modifies store.vol`chains, store.vol`bitmapDirty, store.vol.bitmap, store.vol.fat, store.vol.heap, store.node
      ensures Valid() && |old(infos)| == |old(slots.kids)|
      ensures store.Others() == old(store.Others()) && RoomIs(old(store.Free()), old(|slots.types|))
      ensures rc.NoSpace? <==> NoSlot(slots.root, slots.perCluster, old(Snapshot()), |name|)
      ensures rc.NoSpace? ==> Snapshot() == old(Snapshot()) && entries == old(entries)
      ensures rc.Ok? ==>
        Lays(slots.root, slots.perCluster, old(Snapshot()), Without(old(slots.kids), j), Some(old(slots.kids)[j]), |name|, Snapshot())
      ensures rc.Ok? ==> infos == [Retitled(old(infos)[j], name)] + Without(old(infos), j)
    {
      hide Valid, Stored, Slots.NoRoom, Slots.Taken, Slots.Chosen, Slots.Overwritten, Slots.SetTypes, Slots.Erased, Lays, Put, ToLength,
        EraseSet, NameEntries, Slots.Room, Without, store.Others, store.Free;
      ShapeNow();
      ghost var before := Snapshot();
      var offset;
      rc, offset := Slot(Slots.SetLength(|name|));
      if rc.NoSpace? {
        return;
      }
      ghost var grown, kid := slots.types, slots.kids[j];
      var set_ := Retitle(j, name, hash);
      var title := Retitled(infos[j], name);
      Remove(j);
      Lay(offset, set_, title);
      LaysNow(slots.root, slots.perCluster, before, Without(before.kids, j), Some(kid), |name|, offset, grown, Snapshot());
    }

    /** The set that rename_entry writes. */
    method Retitle(j: nat, name: seq<nat>, hash: nat) returns (out: seq<Entry>)
      requires Valid() && j < |slots.kids| && IsName(name) && hash < 0x1_0000
      modifies store.node`fptrIndex, store.node`fptrCluster
      ensures Valid() && j < |infos| && Stored(g, out, Retitled(infos[j], name))
      ensures store.Free() == old(store.Free()) && store.Others() == old(store.Others())
    {
      hide Imaged, SystemSound, Image, Slots.Good, Slots.AllSnug, Stored, NameEntries, Backed, store.Others, store.Free, Slots.Disjoint;
      ImagedFacts();
      ImageAt(g, slots.kids, infos, entries, j);
      var kid := slots.kids[j];
      var set_ := Read(kid.offset, Slots.End(kid) - kid.offset);
      out := RenameEntry(g, set_, name, hash, infos[j]);
    }

    /** exfat_flush_node */
    method Flush(j: nat, node: Info, m: Stamp, a: Stamp)
      requires Valid() && j < |slots.kids| && Storable(g, node) && m.Valid() && a.Valid()
      requires |infos| == |slots.kids| ==> node.name == infos[j].name && node.continuations == infos[j].continuations
      modifies this
      modifies store.vol`chains, store.vol`bitmapDirty, store.vol.bitmap, store.vol.fat, store.vol.heap, store.node
      ensures Valid() && |old(infos)| == |slots.kids| && infos == old(infos)[j := AsStored(node)]
      ensures store.Others() == old(store.Others()) && store.Free() == old(store.Free()) && |entries| == |old(entries)|
    {
      hide SystemSound, Image, Slots.AllSnug, Stored, Slots.Disjoint, Slots.Taken, Backed, Put, store.Others, store.Free, Storable;
      ImagedFacts();
      ImageAt(g, slots.kids, infos, entries, j);
      var kid := slots.kids[j];
      var set_ := Read(kid.offset, Slots.End(kid) - kid.offset);
      var ok, out := FlushNode(g, set_, node, m, a, infos[j]);
      FlushKeepsImage(g, slots.kids, infos, entries, j, AsStored(node), out);
      FlushSameUse(g, slots.kids, slots.types, entries, j, out, AsStored(node));
      StoredShape(g, out, AsStored(node));
      SoundKept(g, upcase, entries, kid.offset, out);
      Write(kid.offset, out);
      infos := infos[j := AsStored(node)];
    }

    /** One change, made whenever it can be. */
    method Perform(c: Change) returns (ok: bool)
      requires Valid() && MayAsk(g, c)
      modifies this, slots
      modifies store.vol`chains, store.vol`bitmapDirty, store.vol.bitmap, store.vol.fat, store.vol.heap, store.node
      ensures Valid() && slots.perCluster > 0 && Steps(slots.root, slots.perCluster, old(Snapshot()), c, ok, Snapshot())
      ensures store.Others() == old(store.Others()) && RoomIs(old(store.Free()), old(|slots.types|))
    {
      hide Valid, Storable, IsName, Without, AsStored, NewInfo, Retitled, store.Others, store.Free, Slots.Room, EraseSet, ToLength,
        NoSlot, Lays, Slots.Shrunk, Slots.Erased;
      ShapeNow();
      match c {
        case Make(name, hash, attrib, now) =>
          var rc := Create(name, hash, attrib, now);
          return rc.Ok?;
        case Unlink(j) =>
          ok := j < |infos|;
          if ok {
            this.Unlink(j);
          }
        case Retitle(j, name, hash) =>
          ok := j < |infos|;
          if ok {
            var rc := Rename(j, name, hash);
            ok := rc.Ok?;
          }
        case Flush(j, node, m, a) =>
          ok := j < |infos|;
          if ok {
            SameStorable(g, node, Named(node, infos[j]));
            this.Flush(j, Named(node, infos[j]), m, a);
            ShapeNow();
          }
      }
    }

    /** Whatever is created, unlinked, renamed and flushed, each change is made unless its child
        is not there or there is no slot for its name, and reading the directory again finds
        exactly the children, each with its name and state. No cluster is lost, and no other file
        of the volume changes. */
    method Run(changes: seq<Change>) returns (oks: seq<bool>, found: Option<seq<Found>>, ghost trace: seq<State>)
      requires Valid() && forall k :: 0 <= k < |changes| ==> MayAsk(g, changes[k])
      modifies this, slots
      modifies store.vol`chains, store.vol`bitmapDirty, store.vol.bitmap, store.vol.fat, store.vol.heap, store.node
      ensures Valid() && |oks| == |changes| && infos == AllAfter(old(infos), changes, oks)
      ensures slots.perCluster > 0 && Runs(slots.root, slots.perCluster, trace, changes, oks)
      ensures trace[0] == old(Snapshot()) && trace[|changes|] == Snapshot()
      ensures found.Some? && |infos| == |slots.kids| && Lists(slots.kids, infos, 0, found.value)
      ensures store.Others() == old(store.Others()) && RoomIs(old(store.Free()), old(|slots.types|))
    {
      hide Valid, MayAsk, Lists, After, store.Others, store.Free, Slots.Room, Steps;
      ShapeNow();
      oks, trace := [], [Snapshot()];
      var k := 0;
      while k < |changes|
        invariant k <= |changes| && |oks| == k && Valid() && store.vol.Shape()
        invariant Runs(slots.root, slots.perCluster, trace, changes[..k], oks)
        invariant trace[0] == old(Snapshot()) && trace[k] == Snapshot()
        invariant infos == AllAfter(old(infos), changes[..k], oks)
        invariant store.Others() == old(store.Others()) && RoomIs(old(store.Free()), old(|slots.types|))
      {
        var ok := Perform(changes[k]);
        StepInfos(slots.root, slots.perCluster, trace[k], changes[k], ok, Snapshot());
        assert changes[..k + 1][..k] == changes[..k] && (oks + [ok])[..k] == oks;
        oks, trace := oks + [ok], trace + [Snapshot()];
        k := k + 1;
      }
      assert changes[..k] == changes;
      found := Reload();
      ShapeNow();
    }
  }

  /** The first cluster of a new directory, on the volume. */
  method OneCluster(vol: Clusters.Volume, perCluster: nat) returns (ok: bool, store: Store)
    requires vol.Valid() && vol.clusterSize == ENTRY_SIZE * perCluster && perCluster > 0
    modifies vol`chains, vol`bitmapDirty, vol.bitmap, vol.fat, vol.heap
    ensures vol.Valid() && (ok <==> old(vol.FreeCount()) > 0) && fresh(store) && store.vol == vol
    ensures ok ==>
      && fresh(store.node) && store.node !in old(vol.chains) && store.Holds(ToLength([], perCluster))
      && vol.chains.Keys == old(vol.chains).Keys + {store.node} && vol.FreeCount() == old(vol.FreeCount()) - 1
    ensures !ok ==> vol.chains.Keys == old(vol.chains).Keys && vol.FreeCount() == 0
    ensures forall m :: m in old(vol.chains) ==>
      && m in vol.chains && vol.chains[m] == old(vol.chains)[m] && old(vol.Readable(m)) && vol.Readable(m)
      && vol.ContentOf(m) == old(vol.ContentOf(m))
  {
    hide vol.Valid, vol.ContentOf, vol.FreeCount, vol.Readable, DivRoundUp, FileBytes.Resized, Flat, ToLength;
    OneUnit(ENTRY_SIZE * perCluster);
    vol.ValidReadable();
    var node := vol.CreateNode(true);
    store := new Store(vol, node);
    StartsEmpty(store);
    FlatToLength([], perCluster);
    var rc := vol.Truncate(node, ENTRY_SIZE * perCluster, true);
    ok := rc == 0;
    if !ok {
      var cleaned := vol.CleanupNode(node);
    } else {
      vol.ValidReadable();
      HeldNow(store, ToLength([], perCluster));
    }
  }

  lemma OneUnit(d: nat)
    requires d > 0
    ensures DivRoundUp(d, d) == 1
  {
    DivRoundUpUnique(d, d, 1);
  }

  lemma HeldNow(store: Store, entries: seq<Entry>)
    requires store.vol.Valid() && store.node in store.vol.chains && store.vol.Readable(store.node)
    requires store.node.size == store.node.validSize == ENTRY_SIZE * |entries| && store.vol.ContentOf(store.node) == Flat(entries)
    ensures store.Holds(entries) && |store.vol.chains[store.node]| == store.vol.Clusters(ENTRY_SIZE * |entries|)
  {
  }

  /** The truncation of exfat_mkdir: a new node gets one cluster of zeros, which is a directory
      without children. Without a free cluster the node is cleaned up again. */
  method NewDirectory(vol: Clusters.Volume, perCluster: nat) returns (rc: Slots.Rc, d: DirectoryFile?)
    requires vol.Valid() && vol.clusterSize == ENTRY_SIZE * perCluster && perCluster >= 16
    requires Geometry(vol.clusterSize, vol.clusterCount).Valid()
    modifies vol`chains, vol`bitmapDirty, vol.bitmap, vol.fat, vol.heap
    ensures vol.Valid() && (rc.Ok? <==> old(vol.FreeCount()) > 0)
    ensures rc.Ok? ==>
      && d != null && fresh(d) && d.Valid() && d.store.vol == vol && d.store.node !in old(vol.chains)
      && d.infos == [] && d.slots.kids == [] && d.entries == ToLength([], perCluster)
      && vol.chains.Keys == old(vol.chains).Keys + {d.store.node} && vol.FreeCount() == old(vol.FreeCount()) - 1
    ensures rc.NoSpace? ==> vol.chains.Keys == old(vol.chains).Keys && vol.FreeCount() == 0
    ensures forall m :: m in old(vol.chains) ==>
      && m in vol.chains && vol.chains[m] == old(vol.chains)[m] && old(vol.Readable(m)) && vol.Readable(m)
      && vol.ContentOf(m) == old(vol.ContentOf(m))
  {
    hide vol.Valid, vol.ContentOf, vol.FreeCount, vol.Readable, Store.Holds, Slots.Good, Image, DirectoryFile.Valid;
    var ok, store := OneCluster(vol, perCluster);
    if !ok {
      return Slots.NoSpace, null;
    }
    var slots := new Slots.Directory(false, perCluster);
    d := new DirectoryFile(Geometry(vol.clusterSize, vol.clusterCount), true, slots, store, ToLength([], perCluster));
    rc := Slots.Ok;
  }

  lemma StartsEmpty(store: Store)
    requires store.vol.Valid() && store.node in store.vol.chains && store.vol.chains[store.node] == []
    requires store.node.size == store.node.validSize == 0
    ensures store.Holds([]) && store.vol.Shape()
  {
    store.vol.ValidReadable();
  }

  function NewInfo(name: seq<nat>, attrib: nat): Info {
    Info(attrib, 1 + NameEntries(|name|), name, 0, 0, CLUSTER_FREE, false)
  }

  function Retitled(i: Info, name: seq<nat>): Info {
    i.(name := name, continuations := 1 + NameEntries(|name|))
  }

  lemma ImageAt(g: Geometry, kids: seq<Slots.Kid>, infos: seq<Info>, entries: seq<Entry>, j: nat)
    requires Image(g, kids, infos, entries) && j < |kids|
    ensures |infos| == |kids| && SetOnDisk(g, entries, kids[j], infos[j]) && Slots.End(kids[j]) <= |entries|
  {
  }

  lemma SnugLess(kids: seq<Slots.Kid>, types: seq<Byte>, perCluster: nat, j: nat)
    requires Slots.Good(kids, types, perCluster) && Slots.AllSnug(kids, perCluster) && j < |kids|
    ensures Slots.AllSnug(Without(kids, j), perCluster) && Slots.TailsFit(Without(kids, j), perCluster)
  {
    Slots.SnugWithout(kids, |types|, j, perCluster);
  }

  lemma FlushSameUse(g: Geometry, kids: seq<Slots.Kid>, types: seq<Byte>, entries: seq<Entry>, j: nat, set_: seq<Entry>, i: Info)
    requires SameUse(types, entries) && Slots.Sound(kids, types) && Stored(g, set_, i) && j < |kids|
    requires kids[j].offset + |set_| == Slots.End(kids[j]) <= |entries|
    ensures SameUse(types, Put(entries, kids[j].offset, set_))
  {
    hide Stored, Slots.Disjoint;
    StoredShape(g, set_, i);
    forall e | Slots.Covers(kids[j], e)
      ensures Slots.Taken(kids, e)
    {
      CoveredIsTaken(kids, j, e);
    }
  }

  lemma ImageLength(g: Geometry, kids: seq<Slots.Kid>, infos: seq<Info>, entries: seq<Entry>)
    requires Image(g, kids, infos, entries)
    ensures |infos| == |kids|
  {
  }

  lemma SetHasLength(g: Geometry, set_: seq<Entry>, i: Info)
    requires Stored(g, set_, i) && i.continuations == 1 + NameEntries(|i.name|)
    ensures |set_| == Slots.SetLength(|i.name|)
  {
    StoredShape(g, set_, i);
  }

  lemma CommitSameUse(g: Geometry, types: seq<Byte>, entries: seq<Entry>, offset: nat, length: nat, set_: seq<Entry>, i: Info)
    requires SameUse(types, entries) && Stored(g, set_, i) && i.continuations == 1 + NameEntries(length)
    requires offset + Slots.SetLength(length) <= |types|
    ensures |set_| == Slots.SetLength(length)
    ensures SameUse(Slots.Overwritten(types, offset, Slots.SetTypes(length)), Put(entries, offset, set_))
  {
    hide Stored;
    StoredShape(g, set_, i);
  }

  lemma EraseSameUse(types: seq<Byte>, entries: seq<Entry>, k: Slots.Kid)
    requires SameUse(types, entries)
    ensures SameUse(Slots.Erased(types, k), EraseSet(entries, k))
  {
  }
}
