/** Slots of directory entries: the search of find_slot, and what create, unlink and rename do
    to the entry sets of a directory. Offsets and sizes are counted in 32-byte entries. */
module Slots {
  import opened Arith
  import opened Common
  import opened Format

  datatype Rc = Ok | NoSpace

  /** What a directory knows of a child: where its entry set starts and how long it is. */
  datatype Kid = Kid(offset: nat, continuations: nat, nameLength: nat)

  function End(k: Kid): nat { k.offset + 1 + k.continuations }

  predicate Covers(k: Kid, e: nat) { k.offset <= e < End(k) }

  predicate Taken(kids: seq<Kid>, e: nat) {
    exists j :: 0 <= j < |kids| && Covers(kids[j], e)
  }

  /** The length of the entry set that commit_entry and rename_entry write. */
  function SetLength(length: nat): (n: nat)
    ensures n >= 2
  {
    2 + NameEntries(length)
  }

  /** Optional entries, if any follow the name, do not reach into a further cluster. */
  predicate Snug(k: Kid, perCluster: nat)
    requires perCluster > 0
  {
    End(k) <= RoundUp(k.offset + SetLength(k.nameLength), perCluster)
  }

  /** What parse_file_entries demands: room for both info entries and the name. */
  predicate Roomy(kids: seq<Kid>) {
    forall i :: 0 <= i < |kids| ==> SetLength(kids[i].nameLength) <= 1 + kids[i].continuations
  }

  predicate Apart(a: Kid, b: Kid) { End(a) <= b.offset || End(b) <= a.offset }

  predicate Disjoint(kids: seq<Kid>) {
    forall i, j :: 0 <= i < j < |kids| ==> Apart(kids[i], kids[j])
  }

  predicate Inside(kids: seq<Kid>, size: nat) {
    forall i :: 0 <= i < |kids| ==> End(kids[i]) <= size
  }

  predicate AllSnug(kids: seq<Kid>, perCluster: nat)
    requires perCluster > 0
  {
    forall i :: 0 <= i < |kids| ==> Snug(kids[i], perCluster)
  }

  /** The clusters that a directory of this many entries owns, with those that are free. */
  function Room(free: nat, size: nat, perCluster: nat): nat
    requires perCluster > 0
  {
    free + Quotient(size, perCluster)
  }

  /** No run inside the directory will do, and there is no space for the cluster at which a
      slot at its end would end. */
  ghost predicate NoRoom(root: bool, kids: seq<Kid>, types: seq<Byte>, n: nat, perCluster: nat, free: nat)
    requires perCluster > 0
  {
    && NoneAcceptable(root, kids, types, n, |types|)
    && (exists o: nat :: AtTail(kids, |types|, o, n) && DivRoundUp(o + n, perCluster) > Room(free, |types|, perCluster))
  }

  /** The slot takes the last free cluster, or there was none and it needs none. */
  ghost predicate Spent(root: bool, kids: seq<Kid>, types: seq<Byte>, n: nat, perCluster: nat, free: nat)
    requires perCluster > 0
  {
    if NoneAcceptable(root, kids, types, n, |types|) then
      exists o: nat :: AtTail(kids, |types|, o, n) && DivRoundUp(o + n, perCluster) == Room(free, |types|, perCluster)
    else free == 0
  }

  /** A run of n entries that find_slot may hand out from inside the directory. */
  predicate Acceptable(root: bool, kids: seq<Kid>, types: seq<Byte>, o: nat, n: nat) {
    && o + n <= |types|
    && (forall e :: o <= e < o + n ==> !Taken(kids, e) && (root ==> types[e] < VALID))
  }

  /** No free run inside the directory is long enough. */
  predicate NoneAcceptable(root: bool, kids: seq<Kid>, types: seq<Byte>, n: nat, below: nat) {
    forall o :: 0 <= o < below ==> !Acceptable(root, kids, types, o, n)
  }

  /** Where a slot that needs new space starts: the free run at the end of the directory is
      used, up to n - 1 entries of it. */
  predicate AtTail(kids: seq<Kid>, size: nat, o: nat, n: nat) {
    && o <= size < o + n
    && (forall e :: o <= e < size ==> !Taken(kids, e))
    && (o == 0 || size + 1 == o + n || Taken(kids, o - 1))
  }

  /** The slot that find_slot hands out, and the directory with it: the lowest run that will do,
      or else the tail and new space up to a whole cluster. */
  ghost predicate Chosen(root: bool, kids: seq<Kid>, types: seq<Byte>, n: nat, perCluster: nat, o: nat, grown: seq<Byte>)
    requires perCluster > 0
  {
    if !NoneAcceptable(root, kids, types, n, |types|) then
      Acceptable(root, kids, types, o, n) && NoneAcceptable(root, kids, types, n, o) && grown == types
    else
      && AtTail(kids, |types|, o, n) && |types| <= RoundUp(o + n, perCluster)
      && grown == types + Zeros(RoundUp(o + n, perCluster) - |types|)
  }

  /** There is one such slot only. */
  lemma ChosenOnce(root: bool, kids: seq<Kid>, types: seq<Byte>, n: nat, perCluster: nat, o: nat, grown: seq<Byte>,
                   o': nat, grown': seq<Byte>)
    requires n > 0 && perCluster > 0
    requires Chosen(root, kids, types, n, perCluster, o, grown) && Chosen(root, kids, types, n, perCluster, o', grown')
    ensures o == o' && grown == grown' && o + n <= |grown|
  {
    hide RoundUp, Taken;
    if NoneAcceptable(root, kids, types, n, |types|) {
      TailUnique(kids, |types|, o, o', n);
      RoundUpMultiple(o + n, perCluster);
    }
  }

  /** Entry sets are disjoint, inside the directory, and marked in use all along. */
  ghost predicate Sound(kids: seq<Kid>, types: seq<Byte>) {
    && Disjoint(kids) && Inside(kids, |types|) && Roomy(kids)
    && (forall e :: 0 <= e < |types| && Taken(kids, e) ==> types[e] >= VALID)
  }

  /** A directory has at least one cluster, and whole clusters only. */
  ghost predicate Good(kids: seq<Kid>, types: seq<Byte>, perCluster: nat) {
    && perCluster >= 16
    && |types| > 0 && |types| % perCluster == 0
    && Sound(kids, types)
  }

  class Directory {
    const root: bool
    const perCluster: nat
    var kids: seq<Kid>
    var types: seq<Byte>

    ghost predicate Valid()
      reads this`kids, this`types
    {
      Good(kids, types, perCluster)
    }

    /** A directory's first cluster, all zeros. */
    constructor (root: bool, perCluster: nat)
      requires perCluster >= 16
      ensures this.root == root && this.perCluster == perCluster && kids == [] && types == Zeros(perCluster)
      ensures Valid()
    {
      this.root, this.perCluster := root, perCluster;
      kids, types := [], Zeros(perCluster);
      new;
      DivModUnique(perCluster, perCluster, 1);
    }

    /** The bitmap of the entries that belong to children. */
    method BuildMap() returns (dmap: array<bool>)
      requires Valid()
      ensures fresh(dmap) && dmap.Length == |types|
      ensures forall e :: 0 <= e < |types| ==> dmap[e] == Taken(kids, e)
    {
      dmap := new bool[|types|](_ => false);
      var j := 0;
      while j < |kids|
        invariant j <= |kids|
        invariant forall e :: 0 <= e < |types| ==> dmap[e] == Taken(kids[..j], e)
      {
        var i := 0;
        while i < 1 + kids[j].continuations
          invariant i <= 1 + kids[j].continuations
          invariant forall e :: 0 <= e < |types| ==>
            (dmap[e] <==> Taken(kids[..j], e) || kids[j].offset <= e < kids[j].offset + i)
        {
          dmap[kids[j].offset + i] := true;
          i := i + 1;
        }
        forall e | 0 <= e < |types|
          ensures dmap[e] == Taken(kids[..j + 1], e)
        {
          TakenStep(kids, j, e);
        }
        j := j + 1;
      }
      assert kids[..|kids|] == kids;
    }

    /** check_slot: only the root has entries without nodes. */
    method CheckSlot(offset: nat, n: nat) returns (free: bool)
      requires offset + n <= |types|
      ensures free <==> (root ==> forall e :: offset <= e < offset + n ==> types[e] < VALID)
    {
      if !root {
        return true;
      }
      var i := 0;
      while i < n
        invariant i <= n
        invariant forall e :: offset <= e < offset + i ==> types[e] < VALID
      {
        if types[offset + i] >= VALID {
          return false;
        }
        i := i + 1;
      }
      return true;
    }

    /** exfat_truncate of a directory, `free` being the number of free clusters: space that is
        cut off becomes free, new space reads as zeros. */
    method Resize(size: nat, free: nat) returns (rc: Rc, left: nat)
      requires perCluster > 0 && size % perCluster == 0 && |types| % perCluster == 0
      modifies this`types
      ensures rc == if Quotient(size, perCluster) <= Room(free, old(|types|), perCluster) then Ok else NoSpace
      ensures rc == NoSpace ==> types == old(types) && left == free
      ensures rc == Ok ==>
        types == if size <= old(|types|) then old(types)[..size] else old(types) + Zeros(size - old(|types|))
      ensures Room(left, |types|, perCluster) == Room(free, old(|types|), perCluster)
    {
      WholeClusters(size, |types|, perCluster);
      var had, want := Quotient(|types|, perCluster), Quotient(size, perCluster);
      if want <= had {
        types := types[..size];
        return Ok, free + (had - want);
      }
      if want - had > free {
        return NoSpace, free;
      }
      types := types + Zeros(size - |types|);
      return Ok, free - (want - had);
    }

    /** The search loop of find_slot. A run that check_slot refuses sends the index back. */
    method Search(dmap: array<bool>, n: nat) returns (found: bool, offset: nat)
      requires n > 0 && dmap.Length == |types|
      requires forall e :: 0 <= e < |types| ==> dmap[e] == Taken(kids, e)
      ensures found ==> Acceptable(root, kids, types, offset, n) && NoneAcceptable(root, kids, types, n, offset)
      ensures !found ==> NoneAcceptable(root, kids, types, n, |types|) && AtTail(kids, |types|, offset, n)
    {
      hide Taken, NoneAcceptable, Zeros, AtTail;
      var size := |types|;
      var contiguous := 0;
      var i := 0;
      offset := 0;
      SearchedNone(root, kids, types, n);
      while i < size
        invariant contiguous < n && contiguous <= i <= size
        invariant contiguous > 0 ==> offset == i - contiguous
        invariant Searched(root, kids, types, i - contiguous, i, n)
        decreases size - (i - contiguous), size - i
      {
        if !dmap[i] {
          if contiguous == 0 {
            offset := i;
          }
          contiguous := contiguous + 1;
          if contiguous == n {
            var free := CheckSlot(offset, n);
            if free {
              return true, offset;
            }
            SearchedOccupied(root, kids, types, offset, n);
            // The run is occupied: go back to the entry after its first one.
            i := i - (contiguous - 1);
            contiguous := 0;
          }
        } else {
          SearchedTaken(root, kids, types, i - contiguous, i, n);
          contiguous := 0;
        }
        i := i + 1;
      }
      if contiguous == 0 {
        offset := size;
      }
      SearchedAll(root, kids, types, offset, n);
      return false, offset;
    }

    /** The end of find_slot: no run will do, the directory is extended. */
    method Extend(n: nat, offset: nat, free: nat) returns (rc: Rc, left: nat)
      requires Valid() && n > 0 && NoneAcceptable(root, kids, types, n, |types|) && AtTail(kids, |types|, offset, n)
      modifies this`types
      ensures Valid() && kids == old(kids)
      ensures old(|types|) <= RoundUp(offset + n, perCluster)
      ensures rc == Ok ==> types == old(types) + Zeros(RoundUp(offset + n, perCluster) - old(|types|))
      ensures rc == Ok ==> offset + n <= |types| && forall e :: offset <= e < offset + n ==> !Taken(kids, e)
      ensures rc == NoSpace ==> types == old(types) && left == free
      ensures rc == NoSpace <==> NoRoom(root, kids, old(types), n, perCluster, free)
      ensures rc == Ok ==> (left == 0 <==> Spent(root, kids, old(types), n, perCluster, free))
      ensures Room(left, |types|, perCluster) == Room(free, old(|types|), perCluster)
      ensures rc == Ok ==> (Unused(types, offset, n) <==> TailClean(kids, old(types), n))
    {
      hide Taken, NoneAcceptable, Disjoint, RoundUp, Roomy, TailClean, Unused, Quotient, DivRoundUp, NoRoom, Spent;
      RoomAtTail(root, kids, types, offset, n, perCluster, free);
      // `offset` is the start of the free run at the end, `contiguous` entries before the end.
      var contiguous := |types| - offset;
      RoundUpMultiple(|types| + (n - contiguous), perCluster);
      var more := RoundUp(offset + n, perCluster) - |types|;
      Extended(kids, types, more);
      TailUnused(kids, types, offset, n, Zeros(more));
      rc, left := Resize(RoundUp(|types| + (n - contiguous), perCluster), free);
    }

    /** find_slot: the lowest acceptable run; when there is none, the free tail and new space. */
    method FindSlot(n: nat, free: nat) returns (rc: Rc, offset: nat, left: nat)
      requires Valid() && n > 0
      modifies this`types
      ensures Valid() && kids == old(kids)
      ensures rc == Ok ==> offset + n <= |types| && forall e :: offset <= e < offset + n ==> !Taken(kids, e)
      ensures rc == Ok && offset + n <= old(|types|) ==>
        types == old(types) && Acceptable(root, kids, types, offset, n) && NoneAcceptable(root, kids, types, n, offset)
      ensures rc == Ok && offset + n > old(|types|) ==>
        && NoneAcceptable(root, kids, old(types), n, old(|types|))
        && AtTail(kids, old(|types|), offset, n)
        && old(|types|) <= RoundUp(offset + n, perCluster)
        && types == old(types) + Zeros(RoundUp(offset + n, perCluster) - old(|types|))
      ensures rc == Ok ==> Chosen(root, kids, old(types), n, perCluster, offset, types)
      ensures rc == NoSpace ==> types == old(types) && left == free
      ensures rc == NoSpace <==> NoRoom(root, kids, old(types), n, perCluster, free)
      ensures rc == Ok ==> (left == 0 <==> Spent(root, kids, old(types), n, perCluster, free))
      ensures Room(left, |types|, perCluster) == Room(free, old(|types|), perCluster)
      ensures rc == Ok && root ==>
        (Unused(types, offset, n) <==> !NoneAcceptable(root, kids, old(types), n, old(|types|)) || TailClean(kids, old(types), n))
    {
      hide Taken, NoneAcceptable, Disjoint, RoundUp, Roomy, TailClean, Quotient, DivRoundUp, NoRoom, Spent, Room;
      var dmap := BuildMap();
      var found;
      found, offset := Search(dmap, n);
      if found {
        SomeAcceptable(root, kids, types, offset, n);
        RoomInside(root, kids, types, n, perCluster, free);
        return Ok, offset, free;
      }
      rc, left := Extend(n, offset, free);
    }

    /** commit_entry: writes the entry set and puts the child at the head of the list. */
    method Commit(offset: nat, nameLength: nat)
      requires Valid() && offset + SetLength(nameLength) <= |types|
      requires forall e :: offset <= e < offset + SetLength(nameLength) ==> !Taken(kids, e)
      modifies this`kids, this`types
      ensures Valid()
      ensures kids == [NewKid(offset, nameLength)] + old(kids)
      ensures types == Overwritten(old(types), offset, SetTypes(nameLength))
      ensures AllSnug(old(kids), perCluster) ==> AllSnug(kids, perCluster)
    {
      hide Disjoint, Inside, Taken, Roomy, Overwritten, SetTypes, SetLength, AllSnug;
      CommitKeeps(kids, types, offset, nameLength);
      NewIsSnug(offset, nameLength, kids, perCluster);
      types := Overwritten(types, offset, SetTypes(nameLength));
      kids := [NewKid(offset, nameLength)] + kids;
    }

    /** erase_node and tree_detach: the entries lose the in-use bit, the child leaves the list. */
    method Erase(j: nat)
      requires Valid() && j < |kids|
      modifies this`kids, this`types
      ensures Valid()
      ensures kids == Without(old(kids), j)
      ensures types == Erased(old(types), old(kids)[j])
    {
      hide Disjoint, Inside, Taken, Roomy, Erased, Without;
      EraseKeeps(kids, types, j);
      types := Erased(types, kids[j]);
      kids := Without(kids, j);
    }

    /** The first loop of shrink_directory: stops at a child after the deleted one, else finds
        the last child. */
    method LastChild(deleted: nat) returns (follows: bool, last: nat)
      ensures follows <==> Follows(kids, deleted)
      ensures !follows && kids != [] ==> last < |kids|
      ensures !follows ==> forall m :: 0 <= m < |kids| ==> kids[m].offset <= kids[last].offset
    {
      last := 0;
      var j := 0;
      while j < |kids|
        invariant j <= |kids| && (last < j || last == j == 0)
        invariant forall m :: 0 <= m < j ==> kids[m].offset <= deleted && kids[m].offset <= kids[last].offset
      {
        if deleted < kids[j].offset {
          return true, last;
        }
        if kids[last].offset < kids[j].offset {
          last := j;
        }
        j := j + 1;
      }
      return false, last;
    }

    /** shrink_directory: nothing happens while a child follows the deleted one; else the
        directory is cut after the two info entries and the name of its last child. */
    method ShrinkDirectory(deleted: nat, free: nat) returns (left: nat)
      requires Valid()
      modifies this`types
      ensures types == Shrunk(old(types), kids, deleted, perCluster)
      ensures !Follows(kids, deleted) ==> |types| == ShrunkSize(kids, perCluster) <= old(|types|)
      ensures Room(left, |types|, perCluster) == Room(free, old(|types|), perCluster)
      ensures Valid() <==> Follows(kids, deleted) || TailsFit(kids, perCluster)
      ensures forall e :: 0 <= e < perCluster ==> e < |types| && types[e] == old(types)[e]
      ensures (forall e :: 0 <= e < |old(types)| && old(types)[e] >= VALID ==> e < |types|)
          <==> Follows(kids, deleted) || forall e :: ShrunkSize(kids, perCluster) <= e < |old(types)| ==> old(types)[e] < VALID
    {
      hide Disjoint, Inside, Taken, RoundUp, Follows, Roomy, TailsFit, ShrunkSize, Quotient, Room;
      CutKeepsUsed(kids, types, deleted, perCluster);
      var follows, last := LastChild(deleted);
      FirstCluster(|types|, perCluster);
      left := free;
      if follows {
        return;
      }
      var entries := 0;
      if |kids| > 0 {
        entries := kids[last].offset + 2 + NameEntries(kids[last].nameLength);
      }
      var newSize := RoundUp(entries, perCluster);
      if newSize == 0 {
        newSize := perCluster;
      }
      LastIsShrunk(kids, last, perCluster);
      ShrunkFits(kids, types, perCluster);
      ShrinkKeeps(kids, types, perCluster);
      if newSize != |types| {
        FirstCluster(newSize, perCluster);
        RoomFor(newSize, |types|, perCluster, free);
        var rc;
        rc, left := Resize(newSize, free);
      }
    }

    /** `delete`: erases the entry set, drops the child and shrinks the directory. */
    method Delete(j: nat, free: nat) returns (left: nat)
      requires Valid() && j < |kids|
      modifies this`kids, this`types
      ensures kids == Without(old(kids), j)
      ensures types == Shrunk(Erased(old(types), old(kids)[j]), kids, old(kids)[j].offset, perCluster)
      ensures |types| <= old(|types|) && left >= free
      ensures Room(left, |types|, perCluster) == Room(free, old(|types|), perCluster)
      ensures Valid() <==> Follows(kids, old(kids)[j].offset) || TailsFit(kids, perCluster)
      ensures forall e :: 0 <= e < perCluster && !Covers(old(kids)[j], e) ==> e < |types| && types[e] == old(types)[e]
      ensures (forall e :: 0 <= e < |old(types)| && old(types)[e] >= VALID && !Covers(old(kids)[j], e) ==> e < |types|)
          <==> Follows(kids, old(kids)[j].offset)
               || forall e :: ShrunkSize(kids, perCluster) <= e < |old(types)| && !Covers(old(kids)[j], e) ==> old(types)[e] < VALID
      ensures StraysKept(old(kids), old(types), kids, types) <==> CutClean(old(kids), old(types), j, perCluster)
      ensures NoNewStray(old(kids), old(types), kids, types)
      ensures AllSnug(old(kids), perCluster) ==> Valid() && AllSnug(kids, perCluster)
    {
      hide Disjoint, Inside, Taken, Roomy, Erased, Without, Snug, ShrunkSize, TailsFit, AllSnug, Room, RoundUp, StraysKept,
        NoNewStray, CutClean, Follows;
      CutKeepsStrays(kids, types, j, perCluster);
      ghost var size := |types|;
      var deleted := kids[j].offset;
      SnugWithout(kids, |types|, j, perCluster);
      Erase(j);
      left := ShrinkDirectory(deleted, free);
      RoomGained(free, size, left, |types|, perCluster);
    }

    /** The directory's part of exfat_rename over an existing target: its entry set goes, then a
        slot for the same length is looked for. There always is one, in the root as well. */
    method Reuse(j: nat, free: nat) returns (rc: Rc, offset: nat, left: nat)
      requires Valid() && j < |kids|
      requires Follows(Without(kids, j), kids[j].offset) || TailsFit(Without(kids, j), perCluster)
      modifies this`kids, this`types
      ensures Valid() && kids == Without(old(kids), j)
      ensures rc == Ok
      ensures offset + SetLength(old(kids)[j].nameLength) <= |types| <= old(|types|) && left >= free
      ensures forall e :: offset <= e < offset + SetLength(old(kids)[j].nameLength) ==> !Taken(kids, e)
      ensures Room(left, |types|, perCluster) == Room(free, old(|types|), perCluster)
    {
      hide Disjoint, Inside, Taken, Erased, Without, Shrunk, NoneAcceptable, AtTail, Snug, RoundUp, TailClean, Room, NoRoom;
      ghost var ks, ts := kids, types;
      var n := SetLength(kids[j].nameLength);
      left := Delete(j, free);
      ReuseFits(root, ks, ts, j, perCluster, types, n);
      ReuseRoom(root, kids, types, n, perCluster, left, |ts|, free);
      rc, offset, left := FindSlot(n, left);
      RoomGained(free, |ts|, left, |types|, perCluster);
    }

    /** create: a slot, then the entry set. */
    method Create(nameLength: nat, free: nat) returns (rc: Rc, left: nat)
      requires Valid()
      modifies this`kids, this`types
      ensures Valid()
      ensures rc == NoSpace ==> kids == old(kids) && types == old(types) && left == free
      ensures rc == Ok ==> |kids| == |old(kids)| + 1 && kids[1..] == old(kids)
      ensures rc == Ok ==> kids[0] == NewKid(kids[0].offset, nameLength)
      ensures rc == Ok ==> forall e :: kids[0].offset <= e < End(kids[0]) ==> !Taken(old(kids), e)
      ensures |types| >= old(|types|)
      ensures rc == Ok ==> forall e :: 0 <= e < old(|types|) && !Covers(kids[0], e) ==> types[e] == old(types)[e]
      ensures rc == NoSpace <==> NoRoom(root, old(kids), old(types), SetLength(nameLength), perCluster, free)
      ensures rc == Ok ==> (left == 0 <==> Spent(root, old(kids), old(types), SetLength(nameLength), perCluster, free))
      ensures Room(left, |types|, perCluster) == Room(free, old(|types|), perCluster)
      ensures AllSnug(old(kids), perCluster) ==> AllSnug(kids, perCluster)
      ensures rc == Ok && root ==>
        (StraysKept(old(kids), old(types), kids, types) <==> SlotClean(old(kids), old(types), SetLength(nameLength)))
      ensures rc == Ok ==> NoNewStray(old(kids), old(types), kids, types)
    {
      hide Disjoint, Inside, Taken, Roomy, NoneAcceptable, Acceptable, AtTail, Overwritten, RoundUp, SetTypes, StraysKept,
        NoNewStray, TailClean, SlotClean, Unused, Zeros;
      ghost var before := types;
      var offset;
      rc, offset, left := FindSlot(SetLength(nameLength), free);
      if rc == Ok {
        CommitStrays(kids, before, types, offset, nameLength);
        SlotCleanIs(kids, before, SetLength(nameLength));
        Commit(offset, nameLength);
      }
    }

    /** find_slot and rename_entry: the slot is found while the old set is still in place, and
        the old directory does not shrink. */
    method Rename(j: nat, to: Directory, nameLength: nat, free: nat) returns (rc: Rc, left: nat)
      requires Valid() && to.Valid() && j < |kids|
      modifies this`kids, this`types, to`kids, to`types
      ensures Valid() && to.Valid()
      ensures rc == NoSpace ==>
        kids == old(kids) && types == old(types) && to.kids == old(to.kids) && to.types == old(to.types) && left == free
      ensures rc == Ok && to != this ==> kids == Without(old(kids), j) && |to.kids| > 0 && to.kids[1..] == old(to.kids)
      ensures rc == Ok && to == this ==> |kids| > 0 && kids[1..] == Without(old(kids), j)
      ensures rc == Ok ==> to.kids[0] == NewKid(to.kids[0].offset, nameLength)
      ensures rc == Ok ==> forall e :: to.kids[0].offset <= e < End(to.kids[0]) ==> !Taken(old(to.kids), e)
      ensures rc == Ok && to != this ==> types == Erased(old(types), old(kids)[j])
      ensures |to.types| >= old(|to.types|)
      ensures rc == Ok ==> forall e :: 0 <= e < old(|to.types|) && !Covers(to.kids[0], e) ==>
        to.types[e] == if to == this && Covers(old(kids)[j], e) then EraseType(old(types)[e]) else old(to.types)[e]
      ensures rc == NoSpace <==> NoRoom(to.root, old(to.kids), old(to.types), SetLength(nameLength), to.perCluster, free)
      ensures Room(left, |to.types|, to.perCluster) == Room(free, old(|to.types|), to.perCluster)
      ensures AllSnug(old(kids), perCluster) ==> AllSnug(kids, perCluster)
      ensures AllSnug(old(to.kids), to.perCluster) ==> AllSnug(to.kids, to.perCluster)
      ensures rc == Ok && to != this ==>
        StraysKept(old(kids), old(types), kids, types) && NoNewStray(old(kids), old(types), kids, types)
      ensures rc == Ok ==> NoNewStray(old(to.kids), old(to.types), to.kids, to.types)
      ensures rc == Ok && to.root ==>
        (StraysKept(old(to.kids), old(to.types), to.kids, to.types) <==> SlotClean(old(to.kids), old(to.types), SetLength(nameLength)))
    {
      hide Disjoint, Inside, Taken, Roomy, NoneAcceptable, Acceptable, AtTail, Overwritten, RoundUp, SetTypes, Without, Erased,
        StraysKept, NoNewStray, TailClean, SlotClean, Unused, Zeros;
      ghost var ks, before := to.kids, to.types;
      var offset;
      rc, offset, left := to.FindSlot(SetLength(nameLength), free);
      if rc == Ok {
        EraseStrays(kids, types, j);
        if to == this {
          EraseThenCommit(ks, before, types, j, offset, nameLength);
        } else {
          CommitStrays(ks, before, to.types, offset, nameLength);
        }
        SlotCleanIs(ks, before, SetLength(nameLength));
        SnugWithout(kids, |types|, j, perCluster);
        StillFree(kids, j);
        Erase(j);
        to.Commit(offset, nameLength);
      }
    }
  }

  function NewKid(offset: nat, nameLength: nat): Kid {
    Kid(offset, 1 + NameEntries(nameLength), nameLength)
  }

  /** The entry types of a written set: file, file info, then the name entries. */
  function SetTypes(nameLength: nat): (t: seq<Byte>)
    ensures |t| == SetLength(nameLength) && forall i :: 0 <= i < |t| ==> t[i] >= VALID
  {
    [ENTRY_FILE, ENTRY_FILE_INFO] + seq(NameEntries(nameLength), i => ENTRY_FILE_NAME)
  }

  function Overwritten(types: seq<Byte>, at: nat, t: seq<Byte>): (r: seq<Byte>)
    requires at + |t| <= |types|
    ensures |r| == |types|
    ensures forall e :: 0 <= e < |types| ==> r[e] == if at <= e < at + |t| then t[e - at] else types[e]
  {
    types[..at] + t + types[at + |t|..]
  }

  function EraseType(t: Byte): Byte { if t >= VALID then t - VALID else t }

  function Erased(types: seq<Byte>, k: Kid): (r: seq<Byte>)
    ensures |r| == |types|
    ensures forall e :: 0 <= e < |types| ==> r[e] == if Covers(k, e) then EraseType(types[e]) else types[e]
  {
    seq(|types|, e requires 0 <= e < |types| => if Covers(k, e) then EraseType(types[e]) else types[e])
  }

  /** Some child starts after the deleted set. */
  predicate Follows(kids: seq<Kid>, deleted: nat) {
    exists j :: 0 <= j < |kids| && deleted < kids[j].offset
  }

  function LastOffset(kids: seq<Kid>): nat {
    if kids == [] then 0 else Max(kids[0].offset, LastOffset(kids[1..]))
  }

  /** Where the mandatory entries of the last child end. */
  function MandatoryEnd(kids: seq<Kid>): nat {
    if kids == [] then 0
    else if kids[0].offset == LastOffset(kids) then kids[0].offset + SetLength(kids[0].nameLength)
    else MandatoryEnd(kids[1..])
  }

  function ShrunkSize(kids: seq<Kid>, perCluster: nat): nat
    requires perCluster > 0
  {
    if kids == [] then perCluster else RoundUp(MandatoryEnd(kids), perCluster)
  }

  /** No child's optional entries reach past the cluster where the last mandatory entry ends. */
  predicate TailsFit(kids: seq<Kid>, perCluster: nat)
    requires perCluster > 0
  {
    forall i :: 0 <= i < |kids| ==> End(kids[i]) <= ShrunkSize(kids, perCluster)
  }

  function Shrunk(types: seq<Byte>, kids: seq<Kid>, deleted: nat, perCluster: nat): (r: seq<Byte>)
    requires perCluster > 0
    ensures |r| <= |types|
  {
    if Follows(kids, deleted) || ShrunkSize(kids, perCluster) > |types| then types
    else types[..ShrunkSize(kids, perCluster)]
  }

  // ---- What each change keeps.

  lemma TakenHead(k: Kid, kids: seq<Kid>, e: nat)
    ensures Taken([k] + kids, e) <==> Covers(k, e) || Taken(kids, e)
  {
    var all := [k] + kids;
    if Covers(k, e) {
      assert Covers(all[0], e);
    }
    if Taken(kids, e) {
      var j :| 0 <= j < |kids| && Covers(kids[j], e);
      assert Covers(all[j + 1], e);
    }
    if Taken(all, e) {
      var j :| 0 <= j < |all| && Covers(all[j], e);
      assert j > 0 ==> all[j] == kids[j - 1];
    }
  }

  /** A run free of entry sets lies before or after each of them. */
  lemma FreeIsApart(kids: seq<Kid>, k: Kid, j: nat)
    requires j < |kids|
    requires forall e :: k.offset <= e < End(k) ==> !Taken(kids, e)
    ensures Apart(k, kids[j])
  {
    var m := Max(k.offset, kids[j].offset);
    if !Apart(k, kids[j]) {
      assert Covers(kids[j], m) && Covers(k, m);
      assert Taken(kids, m);
    }
  }

  lemma CommitKeeps(kids: seq<Kid>, types: seq<Byte>, offset: nat, nameLength: nat)
    requires Sound(kids, types) && offset + SetLength(nameLength) <= |types|
    requires forall e :: offset <= e < offset + SetLength(nameLength) ==> !Taken(kids, e)
    ensures Sound([NewKid(offset, nameLength)] + kids, Overwritten(types, offset, SetTypes(nameLength)))
  {
    var k := NewKid(offset, nameLength);
    var all, types' := [k] + kids, Overwritten(types, offset, SetTypes(nameLength));
    forall i, j | 0 <= i < j < |all|
      ensures Apart(all[i], all[j])
    {
      if i == 0 {
        FreeIsApart(kids, k, j - 1);
      }
    }
    forall e | 0 <= e < |types'| && Taken(all, e)
      ensures types'[e] >= VALID
    {
      TakenHead(k, kids, e);
    }
  }

  lemma WithoutIs(kids: seq<Kid>, j: nat, i: nat)
    requires j < |kids| && i < |kids| - 1
    ensures Without(kids, j)[i] == kids[if i < j then i else i + 1]
  {
  }

  lemma StillFree(kids: seq<Kid>, j: nat)
    requires j < |kids|
    ensures forall e :: !Taken(kids, e) ==> !Taken(Without(kids, j), e)
  {
    forall e | Taken(Without(kids, j), e)
      ensures Taken(kids, e)
    {
      var i :| 0 <= i < |Without(kids, j)| && Covers(Without(kids, j)[i], e);
      WithoutIs(kids, j, i);
      assert Covers(kids[if i < j then i else i + 1], e);
    }
  }

  lemma WithoutSound(kids: seq<Kid>, size: nat, j: nat)
    requires Disjoint(kids) && Inside(kids, size) && Roomy(kids) && j < |kids|
    ensures Disjoint(Without(kids, j)) && Inside(Without(kids, j), size) && Roomy(Without(kids, j))
    ensures forall i :: 0 <= i < |kids| - 1 ==> Apart(Without(kids, j)[i], kids[j])
  {
    forall i | 0 <= i < |kids| - 1
      ensures Without(kids, j)[i] == kids[if i < j then i else i + 1]
    {
      WithoutIs(kids, j, i);
    }
  }

  lemma EraseKeeps(kids: seq<Kid>, types: seq<Byte>, j: nat)
    requires Sound(kids, types) && j < |kids|
    ensures Sound(Without(kids, j), Erased(types, kids[j]))
  {
    var rest, types' := Without(kids, j), Erased(types, kids[j]);
    WithoutSound(kids, |types|, j);
    StillFree(kids, j);
    forall e | 0 <= e < |types| && Taken(rest, e)
      ensures types'[e] >= VALID
    {
      var i :| 0 <= i < |rest| && Covers(rest[i], e);
      assert Apart(rest[i], kids[j]);
    }
  }

  lemma {:induction false} LastIs(kids: seq<Kid>, last: nat)
    requires Disjoint(kids) && last < |kids|
    requires forall m :: 0 <= m < |kids| ==> kids[m].offset <= kids[last].offset
    ensures LastOffset(kids) == kids[last].offset
    ensures MandatoryEnd(kids) == kids[last].offset + SetLength(kids[last].nameLength)
  {
    if last > 0 {
      assert Apart(kids[0], kids[last]);
      LastIs(kids[1..], last - 1);
    } else {
      OffsetsBelow(kids[1..], kids[0].offset);
    }
  }

  lemma {:induction false} OffsetsBelow(kids: seq<Kid>, bound: nat)
    requires forall m :: 0 <= m < |kids| ==> kids[m].offset <= bound
    ensures LastOffset(kids) <= bound
  {
    if kids != [] {
      OffsetsBelow(kids[1..], bound);
    }
  }

  lemma {:induction false} LastExists(kids: seq<Kid>) returns (last: nat)
    requires kids != []
    ensures last < |kids| && forall m :: 0 <= m < |kids| ==> kids[m].offset <= kids[last].offset
  {
    last := 0;
    if |kids| > 1 {
      var l := LastExists(kids[1..]);
      last := if kids[0].offset > kids[1..][l].offset then 0 else l + 1;
      forall m | 0 <= m < |kids|
        ensures kids[m].offset <= kids[last].offset
      {
        assert m > 0 ==> kids[m] == kids[1..][m - 1];
      }
    }
  }

  lemma LastIsShrunk(kids: seq<Kid>, last: nat, perCluster: nat)
    requires Disjoint(kids) && perCluster > 0 && (kids != [] ==> last < |kids|)
    requires forall m :: 0 <= m < |kids| ==> kids[m].offset <= kids[last].offset
    ensures kids == [] ==> ShrunkSize(kids, perCluster) == perCluster
    ensures kids != [] ==>
      ShrunkSize(kids, perCluster) == RoundUp(kids[last].offset + SetLength(kids[last].nameLength), perCluster) > 0
    ensures RoundUp(0, perCluster) == 0
  {
    DivRoundUpZero(perCluster);
    if kids != [] {
      LastIs(kids, last);
      DivRoundUpBounds(MandatoryEnd(kids), perCluster);
    }
  }

  lemma WholeBelow(x: nat, size: nat, d: nat)
    requires d > 0 && x <= size && size % d == 0
    ensures RoundUp(x, d) <= size
    ensures RoundUp(x, d) % d == 0
  {
    RoundUpMultiple(x, d);
    DivModUnique(size, d, size / d);
    DivRoundUpUnique(size, d, size / d);
    DivRoundUpMonotone(x, size, d);
    MulMonotone(DivRoundUp(x, d), size / d, d);
  }

  lemma ShrunkFits(kids: seq<Kid>, types: seq<Byte>, perCluster: nat)
    requires Good(kids, types, perCluster)
    ensures 0 < ShrunkSize(kids, perCluster) <= |types| && ShrunkSize(kids, perCluster) % perCluster == 0
  {
    if kids == [] {
      WholeBelow(1, |types|, perCluster);
      DivRoundUpUnique(1, perCluster, 1);
    } else {
      var last := LastExists(kids);
      LastIsShrunk(kids, last, perCluster);
      LastIs(kids, last);
      WholeBelow(MandatoryEnd(kids), |types|, perCluster);
    }
  }

  lemma ShrinkKeeps(kids: seq<Kid>, types: seq<Byte>, perCluster: nat)
    requires Good(kids, types, perCluster)
    ensures ShrunkSize(kids, perCluster) <= |types|
    ensures Good(kids, types[..ShrunkSize(kids, perCluster)], perCluster) <==> TailsFit(kids, perCluster)
  {
    hide RoundUp, MandatoryEnd;
    ShrunkFits(kids, types, perCluster);
  }

  /** Every entry in use survives the cut exactly when there is none, or none in use lies in
      what is cut off. */
  lemma CutKeepsUsed(kids: seq<Kid>, types: seq<Byte>, deleted: nat, perCluster: nat)
    requires Good(kids, types, perCluster)
    ensures (forall e :: 0 <= e < |types| && types[e] >= VALID ==> e < |Shrunk(types, kids, deleted, perCluster)|)
        <==> Follows(kids, deleted) || forall e :: ShrunkSize(kids, perCluster) <= e < |types| ==> types[e] < VALID
  {
    hide ShrunkSize, Good;
    ShrunkFits(kids, types, perCluster);
  }

  /** When no set reaches into a further cluster than its name, no cut ever hits a set. */
  lemma SnugFits(kids: seq<Kid>, perCluster: nat)
    requires Disjoint(kids) && perCluster > 0 && AllSnug(kids, perCluster)
    ensures TailsFit(kids, perCluster)
  {
    if kids != [] {
      var last := LastExists(kids);
      LastIsShrunk(kids, last, perCluster);
      RoundUpMultiple(kids[last].offset + SetLength(kids[last].nameLength), perCluster);
      forall i | 0 <= i < |kids|
        ensures End(kids[i]) <= ShrunkSize(kids, perCluster)
      {
        assert Snug(kids[last], perCluster);
        assert i < last ==> Apart(kids[i], kids[last]);
      }
    }
  }

  /** A set that does reach further is cut as soon as it is the only one left. */
  lemma NotSnugIsCut(k: Kid, perCluster: nat)
    requires perCluster > 0
    ensures TailsFit([k], perCluster) <==> Snug(k, perCluster)
  {
    LastIs([k], 0);
    assert TailsFit([k], perCluster) <==> End([k][0]) <= ShrunkSize([k], perCluster);
  }

  /** A set of 18 entries, 15 of them optional, in a directory of two clusters: the cut after a
      deletion behind it leaves one cluster and takes the last two. */
  lemma TailCut()
    ensures var kids, types := [Kid(0, 17, 15)], seq(18, i => ENTRY_FILE) + Zeros(14);
      Good(kids, types, 16) && !TailsFit(kids, 16)
  {
    var kids, types := [Kid(0, 17, 15)], seq(18, i => ENTRY_FILE) + Zeros(14);
    assert SetLength(15) == 3;
    LastIs(kids, 0);
    DivRoundUpUnique(3, 16, 1);
    assert End(kids[0]) == 18 > ShrunkSize(kids, 16);
  }

  lemma NewIsSnug(offset: nat, nameLength: nat, kids: seq<Kid>, perCluster: nat)
    requires perCluster > 0
    ensures AllSnug(kids, perCluster) ==> AllSnug([NewKid(offset, nameLength)] + kids, perCluster)
  {
    RoundUpMultiple(offset + SetLength(nameLength), perCluster);
  }

  lemma SnugWithout(kids: seq<Kid>, size: nat, j: nat, perCluster: nat)
    requires Disjoint(kids) && Inside(kids, size) && Roomy(kids) && j < |kids| && perCluster > 0
    ensures AllSnug(kids, perCluster) ==>
      AllSnug(Without(kids, j), perCluster) && TailsFit(Without(kids, j), perCluster)
  {
    if AllSnug(kids, perCluster) {
      WithoutSound(kids, size, j);
      forall i | 0 <= i < |kids| - 1
        ensures Snug(Without(kids, j)[i], perCluster)
      {
        WithoutIs(kids, j, i);
        assert Snug(kids[if i < j then i else i + 1], perCluster);
      }
      SnugFits(Without(kids, j), perCluster);
    }
  }

  // ---- Clusters owned and clusters free.

  lemma WholeClusters(a: nat, b: nat, d: nat)
    requires d > 0 && a % d == 0 && b % d == 0
    ensures Quotient(a, d) <= Quotient(b, d) <==> a <= b
  {
    DivModUnique(a, d, a / d);
    DivModUnique(b, d, b / d);
    if a / d <= b / d {
      MulMonotone(a / d, b / d, d);
    }
    if b / d <= a / d {
      MulMonotone(b / d, a / d, d);
    }
  }

  lemma FirstCluster(size: nat, d: nat)
    requires d > 0 && size > 0 && size % d == 0
    ensures d <= size
  {
    WholeClusters(d, size, d);
    DivModUnique(size, d, size / d);
  }

  lemma RoomFor(size: nat, had: nat, d: nat, free: nat)
    requires d > 0 && size % d == 0 && had % d == 0 && size <= had
    ensures Quotient(size, d) <= Room(free, had, d)
  {
    WholeClusters(size, had, d);
  }

  lemma RoomGained(free: nat, had: nat, left: nat, has: nat, d: nat)
    requires d > 0 && had % d == 0 && has <= had && Room(left, has, d) == Room(free, had, d)
    ensures left >= free
  {
    DivModUnique(had, d, had / d);
    DivModUnique(has, d, has / d);
    if had / d < has / d {
      MulMonotone(had / d + 1, has / d, d);
    }
  }

  lemma RoomInside(root: bool, kids: seq<Kid>, types: seq<Byte>, n: nat, perCluster: nat, free: nat)
    requires perCluster > 0 && !NoneAcceptable(root, kids, types, n, |types|)
    ensures !NoRoom(root, kids, types, n, perCluster, free)
    ensures Spent(root, kids, types, n, perCluster, free) <==> free == 0
  {
  }

  /** The free run at the end of a directory starts at one place only. */
  lemma TailUnique(kids: seq<Kid>, size: nat, o: nat, p: nat, n: nat)
    requires AtTail(kids, size, o, n) && AtTail(kids, size, p, n)
    ensures o == p
  {
  }

  lemma RoomAtTail(root: bool, kids: seq<Kid>, types: seq<Byte>, o: nat, n: nat, perCluster: nat, free: nat)
    requires perCluster > 0 && NoneAcceptable(root, kids, types, n, |types|) && AtTail(kids, |types|, o, n)
    ensures Quotient(RoundUp(o + n, perCluster), perCluster) == DivRoundUp(o + n, perCluster)
    ensures NoRoom(root, kids, types, n, perCluster, free)
        <==> DivRoundUp(o + n, perCluster) > Room(free, |types|, perCluster)
    ensures Spent(root, kids, types, n, perCluster, free)
        <==> DivRoundUp(o + n, perCluster) == Room(free, |types|, perCluster)
  {
    hide AtTail, NoneAcceptable, Room, DivRoundUp;
    DivModUnique(RoundUp(o + n, perCluster), perCluster, DivRoundUp(o + n, perCluster));
    forall p: nat | AtTail(kids, |types|, p, n)
      ensures p == o
    {
      TailUnique(kids, |types|, o, p, n);
    }
  }

  // ---- Entries of the root that belong to no child.

  predicate Unused(types: seq<Byte>, o: nat, n: nat) {
    o + n <= |types| && forall e :: o <= e < o + n ==> types[e] < VALID
  }

  /** Among the last n - 1 entries, none after the last child's set is in use. */
  predicate TailClean(kids: seq<Kid>, types: seq<Byte>, n: nat) {
    forall e :: 0 <= e < |types| < e + n && FreeFrom(kids, |types|, e) ==> types[e] < VALID
  }

  predicate FreeFrom(kids: seq<Kid>, size: nat, e: nat) {
    forall f :: e <= f < size ==> !Taken(kids, f)
  }

  lemma SomeAcceptable(root: bool, kids: seq<Kid>, types: seq<Byte>, o: nat, n: nat)
    requires Acceptable(root, kids, types, o, n)
    ensures n > 0 ==> !NoneAcceptable(root, kids, types, n, |types|)
  {
  }

  /** The slot at the tail overwrites an entry in use exactly when the tail is not clean:
      find_slot does not check the part of a new slot that is inside the directory. */
  lemma TailUnused(kids: seq<Kid>, types: seq<Byte>, o: nat, n: nat, z: seq<Byte>)
    requires AtTail(kids, |types|, o, n)
    requires |z| >= o + n - |types| && forall i :: 0 <= i < |z| ==> z[i] < VALID
    ensures Unused(types + z, o, n) <==> TailClean(kids, types, n)
  {
    forall e | 0 <= e < |types|
      ensures o <= e <==> |types| < e + n && FreeFrom(kids, |types|, e)
    {
      if e < o && FreeFrom(kids, |types|, e) {
        assert !Taken(kids, o - 1);
      }
    }
    if Unused(types + z, o, n) {
      forall e | 0 <= e < |types| < e + n && FreeFrom(kids, |types|, e)
        ensures types[e] < VALID
      {
        assert (types + z)[e] == types[e];
      }
    }
  }

  /** An empty root of one 512-byte cluster and a name of 211 units: the slot starts at entry
      0 and covers the bitmap and up-case entries. */
  lemma RootOverwritten()
    ensures var types := [0x81, 0x82] + Zeros(14);
      && Good([], types, 16)
      && NoneAcceptable(true, [], types, SetLength(211), |types|)
      && AtTail([], |types|, 0, SetLength(211))
      && !TailClean([], types, SetLength(211))
  {
    var types := [0x81, 0x82] + Zeros(14);
    assert NameEntries(211) == 15;
    assert types[0] == 0x81 && FreeFrom([], 16, 0);
  }

  /** Entries of the root that belong to no child do not hold up a cut: here the volume label
      is in the second cluster, and goes with the only set. */
  lemma LabelCut()
    ensures var kids, types := [Kid(16, 2, 1)], Zeros(16) + [0x85, 0xc0, 0xc1, 0x83] + Zeros(12);
      && Good(kids, types, 16) && types[19] == 0x83 && !Taken(kids, 19)
      && |Shrunk(Erased(types, kids[0]), Without(kids, 0), 16, 16)| == 16
  {
    DivRoundUpUnique(1, 15, 1);
    assert Without([Kid(16, 2, 1)], 0) == [];
  }

  /** An entry in use that belongs to no child. */
  predicate Stray(kids: seq<Kid>, types: seq<Byte>, e: nat) {
    e < |types| && types[e] >= VALID && !Taken(kids, e)
  }

  ghost predicate StraysKept(kids: seq<Kid>, types: seq<Byte>, kids': seq<Kid>, types': seq<Byte>) {
    forall e: nat :: Stray(kids, types, e) ==> Stray(kids', types', e) && types'[e] == types[e]
  }

  /** Every stray entry there is now was one before. */
  ghost predicate NoNewStray(kids: seq<Kid>, types: seq<Byte>, kids': seq<Kid>, types': seq<Byte>) {
    forall e: nat :: Stray(kids', types', e) ==> Stray(kids, types, e) && types'[e] == types[e]
  }

  /** A child follows the j-th, or no stray entry lies in what its deletion cuts off. */
  ghost predicate CutClean(kids: seq<Kid>, types: seq<Byte>, j: nat, perCluster: nat)
    requires j < |kids| && perCluster > 0
  {
    || Follows(Without(kids, j), kids[j].offset)
    || forall e: nat :: Stray(kids, types, e) ==> e < ShrunkSize(Without(kids, j), perCluster)
  }

  /** A run inside the root will do, or the tail that a slot in new space takes is clean. */
  ghost predicate SlotClean(kids: seq<Kid>, types: seq<Byte>, n: nat) {
    !NoneAcceptable(true, kids, types, n, |types|) || TailClean(kids, types, n)
  }

  lemma SlotCleanIs(kids: seq<Kid>, types: seq<Byte>, n: nat)
    ensures SlotClean(kids, types, n) <==> !NoneAcceptable(true, kids, types, n, |types|) || TailClean(kids, types, n)
  {
  }

  /** Erasing a set makes no stray entry and takes none. */
  lemma EraseStrays(kids: seq<Kid>, types: seq<Byte>, j: nat)
    requires Sound(kids, types) && j < |kids|
    ensures forall e: nat :: Stray(Without(kids, j), Erased(types, kids[j]), e) <==> Stray(kids, types, e)
    ensures StraysKept(kids, types, Without(kids, j), Erased(types, kids[j]))
    ensures NoNewStray(kids, types, Without(kids, j), Erased(types, kids[j]))
  {
    hide Disjoint, Roomy, Without;
    StillFree(kids, j);
    forall e: nat
      ensures Stray(Without(kids, j), Erased(types, kids[j]), e) <==> Stray(kids, types, e)
    {
      WithoutOrIt(kids, j, e);
    }
  }

  lemma WithoutOrIt(kids: seq<Kid>, j: nat, e: nat)
    requires j < |kids|
    ensures Taken(kids, e) ==> Covers(kids[j], e) || Taken(Without(kids, j), e)
    ensures Covers(kids[j], e) ==> Taken(kids, e)
  {
    if Taken(kids, e) && !Covers(kids[j], e) {
      var i :| 0 <= i < |kids| && Covers(kids[i], e);
      assert Without(kids, j)[if i < j then i else i - 1] == kids[i];
    }
  }

  /** A deletion keeps the stray entries exactly when none lies in what is cut off. */
  lemma CutKeepsStrays(kids: seq<Kid>, types: seq<Byte>, j: nat, perCluster: nat)
    requires Good(kids, types, perCluster) && j < |kids|
    ensures StraysKept(kids, types, Without(kids, j),
                       Shrunk(Erased(types, kids[j]), Without(kids, j), kids[j].offset, perCluster))
        <==> CutClean(kids, types, j, perCluster)
    ensures CutClean(kids, types, j, perCluster) <==> forall e: nat :: Stray(kids, types, e) ==>
      e < |Shrunk(Erased(types, kids[j]), Without(kids, j), kids[j].offset, perCluster)|
    ensures NoNewStray(kids, types, Without(kids, j),
                       Shrunk(Erased(types, kids[j]), Without(kids, j), kids[j].offset, perCluster))
  {
    hide Disjoint, Roomy, Without, Taken, ShrunkSize, Erased;
    EraseStrays(kids, types, j);
    EraseKeeps(kids, types, j);
    ShrunkFits(Without(kids, j), Erased(types, kids[j]), perCluster);
  }

  /** A new set keeps the stray entries exactly when its slot has none in use. */
  lemma CommitStrays(kids: seq<Kid>, types: seq<Byte>, types1: seq<Byte>, offset: nat, nameLength: nat)
    requires offset + SetLength(nameLength) <= |types1| && |types| <= |types1|
    requires forall e :: 0 <= e < |types1| ==> types1[e] == if e < |types| then types[e] else 0
    requires forall e :: offset <= e < offset + SetLength(nameLength) ==> !Taken(kids, e)
    ensures StraysKept(kids, types, [NewKid(offset, nameLength)] + kids, Overwritten(types1, offset, SetTypes(nameLength)))
        <==> Unused(types1, offset, SetLength(nameLength))
    ensures NoNewStray(kids, types, [NewKid(offset, nameLength)] + kids, Overwritten(types1, offset, SetTypes(nameLength)))
  {
    hide Taken, SetTypes;
    var k := NewKid(offset, nameLength);
    forall e: nat
      ensures Taken([k] + kids, e) <==> Covers(k, e) || Taken(kids, e)
    {
      TakenHead(k, kids, e);
    }
    if StraysKept(kids, types, [k] + kids, Overwritten(types1, offset, SetTypes(nameLength))) {
      forall e | offset <= e < offset + SetLength(nameLength)
        ensures types1[e] < VALID
      {
        assert !Stray([k] + kids, Overwritten(types1, offset, SetTypes(nameLength)), e);
      }
    }
  }

  /** The same when the old set in the same directory is erased in between. */
  lemma EraseThenCommit(kids: seq<Kid>, types: seq<Byte>, types1: seq<Byte>, j: nat, offset: nat, nameLength: nat)
    requires Sound(kids, types) && Sound(kids, types1) && j < |kids|
    requires offset + SetLength(nameLength) <= |types1| && |types| <= |types1|
    requires forall e :: 0 <= e < |types1| ==> types1[e] == if e < |types| then types[e] else 0
    requires forall e :: offset <= e < offset + SetLength(nameLength) ==> !Taken(kids, e)
    ensures StraysKept(kids, types, [NewKid(offset, nameLength)] + Without(kids, j),
                       Overwritten(Erased(types1, kids[j]), offset, SetTypes(nameLength)))
        <==> Unused(types1, offset, SetLength(nameLength))
    ensures NoNewStray(kids, types, [NewKid(offset, nameLength)] + Without(kids, j),
                       Overwritten(Erased(types1, kids[j]), offset, SetTypes(nameLength)))
  {
    hide Taken, SetTypes, Without, Disjoint, Roomy, Overwritten, StraysKept, NoNewStray, Unused;
    EraseStrays(kids, types, j);
    StillFree(kids, j);
    var erased, erased1 := Erased(types, kids[j]), Erased(types1, kids[j]);
    CommitStrays(Without(kids, j), erased, erased1, offset, nameLength);
    SameStrays(kids, types, Without(kids, j), erased, [NewKid(offset, nameLength)] + Without(kids, j),
               Overwritten(erased1, offset, SetTypes(nameLength)));
    UnusedErased(kids, types1, j, offset, SetLength(nameLength));
  }

  lemma SameStrays(kids: seq<Kid>, types: seq<Byte>, rest: seq<Kid>, erased: seq<Byte>, kids': seq<Kid>, types': seq<Byte>)
    requires forall e: nat :: Stray(rest, erased, e) <==> Stray(kids, types, e)
    requires StraysKept(kids, types, rest, erased)
    ensures StraysKept(rest, erased, kids', types') <==> StraysKept(kids, types, kids', types')
    ensures NoNewStray(rest, erased, kids', types') <==> NoNewStray(kids, types, kids', types')
  {
    hide Taken;
  }

  /** A stray entry outlives two steps exactly when it outlives each of them. */
  lemma KeptTwice(k0: seq<Kid>, t0: seq<Byte>, k1: seq<Kid>, t1: seq<Byte>, k2: seq<Kid>, t2: seq<Byte>)
    requires NoNewStray(k0, t0, k1, t1) && NoNewStray(k1, t1, k2, t2)
    ensures StraysKept(k0, t0, k2, t2) <==> StraysKept(k0, t0, k1, t1) && StraysKept(k1, t1, k2, t2)
    ensures NoNewStray(k0, t0, k2, t2)
  {
    hide Stray;
    if StraysKept(k0, t0, k2, t2) {
      forall e: nat | Stray(k0, t0, e)
        ensures Stray(k1, t1, e)
      {
        assert Stray(k2, t2, e);
      }
    }
  }

  lemma UnusedErased(kids: seq<Kid>, types: seq<Byte>, j: nat, o: nat, n: nat)
    requires j < |kids| && o + n <= |types| && forall e :: o <= e < o + n ==> !Taken(kids, e)
    ensures Unused(Erased(types, kids[j]), o, n) <==> Unused(types, o, n)
  {
    forall e | o <= e < o + n
      ensures !Covers(kids[j], e)
    {
      WithoutOrIt(kids, j, e);
    }
  }

  /** After a set is erased, its place is free wherever the directory still reaches. */
  lemma ErasedPlace(kids: seq<Kid>, types: seq<Byte>, j: nat, e: nat)
    requires Sound(kids, types) && j < |kids| && Covers(kids[j], e)
    ensures !Taken(Without(kids, j), e)
  {
    WithoutSound(kids, |types|, j);
    var rest := Without(kids, j);
    forall i | 0 <= i < |rest|
      ensures !Covers(rest[i], e)
    {
      assert Apart(rest[i], kids[j]);
    }
  }

  /** When no child follows the deleted one, all others end before it. */
  lemma OthersEndBefore(kids: seq<Kid>, types: seq<Byte>, j: nat, e: nat)
    requires Sound(kids, types) && j < |kids| && !Follows(Without(kids, j), kids[j].offset)
    requires Taken(Without(kids, j), e)
    ensures e < kids[j].offset
  {
    WithoutSound(kids, |types|, j);
    var rest := Without(kids, j);
    var i :| 0 <= i < |rest| && Covers(rest[i], e);
    assert Apart(rest[i], kids[j]);
  }

  lemma ErasedFree(kids: seq<Kid>, types: seq<Byte>, j: nat)
    requires Sound(kids, types) && j < |kids|
    ensures forall e: nat :: Covers(kids[j], e) ==> !Taken(Without(kids, j), e)
    ensures forall e :: 0 <= e < |types| && Covers(kids[j], e) ==> Erased(types, kids[j])[e] < VALID
  {
    hide Disjoint, Roomy, Without, Taken;
    forall e: nat | Covers(kids[j], e)
      ensures !Taken(Without(kids, j), e)
    {
      ErasedPlace(kids, types, j, e);
    }
  }

  /** The place of a deleted set takes as many entries again: inside the directory if that was
      not cut, else with the clusters that the cut gave back. */
  lemma ReuseFits(root: bool, kids: seq<Kid>, types: seq<Byte>, j: nat, perCluster: nat, small: seq<Byte>, n: nat)
    requires Good(kids, types, perCluster) && j < |kids| && 0 < n <= 1 + kids[j].continuations
    requires small == Shrunk(Erased(types, kids[j]), Without(kids, j), kids[j].offset, perCluster)
    ensures NoneAcceptable(root, Without(kids, j), small, n, |small|) ==>
      && |small| < |types|
      && (forall o: nat :: AtTail(Without(kids, j), |small|, o, n) ==> RoundUp(o + n, perCluster) <= |types|)
  {
    hide RoundUp, Disjoint, Roomy, Erased, Without, NameEntries, Taken, ShrunkSize;
    var k, rest := kids[j], Without(kids, j);
    ErasedFree(kids, types, j);
    if NoneAcceptable(root, rest, small, n, |small|) {
      assert !Acceptable(root, rest, small, k.offset, n);
      assert |small| < End(k) <= |types|;
      assert !Follows(rest, k.offset);
      forall e: nat | Taken(rest, e)
        ensures e < k.offset
      {
        OthersEndBefore(kids, types, j, e);
      }
      forall o: nat | AtTail(rest, |small|, o, n)
        ensures RoundUp(o + n, perCluster) <= |types|
      {
        WholeBelow(o + n, |types|, perCluster);
      }
    }
  }

  /** A slot that ends within the space the directory had before needs no more than was freed. */
  lemma ReuseRoom(root: bool, kids: seq<Kid>, types: seq<Byte>, n: nat, perCluster: nat, left: nat, had: nat, free: nat)
    requires perCluster > 0 && had % perCluster == 0 && Room(left, |types|, perCluster) == Room(free, had, perCluster)
    requires NoneAcceptable(root, kids, types, n, |types|) ==>
      forall o: nat :: AtTail(kids, |types|, o, n) ==> RoundUp(o + n, perCluster) <= had
    ensures !NoRoom(root, kids, types, n, perCluster, left)
  {
    hide AtTail, NoneAcceptable, DivRoundUp, Room;
    if NoRoom(root, kids, types, n, perCluster, left) {
      var o: nat :| AtTail(kids, |types|, o, n) && DivRoundUp(o + n, perCluster) > Room(left, |types|, perCluster);
      RoomAtTail(root, kids, types, o, n, perCluster, left);
      RoundUpMultiple(o + n, perCluster);
      RoomFor(RoundUp(o + n, perCluster), had, perCluster, free);
    }
  }

  lemma SearchedNone(root: bool, kids: seq<Kid>, types: seq<Byte>, n: nat)
    ensures Searched(root, kids, types, 0, 0, n)
  {
  }

  /** The search stands at i with a free run from start; nothing before start will do. */
  ghost predicate Searched(root: bool, kids: seq<Kid>, types: seq<Byte>, start: nat, i: nat, n: nat) {
    && start <= i <= |types|
    && (forall e :: start <= e < i ==> !Taken(kids, e))
    && NoneAcceptable(root, kids, types, n, start)
    && (start == 0 || Taken(kids, start - 1) || start - 1 + n <= |types|)
  }

  lemma SearchedOccupied(root: bool, kids: seq<Kid>, types: seq<Byte>, start: nat, n: nat)
    requires NoneAcceptable(root, kids, types, n, start) && start + n <= |types| && n > 0
    requires !Acceptable(root, kids, types, start, n)
    ensures Searched(root, kids, types, start + 1, start + 1, n)
  {
  }

  lemma SearchedTaken(root: bool, kids: seq<Kid>, types: seq<Byte>, start: nat, i: nat, n: nat)
    requires Searched(root, kids, types, start, i, n) && i < |types| && i - start < n && Taken(kids, i)
    ensures Searched(root, kids, types, i + 1, i + 1, n)
  {
    forall o | start <= o <= i
      ensures !Acceptable(root, kids, types, o, n)
    {
      assert o <= i < o + n;
    }
  }

  lemma SearchedAll(root: bool, kids: seq<Kid>, types: seq<Byte>, start: nat, n: nat)
    requires Searched(root, kids, types, start, |types|, n) && |types| - start < n
    ensures NoneAcceptable(root, kids, types, n, |types|) && AtTail(kids, |types|, start, n)
  {
  }

  lemma RoundUpMultiple(x: nat, d: nat)
    requires d > 0
    ensures RoundUp(x, d) % d == 0 && x <= RoundUp(x, d) < x + d
  {
    DivRoundUpBounds(x, d);
    DivModUnique(RoundUp(x, d), d, DivRoundUp(x, d));
  }

  /** New space at the end belongs to no child. */
  lemma Extended(kids: seq<Kid>, types: seq<Byte>, more: nat)
    requires Inside(kids, |types|)
    requires forall e :: 0 <= e < |types| && Taken(kids, e) ==> types[e] >= VALID
    ensures Inside(kids, |types| + more)
    ensures forall e :: 0 <= e && Taken(kids, e) ==> e < |types| && (types + Zeros(more))[e] >= VALID
  {
    forall e: nat | Taken(kids, e)
      ensures e < |types|
    {
      var j :| 0 <= j < |kids| && Covers(kids[j], e);
    }
  }

  lemma TakenStep(kids: seq<Kid>, j: nat, e: nat)
    requires j < |kids|
    ensures Taken(kids[..j + 1], e) <==> Taken(kids[..j], e) || Covers(kids[j], e)
  {
    if Taken(kids[..j], e) {
      var m :| 0 <= m < j && Covers(kids[..j][m], e);
      assert kids[..j + 1][m] == kids[m];
    }
    if Covers(kids[j], e) {
      assert kids[..j + 1][j] == kids[j];
    }
  }
}
