/** The handler's medium protocol: inhibit, park, release and uninhibit over a removable
    card, with every transfer allowed to fail. A halt (exfat_bug) ends the run. */
module Handler {
  import opened Common

  /** What the boot sector says; `rest` stands for the fields that do not identify a volume, and
      `readable` for everything else on the card that mounting checks. */
  datatype SuperBlock = SuperBlock(exfat: bool, readable: bool, serial: nat, sectorBits: nat, spcBits: nat,
                                   clusterCount: nat, rootdirCluster: nat, rest: nat)

  predicate Mountable(slot: Option<SuperBlock>) {
    slot.Some? && slot.value.exfat && slot.value.readable
  }

  /** The comparison same_volume makes once it has read the boot sector. */
  predicate SameVolume(sb: SuperBlock, old_: SuperBlock) {
    && sb.exfat
    && sb.serial == old_.serial && sb.sectorBits == old_.sectorBits && sb.spcBits == old_.spcBits
    && sb.clusterCount == old_.clusterCount && sb.rootdirCluster == old_.rootdirCluster
  }

  /** DOS packets; the lock and file packets say whether the argument is a NULL pointer, END also
      which node the file is, and FORMAT whether the layout fits the partition. */
  datatype Packet =
    | LocateObject | CopyDir | CopyDirFh | Parent | ParentFh
    | ExamineObject | ExamineNext | ExamineFh
    | FindInput | FindOutput | FindUpdate | FhFromLock(isNull: bool)
    | Read | Write | Seek | SetFileSize
    | SetProtect | SetDate | SetComment | DeleteObject | CreateDir | RenameObject | RenameDisk
    | FreeLock(isNull: bool) | End(isNull: bool, node: nat)
    | SameLock | Info | DiskInfo | CurrentVolume | IsFilesystem
    | Flush | Inhibit(on: bool) | Die | Format(fits: bool) | Unknown

  datatype Reply =
    | Success
    | NotADosDisk | ObjectInUse | DiskFull | WriteProtected | ActionNotKnown
    | OtherError

  /** needs_medium: the packets an inhibited file system must not serve. */
  predicate NeedsMedium(p: Packet) {
    match p
    case LocateObject => true
    case CopyDir => true
    case CopyDirFh => true
    case Parent => true
    case ParentFh => true
    case ExamineObject => true
    case ExamineNext => true
    case ExamineFh => true
    case FindInput => true
    case FindOutput => true
    case FindUpdate => true
    case FhFromLock(_) => true
    case Read => true
    case Write => true
    case Seek => true
    case SetFileSize => true
    case SetProtect => true
    case SetDate => true
    case SetComment => true
    case DeleteObject => true
    case CreateDir => true
    case RenameObject => true
    case RenameDisk => true
    case _ => false
  }

  /** The root node's number among the dirty nodes. */
  const ROOT: nat := 0

  /** What is written through a mount. */
  datatype Item = Node(n: nat) | Bitmap | Boot | Data

  /** One write made through a mount: the mounted superblock, the card it reached, what was
      written, and whether the transfer succeeded. */
  datatype Entry = Entry(mount: SuperBlock, card: SuperBlock, item: Item, ok: bool)

  /** Every write has reached a card with the serial number and the geometry of the volume that
      is mounted. */
  ghost predicate SafeLog(log: seq<Entry>) {
    forall k :: 0 <= k < |log| ==>
      && log[k].card.exfat
      && log[k].card.serial == log[k].mount.serial
      && log[k].card.sectorBits == log[k].mount.sectorBits && log[k].card.spcBits == log[k].mount.spcBits
      && log[k].card.clusterCount == log[k].mount.clusterCount
      && log[k].card.rootdirCluster == log[k].mount.rootdirCluster
  }

  /** The log has grown, and says that this was written. */
  ghost predicate Wrote(before: seq<Entry>, log: seq<Entry>, item: Item) {
    exists k :: |before| <= k < |log| && log[k].item == item && log[k].ok
  }

  /** Nothing has been taken out of the log, and no node or bitmap became clean but by a write. */
  ghost predicate Accounted(log0: seq<Entry>, dirty0: set<nat>, bitmap0: bool, log: seq<Entry>, dirty: set<nat>, bitmap: bool) {
    && log0 <= log
    && dirty <= dirty0 && (bitmap ==> bitmap0)
    && (forall n :: n in dirty0 && n !in dirty ==> Wrote(log0, log, Node(n)))
    && (bitmap0 && !bitmap ==> Wrote(log0, log, Bitmap))
  }

  lemma AccountedTwice(log0: seq<Entry>, dirty0: set<nat>, bitmap0: bool, log1: seq<Entry>, dirty1: set<nat>, bitmap1: bool,
                       log2: seq<Entry>, dirty2: set<nat>, bitmap2: bool)
    requires Accounted(log0, dirty0, bitmap0, log1, dirty1, bitmap1) && Accounted(log1, dirty1, bitmap1, log2, dirty2, bitmap2)
    ensures Accounted(log0, dirty0, bitmap0, log2, dirty2, bitmap2)
  {
    forall item | Wrote(log0, log1, item) || Wrote(log1, log2, item)
      ensures Wrote(log0, log2, item)
    {
      if Wrote(log0, log1, item) {
        var k :| |log0| <= k < |log1| && log1[k].item == item && log1[k].ok;
        assert log2[k] == log1[k];
      }
    }
  }

  /** What happens to the handler: a packet arrives, or the card is changed. */
  datatype Event = Packet(p: Packet) | Card(card: Option<SuperBlock>)

  class Handler {
    var inhibited: bool
    var mounted: bool
    var quit: bool
    var halted: bool
    var nlocks: nat
    var nfiles: nat
    // struct exfat: superblock in memory, read-only flag, unwritten metadata
    var sb: SuperBlock
    var ro: bool
    var dirty: set<nat>
    var bitmapDirty: bool
    // the slot, and a record of the writes made through a mount
    var slot: Option<SuperBlock>
    ghost var log: seq<Entry>
    // whether a transfer ever failed or the mounted volume was not in the slot when needed,
    // and whether unwritten metadata was ever dropped
    ghost var trouble: bool
    ghost var lost: bool
    // how many transfers have failed
    ghost var faults: nat

    /** The card in the slot, if any, is the mounted volume. */
    ghost predicate OwnCard()
      reads this
    {
      slot.Some? ==> SameVolume(slot.value, sb)
    }

    ghost predicate Clean()
      reads this
    {
      dirty == {} && !bitmapDirty
    }

    /** There is unwritten metadata that a flush would write. */
    ghost predicate NeedsCard()
      reads this
    {
      dirty - {ROOT} != {} || bitmapDirty
    }

    /** The invariant between events. */
    ghost predicate Inv()
      reads this
    {
      && SafeLog(log) && (lost ==> trouble) && (halted ==> trouble)
      && (!halted ==>
            && (inhibited && mounted ==> (nlocks != 0 || nfiles != 0) && dirty <= {ROOT} && !bitmapDirty)
            && (!inhibited ==> mounted && sb.exfat && OwnCard())
            && (mounted ==> sb.exfat)
            && (mounted && ro ==> Clean())
            && (!mounted ==> nlocks == 0 && nfiles == 0))
    }

    /** A write through the mount. It must not be attempted with a foreign card in the slot. */
    method WriteThrough(item: Item) returns (ok: bool)
      requires mounted && OwnCard() && SafeLog(log)
      modifies this`trouble, this`log, this`faults
      ensures SafeLog(log)
      ensures trouble == (old(trouble) || !ok) && faults == old(faults) + (if ok then 0 else 1)
      ensures log == if slot.None? then old(log) else old(log) + [Entry(sb, slot.value, item, ok)]
      ensures slot.None? ==> !ok
    {
      if slot.None? {
        trouble, faults := true, faults + 1;
        return false;
      }
      ok := *;
      log := log + [Entry(sb, slot.value, item, ok)];
      if !ok {
        trouble, faults := true, faults + 1;
      }
    }

    /** Writing the superblock, which a failed transfer leaves as it was on the card. */
    method WriteSuperBlock() returns (ok: bool)
      requires mounted && OwnCard() && SafeLog(log) && sb.exfat
      modifies this`trouble, this`log, this`slot, this`faults
      ensures SafeLog(log) && OwnCard() && (slot.None? <==> old(slot).None?)
      ensures trouble == (old(trouble) || !ok) && (ok <==> faults == old(faults)) && faults >= old(faults)
      ensures old(log) <= log && (ok ==> Wrote(old(log), log, Boot))
      ensures slot.Some? ==> slot.value.readable == old(slot).value.readable
    {
      ok := WriteThrough(Boot);
      if ok {
        assert log[|old(log)|].item == Boot;
        slot := Some(sb.(readable := slot.value.readable));
      }
    }

    /** exfat_flush: the allocation bitmap. It does not look at the read-only flag. */
    method FlushBitmap() returns (ok: bool)
      requires mounted && (bitmapDirty ==> OwnCard()) && SafeLog(log)
      modifies this`trouble, this`log, this`bitmapDirty, this`faults
      ensures trouble == (old(trouble) || !ok) && (ok <==> faults == old(faults)) && faults >= old(faults)
      ensures SafeLog(log) && (ok ==> !bitmapDirty) && (!old(bitmapDirty) ==> ok && !bitmapDirty && log == old(log))
      ensures Accounted(old(log), dirty, old(bitmapDirty), log, dirty, bitmapDirty)
    {
      ok := true;
      if bitmapDirty {
        ok := WriteThrough(Bitmap);
        if ok {
          assert log[|old(log)|].item == Bitmap;
          bitmapDirty := false;
        }
      }
    }

    /** exfat_flush_node: a dirty node of a read-only volume would be a bug; the root has no
        parent and stays dirty. */
    method FlushNode(n: nat) returns (ok: bool)
      requires mounted && SafeLog(log) && (n in dirty ==> !ro) && (NeedsCard() ==> OwnCard())
      modifies this`trouble, this`log, this`dirty, this`bitmapDirty, this`faults
      ensures trouble == (old(trouble) || !ok) && (ok <==> faults == old(faults)) && faults >= old(faults)
      ensures SafeLog(log) && (ROOT in old(dirty) ==> ROOT in dirty)
      ensures ok ==> dirty == old(dirty) - ({n} - {ROOT})
      ensures n !in old(dirty) ==> ok && dirty == old(dirty) && bitmapDirty == old(bitmapDirty) && log == old(log)
      ensures Accounted(old(log), old(dirty), old(bitmapDirty), log, dirty, bitmapDirty)
    {
      if n !in dirty {
        return true;
      }
      if ro {
        assert false;
      }
      if n == ROOT {
        return true;
      }
      assert n in dirty - {ROOT};
      ghost var log0, dirty0, bitmap0 := log, dirty, bitmapDirty;
      ok := WriteThrough(Node(n));
      if !ok {
        return false;
      }
      assert log[|log0|].item == Node(n);
      dirty := dirty - {n};
      ghost var log1, dirty1, bitmap1 := log, dirty, bitmapDirty;
      ok := FlushBitmap();
      AccountedTwice(log0, dirty0, bitmap0, log1, dirty1, bitmap1, log, dirty, bitmapDirty);
    }

    /** exfat_flush_nodes: children before their parents, stopping at the first failure. */
    method FlushNodes() returns (ok: bool)
      requires mounted && SafeLog(log) && (ro ==> dirty == {}) && (NeedsCard() ==> OwnCard())
      modifies this`trouble, this`log, this`dirty, this`bitmapDirty, this`faults
      ensures trouble == (old(trouble) || !ok) && (ok <==> faults == old(faults)) && faults >= old(faults)
      ensures SafeLog(log)
      ensures ok ==> dirty <= {ROOT}
      ensures !old(NeedsCard()) ==> log == old(log)
      ensures Accounted(old(log), old(dirty), old(bitmapDirty), log, dirty, bitmapDirty)
    {
      var todo := dirty - {ROOT};
      while todo != {}
        invariant todo == dirty - {ROOT}
        invariant SafeLog(log) && trouble == old(trouble) && faults == old(faults)
        invariant Accounted(old(log), old(dirty), old(bitmapDirty), log, dirty, bitmapDirty)
        invariant !old(NeedsCard()) ==> log == old(log)
        decreases todo
      {
        var n :| n in todo;
        ghost var log1, dirty1, bitmap1 := log, dirty, bitmapDirty;
        ok := FlushNode(n);
        AccountedTwice(old(log), old(dirty), old(bitmapDirty), log1, dirty1, bitmap1, log, dirty, bitmapDirty);
        if !ok {
          return false;
        }
        todo := dirty - {ROOT};
      }
      ok := true;
    }

    /** set_volume_dirty. */
    method SetVolumeDirty() returns (ok: bool)
      requires mounted && SafeLog(log) && sb.exfat && (!ro ==> OwnCard())
      modifies this`trouble, this`log, this`slot, this`faults
      ensures trouble == (old(trouble) || !ok) && (ok <==> faults == old(faults)) && faults >= old(faults)
      ensures SafeLog(log) && (!ro ==> OwnCard()) && (slot.None? <==> old(slot).None?)
      ensures ro ==> ok && slot == old(slot) && log == old(log)
      ensures old(log) <= log && (ok && !ro ==> Wrote(old(log), log, Boot))
    {
      if ro {
        return true;
      }
      ok := WriteSuperBlock();
      if ok {
        ok := Sync();
      }
    }

    /** exfat_fsync */
    method Sync() returns (ok: bool)
      modifies this`trouble, this`faults
      ensures trouble == (old(trouble) || !ok) && faults == old(faults) + (if ok then 0 else 1)
    {
      ok := *;
      if !ok {
        trouble, faults := true, faults + 1;
      }
    }

    /** Reading from the slot, which needs a card. */
    method ReadCard() returns (ok: bool)
      modifies this`faults
      ensures faults == old(faults) + (if ok then 0 else 1) && (slot.None? ==> !ok)
    {
      ok := *;
      if slot.None? {
        ok := false;
      }
      if !ok {
        faults := faults + 1;
      }
    }

    /** same_volume: re-read the boot sector, which may fail, and compare. */
    method CheckSameVolume() returns (same: bool)
      modifies this`trouble, this`faults
      ensures trouble == (old(trouble) || (mounted && !same)) && faults >= old(faults)
      ensures same ==> mounted && slot.Some? && SameVolume(slot.value, sb)
      ensures mounted && slot.Some? && SameVolume(slot.value, sb) ==> (same <==> faults == old(faults))
      ensures mounted && slot.None? ==> faults > old(faults)
    {
      if !mounted {
        return false;
      }
      var read := ReadCard();
      same := read && SameVolume(slot.value, sb);
      trouble := trouble || !same;
    }

    /** discard_dirty_state. */
    method DiscardDirtyState()
      modifies this`dirty, this`bitmapDirty, this`lost
      ensures mounted ==> Clean() && lost == old(lost || NeedsCard())
      ensures !mounted ==> dirty == old(dirty) && bitmapDirty == old(bitmapDirty) && lost == old(lost)
    {
      if !mounted {
        return;
      }
      lost := lost || NeedsCard();
      dirty := {};
      bitmapDirty := false;
    }

    /** exfat_unmount: flush what can be flushed, drop the node cache - a dirty node there
        is a bug and halts - and write the final superblock unless read-only. */
    method UnmountFs()
      requires !halted && SafeLog(log) && (mounted ==> sb.exfat && (ro ==> dirty == {}))
      requires mounted && (NeedsCard() || !ro) ==> OwnCard()
      requires lost ==> trouble
      modifies this`trouble, this`lost, this`log, this`slot, this`dirty, this`bitmapDirty, this`mounted, this`halted, this`faults
      ensures SafeLog(log) && (lost ==> trouble) && (halted ==> trouble) && faults >= old(faults)
      ensures !halted ==> !mounted
      ensures !old(NeedsCard()) ==> !halted
      ensures old(mounted) && old(ro) && !old(NeedsCard()) ==> log == old(log) && slot == old(slot)
      ensures !old(mounted) ==> log == old(log) && slot == old(slot)
      ensures old(mounted) ==> Accounted(old(log), old(dirty), old(bitmapDirty), log, dirty, bitmapDirty)
      ensures old(mounted) && !halted ==> (lost <==> old(lost) || NeedsCard())
      ensures halted ==> NeedsCard()
      ensures old(mounted) && faults == old(faults) ==>
        !halted && lost == old(lost) && !NeedsCard() && (!ro ==> Wrote(old(log), log, Boot))
    {
      if !mounted {
        return;
      }
      FlushAtEnd();
      if dirty - {ROOT} != {} {
        halted := true;
        return;
      }
      ghost var log2 := log;
      if !ro {
        var _ := WriteSuperBlock();
      }
      LaterWrites(old(log), old(dirty), old(bitmapDirty), log2, log, dirty, bitmapDirty);
      lost := lost || NeedsCard();
      mounted := false;
    }

    /** The two flushes of exfat_unmount, whose results are ignored. */
    method FlushAtEnd()
      requires mounted && SafeLog(log) && (ro ==> dirty == {}) && (NeedsCard() ==> OwnCard())
      modifies this`trouble, this`log, this`dirty, this`bitmapDirty, this`faults
      ensures SafeLog(log) && faults >= old(faults) && (old(trouble) ==> trouble)
      ensures Accounted(old(log), old(dirty), old(bitmapDirty), log, dirty, bitmapDirty)
      ensures NeedsCard() ==> trouble && faults > old(faults) && old(NeedsCard())
      ensures !old(NeedsCard()) ==> log == old(log)
    {
      hide Wrote;
      var _ := FlushNodes();
      ghost var log1, dirty1, bitmap1 := log, dirty, bitmapDirty;
      var _ := FlushBitmap();
      AccountedTwice(old(log), old(dirty), old(bitmapDirty), log1, dirty1, bitmap1, log, dirty, bitmapDirty);
    }

    /** release_mount: an ordinary unmount if the card is provably the same volume; else
        nothing may be written, and nothing is. */
    method ReleaseMount()
      requires !halted && SafeLog(log) && (mounted ==> sb.exfat && (ro ==> Clean()))
      requires lost ==> trouble
      modifies this`trouble, this`lost, this`log, this`slot, this`dirty, this`bitmapDirty, this`mounted, this`halted, this`ro, this`faults
      ensures SafeLog(log) && (lost ==> trouble) && (halted ==> trouble) && faults >= old(faults)
      ensures !halted ==> !mounted
      ensures old(mounted && (slot.None? || !SameVolume(slot.value, sb))) ==>
        !halted && log == old(log) && slot == old(slot) && lost == old(lost || NeedsCard())
      ensures !old(NeedsCard()) ==> !halted && lost == old(lost)
      ensures old(mounted && slot.None?) ==> faults > old(faults)
      ensures old(mounted) ==>
        lost || halted || Accounted(old(log), old(dirty) - {ROOT}, old(bitmapDirty), log, dirty - {ROOT}, bitmapDirty)
      ensures old(mounted && slot.Some? && SameVolume(slot.value, sb)) && faults == old(faults) ==>
        !halted && lost == old(lost) && (!old(ro) ==> Wrote(old(log), log, Boot))
    {
      if !mounted {
        return;
      }
      var same := CheckSameVolume();
      if same {
        UnmountFs();
        return;
      }
      DiscardDirtyState();
      ro := true;
      UnmountFs();
    }

    /** exfat_mount and exfat_soil_super_block on whatever card is in the slot. */
    method MountFs() returns (ok: bool)
      requires !mounted && SafeLog(log)
      modifies this`mounted, this`sb, this`ro, this`dirty, this`bitmapDirty, this`log, this`slot, this`trouble, this`faults
      ensures SafeLog(log) && mounted == ok && (old(trouble) ==> trouble) && faults >= old(faults) && old(log) <= log
      ensures ok ==> sb.exfat && OwnCard() && Clean() && old(Mountable(slot)) && sb == old(slot).value
      ensures !ok ==> slot == old(slot) && log == old(log)
      ensures old(Mountable(slot)) && faults == old(faults) ==> ok && (!ro ==> Wrote(old(log), log, Boot))
    {
      ok := ReadCard();
      if !ok || !Mountable(slot) {
        return false;
      }
      sb, dirty, bitmapDirty := slot.value, {}, false;
      ro := *;
      mounted := true;
      if !ro {
        var _ := WriteSuperBlock();
      }
      return true;
    }

    /** do_inhibit with a non-zero argument, on a handler that is not inhibited yet. */
    method Park() returns (reply: Reply)
      requires Inv() && !halted && !inhibited
      modifies this
      ensures Inv() && reply == Success && inhibited && quit == old(quit)
      ensures nlocks == old(nlocks) && nfiles == old(nfiles) && faults >= old(faults)
      ensures old(nlocks != 0 || nfiles != 0) ==> !halted && mounted && sb == old(sb)
      ensures old(nlocks == 0 && nfiles == 0) && !halted ==> !mounted
      ensures lost || halted || Accounted(old(log), old(dirty) - {ROOT}, old(bitmapDirty), log, dirty - {ROOT}, bitmapDirty)
      ensures faults == old(faults) ==>
        !halted && lost == old(lost) && (old(!ro && slot.Some?) ==> Wrote(old(log), log, Boot))
    {
      hide Accounted, Wrote;
      AccountedAtFirst(log, dirty - {ROOT}, bitmapDirty);
      if nlocks == 0 && nfiles == 0 {
        ReleaseMount();
      } else if !ro {
        ParkOpen();
      }
      inhibited := true;
      reply := Success;
    }

    /** The mount stays in memory: it is flushed as far as the medium allows, the rest is discarded. */
    method ParkOpen()
      requires mounted && !halted && SafeLog(log) && sb.exfat && !ro && OwnCard() && (lost ==> trouble)
      modifies this`trouble, this`lost, this`log, this`slot, this`dirty, this`bitmapDirty, this`faults
      ensures SafeLog(log) && OwnCard() && (lost ==> trouble) && dirty <= {ROOT} && !bitmapDirty && faults >= old(faults)
      ensures (old(trouble) ==> trouble)
      ensures lost || Accounted(old(log), old(dirty) - {ROOT}, old(bitmapDirty), log, dirty - {ROOT}, bitmapDirty)
      ensures faults == old(faults) ==> lost == old(lost) && Wrote(old(log), log, Boot)
    {
      hide Wrote;
      var flushed := FlushNodes();
      ghost var log1, dirty1, bitmap1 := log, dirty, bitmapDirty;
      if flushed {
        flushed := FlushBitmap();
      }
      AccountedTwice(old(log), old(dirty), old(bitmapDirty), log1, dirty1, bitmap1, log, dirty, bitmapDirty);
      ghost var log2 := log;
      if flushed {
        flushed := SetVolumeDirty();
      }
      LaterWrites(old(log), old(dirty), old(bitmapDirty), log2, log, dirty, bitmapDirty);
      if !flushed {
        DiscardDirtyState();
      }
    }

    /** do_inhibit with zero, on an inhibited handler. */
    method Wake() returns (reply: Reply)
      requires Inv() && !halted && inhibited
      modifies this
      ensures Inv() && !halted && quit == old(quit) && nlocks == old(nlocks) && nfiles == old(nfiles) && faults >= old(faults)
      ensures reply == Success <==> !inhibited
      ensures old(mounted) ==> mounted && sb == old(sb)
      ensures old(mounted && (slot.None? || !SameVolume(slot.value, sb))) ==>
                reply == ObjectInUse && log == old(log) && slot == old(slot)
      ensures Woken(old(mounted), old(ro), old(sb), old(slot), faults == old(faults), reply)
      ensures reply == Success ==> mounted && OwnCard() && (old(!mounted) ==> sb == old(slot).value)
      ensures reply == Success && faults == old(faults) && !ro ==> Wrote(old(log), log, Boot)
    {
      if !mounted {
        var ok := MountFs();
        if !ok {
          return NotADosDisk;
        }
        inhibited := false;
        return Success;
      }
      var same := CheckSameVolume();
      if !same {
        return ObjectInUse;
      }
      var ok := true;
      if !ro {
        ok := SetVolumeDirty();
      }
      if !ok {
        return DiskFull;
      }
      inhibited := false;
      return Success;
    }

    /** release_if_idle. */
    method ReleaseIfIdle()
      requires SafeLog(log) && !halted && (lost ==> trouble)
      requires inhibited && mounted ==> sb.exfat && dirty <= {ROOT} && !bitmapDirty && (ro ==> Clean())
      requires !inhibited ==> Inv()
      requires !mounted ==> nlocks == 0 && nfiles == 0
      modifies this
      ensures Inv() && !halted && inhibited == old(inhibited) && quit == old(quit) && faults >= old(faults) && lost == old(lost)
      ensures nlocks == old(nlocks) && nfiles == old(nfiles)
      ensures inhibited && nlocks == 0 && nfiles == 0 ==> !mounted
      ensures old(inhibited && mounted && (slot.None? || !SameVolume(slot.value, sb))) ==> log == old(log) && slot == old(slot)
      ensures !inhibited || !old(mounted) || !(nlocks == 0 && nfiles == 0) ==>
        mounted == old(mounted) && log == old(log) && slot == old(slot) && dirty == old(dirty) && bitmapDirty == old(bitmapDirty)
        && faults == old(faults) && ro == old(ro) && sb == old(sb)
    {
      if inhibited && mounted && nlocks == 0 && nfiles == 0 {
        ReleaseMount();
      }
    }

    /** A packet that changes the file system: it makes metadata dirty, writes data and flushes,
        any number of times, and may drop nodes it has deleted. Read-only volumes refuse it. */
    method Mutate() returns (reply: Reply)
      requires Inv() && !halted && !inhibited
      modifies this`trouble, this`log, this`dirty, this`bitmapDirty, this`faults
      ensures Inv() && faults >= old(faults) && old(log) <= log
      ensures ro ==>
        reply == WriteProtected && log == old(log) && dirty == old(dirty) && bitmapDirty == old(bitmapDirty) && faults == old(faults)
    {
      if ro {
        return WriteProtected;
      }
      var steps: nat := *;
      while steps > 0
        invariant SafeLog(log) && (old(trouble) ==> trouble) && faults >= old(faults) && old(log) <= log
      {
        var n: nat := *;
        var what: nat := *;
        if what == 0 {
          dirty := dirty + {n};
        } else if what == 1 {
          bitmapDirty := true;
        } else if what == 2 {
          var _ := WriteThrough(Data);
        } else if what == 3 {
          var _ := FlushNode(n);
        } else {
          dirty := dirty - {n};
        }
        steps := steps - 1;
      }
      reply := *;
    }

    /** The packets that hand out a lock or open a file, after the gate. */
    method HandOut(lock: bool, writes: bool) returns (reply: Reply)
      requires Inv() && !halted && !inhibited
      modifies this`trouble, this`log, this`dirty, this`bitmapDirty, this`nlocks, this`nfiles, this`faults
      ensures Inv() && faults >= old(faults) && old(log) <= log
      ensures reply == Success ==> nlocks == old(nlocks) + (if lock then 1 else 0) && nfiles == old(nfiles) + (if lock then 0 else 1)
      ensures reply != Success ==> nlocks == old(nlocks) && nfiles == old(nfiles)
      ensures writes && ro ==> reply == WriteProtected
      ensures !writes || ro ==> log == old(log) && dirty == old(dirty) && bitmapDirty == old(bitmapDirty) && faults == old(faults)
    {
      reply := Success;
      if writes {
        reply := Mutate();
        if reply != Success {
          return;
        }
      }
      var ok: bool := *;
      if !ok {
        return OtherError;
      }
      if lock {
        nlocks := nlocks + 1;
      } else {
        nfiles := nfiles + 1;
      }
    }

    /** do_fh_from_lock: the lock is absorbed into the file handle. */
    method FileFromLock(isNull: bool) returns (reply: Reply)
      requires Inv() && !halted && !inhibited && (!isNull ==> nlocks > 0)
      modifies this`nlocks, this`nfiles
      ensures Inv() && (isNull ==> reply != Success)
      ensures nlocks == old(nlocks) - (if reply == Success then 1 else 0) && nfiles == old(nfiles) + (if reply == Success then 1 else 0)
    {
      var ok: bool := *;
      if isNull || !ok {
        return OtherError;
      }
      nlocks, nfiles := nlocks - 1, nfiles + 1;
      return Success;
    }

    /** ACTION_FREE_LOCK. */
    method FreeLock(isNull: bool) returns (reply: Reply)
      requires Inv() && !halted && (!isNull ==> nlocks > 0)
      modifies this
      ensures Inv() && !halted && inhibited == old(inhibited) && quit == old(quit) && reply == Success && faults >= old(faults)
      ensures nlocks == old(nlocks) - (if isNull then 0 else 1) && nfiles == old(nfiles)
      ensures Answered(Packet.FreeLock(isNull), old(Now()), Now(), reply)
    {
      if !isNull {
        nlocks := nlocks - 1;
      }
      ReleaseIfIdle();
      return Success;
    }

    /** do_end: the node is flushed unless the handler is parked, whose card may be foreign. */
    method End(isNull: bool, node: nat) returns (reply: Reply)
      requires Inv() && !halted && (!isNull ==> nfiles > 0)
      modifies this
      ensures Inv() && !halted && inhibited == old(inhibited) && quit == old(quit) && faults >= old(faults)
      ensures nfiles == old(nfiles) - (if isNull then 0 else 1) && nlocks == old(nlocks)
      ensures old(inhibited) || isNull || old(ro) ==> reply == Success
      ensures reply == Success || reply == DiskFull
      ensures old(!inhibited && !ro) && !isNull ==>
        && (reply == Success <==> faults == old(faults))
        && (reply == Success ==> dirty == old(dirty) - ({node} - {ROOT}))
        && Accounted(old(log), old(dirty), old(bitmapDirty), log, dirty, bitmapDirty)
      ensures old(inhibited && (slot.None? || !SameVolume(slot.value, sb))) ==> log == old(log) && slot == old(slot)
      ensures Answered(Packet.End(isNull, node), old(Now()), Now(), reply)
    {
      hide Accounted, Wrote, SafeLog, SameVolume, Woken, Mountable;
      reply := Success;
      if !isNull {
        if !ro && !inhibited {
          var ok := FlushNode(node);
          if !ok {
            reply := DiskFull;
          }
        }
        nfiles := nfiles - 1;
      }
      ReleaseIfIdle();
    }

    /** ACTION_FLUSH. */
    method FlushAll() returns (reply: Reply)
      requires Inv() && !halted
      modifies this`trouble, this`log, this`dirty, this`bitmapDirty, this`faults
      ensures Inv() && faults >= old(faults)
      ensures inhibited || ro ==> reply == Success && log == old(log)
      ensures !inhibited && !ro ==>
        && (reply == Success <==> faults == old(faults)) && (reply != Success ==> reply == DiskFull)
        && (reply == Success ==> !NeedsCard())
        && Accounted(old(log), old(dirty), old(bitmapDirty), log, dirty, bitmapDirty)
      ensures Answered(Packet.Flush, old(Now()), Now(), reply)
    {
      hide Accounted, Wrote, SafeLog, SameVolume, Woken, Mountable;
      AccountedAtFirst(log, dirty, bitmapDirty);
      if ro || !mounted || inhibited {
        return Success;
      }
      var ok := FlushNodes();
      ghost var log1, dirty1, bitmap1 := log, dirty, bitmapDirty;
      if ok {
        ok := FlushBitmap();
        AccountedTwice(old(log), old(dirty), old(bitmapDirty), log1, dirty1, bitmap1, log, dirty, bitmapDirty);
      }
      if ok {
        ok := Sync();
      }
      return if ok then Success else DiskFull;
    }

    /** do_format: legal only while inhibited and fully released; not a write through a
        mount, and it gives the card a new superblock or fails half-way. */
    method Format(fits: bool) returns (reply: Reply)
      requires Inv() && !halted
      modifies this`slot, this`faults
      ensures Inv() && faults >= old(faults)
      ensures !inhibited || mounted ==>
        slot == old(slot) && reply == if ro && mounted then WriteProtected else ObjectInUse
      ensures inhibited && !mounted ==>
        && (reply == Success <==> old(slot).Some? && fits && faults == old(faults)) && (reply != Success ==> reply == NotADosDisk)
        && (reply == Success ==> Mountable(slot))
      ensures Answered(Packet.Format(fits), old(Now()), Now(), reply)
    {
      if ro && mounted {
        return WriteProtected;
      }
      if !inhibited || mounted {
        return ObjectInUse;
      }
      if slot.None? || !fits {
        return NotADosDisk;
      }
      var ok: bool := *;
      var written: SuperBlock := *;
      if !ok {
        slot, faults := Some(written), faults + 1;
        return NotADosDisk;
      }
      slot := Some(written.(exfat := true, readable := true));
      return Success;
    }

    /** A packet that needs the medium, on a handler that is not inhibited, or none at all. */
    method Serve(p: Packet) returns (reply: Reply)
      requires Inv() && !halted && HeldWith(p, nlocks, nfiles) && !Control(p) && (NeedsMedium(p) ==> !inhibited)
      modifies this`trouble, this`log, this`dirty, this`bitmapDirty, this`nlocks, this`nfiles, this`faults
      ensures Inv() && Served(p, old(Now()), Now(), reply)
    {
      hide Inv, Served;
      if HandsOutLock(p) || OpensFile(p) {
        reply := ServeOpening(p);
      } else if Changes(p) {
        reply := ServeChange(p);
      } else {
        reply := ServeOther(p);
      }
    }

    method ServeOpening(p: Packet) returns (reply: Reply)
      requires Inv() && !halted && !inhibited && (HandsOutLock(p) || OpensFile(p))
      modifies this`trouble, this`log, this`dirty, this`bitmapDirty, this`nlocks, this`nfiles, this`faults
      ensures Inv() && Served(p, old(Now()), Now(), reply)
    {
      hide Inv;
      reply := HandOut(HandsOutLock(p), Changes(p));
    }

    method ServeChange(p: Packet) returns (reply: Reply)
      requires Inv() && !halted && !inhibited && Changes(p) && !HandsOutLock(p) && !OpensFile(p)
      modifies this`trouble, this`log, this`dirty, this`bitmapDirty, this`faults
      ensures Inv() && Served(p, old(Now()), Now(), reply)
    {
      hide Inv;
      reply := Mutate();
    }

    /** Reads and questions change no state of this model. */
    method ServeOther(p: Packet) returns (reply: Reply)
      requires Inv() && !halted && HeldWith(p, nlocks, nfiles) && !Control(p) && (NeedsMedium(p) ==> !inhibited)
      requires !HandsOutLock(p) && !OpensFile(p) && !Changes(p)
      modifies this`nlocks, this`nfiles
      ensures Inv() && Served(p, old(Now()), Now(), reply)
    {
      hide Inv;
      if p.FhFromLock? {
        reply := FileFromLock(p.isNull);
      } else if p.Unknown? {
        reply := ActionNotKnown;
      } else {
        reply := *;
      }
    }

    /** ACTION_INHIBIT. */
    method DoInhibit(on: bool) returns (reply: Reply)
      requires Inv() && !halted
      modifies this
      ensures Inv() && Answered(Packet.Inhibit(on), old(Now()), Now(), reply)
    {
      hide Accounted, Wrote, SafeLog;
      if on && !inhibited {
        reply := Park();
      } else if !on && inhibited {
        reply := Wake();
      } else {
        reply := Success;
      }
    }

    /** One packet of the main loop, gate included. */
    method Dispatch(p: Packet) returns (reply: Reply)
      requires Inv() && !halted && HeldWith(p, nlocks, nfiles)
      modifies this
      ensures Inv() && Handled(p, old(Now()), Now(), reply)
    {
      hide Inv, Answered, Served;
      if inhibited && NeedsMedium(p) {
        return NotADosDisk;
      }
      if Control(p) {
        reply := Answer(p);
      } else {
        reply := Serve(p);
      }
    }

    /** A packet that inhibit does not hold up. */
    method Answer(p: Packet) returns (reply: Reply)
      requires Inv() && !halted && HeldWith(p, nlocks, nfiles) && Control(p)
      modifies this
      ensures Inv() && Answered(p, old(Now()), Now(), reply)
    {
      hide Inv, Answered;
      match p {
        case FreeLock(isNull) => reply := this.FreeLock(isNull);
        case End(isNull, node) => reply := this.End(isNull, node);
        case Flush => reply := FlushAll();
        case Format(fits) => reply := this.Format(fits);
        case Inhibit(on) => reply := DoInhibit(on);
        case Die => reply := DoDie();
      }
    }

    /** ACTION_DIE. */
    method DoDie() returns (reply: Reply)
      requires Inv() && !halted
      modifies this`quit
      ensures Inv() && Answered(Packet.Die, old(Now()), Now(), reply)
    {
      if nlocks != 0 || nfiles != 0 {
        return ObjectInUse;
      }
      quit := true;
      return Success;
    }

    /** What follows the main loop: remove the volume and let go of the mount. */
    method Shutdown()
      requires Inv() && !halted && nlocks == 0 && nfiles == 0
      modifies this
      ensures SafeLog(log) && (lost ==> trouble) && (halted ==> trouble) && (!halted ==> !mounted) && quit == old(quit)
      ensures old(mounted) && faults == old(faults) ==>
        !halted && lost == old(lost) && (!old(ro) ==> Wrote(old(log), log, Boot))
    {
      UnmountFs();
    }

    ghost function Now(): Picture
      reads this
    {
      Picture(inhibited, mounted, quit, halted, nlocks, nfiles, sb, ro, dirty, bitmapDirty, slot, log, trouble, lost, faults)
    }

    /** The card in the slot changes. */
    method Change(card: Option<SuperBlock>)
      requires Inv() && (card.None? || inhibited || SameVolume(card.value, sb))
      modifies this`slot
      ensures Inv() && slot == card
    {
      slot := card;
    }

    /** One event. One that cannot happen is skipped. */
    method React(e: Event) returns (ghost reply: Option<Reply>)
      requires Inv() && !halted
      modifies this
      ensures Inv() && Happens(Step(e, old(Now()), Now(), reply))
    {
      hide Inv, Handled;
      reply := None;
      match e {
        case Packet(p) =>
          if HeldWith(p, nlocks, nfiles) {
            var r := Dispatch(p);
            reply := Some(r);
          }
        case Card(card) =>
          if card.None? || inhibited || SameVolume(card.value, sb) {
            Change(card);
          }
      }
    }

    /** The inner loop: drain the port, with card changes in between, until a halt. */
    method Drain(queue: seq<Event>) returns (ghost trace: seq<Step>)
      requires Inv() && !halted && !quit && DieLast(queue)
      modifies this
      ensures Inv() && (quit && !halted ==> nlocks == 0 && nfiles == 0)
      ensures Traced(trace, old(Now()), Now()) && EventsOf(trace) <= queue && (EventsOf(trace) == queue || halted)
    {
      hide Inv, Happens;
      var k := 0;
      trace := [];
      while k < |queue| && !halted
        invariant k <= |queue| && Inv() && Traced(trace, old(Now()), Now()) && EventsOf(trace) == queue[..k]
        invariant quit && !halted ==> nlocks == 0 && nfiles == 0
        invariant quit ==> exists j :: 0 <= j < k && queue[j] == Event.Packet(Die)
      {
        ghost var before := Now();
        ghost var reply := React(queue[k]);
        QuitBy(Step(queue[k], before, Now(), reply));
        TracedOn(trace, old(Now()), Step(queue[k], before, Now(), reply));
        trace := trace + [Step(queue[k], before, Now(), reply)];
        k := k + 1;
      }
    }

    /** The whole life of a handler: queue after queue until it is told to quit. Every packet is
        answered as Handled says. Whatever the packets, the card changes and the failures, no write
        made through a mount has reached a card that is not the mounted volume; and unwritten
        metadata is dropped, and the handler halts, only after a transfer failed or the volume was
        not in the slot. */
    method MainLoop(queues: seq<seq<Event>>) returns (ghost trace: seq<Step>, ghost drained: nat, ghost last: Picture)
      requires Inv() && !halted && !quit && forall k :: 0 <= k < |queues| ==> DieLast(queues[k])
      modifies this
      ensures SafeLog(log) && (lost ==> trouble) && (halted ==> trouble)
      ensures !halted && !quit ==> Inv()
      ensures !halted && quit ==> !mounted
      ensures Traced(trace, old(Now()), last) && drained <= |queues| && (drained == |queues| || last.quit || last.halted)
      ensures EventsOf(trace) <= Joined(queues[..drained]) && (EventsOf(trace) == Joined(queues[..drained]) || last.halted)
      ensures !last.quit || last.halted ==> Now() == last
      ensures last.quit && !last.halted && last.mounted && faults == last.faults ==>
        !halted && lost == last.lost && (!last.ro ==> Wrote(last.log, log, Boot))
    {
      hide Inv, Happens, Traced;
      var k := 0;
      trace, drained := [], 0;
      NothingTraced(Now());
      while k < |queues| && !quit && !halted
        invariant k <= |queues| && Inv()
        invariant quit && !halted ==> nlocks == 0 && nfiles == 0
        invariant Traced(trace, old(Now()), Now()) && EventsOf(trace) <= Joined(queues[..k])
        invariant EventsOf(trace) == Joined(queues[..k]) || halted
      {
        ghost var before := Now();
        ghost var more := Drain(queues[k]);
        TracedTwice(trace, more, old(Now()), before, Now());
        assert queues[..k + 1][..k] == queues[..k];
        trace := trace + more;
        k := k + 1;
      }
      drained, last := k, Now();
      SafeNow();
      if quit && !halted {
        Shutdown();
      }
    }

    lemma SafeNow()
      requires Inv()
      ensures SafeLog(log) && (lost ==> trouble) && (halted ==> trouble)
    {
    }

    /** startup, after a successful mount_fs. */
    constructor (card: SuperBlock, readOnly: bool)
      requires card.exfat
      ensures Inv() && !halted && !quit && mounted && !inhibited && slot == Some(card)
    {
      inhibited, mounted, quit, halted := false, true, false, false;
      nlocks, nfiles := 0, 0;
      sb, ro, dirty, bitmapDirty := card, readOnly, {}, false;
      slot := Some(card);
      log := if readOnly then [] else [Entry(card, card, Boot, true)];
      trouble, lost, faults := false, false, 0;
    }
  }

  /** The state of a handler, as a value. */
  datatype Picture = Picture(inhibited: bool, mounted: bool, quit: bool, halted: bool, nlocks: nat, nfiles: nat,
                             sb: SuperBlock, ro: bool, dirty: set<nat>, bitmapDirty: bool, slot: Option<SuperBlock>,
                             log: seq<Entry>, trouble: bool, lost: bool, faults: nat)

  /** Callers pass only locks and files they hold. */
  predicate HeldWith(p: Packet, nlocks: nat, nfiles: nat) {
    match p
    case FhFromLock(isNull) => !isNull ==> nlocks > 0
    case FreeLock(isNull) => !isNull ==> nlocks > 0
    case End(isNull, _) => !isNull ==> nfiles > 0
    case _ => true
  }

  predicate HandsOutLock(p: Packet) {
    p.LocateObject? || p.CopyDir? || p.CopyDirFh? || p.Parent? || p.ParentFh? || p.CreateDir?
  }

  predicate OpensFile(p: Packet) {
    p.FindInput? || p.FindOutput? || p.FindUpdate?
  }

  /** The packets that change the file system. */
  predicate Changes(p: Packet) {
    || p.CreateDir? || p.FindOutput? || p.FindUpdate? || p.Write? || p.SetFileSize? || p.SetProtect? || p.SetDate?
    || p.DeleteObject? || p.RenameObject? || p.RenameDisk?
  }

  /** What a packet does that reads or changes the file system. */
  ghost predicate Served(p: Packet, s: Picture, s': Picture, reply: Reply) {
    && s' == s.(nlocks := s'.nlocks, nfiles := s'.nfiles, dirty := s'.dirty, bitmapDirty := s'.bitmapDirty,
                log := s'.log, trouble := s'.trouble, faults := s'.faults)
    && s.log <= s'.log && s'.faults >= s.faults
    && (HandsOutLock(p) ==> s'.nlocks == s.nlocks + (if reply == Success then 1 else 0) && s'.nfiles == s.nfiles)
    && (OpensFile(p) ==> s'.nfiles == s.nfiles + (if reply == Success then 1 else 0) && s'.nlocks == s.nlocks)
    && (p.FhFromLock? ==>
          && (p.isNull ==> reply != Success)
          && s' == (if reply == Success then s.(nlocks := s'.nlocks, nfiles := s.nfiles + 1) else s)
          && s'.nlocks == s.nlocks - (if reply == Success then 1 else 0))
    && (!HandsOutLock(p) && !OpensFile(p) && !p.FhFromLock? ==> s'.nlocks == s.nlocks && s'.nfiles == s.nfiles)
    && (Changes(p) && s.ro ==> reply == WriteProtected)
    && (!Changes(p) || s.ro ==> s' == s.(nlocks := s'.nlocks, nfiles := s'.nfiles, trouble := s'.trouble))
    && (p.Unknown? ==> reply == ActionNotKnown)
  }

  /** What the packets do that inhibit does not hold up. Without a failed transfer closing and
      flushing succeed and leave nothing unwritten, inhibit loses nothing, uninhibit comes back on
      its card, and a format that fits is made. */
  ghost predicate Answered(p: Packet, s: Picture, s': Picture, reply: Reply) {
    && s'.faults >= s.faults
    && (!p.Die? ==> s'.quit == s.quit)
    && s'.nlocks == s.nlocks - (if p.FreeLock? && !p.isNull then 1 else 0)
    && s'.nfiles == s.nfiles - (if p.End? && !p.isNull then 1 else 0)
    && (!p.Inhibit? ==> s'.inhibited == s.inhibited && !s'.halted)
    && match p
       case FreeLock(_) => reply == Success
       case End(isNull, node) =>
         if s.inhibited || s.ro || isNull then reply == Success
         else
           && (reply == Success <==> s'.faults == s.faults) && (reply != Success ==> reply == DiskFull)
           && (reply == Success ==> s'.dirty == s.dirty - ({node} - {ROOT}))
           && Accounted(s.log, s.dirty, s.bitmapDirty, s'.log, s'.dirty, s'.bitmapDirty)
       case Flush =>
         if s.inhibited || s.ro then reply == Success && s'.log == s.log
         else
           && (reply == Success <==> s'.faults == s.faults) && (reply != Success ==> reply == DiskFull)
           && (reply == Success ==> s'.dirty <= {ROOT} && !s'.bitmapDirty)
           && Accounted(s.log, s.dirty, s.bitmapDirty, s'.log, s'.dirty, s'.bitmapDirty)
       case Format(fits) =>
         && s'.log == s.log
         && if !s.inhibited || s.mounted then s'.slot == s.slot && reply == if s.ro && s.mounted then WriteProtected else ObjectInUse
            else
              && (reply == Success <==> s.slot.Some? && fits && s'.faults == s.faults)
              && (reply != Success ==> reply == NotADosDisk) && (reply == Success ==> Mountable(s'.slot))
       case Inhibit(on) =>
         if on == s.inhibited then reply == Success && s' == s
         else if on then
           && reply == Success && s'.inhibited && (s.nlocks == s.nfiles == 0 && !s'.halted ==> !s'.mounted)
           && (s.nlocks != 0 || s.nfiles != 0 ==> !s'.halted && s'.mounted && s'.sb == s.sb)
           && (s'.lost || s'.halted || Accounted(s.log, s.dirty - {ROOT}, s.bitmapDirty, s'.log, s'.dirty - {ROOT}, s'.bitmapDirty))
           && (s'.faults == s.faults ==> !s'.halted && s'.lost == s.lost)
         else
           && Woken(s.mounted, s.ro, s.sb, s.slot, s'.faults == s.faults, reply)
           && (reply == Success <==> !s'.inhibited) && !s'.halted && (s.mounted ==> s'.mounted && s'.sb == s.sb)
           && (reply == Success && !s.mounted ==> s'.mounted && s.slot.Some? && s'.sb == s.slot.value)
       case Die =>
         && (reply == Success <==> s.nlocks == 0 && s.nfiles == 0) && (reply != Success ==> reply == ObjectInUse)
         && s' == s.(quit := s.quit || reply == Success)
       case _ => true
  }

  /** What one packet does. Inhibited handlers serve none that needs the medium. */
  ghost predicate Handled(p: Packet, s: Picture, s': Picture, reply: Reply) {
    if s.inhibited && NeedsMedium(p) then reply == NotADosDisk && s' == s
    else if Control(p) then Answered(p, s, s', reply)
    else Served(p, s, s', reply)
  }

  /** An event with the states around it, and the answer that a packet gets. */
  datatype Step = Step(e: Event, before: Picture, after: Picture, reply: Option<Reply>)

  /** A packet whose lock or file the caller holds is handled. A card may go at any time and the
      mounted volume may come back at any time; another card comes only while the handler is
      inhibited. */
  ghost predicate Happens(t: Step) {
    match t.e
    case Packet(p) =>
      if HeldWith(p, t.before.nlocks, t.before.nfiles) then t.reply.Some? && Handled(p, t.before, t.after, t.reply.value)
      else t.reply.None? && t.after == t.before
    case Card(card) =>
      t.reply.None? &&
      if card.None? || t.before.inhibited || SameVolume(card.value, t.before.sb) then t.after == t.before.(slot := card)
      else t.after == t.before
  }

  /** Events happen one after the other. */
  ghost predicate Traced(trace: seq<Step>, s: Picture, s': Picture) {
    && (forall k :: 0 <= k < |trace| ==> Happens(trace[k]))
    && (forall k :: 0 <= k < |trace| - 1 ==> trace[k].after == trace[k + 1].before)
    && (if trace == [] then s' == s else trace[0].before == s && trace[|trace| - 1].after == s')
  }

  function EventsOf(trace: seq<Step>): (r: seq<Event>)
    ensures |r| == |trace| && forall k :: 0 <= k < |trace| ==> r[k] == trace[k].e
  {
    seq(|trace|, k requires 0 <= k < |trace| => trace[k].e)
  }

  function Joined(queues: seq<seq<Event>>): seq<Event> {
    if queues == [] then [] else Joined(queues[..|queues| - 1]) + queues[|queues| - 1]
  }

  lemma NothingTraced(s: Picture)
    ensures Traced([], s, s) && EventsOf([]) == []
  {
  }

  lemma TracedOn(trace: seq<Step>, s: Picture, t: Step)
    requires Traced(trace, s, t.before) && Happens(t)
    ensures Traced(trace + [t], s, t.after)
    ensures EventsOf(trace + [t]) == EventsOf(trace) + [t.e]
  {
    hide Happens;
  }

  lemma TracedTwice(a: seq<Step>, b: seq<Step>, s: Picture, m: Picture, s': Picture)
    requires Traced(a, s, m) && Traced(b, m, s')
    ensures Traced(a + b, s, s') && EventsOf(a + b) == EventsOf(a) + EventsOf(b)
  {
    hide Happens;
    forall k | 0 <= k < |a + b| - 1
      ensures (a + b)[k].after == (a + b)[k + 1].before
    {
      if k == |a| - 1 {
        assert b != [];
      }
    }
  }

  /** Only DIE makes the handler quit, when nothing is open; what comes behind opens nothing. */
  lemma QuitBy(t: Step)
    requires Happens(t)
    ensures t.after.quit && !t.before.quit ==> t.e == Event.Packet(Die) && t.after.nlocks == 0 && t.after.nfiles == 0
    ensures t.e.Card? ==> t.after.nlocks == t.before.nlocks && t.after.nfiles == t.before.nfiles
  {
  }

  /** What uninhibit answers. A released handler mounts what is in the slot, a parked one resumes
      on the volume it was mounted on; every other answer has its card or a failed transfer. */
  predicate Woken(mounted: bool, ro: bool, sb: SuperBlock, slot: Option<SuperBlock>, faultless: bool, reply: Reply) {
    if !mounted then
      && (reply == Success || reply == NotADosDisk)
      && (reply == Success ==> Mountable(slot))
      && (Mountable(slot) && faultless ==> reply == Success)
    else if slot.None? || !SameVolume(slot.value, sb) then reply == ObjectInUse
    else
      && (reply == Success <==> faultless)
      && (reply != Success ==> reply == ObjectInUse || (reply == DiskFull && !ro))
  }

  /** Packets that the handler answers itself. */
  predicate Control(p: Packet) {
    p.FreeLock? || p.End? || p.Flush? || p.Format? || p.Inhibit? || p.Die?
  }

  lemma AccountedAtFirst(log: seq<Entry>, dirty: set<nat>, bitmap: bool)
    ensures Accounted(log, dirty, bitmap, log, dirty, bitmap)
  {
  }

  /** Further writes change no account. */
  lemma LaterWrites(log0: seq<Entry>, dirty0: set<nat>, bitmap0: bool, log1: seq<Entry>, log2: seq<Entry>, dirty: set<nat>, bitmap: bool)
    requires Accounted(log0, dirty0, bitmap0, log1, dirty, bitmap) && log1 <= log2
    ensures Accounted(log0, dirty0, bitmap0, log2, dirty, bitmap)
    ensures forall item :: Wrote(log1, log2, item) ==> Wrote(log0, log2, item)
  {
    AccountedTwice(log0, dirty0, bitmap0, log1, dirty, bitmap, log2, dirty, bitmap);
  }

  /** Nothing more is queued behind a DIE packet. */
  ghost predicate DieLast(queue: seq<Event>) {
    forall i, j :: 0 <= i < j < |queue| && queue[i] == Event.Packet(Die) ==> queue[j].Card?
  }
}
