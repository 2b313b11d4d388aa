# exFAT for AmigaOS, in Dafny

A model of the exFAT engine, its block layer, its formatter and the AmigaDOS handler
around it, with proofs that they keep their promises. The engine is a stack of
refinements - bitmap and FAT, chains, file contents, directories - over a block layer
that is a flat byte array, and above it runs the protocol that keeps a removable card safe.

| module | what it models |
|---|---|
| Arith, Common, ClusterBitmap, Chain | rounding and shared types; the allocation bitmap; chains as implicit runs or FAT lists, and the ownership invariant |
| Clusters | `cluster.c`: nodes and the volume as objects, allocation, grow, shrink, truncate, the seek cache |
| FileBytes, FileIo, FileRuns | `io.c`: reads and writes as operations on byte sequences, for one call and for whole runs |
| Names, TreeShape, Tree | `lookup.c` and the tree part of `node.c`: names under the up-case table, linked child lists, paths, create, delete, rename |
| Slots | directory entry sets as intervals: the slot search, create, unlink, rename, shrinking, and the clusters they need |
| Namespace | tree and slots together: create, mkdir, remove and rename with the space there is |
| EntrySet, Store, Directory | the bytes of an entry set: writer, checksum, reader; the entries of a directory in the clusters of its node; a directory written there by any run of changes and read back |
| BlockDevice | `dev_io.c`: cached block, read-modify-write, chunks, bouncing |
| Handler | inhibit, park, release and uninhibit over a removable card |
| Scan | directory scans of AmigaDOS under deletion |
| Mkfs, Vbr, Mount, FreshRoot | the formatter's layout, FAT and bitmap; the boot region's checksum; the first mount; the root directory that is written and read there |
| Utf, Time, Division | codecs between UTF-8 and UTF-16, time stamps, 64-bit division |

Objects whose fields the program updates are classes here, its loops are loops, and each
method is tied to a specification function or states the property outright. The invariants
(`Clusters.Volume.Valid`, `TreeShape.Good`, `Slots.Good`, `Namespaces.Namespace.Valid`, `Directories.DirectoryFile.Valid`, `BlockDevice.Device.Coherent`,
`Handler.Handler.Inv`) hold between operations.

Where the code does not do what one would expect, the model follows the code and the
exact condition is proved:

- a write behind ValidDataLength uncovers stale bytes: a write that starts at or before ValidDataLength, or behind the end, is right on every medium (`FileIo.SafeWrite`), for every other one there is a medium on which it is wrong (`FileBytes.UnsafeWriteWrong`, `FileBytes.GapIsForced`);
- sizes that need 2^32 clusters are taken modulo 2^32: such a truncation keeps the invariant only when it fails, and with an erasure it zeroes what follows a contiguous file in the heap (`Clusters.NarrowingHarmless`, `Clusters.Volume.TruncateOversized`, `Clusters.Volume.OthersErased`);
- the extension path of the slot search can hand out entries of the root that are in use (`Slots.TailUnused`, `Slots.CommitStrays`, `Slots.RootOverwritten`);
- shrinking a directory ignores optional entries (`Slots.Directory.ShrinkDirectory`, `Slots.NotSnugIsCut`, `Slots.TailCut`) and entries of the root without a node (`Slots.CutKeepsUsed`, `Slots.CutKeepsStrays`, `Slots.LabelCut`); when a create, remove or rename keeps the latter is part of its contract (`Namespaces.Namespace.Rename`);
- a bounced read leaves the wrong block under the cached name (`BlockDevice.SafeReadRight`, `BlockDevice.UnsafeReadWrong`), and so can a bounced read that fails (`BlockDevice.FailureTruthful`);
- with sectors larger than 512 bytes a formatted boot region does not verify: of all volume serials that differ in their first byte at most one does, whatever the rest of the super block (`Vbr.WrittenAccepted`, `Vbr.LargerSectorsFail`);
- a label with an unpaired high surrogate is formatted, and the volume cannot be mounted (`FreshRoots.RootReadable`, `FreshRoots.UnreadableLabel`);
- a refused deletion of the entry under a scan's cursor makes the scan lose that entry and repeat another (`Scan.Handler.DeleteObject`, `Scan.Handler.RefusedDelete`);
- exchanging two neighbouring bytes that differ by one can go unnoticed by the checksums (`Checksums.SwapCounts`, `Checksums.BlindPair`);
- stamps count every fourth year as a leap year, so from 1 March 2100 on they are a day late (`Time.CalendarAgrees`);
- an up-case table that maps a character to the terminator's image makes different names equal (`Names.EqualityNeedsProper`).

A rename removes an existing target before it looks for a slot. That never costs the target
for want of space: the removed entry set leaves room for a name as long, and a rename that
fails changes nothing (`Namespaces.Namespace.Rename`).

The formats follow the exFAT specification (sections 3.4, 4.1, 6.3, 7.1, 7.4, 7.6 and 7.7),
RFC 3629 and RFC 2781.

## Model

| member | source | states |
|---|---|---|
| ClusterBitmap.MaskIsShift | libexfat/exfat.h:55 | the mask of bit k in a bitmap word is one shifted left by k |
| ClusterBitmap.WithBitBits | libexfat/exfat.h:56-61 | setting or clearing a bit changes that bit and no other |
| ClusterBitmap.FindBitAndSet | libexfat/cluster.c:114-137 | claims the lowest clear bit of the range and nothing else; END exactly when all bits of the range are set, and then nothing changed |
| ClusterBitmap.ByteCount | libexfat/cluster.c:455-461 | the two nibble look-ups count the set bits of a byte |
| ClusterBitmap.CountFreeClusters | libexfat/cluster.c:445-468 | the count by nibbles and trailing bits is the number of clear bits below the bitmap's size; bits past it do not count |
| ClusterBitmap.NoClearBits | libexfat/cluster.c:202-208 | no clear bit is left exactly when every bit is set, which is when allocation fails |
| Chain.FreeIsUnowned | libexfat/cluster.c:194-213 | under the ownership invariant a clear bit belongs to no chain and no system file |
| Chain.ClaimKeepsOwned | libexfat/cluster.c:194-213 | adding a free cluster to one chain and setting its bit keeps the ownership invariant |
| Chain.ReleaseKeepsOwned | libexfat/cluster.c:215-223 | taking one cluster out of a chain and clearing its bit keeps the ownership invariant |
| Chain.SameChainsSameBits | libexfat/cluster.c:274-282 | the chains determine the bitmap: when the chains are back, so are all the bits of the heap |
| Chain.FatFrame | libexfat/cluster.c:174-192 | FAT writes outside a chain leave that chain recorded and terminated |
| Chain.Pigeonhole | libexfat/node.c:266-273 | a chain of distinct valid clusters is no longer than the heap |
| Chain.FreeAndOwned | libexfat/cluster.c:445-468 | the clusters of a chain and the free ones together are no more than the heap has |
| Clusters.NarrowingHarmless | libexfat/cluster.c:67-71 | the 32-bit result is the true cluster count exactly when that count is below 2^32 |
| Clusters.NarrowingExample | libexfat/cluster.c:67-71 | a 16 TB size with 4 KB clusters is taken for zero clusters |
| Clusters.Volume.AdvanceCluster | libexfat/cluster.c:92-112 | whatever the seek cache held, the result is the count-th of the clusters that the links lead through, the chain first of all, and no valid cluster when they end before; the cache agrees with the chain afterwards |
| Clusters.Volume.AllocateCluster | libexfat/cluster.c:194-213 | the lowest free cluster from the hint on, else the lowest at all; fails exactly when nothing is free |
| Clusters.Volume.FreeCluster | libexfat/cluster.c:215-223 | clears exactly that cluster's bit |
| Clusters.Volume.SetNextCluster | libexfat/cluster.c:174-192 | writes one FAT entry, none for a contiguous file |
| Clusters.Volume.MakeNoncontiguous | libexfat/cluster.c:225-234 | writes the links of the implicit run and no other entry |
| Clusters.Volume.LinkCluster | libexfat/cluster.c:283-294 | hooking up a cluster keeps the chain recorded, with the switch from run to FAT form when it does not follow |
| Clusters.Volume.GrowUndo | libexfat/cluster.c:277-282 | out of space in the middle: the chain and the free count are what they were, though the last new cluster has no FAT entry |
| Clusters.Volume.GrowFile | libexfat/cluster.c:239-302 | succeeds exactly when enough clusters are free; otherwise chain and bitmap are as before; the "non-zero pointer index" halt is unreachable |
| Clusters.Volume.CropFile | libexfat/cluster.c:317-339 | the kept front is a closed chain, the rest can still be followed, the seek cache is reset |
| Clusters.Volume.ShrinkFile | libexfat/cluster.c:304-359 | exactly the last clusters of the chain become free; every other file stays recorded |
| Clusters.Volume.EraseRange | libexfat/cluster.c:371-404 | the named bytes are zero and no byte of another cluster changed; a range that the links do not reach is erased as far as they lead, and ends in an error, or in exfat_bug, under the exact condition |
| Clusters.Volume.ReachLeads | libexfat/cluster.c:73-90 | the links of a file in the FAT lead through its chain and no further, those of a contiguous file through its chain and every cluster of the heap behind it |
| Clusters.Volume.Truncate | libexfat/cluster.c:406-443 | content is cut or zero-extended; on ENOSPC chain, size, content and bitmap are unchanged; other files read as before; what changed is marked as unwritten |
| Clusters.Volume.TruncateOversized | libexfat/cluster.c:406-443 | for sizes of 2^32 clusters or more: ENOSPC, and nothing changed, exactly when the narrowed count cannot be had; else a size that breaks the invariant; or an erasure of all that the links lead to behind the valid bytes, with its error, when the invariant is left, and which files keep their content |
| Clusters.Volume.OthersErased | libexfat/cluster.c:371-404 | a byte of another file in a cluster that such an erasure comes to is zero from the place of the first erased byte on, and as before ahead of it |
| Clusters.Volume.CreateNode | libexfat/node.c:120-130 | a new node owns nothing, and the invariant holds with it |
| Clusters.Volume.CleanupNode | libexfat/node.c:62-78 | an unlinked node gives all its clusters back to the free count; every other file keeps its chain and content |
| FileBytes.WrittenContent | libexfat/io.c:499-520 | raising ValidDataLength over a write gives the old content with the data laid over it exactly when no stale byte lies in the gap |
| FileBytes.GapExample | libexfat/io.c:499-520 | a write behind ValidDataLength that uncovers a stale byte |
| FileBytes.GapIsForced | libexfat/io.c:499-520 | a write inside a file is sure to uncover nothing, on all media, exactly when it starts at or before ValidDataLength |
| FileBytes.UnsafeWriteWrong | libexfat/io.c:499-520 | for every write behind ValidDataLength there is a medium on which what is read afterwards is not the old content with the data laid over it |
| FileBytes.TruncatedContent | libexfat/cluster.c:427-440 | zeroing or hiding everything past the old valid bytes cuts or zero-extends what a reader sees |
| FileBytes.KeptContent | libexfat/io.c:509-510 | a file none of whose clusters were stored into reads as before |
| FileIo.ReadValid | libexfat/io.c:433-463 | the cluster loop delivers the stored bytes of the range |
| FileIo.Pread | libexfat/io.c:402-464 | returns the count and the bytes of the content from the offset, zeros past ValidDataLength, and touches nothing behind the request |
| FileIo.MakeRoom | libexfat/io.c:477-488 | the two truncations: the file reaches the end of the write, or ENOSPC with the file extended to the offset at most |
| FileIo.SafeWrite | libexfat/io.c:477-520 | a write that starts at or before ValidDataLength or behind the end uncovers nothing, on every medium |
| FileIo.Pwrite | libexfat/io.c:466-526 | the content is the old one with the data laid over it exactly when the write uncovers no stale byte, and always after a check that a caller can make; exact ENOSPC condition, result and ValidDataLength; other files unchanged; what changed is marked as unwritten |
| FileRuns.PerformSetSize | libexfat/cluster.c:406-443 | a resize is the byte-sequence resize with the quota of free clusters |
| FileRuns.PerformWrite | libexfat/io.c:466-526 | a write that passes the check is the byte-sequence write with the quota, down to the error code and ValidDataLength |
| FileRuns.PerformRead | libexfat/io.c:402-464 | a read is the byte-sequence slice |
| FileRuns.PerformRemove | libexfat/node.c:62-78 | a removal returns the file's clusters to the quota |
| FileRuns.Run | libexfat/io.c:402-526 | any sequence of creates, removes, resizes, reads and safe writes is observed as operations on a map from names to byte sequences, whatever ValidDataLength the files start with, and the volume stays valid |
| FileRuns.ReadsWritten | libexfat/io.c:402-526 | after a write that succeeds a read gives what was written, what was there before elsewhere, and zeros behind the old end |
| FileRuns.ReadsResized | libexfat/cluster.c:406-443 | after a resize that succeeds a read gives what was there before, and zeros behind the old end |
| FileRuns.OnlyItsFile | libexfat/io.c:402-526 | no operation touches another file or loses a cluster; one is refused exactly when the name is taken or missing, the offset negative, or too few clusters are free |
| FileRuns.FullRunsAreSafe | libexfat/io.c:477-520 | from files without a gap behind ValidDataLength every run is safe, as no operation ever leaves one |
| BlockDevice.Params.ChunkFacts | amiga/dev_io.c:173-187 | a chunk is positive, whole blocks, within the run, and within the transfer limit unless that is below one block |
| BlockDevice.Device.FetchBlock | amiga/dev_io.c:220-230 | afterwards the buffer is the named block, or it has no name |
| BlockDevice.Device.AlignedRead | amiga/dev_io.c:164-212 | the chunks together deliver the run; what bouncing leaves in the buffer is stated |
| BlockDevice.Device.AlignedWrite | amiga/dev_io.c:164-212 | the chunks together write the run; the cached block is forgotten, a failure stays inside the run |
| BlockDevice.Device.PartitionRead | amiga/dev_io.c:235-313 | delivers the bytes of a safe request and keeps the cache truthful; fails for a request inside the partition exactly when a transfer failed; the name of the cached block; what a failed read leaves behind; end-of-partition cases as in the code |
| BlockDevice.Device.PartitionWrite | amiga/dev_io.c:235-313 | exactly the requested bytes change, neighbours in head and tail blocks stay; fails for a request inside the partition exactly when a transfer failed, and then damages only touched blocks and leaves no stale cached block |
| BlockDevice.SafeReadRight | amiga/dev_io.c:183-203 | a read that passes a check a caller can make delivers the disk bytes and a truthful cache, bounced or not |
| BlockDevice.UnsafeReadWrong | amiga/dev_io.c:198-202 | for every read that fails the check there is a medium on which it returns wrong bytes or leaves a stale block: the bounced read does not reset the block's name |
| BlockDevice.MiddleFailsIs | amiga/dev_io.c:192-206 | what the failing of any one transfer leaves in the bounce buffer: anything when one of them is bounced, else what was there |
| BlockDevice.FailureTruthful | amiga/dev_io.c:192-206 | what failed reads leave in the cache, transfer by transfer, is truthful in every case exactly when nothing is bounced or the cache has no name meanwhile |
| BlockDevice.FullMaskIsSafe | amiga/dev_io.c:183-188 | with a mask of all ones every read is safe, and stays so when it fails |
| BlockDevice.DirectExactly | amiga/dev_io.c:173-203 | nothing is bounced exactly when the driver takes the address of every transfer, these lying one transfer limit of whole blocks apart |
| BlockDevice.MaskIsSafe | amiga/dev_io.c:183-188 | the same for a mask of the DosEnvec, and that a read of such a buffer is safe, and stays so when it fails |
| BlockDevice.ServeAll | amiga/dev_io.c:235-313 | any run of requests that are safe at the name in force, bounced or not, is direct access to one byte array, to its end exactly when no transfer fails; a run that fails has answered rightly until then, and the cache stays truthful when the failed request is one that always leaves it so |
| BlockDevice.PutThenGet | amiga/dev_io.c:235-313 | in that byte array what is read after a write is what was written, and what was there before everywhere else; a request outside the partition changes nothing |
| Handler.Handler.UnmountFs | libexfat/mount.c:386-394 | flushes and writes the final super block only where the card may be written; metadata is lost and a dirty node halts only after trouble with the medium |
| Handler.Handler.ReleaseMount | amiga/handler.c:1405-1418 | an ordinary unmount for the same volume, and no write at all otherwise |
| Handler.Handler.Park | amiga/handler.c:1465-1504 | inhibit always succeeds: unmounted when idle, else flushed, or discarded only after trouble with the medium, with only the root dirty |
| Handler.Handler.Wake | amiga/handler.c:1505-1563 | succeeds unless a transfer fails: a released handler re-mounts any readable exFAT card, a parked one resumes for a card with the serial and the geometry of its volume; each refusal has its own condition, a missing or foreign card being answered without any write |
| Handler.Handler.ReleaseIfIdle | amiga/handler.c:1568-1577 | inhibited and mounted implies something is still open |
| Handler.Handler.End | amiga/handler.c:1659-1683 | closing a file drops it; unless parked or read-only its node is flushed, and the answer is an error exactly when a transfer failed; nothing else becomes clean without having been written |
| Handler.Handler.FlushAll | amiga/handler.c:2753-2771 | afterwards nothing but the root is unwritten, each node and the bitmap having been written, unless a transfer failed, which is the answer |
| Handler.Handler.Format | amiga/handler.c:1617-1656 | made exactly when the handler is inhibited and released, a card is there and no transfer fails; a formatted card can be mounted |
| Handler.Handler.Dispatch | amiga/handler.c:2632-2641 | for every packet the answer and the new state, behind the gate for inhibited handlers; the invariant and the log of writes stay safe |
| Handler.Handler.MainLoop | amiga/handler.c:2609-2641 | over whole runs of packets, card changes and failed transfers every event happens as stated for one; no write made through a mount reaches a medium of another serial or geometry; unwritten metadata is dropped, and the handler halts, only after a failed transfer or a missing volume; not inhibited implies mounted; the last unmount without a failure loses nothing |
| Names.CompareName | libexfat/lookup.c:62-78 | the loop computes the difference at the first place where the up-cased names differ |
| Names.ComparesEqual | libexfat/lookup.c:62-78 | with a proper table two names compare equal exactly when their up-cased forms are equal |
| Names.EqualityNeedsProper | libexfat/lookup.c:62-78 | that holds for all names exactly when only the terminator is up-cased to the terminator's image |
| Names.ImproperTable | libexfat/lookup.c:62-78 | a table without that property makes a name equal to a longer one |
| TreeShape.PathsAreChains | libexfat/exfat.h:70-76 | in the invariant every node is reached from the root along child lists |
| TreeShape.NoCycle | libexfat/exfat.h:70-76 | no node is its own ancestor |
| TreeShape.OneParent | libexfat/exfat.h:70-76 | no node is in two child lists |
| TreeShape.AttachKeepsLinked | libexfat/node.c:572-581 | attaching a loose node keeps all prev, next, child and parent links consistent |
| TreeShape.DetachKeepsLinked | libexfat/node.c:583-594 | detaching a node keeps all links consistent and leaves the node loose |
| TreeShape.MoveKeepsRooted | libexfat/node.c:1067-1069 | a node moved under a directory that is not below it takes its subtree along: no cycle, no orphan |
| TreeShape.GoodMoved | libexfat/node.c:1067-1070 | renaming and moving a node keeps the whole tree invariant when the name is free in the directory |
| TreeShape.GoodCut | libexfat/node.c:757-783 | deleting a childless node keeps the tree invariant |
| TreeShape.GoodAdded | libexfat/node.c:941-951 | a committed entry keeps the tree invariant when the name is free in the directory |
| TreeShape.FirstIsUnique | libexfat/lookup.c:96-104 | among siblings told apart by name the search finds the one with the name |
| TreeShape.SiblingsCompareUnequal | libexfat/lookup.c:67-78 | no two siblings compare equal under the up-case table |
| TreeShape.NotBelow | libexfat/node.c:1093-1107 | the ancestor check is enough: a file has no descendants, a directory was checked |
| TreeShape.NameIsFree | libexfat/lookup.c:204-210 | no child other than the one found has the name |
| TreeShape.ResolveKept | libexfat/lookup.c:121-145 | a path none of whose nodes moved resolves to the same node after any change elsewhere |
| TreeShape.EveryNodeNamed | libexfat/lookup.c:121-145 | every node of the tree, however deep, is what the names on the way to it resolve to |
| TreeShape.ResolvesSpelled | libexfat/lookup.c:121-145 | a path leads from a directory to a node exactly when the node lies below it and the path spells, "." apart, the names on the way |
| TreeShape.LostWhere | libexfat/lookup.c:121-145 | a path is lost with an error exactly when its front leads to a node at which the next component ends it with that error: not convertible, no child of the name, or a file, on which the source halts |
| TreeShape.SplitAims | libexfat/lookup.c:176-222 | a place is found exactly when the front of the path spells the way to a directory and the last component is an allowed name; the existing node is then the child of that name, if there is one; a front that is lost gives its error, a name with a bad character ENOENT |
| TreeShape.RenamedResolves | libexfat/node.c:1073-1170 | after a successful rename the new path resolves to the renamed node |
| Tree.Tree.LookupName | libexfat/lookup.c:80-107 | walking the linked list finds the first child whose name compares equal |
| Tree.Tree.Lookup | libexfat/lookup.c:121-145 | path resolution: "." stays, a component below a file halts, the first error is returned |
| Tree.Tree.SplitPath | libexfat/lookup.c:176-222 | the walk gives the parent directory, the existing node and the name of the last component, or the error of the component at which it ends |
| Tree.Tree.HasAncestor | libexfat/node.c:1098-1106 | the walk up the parent links decides whether the source is above the target directory |
| Tree.Tree.TreeAttach | libexfat/node.c:572-581 | the new link fields of all nodes |
| Tree.Tree.TreeDetach | libexfat/node.c:583-594 | the new link fields of all nodes |
| Tree.Tree.Delete | libexfat/node.c:757-770 | the tree without the node, invariant kept |
| Tree.Tree.Unlink | libexfat/node.c:785-790 | refuses directories, else deletes |
| Tree.Tree.Rmdir | libexfat/node.c:792-805 | refuses files and directories with children, else deletes |
| Tree.Tree.RemoveTarget | libexfat/node.c:1109-1145 | which existing target may be replaced by what, with each refusal's error |
| Namespaces.ReplacedAsLong | libexfat/lookup.c:62-78 | a name found by comparing equal is as long as the one looked for |
| Namespaces.DeletedRoom | libexfat/node.c:712-755 | after a deletion there is room for a set with a name as long, inside the directory or with the clusters the cut gave back, in the root as well |
| Namespaces.Namespace.RemoveTarget | libexfat/node.c:1109-1150 | a removed target leaves its directory, its clusters become free, and there is room for a name as long; a refused one leaves everything; which entries of the root without a node are kept |
| Namespaces.Namespace.Rename | libexfat/node.c:1073-1170 | every pair of paths: the error code, success for every source that its path spells and every place that the new path aims at unless a stated refusal applies, the new tree, the new names; whatever fails changes nothing; ENOSPC exactly when there is no target to remove, no slot, and no free cluster for one; on success the new path resolves to the source; entries of the root without a node are kept exactly when neither the cut nor the slot has one; no cluster is lost |
| Namespaces.Namespace.Create | libexfat/node.c:953-993 | a new file at the head of its directory, found under its path, with an entry set of its own, whenever the path spells the way to a directory that has no child of the last name and in which a slot can be had; a name that exists, or ENOSPC exactly when no slot can be had, changes nothing; entries of the root without a node are kept exactly when the slot is clean; no cluster is lost |
| Namespaces.Namespace.Mkdir | libexfat/node.c:995-1023 | the same for a directory with one zeroed cluster; ENOSPC also exactly when no cluster is free once the slot is paid for, and then the tree, the names and all entry sets are as before, and which entries of the root without a node are |
| Namespaces.CreateAnswered | libexfat/node.c:953-1023 | what creating a file and a directory answers, in terms of the names on the way to the place: EEXIST, ENOSPC or success, each exactly, at any depth |
| Namespaces.RenameAnswered | libexfat/node.c:1073-1170 | the same for a rename: for every node, spelled by its path, and every place, what decides between success and each refusal |
| Namespaces.Namespace.Remove | libexfat/node.c:757-805 | refuses directories with children, else the node, its entry set and its clusters go and the directory is cut; entries of the root without a node are kept exactly when the cut has none; no cluster is lost |
| Namespaces.TotalRelisted | libexfat/node.c:1150-1165 | free clusters and those of all directories and files remain the same number when a set moves from one directory to another and the slot is paid for |
| Namespaces.VacatedThenSlot | libexfat/node.c:1138-1165 | entries of the root without a node outlive a rename over a target exactly when they outlive its deletion and then the slot |
| Slots.Directory.BuildMap | libexfat/node.c:840-851 | the bitmap marks exactly the entries of the children's sets |
| Slots.Directory.CheckSlot | libexfat/node.c:807-827 | in the root a run with an entry in use is refused |
| Slots.Directory.Search | libexfat/node.c:853-882 | terminates although the index moves back, and finds the lowest acceptable run; else the free tail |
| Slots.Directory.Extend | libexfat/node.c:884-891 | extends the directory for a slot at its end; ENOSPC exactly when the clusters cannot be had; free and owned clusters stay the same number |
| Slots.Directory.FindSlot | libexfat/node.c:829-892 | the lowest acceptable run, or a run ending in fresh zeroed space, or ENOSPC, each exactly; never on a child's set; when a slot in the root is clean, exactly |
| Slots.ChosenOnce | libexfat/node.c:829-892 | there is one slot only that the search may hand out, and one length of the directory with it |
| Slots.TailUnused | libexfat/node.c:885-891 | a slot in new space overwrites an entry in use exactly when one of the last n - 1 entries behind the last child is in use |
| Slots.RootOverwritten | libexfat/node.c:885-891 | a root of 16 entries and a name of 211 units: the slot covers the bitmap and up-case entries |
| Slots.Directory.Commit | libexfat/node.c:937-949 | the new set is disjoint from the others and inside the directory; all other entries are kept |
| Slots.Directory.Erase | libexfat/node.c:680-710 | the entries of one set lose the in-use bit, the others are kept |
| Slots.Directory.ShrinkDirectory | libexfat/node.c:712-755 | cut after the last child's mandatory entries, the clusters becoming free; no set is cut exactly when no child's optional entries reach into a further cluster; no entry in use is cut off exactly when a child follows or none lies behind the new end; the first cluster is kept |
| Slots.SnugFits | libexfat/node.c:737-751 | no set is ever cut when optional entries do not reach into a further cluster than the name |
| Slots.NotSnugIsCut | libexfat/node.c:737-751 | a set that does reach further is cut as soon as it is the only one left |
| Slots.CutKeepsUsed | libexfat/node.c:712-755 | every entry in use survives the cut exactly when a child follows the deleted one or no entry behind the new end is in use |
| Slots.CutKeepsStrays | libexfat/node.c:757-783 | a deletion keeps the entries in use of no child exactly when a child follows or none of them lies in what is cut off; it makes no such entry |
| Slots.TailCut | libexfat/node.c:737-751 | a directory of two clusters whose last set is cut |
| Slots.LabelCut | libexfat/node.c:737-751 | a root of two clusters that loses the volume label with its only file |
| Slots.Directory.Delete | libexfat/node.c:757-783 | the set goes and the directory is cut, never for more clusters; sets stay disjoint and inside it when no set reaches into a further cluster than its name, and in general exactly under the stated condition; the exact condition for every entry in use outside the set to stay |
| Slots.CommitStrays | libexfat/node.c:937-949 | a new set keeps the entries in use of no child exactly when its slot has none |
| Slots.Directory.Create | libexfat/node.c:971-988 | a fresh set on free entries, or ENOSPC, exactly when no slot can be had, and nothing changed; when it takes the last free cluster; when the root keeps its entries in use of no child |
| Slots.Directory.Rename | libexfat/node.c:1025-1071 | both directories keep their invariant, the same one included; the new set lies on free entries, the old one is erased, all other entries are kept; when the root keeps its entries in use of no child |
| Slots.Directory.Reuse | libexfat/node.c:1138-1151 | replacing a target by a name as long always finds a slot, the root included, and never enlarges the directory |
| Slots.ReuseFits | libexfat/node.c:885-891 | the erased place takes as many entries again, with or without the cut, with or without optional entries |
| EntrySet.SealedIsValid | libexfat/utils.c:70-95 | the checksum does not depend on the field it is stored in |
| EntrySet.CalcChecksum | libexfat/utils.c:86-95 | the three loops sum all bytes of the set but the checksum field, by the 16-bit rotating sum that Checksums describes |
| Checksums.ZeroRotates | libexfat/utils.c:53-59 | a zero byte moves every bit of the sum one place down and the lowest to the top |
| Checksums.AddsRotated | libexfat/utils.c:53-59 | any other byte is added to the sum so rotated, modulo the word |
| Checksums.RotatesBack | libexfat/utils.c:53-59 | as many zero bytes as the word has bits leave the sum as it was |
| Checksums.ByteCounts | libexfat/utils.c:53-107 | changing one byte, anywhere in a sequence, changes the sum |
| Checksums.SwapCounts | libexfat/utils.c:53-107 | exchanging two different neighbouring bytes changes the sum, except exactly when they differ by one and the sum before them, rotated twice, and the larger one add up to nothing modulo the word |
| Checksums.BlindPair | libexfat/utils.c:53-107 | a pair of bytes whose exchange is not noticed |
| EntrySet.SetByteCounts | libexfat/utils.c:70-95 | the checksum of an entry set changes with every single byte that it covers |
| EntrySet.CheckEntries | libexfat/node.c:165-207 | accepts exactly: file, info, one or more names, then only optional entries |
| EntrySet.ParseFileEntries | libexfat/node.c:296-334 | what is refused and what is read, field by field |
| EntrySet.AcceptedExactly | libexfat/node.c:209-334 | a set is accepted exactly when its types are in order, its name entries are there, the stored checksum is that of its bytes, the valid size is at most the size and the size at most the heap's, the start cluster is in the heap or the file empty and not contiguous, and a directory has whole clusters; the fields that are then read, one by one |
| EntrySet.OneByteRefused | libexfat/node.c:209-236 | an accepted set in which any byte is changed, the count of entries apart, is refused |
| EntrySet.CalcNameHash | libexfat/utils.c:118-135 | the loop computes the hash of the up-cased name, low byte before high byte |
| EntrySet.SameNameSameHash | libexfat/utils.c:118-135 | names that compare equal have the same hash |
| EntrySet.SpelledIsRead | libexfat/node.c:154-163 | a name written in 15-unit entries is read back |
| EntrySet.AssembledIsStored | libexfat/node.c:894-939 | two info entries and a spelled name, sealed, are parsed back |
| EntrySet.CommitEntry | libexfat/node.c:894-951 | the set of a new file is parsed back with its name, attributes and zero sizes, all times being the given one |
| EntrySet.FlushNode | libexfat/node.c:628-678 | the flushed set is parsed back with the node's sizes, start, attributes and, if not empty, contiguity; modification and access times are replaced, the creation time stays; the check before it never fails |
| EntrySet.RenameEntry | libexfat/node.c:1025-1065 | the renamed set is parsed back with the new name and everything else, times included, as before |
| EntrySet.Live | libexfat/node.c:628-678 | after any sequence of flushes and renames a reader finds the last name and the last state |
| EntrySet.OwnedIsStorable | libexfat/node.c:237-291 | the ownership invariant implies every check of the reader, the heap-size check by distinct clusters |
| Stores.CutFlat | libexfat/node.c:80-99 | the bytes of a directory are entries in one way only |
| Stores.FlatPut | libexfat/node.c:101-118 | writing the bytes of some entries at their offset replaces exactly these entries |
| Stores.FlatToLength | libexfat/cluster.c:406-443 | cutting or extending a directory's bytes cuts it or adds empty entries |
| Stores.Store.ReadEntries | libexfat/node.c:80-99 | the entries at an offset, read through the clusters of the directory's node |
| Stores.Store.WriteEntries | libexfat/node.c:101-118 | exactly these entries of the directory change in the heap; chains, free clusters and all other files stay |
| Stores.Store.Resize | libexfat/cluster.c:406-443 | the directory is cut or gets zeroed entries, with the volume's free clusters, or ENOSPC exactly when they do not suffice; all other files stay |
| Directories.CacheDirectory | libexfat/node.c:387-570 | the loop reads the directory entry by entry: file sets, deleted entries, the checks of bitmap, up-case and label entries, and the refusals; whether there is an up-case table afterwards |
| Directories.CheckSystem | libexfat/node.c:413-506 | which bitmap, up-case and label entries are taken |
| Directories.ReadsBack | libexfat/node.c:387-570 | reading finds exactly the children, once each, in the order of their places |
| Directories.CommitKeepsImage | libexfat/node.c:937-939 | a set written on free entries keeps the directory readable, with one child more |
| Directories.EraseKeepsImage | libexfat/node.c:680-694 | erasing a set keeps it readable, with that child gone |
| Directories.FlushKeepsImage | libexfat/node.c:667-672 | rewriting a set in place changes that child and no other |
| Directories.ResizeKeepsImage | libexfat/node.c:741-754 | cutting or lengthening a directory keeps it readable |
| Directories.DirectoryFile.Create | libexfat/node.c:971-988 | the directory in the heap and the children after create; ENOSPC exactly when no slot can be had with the clusters free on the volume, and then nothing changed; no cluster is lost, other files stay |
| Directories.DirectoryFile.Unlink | libexfat/node.c:757-783 | the directory in the heap and the children after unlink: the set erased, the end cut off and given back to the volume; other files stay |
| Directories.DirectoryFile.Rename | libexfat/node.c:1025-1071 | the directory in the heap and the children after rename inside it; ENOSPC as for create; other files stay |
| Directories.DirectoryFile.Flush | libexfat/node.c:628-678 | the directory in the heap and the children after a flush; other files stay |
| Directories.DirectoryFile.Perform | libexfat/node.c:628-1071 | one step: unlink and flush succeed exactly when the child exists, create exactly when a slot can be had with the clusters that are free, rename exactly when both hold; what becomes of the children, their places and the entries |
| Directories.StepsOnce | libexfat/node.c:829-1071 | a step has one answer and one outcome |
| Directories.RunsOnce | libexfat/node.c:829-1071 | a run of steps has one sequence of answers and one final directory |
| Directories.DirectoryFile.Run | libexfat/node.c:530-570 | after any run of create, unlink, rename and flush, reading the directory's clusters again finds exactly the children, each with its name and state; every answer of the run and every state between are those of the steps one after the other, so each step succeeds or is refused under its own condition; free clusters and those of the directory stay the same number, every other file of the volume keeps its chain and content |
| Directories.NewDirectory | libexfat/node.c:1004-1012 | a new directory of one zeroed cluster, exactly when one is free; otherwise the new node is gone again; other files stay |
| Mkfs.PlaceStep | mkfs/mkexfat.c:107-125 | each object starts at the first aligned position behind the one before it |
| Mkfs.GetPosition | mkfs/mkexfat.c:162-175 | the loop finds the object's closed-form position; "unknown object" is unreachable |
| Mkfs.CheckSize | mkfs/mkexfat.c:30-52 | accepts exactly the volumes that hold the root directory's end |
| Mkfs.Gigabyte | mkfs/mkexfat.c:30-52 | a volume of one gigabyte that is accepted |
| Mkfs.ObjectsApart | mkfs/mkexfat.c:107-125 | objects do not overlap |
| Mkfs.ObjectsInside | mkfs/mkexfat.c:30-52 | on an accepted volume every object is inside |
| Mkfs.RoundTwice | mkfs/vbr.c:58-63 | rounding to sectors and then to clusters is rounding to clusters, which is why the two computations of the heap start agree |
| Mkfs.InitSb | mkfs/vbr.c:40-80 | FAT end and heap start agree, the heap ends inside the volume, the bitmap size fits the cluster count, the root cluster is where the root is written |
| Mkfs.WriteEntries | mkfs/fat.c:51-63 | a chain of consecutive clusters closed by the end mark |
| Mkfs.WriteFat | mkfs/fat.c:65-81 | the two media words, then three chains from cluster 2 on, each as long as its object |
| Mkfs.WriteBitmap | mkfs/cbm.c:42-72 | exactly the first bits are set, as many as the three objects have clusters |
| Mkfs.Format | mkfs/mkexfat.c:107-160 | a fresh volume satisfies the ownership invariant, its chains start where the directory entries and the super block say, and its set bits are exactly those chains |
| Mkfs.FreshOwned | mkfs/cbm.c:42-72 | set bits are the system clusters and the root's chain, disjoint |
| Mkfs.UpcaseStart | mkfs/rootdir.c:72-74 | the recorded start of the up-case table is its place in the heap |
| Mkfs.ChooseSpcBits | amiga/format.c:110-124 | cluster size by band, above 32 GB the smallest that a FAT can number; refuses only what no size up to 2 GB can number |
| Mkfs.DefaultHeapStart | amiga/format.c:110-124 | with the chosen size the heap starts at least two clusters in, in all three bands |
| Mkfs.FatCoversHeap | mkfs/vbr.c:45-66 | the FAT region holds an entry for each of the cluster_count + 2 numbers |
| Mount.RootdirSize | libexfat/mount.c:31-58 | the walk gives the length of the root's chain, and an error exactly when there is no closed chain of distinct valid clusters |
| Mount.DefaultCount | amiga/format.c:110-124 | the default cluster sizes leave few enough clusters to be numbered |
| Mount.MountFresh | libexfat/mount.c:316-331 | a formatted volume, once mounted, satisfies the allocator's whole invariant, with the root as its only node |
| FreshRoots.WriteRoot | mkfs/rootdir.c:39-95 | the label, bitmap and up-case entries, the start clusters and sizes being those of the layout |
| FreshRoots.RootReadable | libexfat/node.c:387-570 | mounting takes the root directory of a formatted volume, finds no file and the up-case table, exactly when the label is empty or has no unpaired high surrogate |
| FreshRoots.UnreadableLabel | amiga/format.c:194-201 | a label that is converted from UTF-8 and formatted, and then not read |
| FreshRoots.FormatVolume | mkfs/mkexfat.c:107-160 | a formatted volume whose root node has the written entries as its content |
| FreshRoots.MountRoot | libexfat/mount.c:316-355 | after formatting, the first mount succeeds exactly when the label can be read, and gives a directory without files that satisfies the directory's whole invariant on a valid volume |
| Vbr.CoveredSame | libexfat/utils.c:97-107 | the start checksum does not depend on the state word and the percentage |
| Vbr.Write | mkfs/vbr.c:82-141 | the byte stream and the 32-bit rotating checksum over it, repeated through the last sector |
| Vbr.Verify | libexfat/mount.c:122-166 | accepts exactly when all words of the twelfth sector are the checksum of the eleven before it |
| Vbr.SectorByteCounts | libexfat/utils.c:97-107 | the checksum of the boot sector changes with every single byte that it covers |
| Vbr.WrittenAccepted | mkfs/vbr.c:96-140 | a formatted boot region verifies exactly when the sector size is 512, or the checksum is zero |
| Vbr.LargerSectorsFail | mkfs/vbr.c:45-140 | with larger sectors, whatever the formatter puts into the super block, at most one value of the volume serial's first byte gives a region that verifies |
| Vbr.TouchedAccepted | libexfat/mount.c:178-186 | marking the volume dirty or clean and updating the percentage keep the region as acceptable as it was |
| Scan.RemovalKeepsOrder | amiga/handler.c:1064-1084 | removing an entry, cursor moved off it first, keeps the scan in order and complete |
| Scan.SkipBreaksOrder | amiga/handler.c:1148-1160 | moving the cursor off an entry that stays breaks the scan exactly when the cursor was on it |
| Scan.Handler.ExamineObject | amiga/handler.c:555-573 | arms a scan that has missed nothing |
| Scan.Handler.ExamineNext | amiga/handler.c:575-641 | from the cursor or by counting: never an entry that was reported; "no more" only when all were |
| Scan.Handler.ScanSkipNode | amiga/handler.c:1069-1084 | every cursor on the node moves to its successor, no other cursor moves |
| Scan.Handler.DeleteObject | amiga/handler.c:1105-1171 | a successful deletion keeps every scan in order and no cursor on a freed node; a refused one keeps it exactly when no cursor was on the entry |
| Scan.Handler.Run | amiga/handler.c:575-641 | over any run of scan steps on any number of locks, and deletions in any directory, every step gets a reply, every scan reports every surviving entry exactly once, and the entries left are those not deleted |
| Scan.Handler.RefusedDelete | amiga/handler.c:1148-1160 | a refused deletion of the entry under the cursor: that entry is lost and the last one reported twice |
| Utf.Utf16ToUtf8 | libexfat/utf.c:104-137 | the loop converts up to the first zero or the first error |
| Utf.Utf8ToUtf16 | libexfat/utf.c:212-245 | the loop converts up to the first zero or the first error |
| Utf.Utf8Inverse | libexfat/utf.c:26-83 | decoding an encoded character gives it back, whatever follows |
| Utf.Utf16Back | libexfat/utf.c:85-102 | encoding a decoded character gives its one or two units back |
| Utf.WellFormedBack | libexfat/utf.c:139-193 | a character well-formed by section 4 of RFC 3629 is decoded and encoded to itself |
| Utf.Utf16RoundTrip | libexfat/utf.c:104-245 | every name with a UTF-8 form gets its UTF-16 form back |
| Utf.Utf8RoundTrip | libexfat/utf.c:104-245 | every well-formed zero-free UTF-8 name gets its bytes back |
| Utf.WellFormedFits | libexfat/utf.c:212-245 | well-formed input is never refused for its bytes and needs no more units than bytes |
| Utf.NameFits | libexfat/exfat.h:36-40 | a name of up to 255 units never overflows the 766-byte buffer; refused are exactly those with an unpaired high surrogate |
| Time.YearSearch | libexfat/time.c:136-138 | the estimate by quadrennia is the year that contains the day, and no other does |
| Time.FindMonth | libexfat/time.c:139-152 | the month that contains the day, and no other does |
| Time.TimeOfDay | libexfat/time.c:154-161 | hour, minute, two-second and centisecond fields are in range and add up to the second |
| Time.OffsetBack | libexfat/time.c:111-116 | the recorded offset is read back exactly for whole quarters of an hour in 7 bits, and for no other zone |
| Time.CalendarAgrees | libexfat/time.c:63-105 | for a proper date of the Gregorian calendar from 1980 to 2107 the days counted by the code are the true ones exactly when the date is before 1 March 2100 |
| Time.ReadsCalendar | libexfat/time.c:56-119 | a stamp for such a date stands for the true second, by the recorded offset or, without one, by the zone of the system |
| Time.LeapDay | libexfat/time.c:63-105 | the stamp of 29 February 2024, 12:34:56 UTC, is read as second 1709210096 |
| Time.DaysBounded | libexfat/time.c:63-119 | no stamp stands for a day after 2107 |
| Time.Unix2Exfat | libexfat/time.c:121-165 | all fields in range; for local times from 1980 to 2107 packing and unpacking gives the second back but for the error of the zone, which is none exactly for quarter-hour zones; earlier times become the start of 1980 |
| Division.PowerTest | amiga/small.c:43-49 | the bit test picks exactly the powers of two |
| Division.MaskIsRemainder | amiga/small.c:52-54 | the mask is the remainder |
| Division.DivByPower | amiga/small.c:43-55 | shift and mask are quotient and remainder |
| Division.ShiftSubtract | amiga/small.c:64-75 | n = q*d + r and r < d; the shifted remainder never needs a 65th bit, even for divisors above 2^63 |
| Division.TopBits | amiga/small.c:64-72 | the bits above position i are a number below 2^(64 - i) |
| Division.UDivMod64 | amiga/small.c:27-76 | n = q*d + r and r < d on all three paths; zeros for a zero divisor |
| Division.SDiv64 | amiga/small.c:91-100 | the quotient rounded toward zero, the least number included |

## Left out

- Device failures below the file system: Clusters, FileIo, Slots, EntrySet and Mkfs take every transfer to succeed, so running out of space is the only error; BlockDevice and Handler let transfers fail.
- Clusters.Volume.Truncate: sizes below 2^32 clusters; Clusters.Volume.TruncateOversized takes all others.
- FileRuns.Run: sizes below 2^32 clusters, and writes that start at or before ValidDataLength or behind the end; the others are FileBytes.UnsafeWriteWrong and Clusters.Volume.TruncateOversized.
- FileIo.Pread: access times are not modelled, and of the modification times of FileIo.Pwrite only that the node is marked as unwritten.
- BlockDevice.Device.PartitionRead: reading and writing are separate methods where the source has one with a flag; block masks are written as division, and the address of the caller's buffer is a number.
- Handler.Handler.MainLoop: another card is inserted only while the handler is inhibited, packets are processed one at a time, and DIE is the last packet of its queue; a failed write of the boot sector leaves it as it was.
- Handler.Handler.Dispatch: packets are reduced to what they do to locks, files, dirty state and the medium, and whether one that changes the file system succeeds is not determined here; list handling of dos.library is not modelled. Whether a card is readable, and whether a format finds a layout that fits, are given from outside.
- Namespaces.Namespace.Rename: paths are sequences of components with the verdicts of the conversion and of the character check; after a failure of memory or of a transfer, which are not modelled here, a removed target is lost. Directories have a count of free clusters here instead of a volume; Directories.DirectoryFile ties that count to the volume.
- Namespaces.Namespace.Remove: the root itself is not removed, and reference counts are left out, so a target still in use, on which the source halts, does not occur.
- Tree.Tree.Lookup: all directories are read already; loading a directory on first use is not modelled.
- Namespaces.Namespace.Valid: optional entries do not reach into a further cluster than the name, without which a deletion can cut a set (Slots.NotSnugIsCut); the clusters of files do not change here.
- Directories.DirectoryFile.Rename: a rename into another directory is Slots.Directory.Rename; the whole old set is read where the source reads its first two entries.
- Directories.DirectoryFile.Create: whether there is space is found out by counting before the truncation, which then finds the same; the directory's own entry in its parent is not flushed here.
- Directories.CacheDirectory: the bytes of the bitmap and of the up-case table are not read, and an unknown entry is not repaired.
- Mount.MountFresh: the heap of a fresh volume is taken to be zeros; mounting refuses clusters of more than 32 MB, and FreshRoots.MountRoot reads the root directory.
- FreshRoots.FormatVolume: what the formatter writes at the root directory's place on the medium is written to its cluster; the checksum of the up-case table is given from outside; sector sizes are multiples of 512.
- Slots.Directory.FindSlot: offsets and sizes are counted in entries, and the bitmap of entries is an array of booleans.
- EntrySet.CommitEntry: the name hash, which EntrySet.CalcNameHash computes, and the time stamps are given from outside; the hash is never checked by a reader.
- EntrySet.ParseFileEntries: repairs are answered with no, and times are not decoded; Time does that.
- EntrySet.OwnedIsStorable: takes a directory's size to be whole clusters, which Slots keeps.
- Mkfs.InitSb: volumes have fewer than 2^32 clusters, and where the FAT alone exceeds the volume the bitmap size is 0 while the code computes a small negative number; both are refused.
- Mkfs.ChooseSpcBits: sizes up to 2^31 are powers of two here, where the code's int overflows for the last of them; user-chosen cluster sizes are outside Mkfs.FatCoversHeap.
- Mkfs.Format: writes the FAT, the bitmap and the geometry as values; the up-case table's bytes and erasing are not modelled.
- Scan.Handler.ExamineNext: a directory's child list is a sequence of node identities; only deletions change it during a scan.
- Scan.Handler.DeleteObject: what precedes the cursor update - path lookup, read-only and in-use refusals - changes nothing and is left out.
- Utf.Utf8ToUtf16: masks and shifts are arithmetic; characters above 0x10ffff are decoded, but nothing is claimed about them.
- Time.Unix2Exfat: years fit 16 bits.
- Division.SDiv64: negating the least number is taken to wrap, as the compiled code does.
- Device opening, partition tables, the FUSE front end, the command line tools, repair and logging.
- Concurrency inside the library: packets are processed one at a time.
