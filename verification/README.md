# NexOS storage and kernel cores

A Dafny model of the state machines at the heart of NexOS, with proofs of what they
are for. Every statement is about all inputs, all reachable states or all runs.

* **NexFS** (`Nex*.dfy`). The volume is modelled down to the bytes of its blocks.
  `NexLayout` encodes, `NexVolume` and `NexBlocks` see typed metadata and block maps,
  `NexState` sees the tree of files, `NexTree` and `NexPath` see paths. The class
  `NexFs` performs the operations block by block and keeps a log of its writes and
  flushes, from which `NexCrash` and `NexSession` derive every image a crash can leave.
  `NexCheck` is the offline checker, proved to accept exactly the clean, well-formed
  volumes (`Accepts`, `WellFormed`). `NexSpare`, `NexLeak` and `NexFull` follow what
  running out of space leaves behind. `NexVerdict`, `NexUse`, `NexQuota`, `NexRecords` and
  `NexAudit` say of paths, sizes, free blocks and bytes what the operations, written on
  inodes and records, come to.
* **FAT32** (`Fat*.dfy`). Cluster chains in mirrored tables, directories as slots in
  chains, and `write_file` with its rollback; `FatVerdict` and `FatRecords` say the same
  of paths, free clusters and bytes.
* **Page tables and frames** (`PageTable`, `PageAccess`, `Paging`, `PageVerdict`, `Frames`).
  A four-level tree edited in place, fed by the frame allocator: where each address leads,
  and what the flags on its path let it be used for.
* **Kernel heap** (`Heap`, `HeapBlocks`, `KernelHeap`, `HeapVerdict`), **write-back cache** (`Lru`, `Cache`, `CacheRuns`),
  **interrupt queue** (`ScancodeQueue`), **xHCI rings** (`Rings`, `RingRuns`; section
  4.9 of the xHCI specification), **scheduler** (`Scheduler`, `RoundRobin`, `TaskLaws`).
* **Paths and mounts** (`VfsPath`, `VfsBuffer`, `Vfs`, `VfsMounts`, `VfsVerdict`).
* **Partition tables** (`GptName`, `Partitions`, `DiskLayout`, `DiskRoundTrip`,
  `DiskImage`, `TableVerdict`, `CrcVector`; section 5.3 of the UEFI specification for GPT
  and 5.2.3 for the protective MBR).

Objects that the source updates in place are classes, its loops are loops, and each
method is proved against functions or predicates on values; the theorems are about
those. Errors are results, and which error is returned is part of the contracts but
for those named under "Left out".

Some promises turn out to hold only under a condition. Each has its exact condition and
an input at which it fails:

* `unmap_page` refuses a page whose top-level entry has the huge bit, which the walk
  ignores (`Paging.PageTables.UnmapPage`, `Paging.HugeRootRefused`); pages that
  `map_page` mapped never do.
* `map_page` accepts frames beyond 2^52 and flags with address bits, and maps something
  else (`Paging.MappedExactly`, `PageTable.MisdirectedLeaf`).
* A ready task waits for a bounded number of turns for each time a current task is
  stopped, and for ever if that goes on (`Scheduler.BoundedByStops`,
  `Scheduler.BlockingStarves`).
* Two equal paths can compare unequal, and a mount point can be mounted twice
  (`VfsBuffer.StoredCanonically`, `VfsMounts.RemountRefused`, `VfsBuffer.EqualPathsDiffer`).
* A volume on which a write ran out of space is accepted by the checker after unmounting
  exactly if no block was free before (`NexFsVolume.NexFs.WriteFile`, `NexFull.Overfill`).
* The cache answers as the device without it exactly on runs without empty transfers
  (`CacheRuns.ServeAll`, `CacheRuns.EmptyReadDiffers`).
* A ring request is seen exactly if the driver is not more than N - 1 ahead
  (`RingRuns.SeenAfterLaps`, `RingRuns.SubmitTwice`).
* An MBR layout is refused after the old table is gone exactly if a partition does not
  fit in 32 bits (`DiskRoundTrip.WriteAndRead`, `DiskRoundTrip.LargeLosesTable`).
* A GPT layout cannot be read back exactly if an identifier is zero
  (`DiskRoundTrip.GptReadBack`, `DiskRoundTrip.NamelessUnreadable`).

## Model

| member | source | states |
|---|---|---|
| `NexSession.Session` | crates/nexfs/src/volume.rs:33-55 | a whole session — mount, requests, unmount — succeeds exactly on volumes the checker accepts; requests are tried one after the other, all of them unless one runs out of space; each has the outcome its own error condition says on the volume the ones before left; if none ran out, the final volume is accepted again and every path holds what the successful requests, read as updates of a map from paths to contents, make of the initial one; and the session is crash safe; the checker accepts what is left exactly if the last volume is well formed; permissions follow the successful requests, and the generation of the superblock has grown by their number and two |
| `NexSession.SessionCrashSafe` | crates/nexfs/src/volume.rs:33-55 | every image that a crash during such a session can leave (any subset of the unflushed sectors, in any order), if the checker accepts it, has the verdict and the files of the volume before mounting or after unmounting |
| `NexSession.Serve` | crates/nexfs/src/volume.rs:77-256 | one request succeeds exactly when its error condition on the volume finds nothing wrong, and then changes the path map as specified; otherwise it returns that error, no file loses its contents, a failed write or truncation leaves the whole tree, and a failed creation or move every path outside the directory it was to enter; unless it ran out of space nothing changes; the permissions of every inode are as the request says, and on success the generation grows by one |
| `NexSession.CourseReflects` | crates/nexfs/src/volume.rs:77-256 | over any course of requests without a halt, the final path map is the initial one updated by the successful requests in order |
| `NexCrash.SessionCrash` | crates/nexfs/src/volume.rs:33-55 | an accepted crash image of a closed session differs from the volume before mounting, or from the finished one, at most in the tail of the superblock's block behind its first sector |
| `NexCrash.MountedCrash` | crates/nexfs/src/volume.rs:33-41 | while the volume is mounted, an accepted crash image is the volume before mounting: no half-done operation is ever accepted |
| `NexCrash.OpenCrash` | crates/nexfs/src/volume.rs:701-705 | the same on logs of writes and flushes: an image accepted while the session is open comes from before the first flush |
| `NexCrash.SameButAccepts` | crates/nexfs/src/lib.rs:299-303 | volumes that differ only there get the same verdict and hold the same files |
| `NexCrash.SameButWhole` | crates/nexfs/src/lib.rs:467-476 | with whole-block writes the difference is none |
| `NexCrash.SuperblockSource` | crates/nexfs/src/lib.rs:467-476 | however a crash tears the pending writes, the superblock read afterwards comes whole from one of them |
| `NexFsVolume.NexFs.Mount` | crates/nexfs/src/volume.rs:33-41 | succeeds exactly when the checker accepts, and durably marks the volume dirty before anything else |
| `NexFsVolume.NexFs.Unmount` | crates/nexfs/src/volume.rs:48-55 | flush, clean superblock, flush; the volume it leaves is accepted exactly if it is well formed |
| `NexFsVolume.NexFs.ReadFile` | crates/nexfs/src/volume.rs:85-97 | the slice of the contents at that path, or the exact error |
| `NexFsVolume.NexFs.WriteFile` | crates/nexfs/src/volume.rs:99-121 | succeeds exactly when `ResizeError` finds nothing wrong and otherwise returns that error with every file reading as before, even when space ran out half-way; on success the path holds its old contents zero-padded to the offset with the input spliced in, every other path is as before, and the volume is well formed; after `NoSpace` the volume is well formed exactly when no block was free before; no inode's permissions change |
| `NexUse.WriteThenRead` | crates/nexfs/src/volume.rs:85-121 | after a successful write, reading as many bytes at that offset returns the input |
| `NexUse.SplicedBytes` | crates/nexfs/src/volume.rs:99-121 | byte by byte, what a write leaves: the input where it went, the old bytes elsewhere, zeros in between |
| `NexFsVolume.NexFs.Truncate` | crates/nexfs/src/volume.rs:123-154 | same, with the contents cut or zero-padded to the new size |
| `NexVerdict.ResizeExactly` | crates/nexfs/src/volume.rs:99-154 | same for writing and truncating: the path names a file, the new size is within what block pointers reach, and the blocks it needs beyond its own are free |
| `NexUse.ResizedBytes` | crates/nexfs/src/volume.rs:123-154 | byte by byte, what a truncation leaves |
| `NexLeak.LeakIff` | crates/nexfs/src/volume.rs:474-502 | a write that takes what is free and then fails leaves a well-formed volume exactly when nothing was free |
| `NexLeak.MarkedCount` | crates/nexfs/src/lib.rs:521-541 | as many data blocks are marked as the inodes have |
| `NexFull.FreeCount` | crates/nexfs/src/volume.rs:639-649 | free blocks and those the inodes have add up to the data region |
| `NexQuota.SpaceLaw` | crates/nexfs/src/volume.rs:474-674 | on every well-formed volume the free blocks are those of the data region less what the sizes of files and directories come to: one for every 4096 bytes begun, and one more beyond twelve |
| `NexQuota.SpaceAfterResize` | crates/nexfs/src/volume.rs:99-154 | rewriting a file changes the number of free blocks by the difference of the two costs |
| `NexQuota.SameTreeSameSpace` | crates/nexfs/src/volume.rs:474-674 | volumes of one layout with the same tree have the same number of free blocks, whatever was done to them |
| `NexFull.Overfill` | crates/nexfs/src/volume.rs:33-121 | on every device of 32 to 524 blocks: format, mount, create a file, write the largest file there can be, unmount; the write gets `NoSpace` and the checker refuses what is left |
| `NexSpare.OthersKeepPaths` | crates/nexfs/src/volume.rs:356-379 | when only one directory is rewritten, every path not below it names what it named |
| `NexFsVolume.NexFs.Create` | crates/nexfs/src/volume.rs:258-281 | exact errors, none of which costs a file its contents or changes what is named by a path outside the new entry's directory; on success the path names an empty object with a new inode number, every other path is as before, and the volume is well formed, in which the new inode alone gains permissions, the ones given |
| `NexVerdict.CreateExactly` | crates/nexfs/src/volume.rs:258-281 | same for creation: the directory is there, the name is not, an inode is left, the directory holds at most 8383 entries and the blocks for one more are free |
| `NexVerdict.InodesLeft` | crates/nexfs/src/volume.rs:607-616 | no inode is free exactly when the tree has as many nodes as the table has slots, less the unused number 0 |
| `NexFsVolume.NexFs.Remove` | crates/nexfs/src/volume.rs:156-188 | exact errors, none of which changes the disk; on success that path alone is gone; never runs out of space; its permissions go with it and no others change |
| `NexVerdict.RemoveExactly` | crates/nexfs/src/volume.rs:156-188 | same for removal: the path names a file or a directory that no path goes below |
| `NexUse.CreateThenRemove` | crates/nexfs/src/volume.rs:156-281 | after a successful creation, removal of the same path succeeds, and every path and all permissions are as before |
| `NexFsVolume.NexFs.Rename` | crates/nexfs/src/volume.rs:190-256 | exact errors, among them moving a directory below itself, none of which costs a file its contents or changes what is named by a path outside the destination's directory; on success every path below the destination names what the same path below the source named, the source names nothing, all else is as before; no inode's permissions change |
| `NexVerdict.RenameExactly` | crates/nexfs/src/volume.rs:190-256 | when a rename succeeds and which error it gives otherwise, said of paths and free blocks alone: the two directories are there, the source is there, the destination is not and is not below the source, and, when the directory changes, it holds at most 8383 entries and the blocks for one more are free; a path that cannot be placed always fails |
| `NexVerdict.ReachIsPrefix` | crates/nexfs/src/volume.rs:308-333 | the cycle guard finds the destination below the source exactly when the one path starts with the other |
| `NexUse.RenameAndBack` | crates/nexfs/src/volume.rs:190-256 | after a successful rename, the way back can fail for want of space only; when it succeeds every path and all permissions are as before |
| `NexFsVolume.NexFs.DirectoryContains` | crates/nexfs/src/volume.rs:308-333 | true exactly for the inodes reachable from the directory; the search terminates |
| `NexFsVolume.NexFs.Resolve` | crates/nexfs/src/volume.rs:283-306 | the inode the components lead to, or the first thing wrong |
| `NexFsVolume.NexFs.EnsureDataBlocks` | crates/nexfs/src/volume.rs:474-502 | grows the block map, direct and indirect, exactly when the blocks fit in what is free; new blocks are zero, the contents so far and every other file keep their bytes, ownership is kept |
| `NexFsVolume.NexFs.TruncateInodeBlocks` | crates/nexfs/src/volume.rs:504-533 | gives back the blocks beyond the kept ones and the pointer table when idle; ownership is kept and no other file notices |
| `NexFsVolume.NexFs.AllocateBlock` | crates/nexfs/src/volume.rs:639-649 | a block that was free, now marked and zeroed, or no block is free |
| `NexFsVolume.NexFs.AllocateInode` | crates/nexfs/src/volume.rs:607-616 | the lowest free inode number from 2 on, now marked, or none is free |
| `NexFsVolume.NexFs.ReadInodeData` | crates/nexfs/src/volume.rs:381-410 | the bytes of the file at the offset, through direct and indirect pointers |
| `NexFsVolume.NexFs.WriteInodeData` | crates/nexfs/src/volume.rs:412-447 | overlays the input on the file's bytes after growing the block map, exactly when it fits |
| `NexFsVolume.NexFs.ZeroRange` | crates/nexfs/src/volume.rs:449-465 | overlays zeros, across block boundaries |
| `NexFsVolume.NexFs.DataBlock` | crates/nexfs/src/volume.rs:535-565 | the pointer of that block of the file, direct or through the table; a missing pointer or table is `CorruptInode`, an index past the table `FileTooLarge`, a table outside the volume `InvalidLayout` |
| `NexFsVolume.NexFs.ReadDirectory` | crates/nexfs/src/volume.rs:335-354 | the directory's bytes parsed as entries |
| `NexFsVolume.NexFs.ReplaceDirectory` | crates/nexfs/src/volume.rs:356-379 | the directory holds exactly the new entries, when they fit |
| `NexFsVolume.NexFs.SetBlockAllocated` | crates/nexfs/src/volume.rs:663-674 | one bit of the block bitmap changes and nothing else in the view of the volume |
| `NexFsVolume.NexFs.SetInodeAllocated` | crates/nexfs/src/volume.rs:628-637 | one bit of the inode bitmap changes and nothing else in the view of the volume |
| `NexFsVolume.NexFs.WriteInode` | crates/nexfs/src/volume.rs:577-583 | one inode slot changes and nothing else in the view of the volume |
| `NexFsVolume.NexFs.ClearInode` | crates/nexfs/src/volume.rs:585-591 | the slot no longer decodes; nothing else changes |
| `NexFsVolume.NexFs.FinishMutation` | crates/nexfs/src/volume.rs:701-705 | writes the superblock, still dirty, and flushes; nothing else changes |
| `NexCheck.CheckDetailed` | crates/nexfs/src/lib.rs:299-458 | Ok exactly when the volume is clean and well formed (`Accepts`): bitmaps agree with ownership, block maps are in order, the directory graph is a tree over exactly the allocated inodes; a dirty superblock gives `Dirty` |
| `NexAudit.AcceptedBits` | crates/nexfs/src/lib.rs:299-458 | what acceptance says of the bytes of an image: the bits of both bitmaps within their ranges, those of the metadata set, and a decodable slot for every set inode bit |
| `NexAudit.AcceptedBlocks` | crates/nexfs/src/lib.rs:351-383 | in an accepted image a data block's bit is set exactly when some inode slot points to it, directly, through its table or as its table; and no two inodes do |
| `NexAudit.AcceptedPaths` | crates/nexfs/src/lib.rs:395-444 | in an accepted image every inode whose bit is set has one path from the root |
| `NexCheck.ValidateInodeBlocks` | crates/nexfs/src/lib.rs:478-519 | Ok exactly when every pointer of the inode can be claimed, and then exactly those are claimed |
| `NexCheck.ClaimDataBlock` | crates/nexfs/src/lib.rs:521-541 | claims a block exactly when it is in the data region, marked and unclaimed |
| `NexCheck.ClaimInodes` | crates/nexfs/src/lib.rs:351-375 | the pass over the inode table succeeds exactly when every allocated inode decodes and is of a possible kind, every block map is in order over marked blocks, and no block is in two maps (`Apportioned`) |
| `NexCheck.CheckCoverage` | crates/nexfs/src/lib.rs:377-383 | every marked data block has an owner and every owned one is marked |
| `NexCheck.CheckTails` | crates/nexfs/src/lib.rs:384-393 | no bit past the end of either bitmap is set |
| `NexCheck.WalkTree` | crates/nexfs/src/lib.rs:395-444 | the walk with a worklist succeeds exactly when the directory graph is a tree and every inode's contents are in order; it terminates |
| `NexCheck.CheckDirectory` | crates/nexfs/src/lib.rs:407-434 | one directory is accepted exactly when its records decode, names differ, and targets exist, match in kind and are met neither before nor twice |
| `NexCheck.ReadAll` | crates/nexfs/src/lib.rs:543-572 | the same bytes as the file has through its block map |
| `NexClaims.ClaimableIff` | crates/nexfs/src/lib.rs:478-541 | the claims succeed exactly when the block map is in order and its blocks are marked and unclaimed |
| `NexClaims.LedgerIsOwnership` | crates/nexfs/src/lib.rs:377-383 | a complete ledger that agrees with the bitmap is the ownership invariant: each block has one owner through one pointer |
| `NexExplore.ExploredTree` | crates/nexfs/src/lib.rs:395-444 | when everything was reached once and looked through, the graph is a tree |
| `NexExplore.StepRefutes` | crates/nexfs/src/lib.rs:413-434 | a bad entry, a repeated name or an inode met twice means the graph is no tree |
| `NexExplore.LeftoverRefutes` | crates/nexfs/src/lib.rs:436-444 | an allocated inode that was not reached means the graph is no tree |
| `NexFormat.Format` | crates/nexfs/src/lib.rs:192-266 | succeeds exactly on at least 32 blocks; the result is accepted, holds an empty root and has kept the boot block and the data region, with the root's permissions 0o755 |
| `NexFormat.FormatCounts` | crates/nexfs/src/lib.rs:192-266 | how many inodes a volume gets: 64 below 1024 blocks, 32768 from 524288 on, otherwise 16 for each whole 256 blocks; the table takes exactly the blocks for them |
| `NexTree.RenameAtPath` | crates/nexfs/src/volume.rs:190-256 | in any tree, a rename carries the whole subtree from the old path to the new one and nothing else |
| `NexTree.RenameKeepsTree` | crates/nexfs/src/volume.rs:190-256 | a rename that the cycle guard admits keeps the graph a tree |
| `NexTree.CreateAtPath` | crates/nexfs/src/volume.rs:258-281 | creating adds one path and leaves every other alone |
| `NexTree.CreateKeepsTree` | crates/nexfs/src/volume.rs:258-281 | creating keeps the graph a tree |
| `NexTree.RemoveAtPath` | crates/nexfs/src/volume.rs:156-188 | removing takes one path away and leaves every other alone |
| `NexTree.RemoveKeepsTree` | crates/nexfs/src/volume.rs:156-188 | removing a leaf keeps the graph a tree |
| `NexTree.SetFileAtPath` | crates/nexfs/src/volume.rs:99-121 | rewriting a file changes one path |
| `NexTree.LookupInjective` | crates/nexfs/src/lib.rs:395-444 | in a tree two paths never name the same inode |
| `NexTree.EveryInodeHasPath` | crates/nexfs/src/lib.rs:395-444 | in a tree every inode has a path |
| `NexTree.SearchExhausted` | crates/nexfs/src/volume.rs:308-333 | a finished search without a hit means the target is not below |
| `NexBlocks.OwnershipUpdate` | crates/nexfs/src/volume.rs:474-533 | a change of one inode's block map and of its bits in the bitmap keeps the ownership of all the others, and their bytes |
| `NexBlocks.WriteWithinBlock` | crates/nexfs/src/volume.rs:412-447 | writing part of one block overlays the file's bytes there and no other file's |
| `NexBlocks.AppendInTable` | crates/nexfs/src/volume.rs:474-502 | appending through the pointer table, new or old, adds one zeroed block at the end of the file |
| `NexState.DirectoryRoundTrip` | crates/nexfs/src/volume.rs:335-379 | writing out a directory and parsing it gives it back |
| `NexState.ChangedFs` | crates/nexfs/src/volume.rs:412-533 | a change of one inode in memory changes one node of the tree |
| `NexSpace.AvailableConserved` | crates/nexfs/src/volume.rs:474-533 | what an inode owns together with what is free is the same before and after any change to it |
| `NexSpare.SparedAfter` | crates/nexfs/src/volume.rs:474-502 | when space runs out after blocks have been taken in memory, the inode on disk still reaches the old bytes and no other file has changed |
| `NexSpare.SparedFs` | crates/nexfs/src/volume.rs:99-154 | then the tree of files is the same |
| `NexSpare.OthersKeepNodes` | crates/nexfs/src/volume.rs:356-379 | rewriting a directory that runs out of space changes no node but that directory |
| `NexSteps.WriteCovered` | crates/nexfs/src/volume.rs:99-121 | filling the gap and then writing is splicing |
| `NexSteps.HoldingCut` | crates/nexfs/src/volume.rs:123-154 | cutting blocks, then clearing the tail, is truncation |
| `NexCommit.Installed` | crates/nexfs/src/volume.rs:577-583 | writing the changed inode back makes the change visible in the tree, and keeps the volume consistent |
| `NexCommit.Added` | crates/nexfs/src/volume.rs:258-281 | allocating a number and writing an empty inode keeps the volume consistent |
| `NexCommit.Discarded` | crates/nexfs/src/volume.rs:156-188 | clearing an inode without blocks and freeing its number keeps the volume consistent |
| `NexPath.ResolvedIsLookup` | crates/nexfs/src/volume.rs:283-306 | resolving succeeds exactly on acceptable components that lead somewhere in the tree |
| `NexVerdict.ResolvedFails` | crates/nexfs/src/volume.rs:283-306 | a failed resolution stops at a component: everything before it is acceptable and leads somewhere, and what is wrong with it decides the error; `..` is always `InvalidPath` |
| `NexPath.SplitParentIsLast` | crates/nexfs/src/volume.rs:708-720 | the parent's names and the split-off name together are the path |
| `NexVerdict.SplitParentFails` | crates/nexfs/src/volume.rs:708-720 | `Busy` exactly for paths of slashes alone; otherwise the last component decides between success and `InvalidName`, however many slashes follow it |
| `NexVerdict.SpelledNames` | crates/nexfs/src/volume.rs:283-306 | a path that can be placed is one whose every name is valid |
| `NexPath.PathOfSplit` | crates/nexfs/src/volume.rs:283-306 | trimming slashes makes no difference once empty components are skipped |
| `NexLayout.InodeRoundTrip` | crates/nexfs/src/layout.rs:58-107 | decoding an encoded inode gives it back, checksum included |
| `NexRecords.InodeRecord` | crates/nexfs/src/layout.rs:58-107 | the inode record field by field: each at its offset, little-endian, and the checksum over the record with its own field zeroed |
| `NexLayout.EntryRoundTrip` | crates/nexfs/src/layout.rs:127-174 | decoding an encoded directory entry gives it back |
| `NexRecords.EntryRecord` | crates/nexfs/src/layout.rs:127-174 | same for directory entries, zeros behind the name |
| `NexLayout.ClearedInodeIsCorrupt` | crates/nexfs/src/layout.rs:81-107 | a zeroed slot never decodes |
| `NexLayout.SuperblockRoundTrip` | crates/nexfs/src/lib.rs:84-161 | decoding an encoded valid superblock gives it back |
| `NexRecords.SuperblockRecord` | crates/nexfs/src/lib.rs:84-161 | same for the superblock, with its magic |
| `Bytes.WithBit` | crates/nexfs/src/volume.rs:722-739 | one bit changes, no other does |
| `FatDriver.Fat32.WriteFile` | crates/nexos-storage/src/fat32.rs:349-400 | succeeds exactly when `WriteError` finds nothing wrong and otherwise returns that error; on success the path reads the contents, every other path reads as before, table copies that were alike stay alike, and the number of free clusters is what was free, less the new ones, plus those of the replaced file; on failure the table, and every cluster in use, is as before |
| `FatVerdict.WriteExactly` | crates/nexos-storage/src/fat32.rs:349-400 | when `write_file` succeeds and which error it gives otherwise, said of paths and free clusters alone: the directory is there, the path names no directory, and the contents fit in the free clusters, in all but one of them if the name is new and the directory has no vacant slot |
| `FatVerdict.FreeExactly` | crates/nexos-storage/src/fat32.rs:349-400 | the free clusters afterwards: those before, less the ones the contents need, plus those of the file that was there, less one if the directory had to grow |
| `FatVerdict.WriteTwice` | crates/nexos-storage/src/fat32.rs:349-400 | two writes to one path: both succeed if the path is no directory and the free clusters suffice for both contents and one more; then the first contents were there in between, the second are read, and the clusters of the first are free again |
| `FatDriver.Fat32.ReadFile` | crates/nexos-storage/src/fat32.rs:311-347 | the contents along the chain cut to the size, or the exact error |
| `FatDriver.Fat32.ClusterChain` | crates/nexos-storage/src/fat32.rs:735-753 | Ok exactly when following the table through valid clusters reaches an end mark; then the list is that chain, without duplicates |
| `FatDriver.Fat32.AllocateChain` | crates/nexos-storage/src/fat32.rs:680-702 | succeeds exactly if enough clusters are free, takes the lowest and links them in order; otherwise changes nothing |
| `FatDriver.Fat32.ReleaseClusters` | crates/nexos-storage/src/fat32.rs:728-733 | frees these clusters and no others |
| `FatDriver.Fat32.ReadFatEntry` | crates/nexos-storage/src/fat32.rs:755-769 | the 28-bit entry of a valid cluster |
| `FatDriver.Fat32.WriteFatEntry` | crates/nexos-storage/src/fat32.rs:771-797 | that entry changes in every copy, and nothing else in the view of the volume |
| `FatDriver.Fat32.WriteChain` | crates/nexos-storage/src/fat32.rs:704-721 | the clusters hold the contents followed by zeros, no other cluster changes; fails exactly when they are too few |
| `FatDriver.Fat32.FindEntry` | crates/nexos-storage/src/fat32.rs:617-626 | the first live slot of that name before the end marker, with its place on the device |
| `FatDriver.Fat32.FindFreeSlot` | crates/nexos-storage/src/fat32.rs:628-661 | the first vacant slot, or one in a new zeroed cluster; fails exactly if there is neither |
| `FatDriver.Fat32.WriteDirectoryEntry` | crates/nexos-storage/src/fat32.rs:663-678 | that slot changes and nothing else |
| `FatDriver.Fat32.ResolveDirectory` | crates/nexos-storage/src/fat32.rs:530-545 | the directory the names lead to, or the first thing wrong |
| `FatDriver.FreeWritesRead` | crates/nexos-storage/src/fat32.rs:349-400 | writes to free clusters are visible on no path |
| `FatStore.ReadAfter` | crates/nexos-storage/src/fat32.rs:349-400 | after the steps of `write_file` any path reads the new contents, if it is the path stored, and otherwise what it read before |
| `FatStore.ClustersAfter` | crates/nexos-storage/src/fat32.rs:349-400 | after a store the path's clusters are new ones that were free, and those it had are free |
| `FatStore.TidyAfter` | crates/nexos-storage/src/fat32.rs:349-400 | storing keeps chains disjoint, every object named once and directory tails clear |
| `FatStore.FreeAfterStore` | crates/nexos-storage/src/fat32.rs:349-400 | the free clusters afterwards, as a set and as a number |
| `FatAssemble.StepsStore` | crates/nexos-storage/src/fat32.rs:349-400 | allocate, fill, enter, free: the steps together are one store |
| `FatChain.ChainDistinct` | crates/nexos-storage/src/fat32.rs:735-753 | a chain that ends repeats no cluster |
| `FatChain.LongRunHasNoChain` | crates/nexos-storage/src/fat32.rs:735-753 | a run longer than the table never ends (pigeonhole) |
| `FatChain.BrokenRunHasNoChain` | crates/nexos-storage/src/fat32.rs:735-753 | a run into an invalid cluster never ends |
| `FatChain.ReleaseUndoesLink` | crates/nexos-storage/src/fat32.rs:680-733 | freeing what was just linked restores the table |
| `FatTree.PathsUnique` | crates/nexos-storage/src/fat32.rs:530-545 | on a well-formed volume a directory has one path |
| `FatVolume.FatWritten` | crates/nexos-storage/src/fat32.rs:771-797 | writing one entry of one copy changes that entry and no other |
| `FatVolume.EntryView` | crates/nexos-storage/src/fat32.rs:771-797 | once every copy is written the table has the new entry and the copies agree |
| `FatRecords.EntryPlace` | crates/nexos-storage/src/fat32.rs:755-797 | entry c of copy k is at byte 4c of that copy, and an update keeps the top four bits |
| `FatVolume.OneClusterView` | crates/nexos-storage/src/fat32.rs:799-811 | writes inside a cluster change that cluster only |
| `FatDir.PlacedOthers` | crates/nexos-storage/src/fat32.rs:663-678 | every other name is found where it was |
| `FatDir.PlacedFound` | crates/nexos-storage/src/fat32.rs:663-678 | the name itself is found at its place |
| `FatRecords.SlotRecord` | crates/nexos-storage/src/fat32.rs:663-678 | the 32 bytes of a file's entry: name, archive attribute, both halves of the first cluster, size, zeros |
| `FatMount.ParseBoot` | crates/nexos-storage/src/fat32.rs:198-278 | a boot sector that is accepted describes tables and clusters inside the device |
| `FatRecords.BootAccepted` | crates/nexos-storage/src/fat32.rs:198-278 | a boot sector is accepted with a geometry exactly when its fields say so and the numbers make sense: power-of-two sizes, at least 65525 clusters that fill the space behind the tables, and tables that cover them |
| `FatMount.FormattedTidy` | crates/nexos-storage/src/fat32.rs:63-140 | a volume with one zeroed root cluster is well formed and every path is missing |
| `FatPath.PathComponents` | crates/nexos-storage/src/fat32.rs:843-880 | the short names of the components, none of which can look like a deleted entry or an end marker, or `InvalidName` |
| `FatPath.SameShortName` | crates/nexos-storage/src/fat32.rs:854-880 | two names are stored alike exactly when base and extension differ in case at most |
| `FatRecords.ShortNameParts` | crates/nexos-storage/src/fat32.rs:854-880 | a base of one to eight and an extension of up to three allowed characters make the upper-cased name padded with spaces |
| `FatRecords.ShortNameForms` | crates/nexos-storage/src/fat32.rs:854-880 | and every accepted name has that form |
| `Paging.PageTables.MapPage` | kernel/src/paging.rs:94-160 | on tables that form a tree: success makes every address of the page translate to the frame in the installed entry plus its offset (see `MappedExactly`), and no other translation changes; every failure changes no translation; it succeeds exactly when `MapError` finds nothing wrong and otherwise returns that error — the first obstacle on the walk, the first frame in line that the direct map cannot reach, or too few frames — and takes one frame in line for each missing table; on success the page, which gave no access before, is open to the user exactly if the flags say so, and for writing and execution exactly if the flags and the entries already on its path do; any other page keeps its access, and can gain user access only, only from a mapping for the user; the same holds of every page after a failure |
| `Paging.SupplyIff` | kernel/src/paging.rs:94-160 | new tables can be had exactly when enough frames are in line and the direct map reaches the place of each; frames are short exactly when the line ends before one out of reach |
| `Paging.CoveredLack` | kernel/src/paging.rs:94-160 | with a direct map that covers the frames in line, only their number matters |
| `Paging.MappedExactly` | kernel/src/paging.rs:94-160 | the page leads to the frame asked for exactly when that is below 2^52 and the flags carry no address bit it does not have |
| `Paging.OwnFlags` | kernel/src/paging.rs:162-206 | the flags of the three wrappers carry no address bits |
| `Paging.PageTables.UnmapPage` | kernel/src/paging.rs:208-248 | returns the frame, exactly when the page translates through four levels and the top-level entry has no huge bit; that page alone stops translating; failures change nothing, and which one is reported is exact; that page alone loses its access |
| `Paging.MapThenUnmap` | kernel/src/paging.rs:94-248 | a page that was mapped is unmapped again, which returns the mapped frame and restores every translation; the mapping is refused exactly as `MapPage` says; access can only have grown, by user access, from a mapping for the user |
| `Paging.HugeRootRefused` | kernel/src/paging.rs:208-248 | four tables that map page 0 under a top-level entry with the huge bit: the page translates and `unmap_page` refuses it |
| `Paging.PageTables.TranslateAddress` | kernel/src/paging.rs:51-92 | the walk through the tables, large pages included |
| `PageTable.PageInOnePiece` | kernel/src/paging.rs:51-92 | a page of 1 GiB, 2 MiB or 4 KiB is mapped in one piece: its addresses translate to the entry's frame plus their offset in the page, with the entry's flags |
| `Paging.EquivalentEntry` | kernel/src/paging.rs:94-160 | adding the user bit on the way down changes no translation |
| `PageAccess.AccessByLeaf` | kernel/src/paging.rs:51-92 | access through the four levels implies that the entry a translation reports grants it |
| `Paging.NewTable` | kernel/src/paging.rs:94-160 | hanging an empty table under an absent entry changes no translation and keeps the tree |
| `Paging.LeafEntry` | kernel/src/paging.rs:94-160 | a leaf entry decides the walks that read it and no others |
| `PageVerdict.ObstacleExactly` | kernel/src/paging.rs:94-160 | a walk meets no obstacle exactly when every table on it is within the direct map, no entry above the last maps a large page, and the page does not translate; which obstacle is reported says which of these failed |
| `Paging.ReadersOfPage` | kernel/src/paging.rs:94-160 | the walks that read a leaf entry are those of its page |
| `PageTable.WalksMeet` | kernel/src/paging.rs:51-92 | walks that meet in a table came by the same indices |
| `PageTable.OtherWalks` | kernel/src/paging.rs:51-92 | walks that do not read an entry do not notice its change |
| `PageTable.LeafFrame` | kernel/src/paging.rs:94-160 | the frame of the installed entry, and exactly when it is the one asked for |
| `PageAccess.LeafGrants` | kernel/src/paging.rs:94-160 | the installed entry grants what the flags do |
| `Paging.ChildEntryGrants` | kernel/src/paging.rs:94-160 | the entry for a new table grants writing and execution always, user access exactly if the mapping is for the user |
| `Paging.LeafInstalled` | kernel/src/paging.rs:94-160 | installing the leaf gives the page its access and leaves every other page's |
| `PageTable.MisdirectedLeaf` | kernel/src/paging.rs:94-160 | frame 2^52 is mapped to 0, and a flag bit 12 moves a page |
| `Frames.FrameAllocator.FromMemoryMap` | kernel/src/memory.rs:28-52 | every frame on offer is a usable one above the first MiB, and all of them are unless the range table filled up |
| `Frames.FrameAllocator.Allocate` | kernel/src/memory.rs:54-66 | hands out the next frame in line, which was available and never will be again; fails exactly when none is |
| `Frames.LineIs` | kernel/src/memory.rs:54-66 | the frames in line are the available ones |
| `Frames.FrameAllocator.AllocateContiguous` | kernel/src/memory.rs:68-85 | hands out a run from the first range with room, exactly when there is one, and gives up the ranges before it; a request that no range can meet gives up every frame |
| `KernelHeapTable.KernelHeap.Allocate` | kernel/src/heap.rs:202-260 | first fit: fails exactly on a malformed request, when no free segment fits, or when the 128-entry table would overflow, which cannot happen with at most 62 live blocks; otherwise the new block joins the live ones at a multiple of its alignment, the segment list changes exactly by the split, and no other block moves |
| `HeapVerdict.AllocateLowest` | kernel/src/heap.rs:202-260 | said of the live blocks alone: the new block is at the lowest aligned address where it fits between them; with at most 62 live blocks there is one exactly when there is such an address |
| `HeapVerdict.NoFitIff` | kernel/src/heap.rs:202-260 | no segment fits exactly when no aligned address of the heap is clear of the live blocks for that long |
| `HeapVerdict.FirstFitLowest` | kernel/src/heap.rs:202-260 | the first fit is the lowest such address |
| `KernelHeapTable.KernelHeap.Deallocate` | kernel/src/heap.rs:262-292 | accepts exactly the address of a live block; that block alone is gone and its segment freed and merged; otherwise nothing changes |
| `HeapBlocks.BlocksApart` | kernel/src/heap.rs:202-292 | at any time the live blocks are aligned as asked, inside the heap and disjoint |
| `HeapBlocks.TracksAllocated` | kernel/src/heap.rs:202-260 | splitting a segment adds one live block, at a new address |
| `HeapBlocks.TracksReleased` | kernel/src/heap.rs:262-292 | releasing and merging removes one live block and keeps the others |
| `KernelHeapTable.AllocateThenDeallocate` | kernel/src/heap.rs:202-292 | allocating and freeing restores segment list, live blocks and counters exactly |
| `KernelHeapTable.KernelHeap.ReplaceSegment` | kernel/src/heap.rs:353-370 | one segment becomes its pieces, the rest shifts, exactly if the table has room |
| `KernelHeapTable.KernelHeap.RemoveSegment` | kernel/src/heap.rs:372-378 | one segment is cut out, the rest closes up |
| `KernelHeapTable.KernelHeap.CountFree` | kernel/src/heap.rs:295-301 | free bytes, and used plus free is the size |
| `Heap.ReleaseUndoesAllocate` | kernel/src/heap.rs:202-292 | freeing the block just allocated restores the exact segment list |
| `Heap.ReleasedOk` | kernel/src/heap.rs:262-292 | releasing keeps a gap-free tiling without adjacent free segments, and lowers the used bytes by that block |
| `Heap.AllocatedMerged` | kernel/src/heap.rs:202-260 | allocating keeps free segments apart |
| `Heap.TilingOrdered` | kernel/src/heap.rs:202-292 | blocks of a tiling are disjoint and in order |
| `Heap.TilingTotal` | kernel/src/heap.rs:295-301 | used and free bytes add up to the heap |
| `Heap.MergedBound` | kernel/src/heap.rs:353-370 | without adjacent free segments there are at most 2 * live + 1 segments |
| `Cache.CachedDevice.ReadSectors` | crates/nexos-storage/src/cache.rs:143-153 | returns what the device without a cache would hold, or the exact error; each sector is accessed once, and whether the stamp has wrapped is exact; nothing reaches the inner device while the cache has slots to spare |
| `Cache.CachedDevice.WriteSectors` | crates/nexos-storage/src/cache.rs:155-167 | the logical contents change in these sectors only; each sector is accessed twice, and whether the stamp has wrapped is exact; nothing reaches the inner device while the cache has slots to spare |
| `Cache.CachedDevice.Flush` | crates/nexos-storage/src/cache.rs:169-174 | afterwards the inner device equals the logical contents |
| `CacheRuns.ServeAll` | crates/nexos-storage/src/cache.rs:143-174 | any run of reads, writes and flushes leaves the contents the plain device would have; each answer is the plain device's, but `InvalidBuffer` for an empty transfer, so all are exactly when none is empty |
| `CacheRuns.AnswersAgree` | crates/nexos-storage/src/lib.rs:120-164 | answers that differ at empty transfers only are the plain device's exactly when there is no empty transfer |
| `CacheRuns.EmptyReadDiffers` | crates/nexos-storage/src/cache.rs:116-131 | a read of no bytes at sector 0: the plain device returns them, the cache refuses |
| `CacheRuns.Compare` | crates/nexos-storage/src/cache.rs:62-174 | two caches served the same requests answer alike, and as the plain device but for empty transfers; below 2^64 accesses the larger counts no more misses |
| `CacheRuns.HoldsDetermines` | crates/nexos-storage/src/lib.rs:137-164 | what the written sectors hold, and that the others stay, determines the device |
| `Cache.CachedDevice.EntryFor` | crates/nexos-storage/src/cache.rs:67-104 | the slot of the sector holds its logical contents; the cached sectors stay distinct, within capacity and, until the stamp wraps, the most recently used ones |
| `Cache.CachedDevice.WriteBack` | crates/nexos-storage/src/cache.rs:106-114 | a written-back slot is clean and the inner device holds it; the logical contents stay |
| `Cache.TransferIff` | crates/nexos-storage/src/cache.rs:116-131 | a transfer is accepted exactly when it is a whole number of sectors, at least one, inside the device; the two errors exactly otherwise |
| `Cache.TransfersAgree` | crates/nexos-storage/src/cache.rs:116-131 | the cache and the plain device accept the same transfers, with the same errors, exactly when the transfer is not empty |
| `Cache.LruEvict` | crates/nexos-storage/src/cache.rs:67-104 | evicting the oldest stamp evicts the least recently used sector |
| `Lru.LargerMissesLess` | crates/nexos-storage/src/cache.rs:62-104 | on any accesses a larger cache never misses more |
| `Lru.Inclusion` | crates/nexos-storage/src/cache.rs:62-104 | a larger cache holds everything a smaller one does |
| `Lru.KeptHit` | crates/nexos-storage/src/cache.rs:62-65 | a hit moves that sector to the front and keeps the rest |
| `Lru.KeptMiss` | crates/nexos-storage/src/cache.rs:67-104 | a miss puts the sector in front and drops the last one if the cache is full |
| `ScancodeQueue.RunFifo` | kernel/src/ps2.rs:93-116 | in every interleaving of the two sides' atomic steps, what came out followed by what is queued is what was accepted, in order; a byte is accepted as the one given to `enqueue` |
| `ScancodeQueue.RunOffers` | kernel/src/ps2.rs:93-102 | every byte given to `enqueue` is accepted or dropped once, in order, but for the one under way |
| `ScancodeQueue.NoSharedSlot` | kernel/src/ps2.rs:93-116 | the producer never writes the slot the consumer is reading |
| `ScancodeQueue.RunHonest` | kernel/src/ps2.rs:93-116 | a byte is dropped only with 255 unread, and emptiness is reported only when all were read |
| `ScancodeQueue.ProduceKeeps` | kernel/src/ps2.rs:93-102 | each step of `enqueue` keeps the invariant, which ties the written slot to the byte given; a byte is dropped only with 255 unread |
| `ScancodeQueue.ConsumeKeeps` | kernel/src/ps2.rs:104-116 | each step of `dequeue` keeps the invariant |
| `Rings.ProducerRing.Push` | crates/nexos-usb/src/xhci.rs:148-163 | appends to the ring's history; a ring without room for a link takes nothing |
| `Rings.ConsumerSees` | crates/nexos-usb/src/xhci.rs:148-163 | a consumer that obeys the cycle and link rules and is at most N - 1 behind sees each request once and in order, and an empty ring exactly when it has caught up, over any number of laps |
| `RingRuns.Converse` | crates/nexos-usb/src/xhci.rs:148-163 | submissions and polls in any order: the controller sees a first-in, first-out queue over any number of laps, if the driver is never more than N - 1 ahead |
| `RingRuns.SeenAfterLaps` | crates/nexos-usb/src/xhci.rs:148-163 | however far ahead the driver is: the next request is seen exactly when its entry was not written over; after an odd number of laps the ring looks empty, after an even one it shows the request that took its place |
| `RingRuns.SubmitTwice` | crates/nexos-usb/src/xhci.rs:148-163 | `push` has no guard: two submissions into a ring of two entries, and nothing is seen |
| `Rings.EventConsumer.ConsumeEvent` | crates/nexos-usb/src/xhci.rs:203-218 | against hardware at most N ahead, yields the next event exactly when there is one |
| `Rings.EventWritten` | crates/nexos-usb/src/xhci.rs:203-218 | hardware writing one more event keeps the ring's history readable |
| `RingRuns.ConverseEvents` | crates/nexos-usb/src/xhci.rs:203-218 | events written and consumed in any order: a first-in, first-out queue, if the hardware is never more than N ahead |
| `Scheduler.ReachableOneRunning` | crates/nexos-runtime/src/scheduler.rs:72-271 | in every reachable state the current slot is the running task and the only one, until ids wrap |
| `TaskLaws.ReachableReports` | crates/nexos-runtime/src/scheduler.rs:128-180 | in every reachable state, until ids wrap, the decisions of `schedule` and `tick` are true: idle exactly when no task runs afterwards, continue exactly when the running task ran before, and a switch names the one that ran and the one that runs |
| `TaskLaws.ScheduleExactly` | crates/nexos-runtime/src/scheduler.rs:128-160 | what `schedule` does to each task by its id: the chosen one was ready, running or due and now runs, the others rest, and none is chosen exactly when none could be |
| `TaskLaws.TickExactly` | crates/nexos-runtime/src/scheduler.rs:162-180 | same for `tick`: before the quantum is used up the running task stays, and sleepers that are due become ready |
| `TaskLaws.SleeperWakes` | crates/nexos-runtime/src/scheduler.rs:256-262 | a sleeper is ready or runs after the first `schedule` or `tick` at its wake tick or later |
| `TaskLaws.StaysAsleep` | crates/nexos-runtime/src/scheduler.rs:256-262 | a sleeping, blocked or exited task stays so over any run without a turn at or after its wake tick, a wake, an exit or a reap that is meant for it |
| `TaskLaws.SpawnExactly` | crates/nexos-runtime/src/scheduler.rs:83-102 | a new id, ready; every other task as before; fails exactly when every slot is taken |
| `TaskLaws.StopExactly` | crates/nexos-runtime/src/scheduler.rs:182-223 | answers the id of the running task and changes it alone; fails exactly when none runs |
| `TaskLaws.WakeExactly` | crates/nexos-runtime/src/scheduler.rs:202-213 | a sleeping or blocked task of that id becomes ready, any other stays; fails exactly for unknown ids |
| `TaskLaws.ExitExactly` | crates/nexos-runtime/src/scheduler.rs:225-240 | the task of that id, and no other, has exited with the status; fails exactly for unknown ids |
| `TaskLaws.ReapExactly` | crates/nexos-runtime/src/scheduler.rs:242-254 | succeeds exactly on an exited task, which alone is gone |
| `Scheduler.ApplyKeeps` | crates/nexos-runtime/src/scheduler.rs:83-262 | every operation keeps the invariant |
| `Scheduler.BoundedWaiting` | crates/nexos-runtime/src/scheduler.rs:128-271 | while current tasks are not slept, blocked or exited, a task that stays ready waits fewer than (TASKS - 1) * quantum ticks and schedules |
| `Scheduler.BoundedSchedules` | crates/nexos-runtime/src/scheduler.rs:128-160 | and fewer than TASKS - 1 schedules |
| `Scheduler.BoundedByStops` | crates/nexos-runtime/src/scheduler.rs:128-271 | over any run, with or without a current task to begin with, a task that stays ready waits for fewer turns than one round of (TASKS - 1) * max(quantum, 1) + 1, and another for each time a current task was stopped |
| `Scheduler.ZeroIsOne` | crates/nexos-runtime/src/scheduler.rs:72-180 | with quantum 0 every run does what it does with quantum 1 |
| `Scheduler.Closer` | crates/nexos-runtime/src/scheduler.rs:128-160 | each `schedule` runs the waiting task or strictly shortens its cyclic distance |
| `Scheduler.TickShortens` | crates/nexos-runtime/src/scheduler.rs:162-180 | each `tick` runs the waiting task or shortens its wait |
| `Scheduler.BlockingStarves` | crates/nexos-runtime/src/scheduler.rs:128-160 | no bound holds without counting stops: from two spawned tasks, one that blocks and is woken again starves the other for any number of schedules, since the search restarts at slot 0 |
| `RoundRobin.RoundRobinScheduler.constructor` | crates/nexos-runtime/src/scheduler.rs:72-81 | an empty table |
| `RoundRobin.RoundRobinScheduler.ScheduleNext` | crates/nexos-runtime/src/scheduler.rs:128-160 | the table in place becomes what `Scheduled` says, with its decision; the count of switches grows, up to 2^64 - 1, exactly when it is a switch |
| `RoundRobin.RoundRobinScheduler.TickOnce` | crates/nexos-runtime/src/scheduler.rs:162-180 | same for `Ticked` |
| `RoundRobin.RoundRobinScheduler.WakeSleepers` | crates/nexos-runtime/src/scheduler.rs:256-262 | same for `Woken` |
| `RoundRobin.RoundRobinScheduler.FindReadyFrom` | crates/nexos-runtime/src/scheduler.rs:264-271 | the first ready slot going round from the start |
| `RoundRobin.RoundRobinScheduler.SpawnTask` | crates/nexos-runtime/src/scheduler.rs:83-102 | same for `Spawned`: first free slot, next id |
| `RoundRobin.RoundRobinScheduler.StopCurrent` | crates/nexos-runtime/src/scheduler.rs:182-223 | same for `Stopped`: sleep, block and exit of the current task |
| `RoundRobin.RoundRobinScheduler.WakeTask` | crates/nexos-runtime/src/scheduler.rs:202-213 | same for waking a task by id |
| `RoundRobin.RoundRobinScheduler.ExitTaskById` | crates/nexos-runtime/src/scheduler.rs:225-240 | same for ending a task by id |
| `RoundRobin.RoundRobinScheduler.ReapTask` | crates/nexos-runtime/src/scheduler.rs:242-254 | same for reaping |
| `VirtualFs.Normalize` | crates/nexos-runtime/src/vfs.rs:41-66 | the buffer built in place is `Normalized`: bytes, length and every error |
| `VirtualFs.PathBuffer.AppendComponents` | crates/nexos-runtime/src/vfs.rs:78-113 | the buffer follows the stack meaning of the components, stale bytes included |
| `VfsBuffer.NormalizedText` | crates/nexos-runtime/src/vfs.rs:41-71 | the text of the result is the slash-join of the reduced names |
| `VfsPath.NormalLegal` | crates/nexos-runtime/src/vfs.rs:41-113 | a result is within every limit and has no `.`, `..` or empty component |
| `VfsPath.NormalIdempotent` | crates/nexos-runtime/src/vfs.rs:41-66 | normalising a normalised path changes nothing |
| `VfsPath.RelativePath` | crates/nexos-runtime/src/vfs.rs:41-66 | a relative path means the current directory, a slash and the path, errors included |
| `VfsPath.DirectoryFirst` | crates/nexos-runtime/src/vfs.rs:41-66 | the current directory may be normalised first, errors included |
| `VfsPath.OneComponent` | crates/nexos-runtime/src/vfs.rs:78-113 | from any directory, one component: an empty one and `.` stay, `..` goes up and stays at the root, a name goes down exactly if the path is then within every limit, and is `NameTooLong` otherwise |
| `VfsPath.PrefixIff` | crates/nexos-runtime/src/vfs.rs:245-251 | the textual prefix test is the prefix test on names |
| `VfsPath.RelativeNames` | crates/nexos-runtime/src/vfs.rs:253-262 | what is left of the text is exactly the remaining names |
| `VfsBuffer.InkMeaning` | crates/nexos-runtime/src/vfs.rs:78-123 | a byte of the buffer is nonzero exactly below the longest path passed on the way |
| `VfsBuffer.StoredCanonically` | crates/nexos-runtime/src/vfs.rs:27-31 | a path compares equal to its own normalised form exactly when no longer path was passed on the way |
| `VfsBuffer.StoredEqual` | crates/nexos-runtime/src/vfs.rs:27-31 | equal values are equal paths; equal paths are equal values when none was shortened by `..` |
| `VfsBuffer.EqualPathsDiffer` | crates/nexos-runtime/src/vfs.rs:27-31 | `/a/b/..` and `/a` normalise to the same text and do not compare equal |
| `VfsMounts.RemountRefused` | crates/nexos-runtime/src/vfs.rs:180-192 | mounting at a path whose normalised text is mounted is refused exactly when the path was not shortened by `..` on the way |
| `VfsMounts.UnmountUndoesMount` | crates/nexos-runtime/src/vfs.rs:180-203 | unmounting takes back exactly what mounting added |
| `VfsMounts.MountTakesOver` | crates/nexos-runtime/src/vfs.rs:180-192 | a mount takes over the paths below it that no deeper mount has, and no others |
| `VfsMounts.Vfs.SelectMount` | crates/nexos-runtime/src/vfs.rs:229-236 | the mount with the longest list of names that is a prefix, the last of equals, or none covers the path |
| `VfsMounts.Vfs.Lookup` | crates/nexos-runtime/src/vfs.rs:205-222 | the governing mount's file system walked along the remaining names, or the exact error |
| `VfsMounts.Vfs.Mount` | crates/nexos-runtime/src/vfs.rs:180-192 | the table becomes `Mounted`, or nothing changes and the error is exact |
| `VfsVerdict.MountExactly` | crates/nexos-runtime/src/vfs.rs:180-192 | mounting fails as the path does, with `AlreadyExists` exactly when a slot holds the path, with `MountLimit` exactly when none does and all are taken; otherwise the first free slot, and no other, takes the mount |
| `VfsVerdict.MountThenLookup` | crates/nexos-runtime/src/vfs.rs:180-222 | after a mount, a path below it that no mount at or below it covered is looked up in the mounted file system from its root; the mount point itself gives the root |
| `VfsMounts.Vfs.Unmount` | crates/nexos-runtime/src/vfs.rs:194-203 | the table becomes `Unmounted`, or nothing changes and the error is exact |
| `VfsVerdict.UnmountExactly` | crates/nexos-runtime/src/vfs.rs:194-203 | unmounting succeeds exactly when a slot holds the path; the first such slot, and no other, becomes free |
| `DiskRoundTrip.LayoutRoundTrip` | tools/nexos-installer/src/disk.rs:267-279 | writing any accepted layout over any image and reading the table back gives the layout — kind, order, ranges, types, identifiers, names — exactly when, for a GPT, every unique identifier is nonzero and every name has at most 36 characters, none NUL and none outside the basic plane |
| `DiskRoundTrip.WriteAndRead` | tools/nexos-installer/src/disk.rs:267-279 | writes any layout over any image and reads the table back: exactly what `ReadsAfter` says, for accepted, refused and half-written layouts alike |
| `DiskRoundTrip.GptReadBack` | tools/nexos-installer/src/disk.rs:633-714 | what reading a written GPT gives, for every accepted layout: the rows, or `InvalidGpt` exactly if an identifier is zero |
| `DiskRoundTrip.MbrReadBack` | tools/nexos-installer/src/disk.rs:612-631 | what reading a written MBR gives |
| `DiskRoundTrip.PartitionsUntouched` | tools/nexos-installer/src/disk.rs:267-279 | no byte inside any planned partition changes |
| `DiskRoundTrip.BackupMirrors` | tools/nexos-installer/src/disk.rs:633-686 | the backup header and entries mirror the primary ones, with the places exchanged |
| `DiskRoundTrip.UnfinishedUnreadable` | tools/nexos-installer/src/disk.rs:612-631 | the half-written image has no readable table, and its other sectors are as before |
| `DiskRoundTrip.NamelessUnreadable` | tools/nexos-installer/src/disk.rs:633-686 | a GPT layout of 131072 sectors with one partition of identifier zero is accepted, written and unreadable |
| `DiskRoundTrip.LargeLosesTable` | tools/nexos-installer/src/disk.rs:612-631 | refusing a partition of 2^32 sectors, the write destroys the readable table that was there: reading afterwards gives `InvalidMbr` |
| `DiskRoundTrip.HeaderReadBack` | tools/nexos-installer/src/disk.rs:689-714 | a header reads back as its fields, its checksum included |
| `DiskLayout.WriteLayout` | tools/nexos-installer/src/disk.rs:267-279 | succeeds exactly on layouts of the right size that are valid and, for an MBR, fit in 32 bits; the image becomes `Laid`; a valid MBR layout that does not fit, and nothing else, is refused half-way; every other refusal leaves the image untouched (the bytes that other systems read there: `DiskImage.GptOnDisk`, `DiskImage.GptEntryOnDisk`, `DiskImage.MbrOnDisk`) |
| `DiskLayout.ValidateLayout` | tools/nexos-installer/src/disk.rs:563-610 | accepts exactly layouts of nonempty, disjoint partitions in the usable range, within the table's capacity |
| `DiskImage.LayoutExactly` | tools/nexos-installer/src/disk.rs:563-610 | what the checks on a layout say of single sectors: at least 131072 in all, at most 128 or 4 partitions, none empty, and each sector of one is clear of every copy of the table and in no other |
| `DiskLayout.WriteMbr` | tools/nexos-installer/src/disk.rs:612-631 | the boot sector becomes the table, or the write stops at the first partition that does not fit in 32 bits, leaving the ones before without a signature |
| `DiskImage.MbrOnDisk` | tools/nexos-installer/src/disk.rs:612-631 | on the image, each of the four MBR entries: boot mark, published type byte, first sector and count; unused ones are zero; the signature |
| `DiskLayout.WriteGpt` | tools/nexos-installer/src/disk.rs:633-686 | both entry arrays, the protective sector and both headers are written, and nothing else |
| `DiskImage.GptOnDisk` | tools/nexos-installer/src/disk.rs:633-714 | on the image, the protective MBR and both headers at their sectors, field by field with the values of sections 5.2.3 and 5.3.2 of the UEFI specification |
| `DiskImage.GptEntryOnDisk` | tools/nexos-installer/src/disk.rs:633-686 | on the image, each of the 128 entries: the published type identifier, unique identifier, first and last sector, zero attributes, name; unused ones are zero |
| `DiskImage.TypePublished` | tools/nexos-installer/src/disk.rs:23-91 | every role has its published type identifier and type byte |
| `DiskImage.PublishedRole` | tools/nexos-installer/src/disk.rs:742-761 | a reader that finds a published identifier gets that role, and the identifier is the one written for it |
| `DiskImage.RolesReadBack` | tools/nexos-installer/src/disk.rs:281-318 | the roles read back from a written disk are those of the layout, in order |
| `GptName.NameRoundTrip` | tools/nexos-installer/src/disk.rs:716-721 | a name survives its field exactly when it is short, has no NUL and needs no surrogates |
| `GptName.EncodeGptName` | tools/nexos-installer/src/disk.rs:716-721 | the units that fit, then zeros |
| `DiskImage.NameOnDisk` | tools/nexos-installer/src/disk.rs:716-721 | a name of up to 36 characters of the basic plane is stored one character to two bytes, low byte first, then zeros |
| `GptName.DecodeGptName` | crates/nexos-storage/src/partition.rs:383-393 | the units up to the first zero, surrogates replaced |
| `Partitions.AcceptedSound` | crates/nexos-storage/src/partition.rs:232-430 | whatever the device holds, an accepted table lists nonempty disjoint partitions in slot order inside the disk, behind the boot sector or the entry array |
| `TableVerdict.WhichTable` | crates/nexos-storage/src/partition.rs:147-250 | a boot sector without the signature, or with a slot that is neither unused nor filled, is `InvalidMbr`; otherwise a slot of type 0xee means the GPT, and no such slot the MBR |
| `TableVerdict.MbrAccepted` | crates/nexos-storage/src/partition.rs:147-286 | whoever wrote it, an MBR is accepted exactly if each slot is unused or describes a range of the disk behind its first sector and no two of these meet; the partitions are the ones described |
| `TableVerdict.GptAccepted` | crates/nexos-storage/src/partition.rs:177-380 | whoever wrote it, a GPT is accepted exactly if signature, revision and both checksums are right, the header's ranges and its entry array lie inside the disk and before the usable sectors, each entry is unused or describes usable sectors, and no two of these meet; the partitions are the ones described |
| `Partitions.ReadPartitionTable` | crates/nexos-storage/src/partition.rs:232-250 | the loops compute `TableOf` |
| `Partitions.ReadGpt` | crates/nexos-storage/src/partition.rs:289-380 | header, placement, entry checksum, entries, overlap: exact results and errors |
| `Partitions.ReadMbrTable` | crates/nexos-storage/src/partition.rs:253-286 | the entries as partitions, or the first error |
| `Partitions.ParseMbr` | crates/nexos-storage/src/partition.rs:147-175 | four entries, or `InvalidMbr` |
| `Partitions.ParseGptHeader` | crates/nexos-storage/src/partition.rs:177-218 | the fields of a header whose checksum is right |
| `Partitions.GptHeaderCrc32` | crates/nexos-storage/src/partition.rs:220-229 | the loop computes the CRC-32 of the header with its checksum field zeroed |
| `CrcVector.Crc32Vector` | crates/nexos-storage/src/lib.rs:167-176 | the checksum of the nine digits is 0xcbf43926, the standard's check value |
| `Partitions.ValidateNoOverlap` | crates/nexos-storage/src/partition.rs:413-430 | Ok exactly if the partitions are pairwise disjoint |

## Left out

- NexFS devices are fault-free blocks; read and write errors of the device are not modelled.
- NexFS `stat`, `read_dir`, timestamps and the checker's counters would only add easy members; `check_detailed` returns the superblock alone.
- NexFS branches that its own invariant excludes (a directory that does not parse on a mounted volume, for instance) are not in the class.
- NexFS resolves no `..`: docs/NEXFS.md:48 says that it does, the code refuses it, and the model follows the code (`NexVerdict.ResolvedFails`).
- NexFS paths given to `create` and `rename` are UTF-8, as their type says.
- NexFsVolume.NexFs.Create: after `NoSpace` or `FileTooLarge` nothing is said about paths below the directory it was to enter, which has given back its blocks, nor whether the volume is still well formed.
- NexFsVolume.NexFs.Rename: same after `NoSpace`, for the destination's directory.
- NexSession.SessionCrashSafe: a sector is written whole, holds at least the 100 bytes of the superblock record and divides a block; crashes during `format` are not covered, since it does not flush before the clean superblock.
- NexCheck.CheckDetailed: which error a refused volume gets is stated for dirty ones only.
- NexFormat.Format: the write log is not modelled.
- CRC-32 is computed bit by bit as in the source, but its strength is not used: nothing says that damage is detected.
- FAT32 long names, `create_dir`, `list_dir`, the free-count sector, and the bytes written by `format_fat32`.
- FatDriver.Fat32.WriteFile: the volume it starts from is well formed (`Tidy`: disjoint chains, each object named once, zeros behind a directory's end), has at most 0x0ffffff5 clusters and a fault-free device.
- FatDriver.Fat32.FindEntry: `read_directory` and the search in its result are one scan that stops at the first hit.
- FatMount.FormattedTidy: starts from the volume that formatting leaves, not from the bytes it writes.
- FatMount.ParseBoot: which error a refused sector gives is not stated.
- Paging.PageTables.MapPage: the order in which tables are made, TLB invalidation and the processor's own accesses are not modelled; physical memory is below 2^52.
- Frames.FrameAllocator.FromMemoryMap: usable entries of the boot map do not overlap, as the boot protocol promises.
- Frames.FrameAllocator.AllocateContiguous: requests of 2^64 - 2^52 bytes or more may end at an overflow instead of giving up every frame.
- The lock around the heap, its statistics and the global allocator shim; the heap's virtual start is nonzero.
- Cache.CachedDevice.EntryFor: the inner device serves every transfer in range; hit and eviction counters are left out; which sectors are cached, and how many misses there were, is stated until the stamp wraps, the contents always.
- ScancodeQueue.RunFifo: the two sides' loads and stores interleave in one order, which the source's acquire and release orderings give for one producer and one consumer.
- Rings.ConsumerSees: pushed requests are not links; memory barriers and doorbells are left out.
- Scheduler.ApplyKeeps: until the 32-bit id counter comes round; saved processor contexts are left out, as is the wait queue.
- VfsMounts.Vfs.Lookup: a mounted file system is its root and a lookup function; reading, writing, creating and removing through it are left out.
- Partitions.ReadPartitionTable: the device is a byte sequence read in whole sectors.
- DiskLayout.ValidateLayout: which of the messages a refused layout gets is not stated.
- GUID generation, guided layouts, filesystem detection and host file handling of the installer.
- Drivers, interrupts, syscalls, ELF loading, processes, the shell and USB enumeration: hardware access or short tables.
