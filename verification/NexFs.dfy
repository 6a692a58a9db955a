/**
  The mounted volume: `NexFs` and its operations, written over the raw blocks and
  specified through the typed view and the file tree it stands for.
 */
module NexFsVolume {
  import opened Bytes
  import opened NexLayout
  import opened NexVolume
  import opened NexLog
  import opened NexBlocks
  import opened NexSpace
  import opened NexTree
  import opened Slashes
  import opened NexPath
  import opened NexState
  import opened NexSteps
  import opened NexSpare
  import opened NexLeak
  import opened NexCommit
  import opened NexCheck

  lemma NamedAt(es: seq<DirEntry>, i: nat)
    requires i < |es|
    ensures Named(es, es[i].name)
  {
  }

  lemma BitmapBlock(sb: Superblock, b: nat)
    requires sb.Validate().Ok? && b < sb.totalBlocks
    ensures sb.blockBitmapBlock == 3 && 3 + b / BITS_PER_BLOCK < sb.totalBlocks && GeometryOf(sb).Valid()
  {
  }

  function NextGeneration(sb: Superblock): u64 {
    Min(sb.generation + 1, 0xffff_ffff_ffff_ffff)
  }

  /** The same superblock, `n` generations later; the counter saturates. */
  predicate Later(a: Superblock, b: Superblock, n: nat) {
    b == a.(generation := Min(a.generation + n, 0xffff_ffff_ffff_ffff))
  }

  lemma LaterGeneration(sb: Superblock, generation: u64)
    ensures var after := sb.(generation := generation);
      after.Validate().Ok? == sb.Validate().Ok? && after.IsClean() == sb.IsClean() && GeometryOf(after) == GeometryOf(sb)
  {
  }

  /** The superblock `mount` writes: the clean flag cleared, a new generation. */
  function MarkDirty(sb: Superblock): (r: Superblock)
    ensures !r.IsClean() && (sb.Validate().Ok? ==> r.Validate().Ok?) && GeometryOf(r) == GeometryOf(sb)
  {
    sb.(flags := sb.flags - sb.flags % 2, generation := NextGeneration(sb))
  }

  /** The superblock `unmount` writes. */
  function MarkClean(sb: Superblock): (r: Superblock)
    ensures r.IsClean() && (sb.Validate().Ok? ==> r.Validate().Ok?) && GeometryOf(r) == GeometryOf(sb)
  {
    sb.(flags := sb.flags - sb.flags % 2 + 1, generation := NextGeneration(sb))
  }

  /** Block `b`, the first free one, becomes allocated and zero. */
  ghost predicate Allotted(v: Vol, w: Vol, b: nat) {
    && Free(v, b) && (forall c: nat :: c < b ==> !Free(v, c))
    && w == v.(bbits := v.bbits + {b}, data := v.data[b := Zeros(BLOCK_SIZE)])
  }

  lemma AllottedSpares(v: Vol, w: Vol, b: nat)
    requires Allotted(v, w, b)
    ensures OnlyFree(v, w) && Leaked(v, w) && !NoneFree(v)
  {
    assert b in w.bbits && b !in v.bbits;
  }

  lemma NothingAllotted(v: Vol)
    requires forall b: nat :: !Free(v, b)
    ensures NoneFree(v) && Leaked(v, v)
  {
  }

  lemma SameBitsGrew(v: Vol, w: Vol)
    requires w.g == v.g && w.bbits == v.bbits
    ensures Grew(v, w)
  {
  }

  class NexFs {
    var disk: Disk
    var sb: Superblock
    ghost var base: Disk
    ghost var log: seq<DiskEvent>

    /** The superblock in memory is valid and dirty and the device holds the volume. */
    ghost predicate Mounted()
      reads this
    {
      && sb.Validate().Ok? && !sb.IsClean() && Fits(disk, GeometryOf(sb))
      && Recorded(base, disk, log)
    }

    ghost function V(): Vol
      reads this
      requires Mounted()
      ensures VolOk(V())
    {
      View(disk, GeometryOf(sb))
    }

    // ---------- mounting ----------

    constructor (image: Disk, superblock: Superblock)
      requires superblock.Validate().Ok? && !superblock.IsClean() && Fits(image, GeometryOf(superblock))
      ensures Mounted() && base == image && sb == superblock && disk == image[1 := EncodeSuperblock(superblock)]
      ensures log == [Write(1, EncodeSuperblock(superblock)), Flush]
    {
      hide EncodeSuperblock, DecodeSuperblock;
      SuperblockRoundTrip(superblock);
      SessionOpens(image, EncodeSuperblock(superblock));
      disk := image[1 := EncodeSuperblock(superblock)];
      sb := superblock;
      base := image;
      log := [Write(1, EncodeSuperblock(superblock)), Flush];
    }

    /** Checks the volume, then marks it dirty; the files are those on the device. */
    static method Mount(image: Disk) returns (r: Result<NexFs>)
      ensures r.Ok? <==> Accepts(image)
      ensures |image| > 1 && DirtyBlock(image[1]) ==> r == Err(Dirty)
      ensures r.Ok? ==>
        && fresh(r.value) && r.value.Mounted() && WellFormed(r.value.V())
        && r.value.base == image && r.value.log == [Write(1, EncodeSuperblock(r.value.sb)), Flush]
        && r.value.sb == MarkDirty(DecodeSuperblock(image[1]).value) && r.value.V() == View(image, GeometryOf(r.value.sb))
    {
      hide View, WellFormed, DecodeSuperblock, EncodeSuperblock;
      var checked := CheckDetailed(image);
      if checked.Err? {
        return Err(checked.error);
      }
      DecodedValid(image[1]);
      var superblock := MarkDirty(checked.value);
      SuperblockView(image, GeometryOf(superblock), EncodeSuperblock(superblock));
      var fs := new NexFs(image, superblock);
      r := Ok(fs);
    }

    /** Flushes, then marks the volume clean; it checks exactly if it is well formed. */
    method Unmount() returns (superblock: Superblock)
      requires Mounted()
      modifies this`disk, this`sb, this`log
      ensures superblock == MarkClean(old(sb)) && sb == superblock
      ensures log == old(log) + [Flush, Write(1, EncodeSuperblock(sb)), Flush] && disk == Replay(base, log)
      ensures |disk| > 1 && DecodeSuperblock(disk[1]) == Ok(sb) && GeometryOf(sb) == GeometryOf(old(sb))
      ensures Fits(disk, GeometryOf(sb)) && View(disk, GeometryOf(sb)) == old(V())
      ensures Accepts(disk) <==> WellFormed(old(V()))
    {
      hide View, WellFormed, DecodeSuperblock, EncodeSuperblock, Replay;
      superblock := MarkClean(sb);
      SuperblockRoundTrip(superblock);
      SuperblockView(disk, GeometryOf(superblock), EncodeSuperblock(superblock));
      SessionCloses(base, disk, log, EncodeSuperblock(superblock));
      sb := superblock;
      disk := disk[1 := EncodeSuperblock(superblock)];
      log := log + [Flush, Write(1, EncodeSuperblock(superblock)), Flush];
    }

    // ---------- blocks and bitmaps ----------

    method ReadBlock(b: nat) returns (r: Result<Block>)
      requires Mounted()
      ensures r == if b >= sb.totalBlocks then Err(InvalidLayout) else Ok(disk[b])
    {
      if b >= sb.totalBlocks {
        return Err(InvalidLayout);
      }
      r := Ok(disk[b]);
    }

    method WriteBlock(b: nat, block: Block) returns (r: Result<()>)
      requires Mounted() && (b == 1 ==> DirtyBlock(block))
      modifies this`disk, this`log
      ensures b >= sb.totalBlocks ==> r == Err(InvalidLayout) && disk == old(disk) && log == old(log)
      ensures b < sb.totalBlocks ==> r == Ok(()) && disk == old(disk)[b := block] && log == old(log) + [Write(b, block)]
      ensures Mounted()
    {
      if b >= sb.totalBlocks {
        return Err(InvalidLayout);
      }
      RecordedStep(base, disk, log, Write(b, block));
      disk := disk[b := block];
      log := log + [Write(b, block)];
      r := Ok(());
    }

    method InodeAllocated(n: nat) returns (r: Result<bool>)
      requires Mounted()
      ensures r == if n >= sb.InodeCount() then Err(InvalidLayout) else Ok(n in V().ibits)
    {
      if n >= sb.InodeCount() {
        return Err(InvalidLayout);
      }
      var bitmap := ReadBlock(sb.inodeBitmapBlock);
      r := Ok(Bit(bitmap.value, n));
    }

    method SetInodeAllocated(n: nat, on: bool) returns (r: Result<()>)
      requires Mounted()
      modifies this`disk, this`log
      ensures Mounted() && old(log) <= log
      ensures n >= sb.InodeCount() ==> r == Err(InvalidLayout) && disk == old(disk)
      ensures n < sb.InodeCount() ==> r.Ok? && V() == old(V()).(ibits := Toggled(old(V().ibits), n, on))
    {
      hide InodeBits, BlockBits, Slots, Data, WithBit;
      if n >= sb.InodeCount() {
        return Err(InvalidLayout);
      }
      InodeBitView(disk, GeometryOf(sb), n, on);
      var bitmap := ReadBlock(sb.inodeBitmapBlock);
      r := WriteBlock(sb.inodeBitmapBlock, WithBit(bitmap.value, n, on));
    }

    /** The lowest free inode number from 2 on. */
    method AllocateInode() returns (r: Result<nat>)
      requires Mounted()
      modifies this`disk, this`log
      ensures Mounted() && old(log) <= log
      ensures r.Ok? ==>
        && 2 <= r.value < sb.InodeCount() && r.value !in old(V().ibits)
        && V() == old(V()).(ibits := old(V().ibits) + {r.value})
        && forall m: nat :: 2 <= m < r.value ==> m in old(V().ibits)
      ensures r.Ok? ==> !NoFreeInode(old(V()))
      ensures r.Err? ==> r.error == NoSpace && disk == old(disk) && NoFreeInode(V())
    {
      hide View, RawSuperblock.Validate, Recorded;
      var n := 2;
      while n < sb.InodeCount()
        invariant 2 <= n && disk == old(disk) && log == old(log) && Mounted()
        invariant forall m: nat :: 2 <= m < n && m < sb.InodeCount() ==> m in V().ibits
      {
        var taken := InodeAllocated(n);
        if !taken.value {
          var _ := SetInodeAllocated(n, true);
          return Ok(n);
        }
        n := n + 1;
      }
      r := Err(NoSpace);
    }

    method BlockAllocated(b: nat) returns (r: Result<bool>)
      requires Mounted()
      ensures r == if b >= sb.totalBlocks then Err(InvalidLayout) else Ok(b in V().bbits)
    {
      if b >= sb.totalBlocks {
        return Err(InvalidLayout);
      }
      var bitmap := ReadBlock(sb.blockBitmapBlock + b / BITS_PER_BLOCK);
      r := Ok(Bit(bitmap.value, b % BITS_PER_BLOCK));
    }

    method SetBlockAllocated(b: nat, on: bool) returns (r: Result<()>)
      requires Mounted()
      modifies this`disk, this`log
      ensures Mounted() && old(log) <= log
      ensures !GeometryOf(sb).InData(b) ==> r == Err(InvalidLayout) && disk == old(disk)
      ensures GeometryOf(sb).InData(b) ==> r.Ok? && V() == old(V()).(bbits := Toggled(old(V().bbits), b, on))
    {
      hide InodeBits, BlockBits, Slots, Data, WithBit, RawSuperblock.Validate, Recorded;
      if b < sb.dataStartBlock || b >= sb.totalBlocks {
        return Err(InvalidLayout);
      }
      BitmapBlock(sb, b);
      BlockBitView(disk, GeometryOf(sb), b, on);
      var k := sb.blockBitmapBlock + b / BITS_PER_BLOCK;
      var bitmap := ReadBlock(k);
      r := WriteBlock(k, WithBit(bitmap.value, b % BITS_PER_BLOCK, on));
    }

    method ReadData(b: nat) returns (block: Block)
      requires Mounted() && GeometryOf(sb).InData(b)
      ensures block == BlockAt(V(), b)
    {
      var r := ReadBlock(b);
      block := r.value;
    }

    method WriteData(b: nat, block: Block)
      requires Mounted() && GeometryOf(sb).InData(b)
      modifies this`disk, this`log
      ensures Mounted() && old(log) <= log
      ensures V() == old(V()).(data := old(V().data)[b := block])
    {
      hide InodeBits, BlockBits, Slots, Data;
      DataView(disk, GeometryOf(sb), b, block);
      var _ := WriteBlock(b, block);
    }

    /** First fit over the data region; the block comes back zeroed. */
    method AllocateBlock() returns (r: Result<u64>)
      requires Mounted()
      modifies this`disk, this`log
      ensures Mounted() && old(log) <= log
      ensures r.Ok? ==> Allotted(old(V()), V(), r.value)
      ensures r.Err? ==> r.error == NoSpace && V() == old(V()) && forall b: nat :: !Free(V(), b)
    {
      hide View, WithBit, RawSuperblock.Validate, Recorded;
      var b := sb.dataStartBlock;
      while b < sb.totalBlocks
        invariant sb.dataStartBlock <= b <= sb.totalBlocks && disk == old(disk) && log == old(log) && Mounted()
        invariant forall c: nat :: sb.dataStartBlock <= c < b ==> c in V().bbits
      {
        var taken := BlockAllocated(b);
        if !taken.value {
          var _ := SetBlockAllocated(b, true);
          WriteData(b, Zeros(BLOCK_SIZE));
          return Ok(b);
        }
        b := b + 1;
      }
      r := Err(NoSpace);
    }

    // ---------- inodes ----------

    method ReadInode(n: nat) returns (r: Result<Inode>)
      requires Mounted()
      ensures r == if n >= sb.InodeCount() then Err(InvalidLayout)
                   else if n !in V().ibits then Err(NotFound) else V().slots[n]
    {
      var taken := InodeAllocated(n);
      if taken.Err? {
        return Err(taken.error);
      }
      if !taken.value {
        return Err(NotFound);
      }
      SlotBlockRange(GeometryOf(sb), n);
      var block := ReadBlock(SlotBlock(GeometryOf(sb), n));
      r := DecodeInode(block.value[SlotOffset(n)..SlotOffset(n) + INODE_SIZE]);
    }

    method WriteInode(n: nat, ino: Inode) returns (r: Result<()>)
      requires Mounted()
      modifies this`disk, this`log
      ensures Mounted() && old(log) <= log
      ensures n >= sb.InodeCount() ==> r == Err(InvalidLayout) && disk == old(disk)
      ensures n < sb.InodeCount() ==> r.Ok? && V() == old(V()).(slots := old(V().slots)[n := Ok(ino)])
    {
      hide InodeBits, BlockBits, Slots, Data;
      if n >= sb.InodeCount() {
        return Err(InvalidLayout);
      }
      InodeRoundTrip(ino);
      SlotView(disk, GeometryOf(sb), n, EncodeInode(ino));
      var k := SlotBlock(GeometryOf(sb), n);
      var block := ReadBlock(k);
      r := WriteBlock(k, WithSlot(block.value, SlotOffset(n), EncodeInode(ino)));
    }

    method ClearInode(n: nat) returns (r: Result<()>)
      requires Mounted()
      modifies this`disk, this`log
      ensures Mounted() && old(log) <= log
      ensures n >= sb.InodeCount() ==> r == Err(InvalidLayout) && disk == old(disk)
      ensures n < sb.InodeCount() ==> r.Ok? && V() == old(V()).(slots := old(V().slots)[n := Err(CorruptInode)])
    {
      hide InodeBits, BlockBits, Slots, Data;
      if n >= sb.InodeCount() {
        return Err(InvalidLayout);
      }
      ClearedInodeIsCorrupt();
      SlotView(disk, GeometryOf(sb), n, Zeros(INODE_SIZE));
      var k := SlotBlock(GeometryOf(sb), n);
      var block := ReadBlock(k);
      r := WriteBlock(k, WithSlot(block.value, SlotOffset(n), Zeros(INODE_SIZE)));
    }

    // ---------- block maps ----------

    method DataBlock(ino: Inode, index: nat) returns (r: Result<Option<u64>>)
      requires Mounted()
      ensures r == Ok(None) <==> index >= ino.blockCount
      ensures BlocksOk(V(), ino) && index < ino.blockCount ==> r == Ok(Some(Ptr(V(), ino, index)))
      ensures index < Min(ino.blockCount, DIRECT_BLOCKS) ==>
        r == if ino.direct[index] == 0 then Err(CorruptInode) else Ok(Some(ino.direct[index]))
      ensures DIRECT_BLOCKS <= index < ino.blockCount && ino.indirect == 0 ==> r == Err(CorruptInode)
      ensures MAX_FILE_BLOCKS <= index < ino.blockCount && ino.indirect != 0 ==> r == Err(FileTooLarge)
      ensures DIRECT_BLOCKS <= index < Min(ino.blockCount, MAX_FILE_BLOCKS) && ino.indirect >= sb.totalBlocks ==> r == Err(InvalidLayout)
      ensures DIRECT_BLOCKS <= index < Min(ino.blockCount, MAX_FILE_BLOCKS) && 0 < ino.indirect < sb.totalBlocks ==>
        var block := PtrIn(disk[ino.indirect], index - DIRECT_BLOCKS);
        r == if block == 0 then Err(CorruptInode) else Ok(Some(block))
    {
      if index >= ino.blockCount {
        return Ok(None);
      }
      var block: u64;
      if index < DIRECT_BLOCKS {
        block := ino.direct[index];
      } else {
        if ino.indirect == 0 {
          return Err(CorruptInode);
        }
        if index - DIRECT_BLOCKS >= INDIRECT_POINTERS {
          return Err(FileTooLarge);
        }
        var pointers := ReadBlock(ino.indirect);
        if pointers.Err? {
          return Err(pointers.error);
        }
        block := PtrIn(pointers.value, index - DIRECT_BLOCKS);
      }
      r := if block == 0 then Err(CorruptInode) else Ok(Some(block));
    }

    /** One round of `ensure_data_blocks`. */
    method AppendBlock(ino: Inode, ghost t: InodeTable, ghost n: nat) returns (r: Result<Inode>)
      requires Mounted() && Ownership(V(), t) && n in t && t[n] == ino && ino.blockCount < MAX_FILE_BLOCKS
      modifies this`disk, this`log
      ensures Mounted() && old(log) <= log
      ensures r.Ok? <==> Footprint(ino.blockCount + 1, ino.indirect != 0) <= |Available(old(V()), ino)|
      ensures r.Err? ==> r.error == NoSpace && OnlyFree(old(V()), V())
      ensures r.Ok? ==> Grown(old(V()), t, V(), n, r.value) && r.value.blockCount == ino.blockCount + 1 && SamePointers(ino, r.value)
      ensures r.Ok? ==> Grew(old(V()), V()) && !NoneFree(old(V()))
      ensures r.Err? ==> RanOut(old(V()), V())
    {
      hide Ownership, Changed, Holds, BlocksOk, Owned, Raw, Available, View, VolOk, WithPtr, Recorded, RawSuperblock.Validate, Grew, NoneFree;
      ghost var v := V();
      HoldsBlocks(v, t, n);
      var block := AllocateBlock();
      if block.Err? {
        NothingFree(v, ino);
        NothingAllotted(v);
        return Err(NoSpace);
      }
      var b := block.value;
      FreeNotOwned(v, t, n, b);
      AllottedSpares(v, V(), b);
      var index := ino.blockCount;
      if index < DIRECT_BLOCKS {
        SamePointersAppended(ino, b, ino.indirect);
        AppendDirect(v, t, n, b);
        GrownFits(v, t, V(), n, DirectAppended(ino, b));
        r := Ok(DirectAppended(ino, b));
      } else {
        r := EnterInTable(ino, b, v, t, n);
      }
    }

    /** The part of `ensure_data_blocks` for a block beyond the direct ones. */
    method EnterInTable(ino: Inode, b: u64, ghost v: Vol, ghost t: InodeTable, ghost n: nat) returns (r: Result<Inode>)
      requires Mounted() && Ownership(v, t) && n in t && t[n] == ino && DIRECT_BLOCKS <= ino.blockCount < MAX_FILE_BLOCKS
      requires VolOk(v) && Allotted(v, V(), b)
      modifies this`disk, this`log
      ensures Mounted() && old(log) <= log
      ensures r.Ok? <==> Footprint(ino.blockCount + 1, ino.indirect != 0) <= |Available(v, ino)|
      ensures r.Err? ==> r.error == NoSpace && OnlyFree(v, V()) && Leaked(v, V())
      ensures r.Ok? ==> Grown(v, t, V(), n, r.value) && r.value.blockCount == ino.blockCount + 1 && SamePointers(ino, r.value) && Grew(v, V())
    {
      hide Ownership, Changed, Holds, BlocksOk, Owned, Raw, Available, View, VolOk, WithPtr, Recorded, RawSuperblock.Validate,
           OnlyFree, SamePointers, Grew, NoneFree;
      ghost var mid := V();
      HoldsBlocks(v, t, n);
      FreeNotOwned(v, t, n, b);
      AllottedSpares(v, mid, b);
      GrewSelf(mid);
      var x := ino.indirect;
      if x == 0 {
        var table := AllocateBlock();
        if table.Err? {
          OneLeft(v, t, n, b, V());
          return Err(NoSpace);
        }
        AllottedSpares(mid, V(), table.value);
        x := table.value;
      }
      var pointers := ReadData(x);
      ghost var taken := V();
      WriteData(x, WithPtr(pointers, ino.blockCount - DIRECT_BLOCKS, b));
      SameBitsGrew(taken, V());
      GrewTransitive(mid, taken, V());
      GrewTransitive(v, mid, V());
      assert V() == TableAppendedVol(v, ino, b, x);
      AppendInTable(v, t, n, b, x);
      SamePointersAppended(ino, b, x);
      r := Ok(TableAppended(ino, x));
      GrownFits(v, t, V(), n, r.value);
    }

    /** Grows the block map to `count` blocks; succeeds exactly when they fit. */
    method EnsureDataBlocks(start: Inode, count: nat, ghost t: InodeTable, ghost n: nat) returns (r: Result<Inode>)
      requires Mounted() && Ownership(V(), t) && n in t && t[n] == start && start.blockCount <= MAX_FILE_BLOCKS
      modifies this`disk, this`log
      ensures Mounted() && old(log) <= log
      ensures r.Ok? <==> count <= MAX_FILE_BLOCKS && HasRoom(old(V()), start, count)
      ensures r.Err? ==> r.error == if count > MAX_FILE_BLOCKS then FileTooLarge else NoSpace
      ensures count > MAX_FILE_BLOCKS ==> V() == old(V())
      ensures r.Ok? ==> Grown(old(V()), t, V(), n, r.value) && r.value.blockCount == Max(count, start.blockCount) && SamePointers(start, r.value)
      ensures r.Err? && r.error == NoSpace ==> Spared(old(V()), t, V(), n, BLOCK_SIZE * start.blockCount)
      ensures r.Ok? ==> Took(old(V()), V(), start, r.value)
      ensures r.Err? && r.error == NoSpace ==> RanOut(old(V()), V())
    {
      hide Ownership, Changed, Raw, Available, View, VolOk, Recorded, OnlyFree, SamePointers, Spared, Grew, NoneFree, Leaked;
      if count > MAX_FILE_BLOCKS {
        return Err(FileTooLarge);
      }
      var ino: Inode := start;
      ghost var v := V();
      GrownRefl(v, t, n);
      SamePointersSelf(ino);
      GrewSelf(v);
      while ino.blockCount < count
        invariant Mounted() && old(log) <= log
        invariant Grown(v, t, V(), n, ino) && ino.blockCount <= Max(count, start.blockCount) && SamePointers(start, ino)
        invariant Grew(v, V()) && (NoneFree(v) ==> ino == start && V() == v)
        decreases count - ino.blockCount
      {
        ghost var w, u := V(), t[n := ino];
        GrownOwnership(v, t, w, n, ino);
        var next := AppendBlock(ino, u, n);
        GrewTransitive(v, w, V());
        if next.Err? {
          SpaceLost(v, t, w, n, ino, V());
          return Err(NoSpace);
        }
        SamePointersTransitive(start, ino, next.value);
        GrownTransitive(v, t, w, V(), n, ino, next.value);
        ino := next.value;
      }
      GrownOwnership(v, t, V(), n, ino);
      r := Ok(ino);
    }

    /** Gives blocks back from the end, then the pointer table if it is idle. */
    method TruncateInodeBlocks(start: Inode, keep: nat, ghost t: InodeTable, ghost n: nat) returns (r: Result<Inode>)
      requires Mounted() && Ownership(V(), t) && n in t && t[n] == start && start.blockCount <= MAX_FILE_BLOCKS
      modifies this`disk, this`log
      ensures Mounted() && old(log) <= log
      ensures keep <= start.blockCount ==> r.Ok? && Tight(r.value) && Shrunk(old(V()), t, V(), n, r.value)
      ensures keep > start.blockCount && r.Ok? ==> Grown(old(V()), t, V(), n, r.value)
      ensures r.Ok? ==> r.value.blockCount == keep
      ensures r.Ok? <==> keep <= start.blockCount || (keep <= MAX_FILE_BLOCKS && HasRoom(old(V()), start, keep))
    {
      hide Ownership, Changed, Raw, View, VolOk, Recorded, HasRoom, BlocksOk, Holds, Grown, Shrunk;
      if keep > start.blockCount {
        r := EnsureDataBlocks(start, keep, t, n);
        return;
      }
      var ino: Inode := start;
      ghost var v := V();
      ShrunkRefl(v, t, n);
      ShrunkOwnership(v, t, v, n, ino);
      while ino.blockCount > keep
        invariant Mounted() && old(log) <= log
        invariant Shrunk(v, t, V(), n, ino) && keep <= ino.blockCount <= MAX_FILE_BLOCKS
      {
        ghost var w, u := V(), t[n := ino];
        ShrunkOwnership(v, t, w, n, ino);
        var next := DropBlock(ino, u, n);
        ShrunkTransitive(v, t, w, V(), n, ino, next);
        ino := next;
      }
      if ino.blockCount <= DIRECT_BLOCKS && ino.indirect != 0 {
        ghost var w, u := V(), t[n := ino];
        ShrunkOwnership(v, t, w, n, ino);
        HoldsBlocks(w, u, n);
        DropTable(w, u, n);
        var _ := SetBlockAllocated(ino.indirect, false);
        ShrunkByTable(w, u, V(), n);
        ShrunkTransitive(v, t, w, V(), n, ino, ino.(indirect := 0));
        ino := ino.(indirect := 0);
      }
      r := Ok(ino);
    }

    /** One round of `truncate_inode_blocks`. */
    method DropBlock(ino: Inode, ghost t: InodeTable, ghost n: nat) returns (next: Inode)
      requires Mounted() && Ownership(V(), t) && n in t && t[n] == ino && 0 < ino.blockCount <= MAX_FILE_BLOCKS
      modifies this`disk, this`log
      ensures Mounted() && old(log) <= log
      ensures Shrunk(old(V()), t, V(), n, next) && next.blockCount == ino.blockCount - 1
    {
      hide Ownership, Changed, Raw, View, VolOk, Recorded, BlocksOk, WithPtr;
      ghost var v := V();
      HoldsBlocks(v, t, n);
      var index := ino.blockCount - 1;
      var block := DataBlock(ino, index);
      var b := block.value.value;
      PtrInData(v, ino, index);
      var _ := SetBlockAllocated(b, false);
      if index >= DIRECT_BLOCKS {
        var pointers := ReadData(ino.indirect);
        WriteData(ino.indirect, WithPtr(pointers, index - DIRECT_BLOCKS, 0));
      }
      assert V() == LastDroppedVol(v, ino);
      DropLast(v, t, n);
      next := LastDropped(ino);
    }

    // ---------- file data ----------

    method ReadInodeData(ino: Inode, offset: nat, capacity: nat) returns (output: seq<byte>)
      requires Mounted() && BlocksOk(V(), ino) && SizeOk(ino)
      ensures SizeOk(ino) && output == Slice(Content(V(), ino), offset, capacity)
    {
      hide View, VolOk, Recorded, BlocksOk, Raw, Ptr, BlockAt, Mounted, RawSuperblock.Validate;
      if offset >= ino.size || capacity == 0 {
        return [];
      }
      var length := Min(capacity, ino.size - offset);
      output := [];
      ghost var raw := Raw(V(), ino);
      while |output| < length
        invariant |output| <= length
        invariant output == raw[offset..offset + |output|]
      {
        var absolute := offset + |output|;
        var index, within := absolute / BLOCK_SIZE, absolute % BLOCK_SIZE;
        assert absolute == BLOCK_SIZE * index + within && index < ino.blockCount;
        var block := DataBlock(ino, index);
        PtrInData(V(), ino, index);
        var bytes := ReadData(block.value.value);
        var amount := Min(BLOCK_SIZE - within, length - |output|);
        RawChunk(V(), ino, index, within, amount);
        SlicesJoin(raw, offset, absolute, absolute + amount);
        output := output + bytes[within..within + amount];
      }
      SliceOfPrefix(raw, ino.size, offset, length);
    }

    method WriteInodeData(start: Inode, offset: nat, input: seq<byte>, ghost t: InodeTable, ghost n: nat)
      returns (r: Result<Inode>)
      requires Mounted() && Ownership(V(), t) && n in t && t[n] == start && start.blockCount <= MAX_FILE_BLOCKS
      modifies this`disk, this`log
      ensures Mounted() && old(log) <= log
      ensures r.Ok? <==> Writable(old(V()), start, offset, |input|)
      ensures r.Err? ==> r.error == if offset + |input| > MAX_BYTES then FileTooLarge else NoSpace
      ensures r.Err? && r.error == FileTooLarge ==> V() == old(V())
      ensures r.Ok? ==> Written(old(V()), t, V(), n, r.value, offset, input) && SamePointers(start, r.value)
      ensures r.Err? && r.error == NoSpace ==> Spared(old(V()), t, V(), n, BLOCK_SIZE * start.blockCount)
      ensures r.Ok? ==> Took(old(V()), V(), start, r.value)
      ensures r.Err? && r.error == NoSpace ==> RanOut(old(V()), V())
    {
      hide Ownership, Changed, View, VolOk, Recorded, BlocksOk, Holds, Grown, HasRoom, Raw, Ptr, BlockAt, Written, Patched, DataBlocksForSize,
           SamePointers, Spared, Took, RanOut;
      ghost var v := V();
      SamePointersSelf(start);
      TookSelf(v, start);
      if |input| == 0 {
        WrittenNothing(v, t, n, offset);
        return Ok(start);
      }
      var end := offset + |input|;
      BlocksCover(end);
      if DataBlocksForSize(end) > MAX_FILE_BLOCKS {
        return Err(FileTooLarge);
      }
      r := EnsureDataBlocks(start, DataBlocksForSize(end), t, n);
      if r.Err? {
        return;
      }
      var ino := r.value;
      ghost var w := V();
      GrownOwnership(v, t, w, n, ino);
      OverwriteBlocks(ino, offset, input, t[n := ino], n);
      SameBitsGrew(w, V());
      TookThen(v, w, V(), start, ino);
      WrittenAfter(v, t, w, V(), n, ino, offset, input);
    }

    /** The loop of `write_inode_data`, over blocks that are all there. */
    method OverwriteBlocks(ino: Inode, offset: nat, input: seq<byte>, ghost u: InodeTable, ghost n: nat)
      requires Mounted() && Ownership(V(), u) && n in u && u[n] == ino && ino.blockCount <= MAX_FILE_BLOCKS
      requires offset + |input| <= BLOCK_SIZE * ino.blockCount
      modifies this`disk, this`log
      ensures Mounted() && old(log) <= log
      ensures Changed(old(V()), u, V(), n, ino) && Raw(V(), ino) == Patched(Raw(old(V()), ino), offset, input)
      ensures V().g == old(V().g) && V().bbits == old(V().bbits)
    {
      hide Ownership, Changed, View, VolOk, Recorded, BlocksOk, Holds, Raw, Ptr, BlockAt, Patched;
      ghost var w := V();
      ChangedRefl(w, u, n);
      OverlayNothing(Raw(w, ino), offset, input[..0]);
      var completed := 0;
      while completed < |input|
        invariant Mounted() && old(log) <= log && completed <= |input|
        invariant Changed(w, u, V(), n, ino) && Raw(V(), ino) == Patched(Raw(w, ino), offset, input[..completed])
        invariant V().g == w.g && V().bbits == w.bbits
      {
        completed := WriteChunk(ino, offset, input, completed, w, u, n);
      }
      assert input[..completed] == input;
    }

    /** One round of `write_inode_data`: fill up one block. */
    method WriteChunk(ino: Inode, offset: nat, input: seq<byte>, completed: nat,
                      ghost w: Vol, ghost u: InodeTable, ghost n: nat) returns (done: nat)
      requires Mounted() && n in u && u[n] == ino && ino.blockCount <= MAX_FILE_BLOCKS
      requires completed < |input| && offset + |input| <= BLOCK_SIZE * ino.blockCount
      requires Changed(w, u, V(), n, ino) && Raw(V(), ino) == Patched(Raw(w, ino), offset, input[..completed])
      modifies this`disk, this`log
      ensures Mounted() && old(log) <= log && completed < done <= |input|
      ensures Changed(w, u, V(), n, ino) && Raw(V(), ino) == Patched(Raw(w, ino), offset, input[..done])
      ensures V().g == old(V().g) && V().bbits == old(V().bbits)
    {
      hide Ownership, Changed, View, VolOk, Recorded, BlocksOk, Holds, Raw, Ptr, BlockAt, Patched;
      ghost var x := V();
      ChangedSelf(w, u, x, n);
      HoldsBlocks(x, u, n);
      var absolute := offset + completed;
      var index, within := absolute / BLOCK_SIZE, absolute % BLOCK_SIZE;
      var block := DataBlock(ino, index);
      var b := block.value.value;
      PtrInData(x, ino, index);
      var amount := Min(BLOCK_SIZE - within, |input| - completed);
      var chunk := input[completed..completed + amount];
      var bytes: Block;
      if within != 0 || amount != BLOCK_SIZE {
        bytes := ReadData(b);
      } else {
        bytes := Zeros(BLOCK_SIZE);
        OverlayWhole(bytes, BlockAt(x, b), chunk);
      }
      WriteData(b, Patched(bytes, within, chunk));
      WriteWithinBlock(x, u, n, index, within, chunk);
      assert u[n := ino] == u;
      ChangedTransitive(w, u, x, V(), n, ino, ino);
      done := completed + amount;
      assert input[..done] == input[..completed] + chunk;
      OverlayTwice(Raw(w, ino), offset, input[..completed], chunk);
    }

    method ZeroRange(start: Inode, offset: nat, length: nat, ghost t: InodeTable, ghost n: nat) returns (r: Result<Inode>)
      requires Mounted() && Ownership(V(), t) && n in t && t[n] == start && start.blockCount <= MAX_FILE_BLOCKS
      modifies this`disk, this`log
      ensures Mounted() && old(log) <= log
      ensures r.Ok? <==> Writable(old(V()), start, offset, length)
      ensures r.Err? ==> r.error == if offset + length > MAX_BYTES then FileTooLarge else NoSpace
      ensures r.Err? && r.error == FileTooLarge ==> V() == old(V())
      ensures r.Ok? ==> Written(old(V()), t, V(), n, r.value, offset, Zeros(length)) && SamePointers(start, r.value)
      ensures r.Err? && r.error == NoSpace ==> Spared(old(V()), t, V(), n, BLOCK_SIZE * start.blockCount)
      ensures r.Ok? ==> Took(old(V()), V(), start, r.value)
      ensures r.Err? && r.error == NoSpace ==> RanOut(old(V()), V())
    {
      hide Ownership, Changed, View, VolOk, Recorded, BlocksOk, Holds, Grown, HasRoom, Raw, Ptr, BlockAt, Written, Patched, DataBlocksForSize,
           Zeros, RawSuperblock.Validate, Mounted, Writable, SamePointers, Spared, Took, RanOut;
      ghost var v := V();
      SamePointersSelf(start);
      TookSelf(v, start);
      WritableMeans(v, start, offset, length);
      if length == 0 {
        assert Zeros(length) == [];
        WrittenNothing(v, t, n, offset);
        return Ok(start);
      }
      var end := offset + length;
      BlocksCover(end);
      if DataBlocksForSize(end) > MAX_FILE_BLOCKS {
        return Err(FileTooLarge);
      }
      r := EnsureDataBlocks(start, DataBlocksForSize(end), t, n);
      if r.Err? {
        return;
      }
      var ino := r.value;
      ghost var w := V();
      GrownOwnership(v, t, w, n, ino);
      ZeroBlocks(ino, offset, length, t[n := ino], n);
      TookThen(v, w, V(), start, ino);
      WrittenAfter(v, t, w, V(), n, ino, offset, Zeros(length));
    }

    /** The loop of `zero_range`, over blocks that are all there. */
    method ZeroBlocks(ino: Inode, offset: nat, length: nat, ghost u: InodeTable, ghost n: nat)
      requires Mounted() && Ownership(V(), u) && n in u && u[n] == ino && ino.blockCount <= MAX_FILE_BLOCKS
      requires offset + length <= BLOCK_SIZE * ino.blockCount
      modifies this`disk, this`log
      ensures Mounted() && old(log) <= log
      ensures Changed(old(V()), u, V(), n, ino) && Raw(V(), ino) == Patched(Raw(old(V()), ino), offset, Zeros(length))
      ensures Grew(old(V()), V())
    {
      hide Ownership, Changed, View, VolOk, Recorded, BlocksOk, Holds, HasRoom, Raw, Ptr, BlockAt, Written, Patched, RawSuperblock.Validate,
           Grew, NoneFree, Leaked, Spared, SamePointers;
      ghost var w := V();
      GrewSelf(w);
      ChangedRefl(w, u, n);
      OverlayNothing(Raw(w, ino), offset, Zeros(0));
      var completed := 0;
      while completed < length
        invariant Mounted() && old(log) <= log && completed <= length
        invariant Changed(w, u, V(), n, ino) && Raw(V(), ino) == Patched(Raw(w, ino), offset, Zeros(completed)) && Grew(w, V())
      {
        var amount := Min(length - completed, BLOCK_SIZE);
        ghost var x := V();
        ChangedSelf(w, u, x, n);
        RoomWithin(x, u, n, DataBlocksForSize(offset + completed + amount));
        var next := WriteInodeData(ino, offset + completed, Zeros(amount), u, n);
        GrewTransitive(w, x, V());
        WrittenInPlace(w, u, x, V(), n, next.value, offset, completed, amount);
        completed := completed + amount;
      }
    }

    // ---------- directories ----------

    method ReadDirectory(ino: Inode) returns (r: Result<seq<DirEntry>>)
      requires Mounted() && BlocksOk(V(), ino) && SizeOk(ino)
      ensures r == if ino.kind != Directory then Err(NotDirectory)
                   else if ino.size % DIR_ENTRY_SIZE != 0 then Err(CorruptDirectory)
                   else ParseDir(Content(V(), ino))
    {
      hide View, VolOk, Recorded, BlocksOk, Raw, ParseDir, DecodeEntry, Content;
      if ino.kind != Directory {
        return Err(NotDirectory);
      }
      if ino.size % DIR_ENTRY_SIZE != 0 {
        return Err(CorruptDirectory);
      }
      SizeCovers(ino);
      ghost var bytes := Content(V(), ino);
      var entries: seq<DirEntry> := [];
      ParseDirPrefix(bytes, 0);
      for index := 0 to ino.size / DIR_ENTRY_SIZE
        invariant ParseDir(bytes[..DIR_ENTRY_SIZE * index]) == Ok(entries)
      {
        var at := index * DIR_ENTRY_SIZE;
        var encoded := ReadInodeData(ino, at, DIR_ENTRY_SIZE);
        var entry := DecodeEntry(encoded);
        assert bytes[..at + DIR_ENTRY_SIZE] == bytes[..at] + encoded;
        ParseDirAppend(bytes[..at], encoded);
        if entry.Err? {
          ParseDirPrefix(bytes, at + DIR_ENTRY_SIZE);
          return Err(entry.error);
        }
        entries := entries + [entry.value];
      }
      assert bytes[..ino.size] == bytes;
      r := Ok(entries);
    }

    /** Rewrites a directory: give back all its blocks, then write entry after entry. */
    method ReplaceDirectory(start: Inode, entries: seq<DirEntry>, ghost t: InodeTable, ghost n: nat) returns (r: Result<Inode>)
      requires Mounted() && Ownership(V(), t) && n in t && t[n] == start && start.blockCount <= MAX_FILE_BLOCKS
      requires start.kind.Directory? && ValidEntries(entries)
      modifies this`disk, this`log
      ensures Mounted() && old(log) <= log
      ensures r.Ok? <==> DirectoryFits(old(V()), start, |entries|)
      ensures r.Err? ==> r.error == if DIR_ENTRY_SIZE * |entries| > MAX_BYTES then FileTooLarge else NoSpace
      ensures r.Err? && r.error == FileTooLarge ==> disk == old(disk)
      ensures r.Err? && r.error == NoSpace ==> OthersSame(old(V()), t, V(), n)
      ensures r.Ok? ==> Replaced(old(V()), t, V(), n, r.value, entries)
    {
      hide Ownership, Changed, View, VolOk, Recorded, BlocksOk, Holds, Raw, Available, DataBlocksForSize, ValidName, Utf8, Shrunk, Replaced, Written, Writable,
           OthersSame, Spared, SamePointers;
      var size := DIR_ENTRY_SIZE * |entries|;
      BlocksCover(size);
      if DataBlocksForSize(size) > MAX_FILE_BLOCKS {
        return Err(FileTooLarge);
      }
      ghost var v := V();
      var emptied := TruncateInodeBlocks(start, 0, t, n);
      var ino: Inode := emptied.value.(size := 0);
      ReplacedNothing(v, t, V(), n, emptied.value);
      var k := 0;
      while k < |entries|
        invariant Mounted() && old(log) <= log && k <= |entries|
        invariant Replaced(v, t, V(), n, ino, entries[..k])
      {
        ghost var w, u := V(), t[n := ino];
        ReplacedFacts(v, t, w, n, ino, entries[..k]);
        var encoded := EncodeEntry(entries[k]);
        r := WriteInodeData(ino, ino.size, encoded, u, n);
        if r.Err? {
          DirectoryFull(v, t, w, n, ino, entries, k);
          OthersAfter(v, t, w, n, ino, entries[..k], V(), BLOCK_SIZE * ino.blockCount);
          return;
        }
        var next: Inode := r.value.(size := ino.size + DIR_ENTRY_SIZE);
        ReplacedOneMore(v, t, w, V(), n, ino, r.value, entries, k);
        ino := next;
        k := k + 1;
      }
      assert entries[..k] == entries;
      ReplacedFits(v, t, V(), n, ino, entries);
      r := Ok(ino);
    }

    /** Zeros from the end of the file up to `offset`, if it lies beyond. */
    method FillGap(start: Inode, offset: nat, ghost t: InodeTable, ghost n: nat) returns (r: Result<Inode>)
      requires Mounted() && Ownership(V(), t) && n in t && t[n] == start && SizeOk(start) && offset <= MAX_BYTES
      modifies this`disk, this`log
      ensures Mounted() && old(log) <= log
      ensures r.Ok? <==> HasRoom(old(V()), start, DataBlocksForSize(Max(start.size, offset)))
      ensures r.Err? ==> r.error == NoSpace
      ensures r.Ok? ==>
        Covered(old(V()), t, V(), n, r.value, Max(start.size, offset), Padded(Content(old(V()), start), offset)) && SamePointers(start, r.value)
      ensures r.Err? ==> Spared(old(V()), t, V(), n, BLOCK_SIZE * start.blockCount)
      ensures r.Ok? ==> Took(old(V()), V(), start, r.value)
      ensures r.Err? ==> RanOut(old(V()), V())
    {
      hide Ownership, Changed, View, VolOk, Recorded, HasRoom, Raw, Written, Covered, Padded, Content, SamePointers, Spared, Took, RanOut;
      ghost var v := V();
      SamePointersSelf(start);
      TookSelf(v, start);
      if offset > start.size {
        r := ZeroRange(start, start.size, offset - start.size, t, n);
        if r.Ok? {
          CoveredByPadding(v, t, V(), n, r.value, offset);
        }
      } else {
        CoveredAlready(v, t, n, offset);
        RoomWithin(v, t, n, start.blockCount);
        r := Ok(start);
      }
    }

    /** The data part of `write_file`: fill the gap, write, and note the size. */
    method WriteContents(start: Inode, offset: nat, input: seq<byte>, ghost t: InodeTable, ghost n: nat)
      returns (r: Result<Inode>)
      requires Mounted() && Ownership(V(), t) && n in t && t[n] == start && SizeOk(start) && Tight(start)
      requires offset + |input| <= MAX_BYTES
      modifies this`disk, this`log
      ensures Mounted() && old(log) <= log
      ensures r.Ok? <==> HasRoom(old(V()), start, DataBlocksForSize(Max(start.size, offset + |input|)))
      ensures r.Err? ==> r.error == NoSpace && Spared(old(V()), t, V(), n, start.size)
      ensures r.Err? ==> Leaked(old(V()), V()) && (NoneFree(old(V())) ==> Ownership(V(), t))
      ensures r.Ok? ==> Holding(old(V()), t, V(), n, r.value, Spliced(Content(old(V()), start), offset, input))
    {
      hide Ownership, Changed, View, VolOk, Recorded, HasRoom, Raw, Written, Covered, Spliced, Padded, Content, Writable, Holding,
           RawSuperblock.Validate, Mounted, SamePointers, Spared, Grew, NoneFree, Leaked;
      ghost var v := V();
      SizeCovers(start);
      r := FillGap(start, offset, t, n);
      if r.Err? {
        NoRoomFor(v, start, Max(start.size, offset), Max(start.size, offset + |input|));
        SparedLess(v, t, V(), n, BLOCK_SIZE * start.blockCount, start.size);
        return;
      }
      var ino := r.value;
      ghost var w := V();
      CoveredFacts(v, t, w, n, ino, Max(start.size, offset), Padded(Content(v, start), offset));
      WriteRoom(v, t, w, n, ino, offset, |input|);
      r := WriteInodeData(ino, offset, input, t[n := ino], n);
      if r.Err? {
        SpaceLostCovered(v, t, w, n, ino, V(), offset);
        GrewTransitive(v, w, V());
        if NoneFree(v) {
          NothingTaken(v, w);
          assert t[n := start] == t;
        }
        return;
      }
      WriteCovered(v, t, w, V(), n, ino, r.value, offset, input);
      r := Ok(r.value.(size := Max(start.size, offset + |input|)));
    }

    /** The data part of `truncate`: grow with zeros, or cut and clear the tail. */
    method ResizeContents(start: Inode, size: nat, ghost t: InodeTable, ghost n: nat) returns (r: Result<Inode>)
      requires Mounted() && Ownership(V(), t) && n in t && t[n] == start && SizeOk(start) && Tight(start)
      requires size <= MAX_BYTES
      modifies this`disk, this`log
      ensures Mounted() && old(log) <= log
      ensures r.Ok? <==> HasRoom(old(V()), start, DataBlocksForSize(Max(start.size, size)))
      ensures r.Err? ==> r.error == NoSpace && Spared(old(V()), t, V(), n, start.size)
      ensures r.Err? ==> Leaked(old(V()), V()) && (NoneFree(old(V())) ==> Ownership(V(), t))
      ensures r.Ok? ==> Holding(old(V()), t, V(), n, r.value, Resized(Content(old(V()), start), size))
    {
      hide Ownership, Changed, View, VolOk, Recorded, HasRoom, Raw, Covered, Resized, Padded, Content, Holding, Shrunk, SamePointers, Spared,
           Grew, NoneFree, Leaked;
      ghost var v := V();
      SizeCovers(start);
      if size >= start.size {
        r := FillGap(start, size, t, n);
        if r.Ok? {
          HoldingPadded(v, t, V(), n, r.value, size);
          r := Ok(r.value.(size := size));
        } else {
          SparedLess(v, t, V(), n, BLOCK_SIZE * start.blockCount, start.size);
        }
      } else {
        RoomWithin(v, t, n, start.blockCount);
        var cut := TruncateInodeBlocks(start, DataBlocksForSize(size), t, n);
        var ino := cut.value;
        ghost var w := V();
        ShrunkOwnership(v, t, w, n, ino);
        ChangedRefl(w, t[n := ino], n);
        if size % BLOCK_SIZE != 0 {
          ClearTail(ino, size, t[n := ino], n);
        }
        HoldingCut(v, t, w, V(), n, ino, size);
        r := Ok(ino.(size := size));
      }
    }

    /** Zeroes the part of the last block past `size`. */
    method ClearTail(ino: Inode, size: nat, ghost u: InodeTable, ghost n: nat)
      requires Mounted() && Ownership(V(), u) && n in u && u[n] == ino && ino.blockCount <= MAX_FILE_BLOCKS
      requires size % BLOCK_SIZE != 0 && DataBlocksForSize(size) == ino.blockCount
      modifies this`disk, this`log
      ensures Mounted() && old(log) <= log
      ensures Changed(old(V()), u, V(), n, ino) && size <= BLOCK_SIZE * ino.blockCount
      ensures Raw(V(), ino)[..size] == Raw(old(V()), ino)[..size]
    {
      hide Ownership, Changed, View, VolOk, Recorded, BlocksOk, Holds, Raw, Ptr, BlockAt, Patched;
      ghost var v := V();
      HoldsBlocks(v, u, n);
      var index, within := size / BLOCK_SIZE, size % BLOCK_SIZE;
      var block := DataBlock(ino, index);
      var b := block.value.value;
      PtrInData(v, ino, index);
      var bytes := ReadData(b);
      WriteData(b, Patched(bytes, within, Zeros(BLOCK_SIZE - within)));
      WriteWithinBlock(v, u, n, index, within, Zeros(BLOCK_SIZE - within));
      OverlayBeyond(Raw(v, ino), size, Zeros(BLOCK_SIZE - within));
    }

    // ---------- the volume as a file tree ----------

    /** A mounted volume in which everything the checker demands holds. */
    ghost predicate Ready()
      reads this
    {
      Mounted() && WellFormed(V())
    }

    ghost function Files(): Fs
      reads this
      requires Mounted()
    {
      FsAt(V())
    }

    method NextTimestamp() returns (timestamp: u64)
      requires Mounted()
      modifies this`sb
      ensures Mounted() && V() == old(V()) && timestamp == sb.generation
      ensures sb == old(sb).(generation := NextGeneration(old(sb)))
    {
      hide View, RawSuperblock.Validate, Recorded, Fits;
      LaterGeneration(sb, NextGeneration(sb));
      sb := sb.(generation := NextGeneration(sb));
      timestamp := sb.generation;
    }

    /** Writes the dirty superblock with its new generation and flushes. */
    method FinishMutation()
      requires Mounted()
      modifies this`disk, this`log
      ensures Mounted() && V() == old(V())
      ensures log == old(log) + [Write(1, EncodeSuperblock(sb)), Flush]
      ensures disk == old(disk)[1 := EncodeSuperblock(sb)]
    {
      hide View, EncodeSuperblock, DecodeSuperblock;
      SuperblockRoundTrip(sb);
      SuperblockView(disk, GeometryOf(sb), EncodeSuperblock(sb));
      var _ := WriteBlock(1, EncodeSuperblock(sb));
      RecordedStep(base, disk, log, Flush);
      log := log + [Flush];
    }

    /** Reads an inode of the tree. */
    method LoadInode(n: nat) returns (ino: Inode)
      requires Ready() && n in Files()
      ensures n in Inodes(V()) && ino == Inodes(V())[n] && BlocksOk(V(), ino) && InodeOk(V(), ino) && SizeOk(ino)
      ensures Files()[n] == NodeOf(V(), ino) && Files()[n].Kind() == ino.kind && Ownership(V(), Inodes(V()))
    {
      hide View, Consistent, WellFormed, BlocksOk, InodeOk, Ownership, Inodes, FsOf;
      ConsistentTree(V());
      NodeFacts(V(), n);
      var r := ReadInode(n);
      ino := r.value;
      DirFacts(V(), ino);
      ConsistentOwnership(V());
    }

    /** Reads a directory of the tree. */
    method LoadDirectory(ino: Inode, ghost n: nat) returns (r: Result<seq<DirEntry>>)
      requires Ready() && n in Files() && n in Inodes(V()) && Inodes(V())[n] == ino
      ensures r == if Files()[n].Dir? then Ok(Files()[n].entries) else Err(NotDirectory)
    {
      hide View, Consistent, WellFormed, BlocksOk, InodeOk, Ownership, Inodes, FsOf, ParseDir, Content;
      ConsistentTree(V());
      NodeFacts(V(), n);
      DirFacts(V(), ino);
      r := ReadDirectory(ino);
    }

    /** Position of the entry with that name (`position`, `find`). */
    method FindEntry(entries: seq<DirEntry>, name: Name) returns (r: Option<nat>)
      ensures r.None? ==> !Named(entries, name) && Step(entries, name).None?
      ensures r.Some? ==>
        && r.value < |entries| && entries[r.value].name == name
        && Step(entries, name) == Some(entries[r.value].inode)
    {
      ghost var j := StepFrom(entries, name);
      var i := 0;
      while i < |entries|
        invariant i <= |entries| && Step(entries[i..], name) == Step(entries, name)
        invariant forall k :: 0 <= k < i ==> entries[k].name != name
      {
        if entries[i].name == name {
          return Some(i);
        }
        assert entries[i..][1..] == entries[i + 1..];
        i := i + 1;
      }
      r := None;
    }

    method Resolve(path: seq<byte>) returns (r: Result<nat>)
      requires Ready()
      ensures r == Resolved(Files(), Components(path))
      ensures r.Ok? ==> r.value in Files()
    {
      hide View, WellFormed, Mounted, FsAt, Step;
      ghost var fs := Files();
      ReadyTree();
      ResolvedInFs(fs, Components(path));
      var trimmed := TrimEnd(TrimStart(path));
      if trimmed == [] {
        return Ok(ROOT);
      }
      var cs := Split(trimmed);
      r := Walk(cs);
    }

    /** The loop of `resolve`. */
    method Walk(cs: seq<Name>) returns (r: Result<nat>)
      requires Ready()
      ensures r == Resolved(Files(), cs)
    {
      hide View, WellFormed, Mounted, FsAt, Step, Tree;
      ghost var fs := Files();
      ReadyTree();
      var current := ROOT;
      var i := 0;
      while i < |cs|
        invariant i <= |cs| && Resolved(fs, cs[..i]) == Ok(current)
      {
        ResolvedInFs(fs, cs[..i]);
        assert cs[..i + 1][..i] == cs[..i];
        r := Enter(current, cs[i]);
        if r.Err? {
          ResolvedPrefix(fs, cs, i + 1);
          return;
        }
        current := r.value;
        i := i + 1;
      }
      assert cs[..i] == cs;
      r := Ok(current);
    }

    /** One component of `resolve`. */
    method Enter(current: nat, c: Name) returns (r: Result<nat>)
      requires Ready() && current in Files()
      ensures r == if Skipped(c) then Ok(current) else if c == [DOT, DOT] then Err(InvalidPath)
                   else if !ValidName(c) then Err(InvalidName) else if Files()[current].File? then Err(NotDirectory)
                   else match Step(Files()[current].entries, c) case None => Err(NotFound) case Some(n) => Ok(n)
    {
      hide View, WellFormed, Mounted, FsAt, Step, BlocksOk, InodeOk, NodeOf, Ownership;
      if Skipped(c) {
        return Ok(current);
      }
      if c == [DOT, DOT] {
        return Err(InvalidPath);
      }
      if !ValidName(c) {
        return Err(InvalidName);
      }
      var ino := LoadInode(current);
      var entries := LoadDirectory(ino, current);
      if entries.Err? {
        return Err(entries.error);
      }
      var found := FindEntry(entries.value, c);
      r := if found.None? then Err(NotFound) else Ok(entries.value[found.value].inode);
    }

    lemma ReadyTree()
      requires Ready()
      ensures Tree(Files()) && Consistent(V())
    {
      hide WellFormed, Consistent, Tree, View;
      ConsistentTree(V());
    }

    // ---------- operations ----------

    method ReadFile(path: seq<byte>, offset: nat, capacity: nat) returns (r: Result<seq<byte>>)
      requires Ready()
      ensures r == match Resolved(Files(), Components(path))
        case Err(e) => Err(e)
        case Ok(n) => if n in Files() && Files()[n].File? then Ok(Slice(Files()[n].bytes, offset, capacity)) else Err(IsDirectory)
    {
      hide View, WellFormed, Mounted, FsAt, BlocksOk, InodeOk, NodeOf, Ownership, Content, Slice;
      var found := Resolve(path);
      if found.Err? {
        return Err(found.error);
      }
      var ino := LoadInode(found.value);
      if ino.kind != Regular {
        return Err(IsDirectory);
      }
      DirFacts(V(), ino);
      var output := ReadInodeData(ino, offset, capacity);
      r := Ok(output);
    }

    /** Stamps and writes back a regular file whose new contents are on disk. */
    method StoreFile(n: nat, ino: Inode, ghost v: Vol, ghost bytes: seq<byte>)
      requires Mounted() && v.g == V().g && WellFormed(v) && n in FsAt(v) && FsAt(v)[n].File? && n in Inodes(v)
      requires Holding(v, Inodes(v), V(), n, ino, bytes)
      modifies this`disk, this`sb, this`log
      ensures Ready() && old(log) <= log && Files() == SetFile(FsAt(v), n, bytes)
      ensures Modes(V()) == Modes(v)
      ensures Later(old(sb), sb, 1)
    {
      hide View, WellFormed, FsAt, Inodes, Holding, Stamped, RawSuperblock.Validate, Recorded, Modes;
      var timestamp := NextTimestamp();
      StoredFile(v, V(), n, ino, timestamp, bytes);
      var _ := WriteInode(n, Stamped(ino, timestamp));
      FinishMutation();
    }

    /** `write_file` once the path is resolved. */
    method WriteInodeFile(n: nat, offset: nat, input: seq<byte>) returns (r: Result<nat>)
      requires Ready() && n in Files()
      modifies this`disk, this`sb, this`log
      ensures Mounted() && old(log) <= log
      ensures r.Ok? ==>
        && Ready() && r.value == |input| && old(Files())[n].File?
        && Files() == SetFile(old(Files()), n, Spliced(old(Files())[n].bytes, offset, input))
      ensures r.Err? <==> SizeError(old(V()), n, offset + |input|).Some?
      ensures r.Err? ==> SizeError(old(V()), n, offset + |input|) == Some(r.error)
      ensures r.Err? ==> Files() == old(Files()) && sb == old(sb) && (r.error != NoSpace ==> disk == old(disk))
      ensures r.Err? && r.error == NoSpace ==> (WellFormed(V()) <==> NoneFree(old(V())))
      ensures Modes(V()) == Modes(old(V()))
      ensures r.Ok? ==> Later(old(sb), sb, 1)
    {
      hide View, WellFormed, FsAt, Inodes, Mounted, BlocksOk, InodeOk, NodeOf, Ownership, Content, Spliced, RoomFor, Holding, Spared, NoneFree, Leaked, Modes;
      var start := LoadInode(n);
      if start.kind != Regular {
        return Err(IsDirectory);
      }
      BlocksCover(offset + |input|);
      if offset + |input| > 0xffff_ffff_ffff_ffff || DataBlocksForSize(offset + |input|) > MAX_FILE_BLOCKS {
        return Err(FileTooLarge);
      }
      ghost var v := V();
      DirFacts(v, start);
      InodeOkFacts(v, start);
      RoomForInode(v, n, offset + |input|);
      var written := WriteContents(start, offset, input, Inodes(v), n);
      if written.Err? {
        SparedFs(v, V(), n);
        LeakIff(v, V(), n);
        SparedTable(v, V(), n);
        ModesSame(v, V());
        return Err(written.error);
      }
      StoreFile(n, written.value, v, Spliced(Content(v, start), offset, input));
      r := Ok(|input|);
    }

    /**
      Writes `input` at `offset`.  It fails exactly as `ResizeError` says, and then every
      file reads as before, though running out of space may leave blocks taken; on success
      the file at that path holds the spliced bytes while every other path names what it
      named before.
     */
    method WriteFile(path: seq<byte>, offset: nat, input: seq<byte>) returns (r: Result<nat>)
      requires Ready()
      modifies this`disk, this`sb, this`log
      ensures Mounted() && old(log) <= log
      ensures r.Ok? <==> ResizeError(old(V()), path, offset + |input|).None?
      ensures r.Err? ==> ResizeError(old(V()), path, offset + |input|) == Some(r.error)
      ensures r.Err? ==> Files() == old(Files()) && sb == old(sb) && (r.error != NoSpace ==> disk == old(disk))
      ensures r.Err? && r.error == NoSpace ==> (WellFormed(V()) <==> NoneFree(old(V())))
      ensures r.Ok? ==> Ready() && r.value == |input|
      ensures r.Ok? ==> forall p ::
        At(Files(), p) == if p == PathOf(path) then Some(FileObject(Spliced(BytesAt(old(Files()), p), offset, input))) else At(old(Files()), p)
      ensures Modes(V()) == Modes(old(V()))
      ensures r.Ok? ==> Later(old(sb), sb, 1)
    {
      hide View, WellFormed, FsAt, Inodes, Mounted, Spliced, Tree, Lookup, RoomFor, At, BytesAt, SetFile, NoneFree, Modes;
      var found := Resolve(path);
      ResolvedHasSpace(Files(), Components(path));
      if found.Err? {
        return Err(found.error);
      }
      ghost var fs, n := Files(), found.value;
      ReadyTree();
      r := WriteInodeFile(found.value, offset, input);
      if r.Ok? {
        forall p {
          SetFileAtResolved(fs, path, n, Spliced(fs[n].bytes, offset, input), p);
        }
      }
    }

    /** Cuts or zero-extends the file at a path. */
    method Truncate(path: seq<byte>, size: nat) returns (r: Result<()>)
      requires Ready()
      modifies this`disk, this`sb, this`log
      ensures Mounted() && old(log) <= log
      ensures r.Ok? <==> ResizeError(old(V()), path, size).None?
      ensures r.Err? ==> ResizeError(old(V()), path, size) == Some(r.error)
      ensures r.Err? ==> Files() == old(Files()) && sb == old(sb) && (r.error != NoSpace ==> disk == old(disk))
      ensures r.Err? && r.error == NoSpace ==> (WellFormed(V()) <==> NoneFree(old(V())))
      ensures r.Ok? ==> Ready() && forall p ::
        At(Files(), p) == if p == PathOf(path) then Some(FileObject(Resized(BytesAt(old(Files()), p), size))) else At(old(Files()), p)
      ensures Modes(V()) == Modes(old(V()))
      ensures r.Ok? ==> Later(old(sb), sb, 1)
    {
      hide View, WellFormed, FsAt, Inodes, Mounted, Resized, Tree, Lookup, RoomFor, At, BytesAt, SetFile, NoneFree, Modes;
      var found := Resolve(path);
      ResolvedHasSpace(Files(), Components(path));
      if found.Err? {
        return Err(found.error);
      }
      ghost var fs, n := Files(), found.value;
      ReadyTree();
      r := TruncateInodeFile(found.value, size);
      if r.Ok? {
        forall p {
          SetFileAtResolved(fs, path, n, Resized(fs[n].bytes, size), p);
        }
      }
    }

    /** `truncate` once the path is resolved. */
    method TruncateInodeFile(n: nat, size: nat) returns (r: Result<()>)
      requires Ready() && n in Files()
      modifies this`disk, this`sb, this`log
      ensures Mounted() && old(log) <= log
      ensures r.Ok? ==>
        && Ready() && old(Files())[n].File?
        && Files() == SetFile(old(Files()), n, Resized(old(Files())[n].bytes, size))
      ensures r.Err? <==> SizeError(old(V()), n, size).Some?
      ensures r.Err? ==> SizeError(old(V()), n, size) == Some(r.error)
      ensures r.Err? ==> Files() == old(Files()) && sb == old(sb) && (r.error != NoSpace ==> disk == old(disk))
      ensures r.Err? && r.error == NoSpace ==> (WellFormed(V()) <==> NoneFree(old(V())))
      ensures Modes(V()) == Modes(old(V()))
      ensures r.Ok? ==> Later(old(sb), sb, 1)
    {
      hide View, WellFormed, FsAt, Inodes, Mounted, BlocksOk, InodeOk, NodeOf, Ownership, Content, Resized, RoomFor, Holding, Spared, NoneFree, Leaked, Modes;
      var start := LoadInode(n);
      if start.kind != Regular {
        return Err(IsDirectory);
      }
      BlocksCover(size);
      if DataBlocksForSize(size) > MAX_FILE_BLOCKS {
        return Err(FileTooLarge);
      }
      ghost var v := V();
      DirFacts(v, start);
      InodeOkFacts(v, start);
      RoomForInode(v, n, size);
      var resized := ResizeContents(start, size, Inodes(v), n);
      if resized.Err? {
        SparedFs(v, V(), n);
        LeakIff(v, V(), n);
        SparedTable(v, V(), n);
        ModesSame(v, V());
        return Err(resized.error);
      }
      StoreFile(n, resized.value, v, Resized(Content(v, start), size));
      r := Ok(());
    }

    /** Stamps and writes back a directory whose new entries are on disk. */
    method StoreDirectory(n: nat, ino: Inode, timestamp: u64, ghost v: Vol, ghost es: seq<DirEntry>)
      requires Mounted() && v.g == V().g && Consistent(v) && n in FsAt(v) && FsAt(v)[n].Dir? && n in Inodes(v)
      requires ValidEntries(es) && Replaced(v, Inodes(v), V(), n, ino, es)
      modifies this`disk, this`log
      ensures Mounted() && old(log) <= log && Consistent(V()) && Files() == FsAt(v)[n := Dir(es)] && V().g == v.g
      ensures Inodes(V()) == Inodes(v)[n := Stamped(ino, timestamp)]
      ensures Modes(V()) == Modes(v)
    {
      hide View, Consistent, FsAt, Inodes, Replaced, Stamped, ValidEntries, Modes;
      StoredDirectory(v, V(), n, ino, timestamp, es);
      var _ := WriteInode(n, Stamped(ino, timestamp));
    }

    /** `create` once the parent is resolved. */
    method CreateIn(d: nat, name: Name, kind: FileType, permissions: u16) returns (r: Result<u64>)
      requires Ready() && d in Files() && ValidName(name) && Utf8(name)
      modifies this`disk, this`sb, this`log
      ensures Mounted() && old(log) <= log
      ensures r.Err? <==> CreateInError(old(V()), d, name).Some?
      ensures r.Err? ==> CreateInError(old(V()), d, name) == Some(r.error)
      ensures r.Err? && r.error != NoSpace && r.error != FileTooLarge ==> disk == old(disk) && sb == old(sb)
      ensures r.Err? ==> KeepsOthers(old(Files()), Files(), d)
      ensures r.Ok? ==>
        && Ready() && r.value !in old(Files()) && old(Files())[d].Dir? && !Named(Entries(old(Files()), d), name)
        && Files() == NexTree.Create(old(Files()), d, name, kind, r.value) && V().g == old(V().g)
      ensures r.Ok? ==> Modes(V()) == Modes(old(V()))[r.value := permissions]
      ensures r.Ok? ==> Later(old(sb), sb, 1)
    {
      hide View, WellFormed, Consistent, FsAt, Inodes, Mounted, BlocksOk, InodeOk, NodeOf, Ownership, Stamped,
           EntriesFit, DirectoryFits, Replaced, Tree, EmptyInode, KeepsOthers, Modes;
      ghost var v, fs := V(), Files();
      ReadyTree();
      KeepsSelf(fs, d);
      var parent := LoadInode(d);
      var listing := LoadDirectory(parent, d);
      if listing.Err? {
        return Err(NotDirectory);
      }
      var entries := listing.value;
      var clash := FindEntry(entries, name);
      if clash.Some? {
        return Err(AlreadyExists);
      }
      FileDirectory(v, d, parent);
      EntriesFitHere(v, d, |entries| + 1);
      r := CreateEntry(d, parent, entries, name, kind, permissions);
    }

    /** `create` once it is clear that the name is free: allocate, write, link. */
    method CreateEntry(d: nat, parent: Inode, entries: seq<DirEntry>, name: Name, kind: FileType, permissions: u16)
      returns (r: Result<u64>)
      requires Ready() && d in Files() && d in Inodes(V()) && parent == Inodes(V())[d] && Files()[d] == Dir(entries)
      requires !Named(entries, name) && ValidName(name) && Utf8(name)
      requires ValidEntries(entries) && parent.blockCount <= MAX_FILE_BLOCKS && parent.kind.Directory?
      modifies this`disk, this`sb, this`log
      ensures Mounted() && old(log) <= log
      ensures r.Ok? <==> !NoFreeInode(old(V())) && DirectoryFits(old(V()), parent, |entries| + 1)
      ensures r.Err? ==>
        r.error == if !NoFreeInode(old(V())) && DIR_ENTRY_SIZE * (|entries| + 1) > MAX_BYTES then FileTooLarge else NoSpace
      ensures r.Err? ==> KeepsOthers(old(Files()), Files(), d)
      ensures r.Ok? ==> Ready() && r.value !in old(Files()) && Files() == NexTree.Create(old(Files()), d, name, kind, r.value) && V().g == old(V().g)
      ensures r.Ok? ==> Modes(V()) == Modes(old(V()))[r.value := permissions]
      ensures r.Ok? ==> Later(old(sb), sb, 1)
    {
      hide View, WellFormed, Consistent, FsAt, Inodes, Mounted, Stamped, DirectoryFits, Replaced, Tree, NoFreeInode, ValidName, Utf8,
           OthersSame, KeepsOthers, Ownership, Recorded, RawSuperblock.Validate, BlocksOk, InodeOk, Modes;
      ghost var v, fs := V(), Files();
      ReadyTree();
      var number := AddInode(kind, permissions);
      KeepsSelf(Files(), d);
      if number.Err? {
        return Err(NoSpace);
      }
      var n, timestamp := number.value, sb.generation;
      ghost var w := V();
      var more := entries + [DirEntry(n, kind, name)];
      FitsAlike(v, w, parent, |more|);
      ConsistentOwnership(w);
      var replaced := ReplaceDirectory(parent, more, Inodes(w), d);
      if replaced.Err? {
        if replaced.error == NoSpace {
          OthersKeepNodes(w, V(), d);
        }
        KeepsMore(fs, Files(), d, n, EmptyNode(kind));
        return Err(replaced.error);
      }
      StoreDirectory(d, replaced.value, timestamp, w, more);
      FinishMutation();
      CreateKeepsTree(fs, d, name, kind, n);
      ConsistentTree(V());
      r := Ok(n);
    }

    /** Allocates an inode number and writes an empty inode to its slot. */
    method AddInode(kind: FileType, permissions: u16) returns (r: Result<u64>)
      requires Ready()
      modifies this`disk, this`sb, this`log
      ensures Mounted() && old(log) <= log
      ensures r.Err? <==> NoFreeInode(old(V()))
      ensures r.Err? ==> V() == old(V())
      ensures r.Ok? ==>
        && Consistent(V()) && r.value !in old(Files()) && r.value !in old(Inodes(V())) && r.value != 0
        && Files() == old(Files())[r.value := EmptyNode(kind)]
        && V().g == old(V().g) && V().bbits == old(V().bbits) && V().data == old(V().data)
        && forall m <- old(Inodes(V())) :: m in Inodes(V()) && Inodes(V())[m] == old(Inodes(V()))[m]
      ensures r.Ok? ==> Modes(V()) == Modes(old(V()))[r.value := permissions]
      ensures r.Ok? ==> Later(old(sb), sb, 1)
    {
      hide View, WellFormed, Consistent, FsAt, Inodes, Mounted, EmptyInode, NoFreeInode, Modes;
      ghost var v := V();
      ReadyTree();
      var number := AllocateInode();
      if number.Err? {
        return Err(NoSpace);
      }
      var n := number.value;
      var timestamp := NextTimestamp();
      NewInodeEmpty(kind, permissions, timestamp);
      Added(v, n, NewInode(kind, permissions, timestamp));
      FreshInode(v, n);
      ModesAdded(v, v.(ibits := v.ibits + {n}, slots := v.slots[n := Ok(NewInode(kind, permissions, timestamp))]), n, NewInode(kind, permissions, timestamp));
      var _ := WriteInode(n, NewInode(kind, permissions, timestamp));
      r := Ok(n);
    }

    /**
      Creates an empty file or directory.  A full directory (8384 entries) or a lack of
      space is found out only after the inode has been allocated; every other failure
      leaves the volume as it was.
     */
    method Create(path: seq<byte>, kind: FileType, permissions: u16) returns (r: Result<u64>)
      requires Ready() && Utf8(path)
      modifies this`disk, this`sb, this`log
      ensures Mounted() && old(log) <= log
      ensures r.Ok? <==> CreateError(old(V()), path).None?
      ensures r.Err? ==> CreateError(old(V()), path) == Some(r.error)
      ensures r.Err? && r.error != NoSpace && r.error != FileTooLarge ==> disk == old(disk) && sb == old(sb)
      ensures r.Err? ==> KeepsContents(old(Files()), Files()) && KeepsOutside(old(Files()), Files(), PathOf(path))
      ensures r.Ok? ==> Ready() && Lookup(Files(), PathOf(path)) == Some(r.value)
      ensures r.Ok? ==> Created(old(Files()), Files(), path, kind, r.value) && V().g == old(V().g)
      ensures r.Ok? ==> forall p ::
        At(Files(), p) == if p == PathOf(path) then Some(EmptyObject(kind)) else At(old(Files()), p)
      ensures r.Ok? ==> r.value !in Modes(old(V())) && Modes(V()) == Modes(old(V()))[r.value := permissions]
      ensures r.Ok? ==> Later(old(sb), sb, 1)
    {
      hide View, WellFormed, FsAt, Inodes, Mounted, Tree, Lookup, At, PathOf, Components, SplitParent, Utf8, ValidName, Resolved, NexTree.Create,
           CreateInError, Named, Entries, EmptyObject, KeepsContents, KeepsOthers, KeepsOutside, Modes;
      KeepsAll(Files(), PathOf(path));
      ModesKeys(V());
      var split := SplitParent(path);
      if split.Err? {
        return Err(split.error);
      }
      var (parent, name) := split.value;
      SplitParentUtf8(path);
      var found := Resolve(parent);
      if found.Err? {
        return Err(found.error);
      }
      ghost var fs, d := Files(), found.value;
      ReadyTree();
      r := CreateIn(found.value, name, kind, permissions);
      if r.Ok? {
        CreateAtResolved(fs, path, d, kind, r.value, PathOf(path));
        forall p {
          CreateAtResolved(fs, path, d, kind, r.value, p);
        }
      } else {
        OthersKeepResolved(fs, Files(), path, d);
      }
    }

    /** Removes the file, or empty directory, at a path.  It never runs out of space. */
    method Remove(path: seq<byte>) returns (r: Result<()>)
      requires Ready()
      modifies this`disk, this`sb, this`log
      ensures Ready() && old(log) <= log
      ensures r.Ok? <==> RemoveError(old(V()), path).None?
      ensures r.Err? ==> RemoveError(old(V()), path) == Some(r.error) && disk == old(disk) && sb == old(sb)
      ensures r.Ok? ==> forall p :: At(Files(), p) == if p == PathOf(path) then None else At(old(Files()), p)
      ensures r.Ok? ==> Lookup(old(Files()), PathOf(path)).Some?
      ensures r.Ok? ==> Modes(V()) == Modes(old(V())) - {Lookup(old(Files()), PathOf(path)).value}
      ensures r.Ok? ==> Later(old(sb), sb, 1)
    {
      hide View, WellFormed, FsAt, Inodes, Mounted, Tree, Lookup, At, PathOf, Components, SplitParent, ValidName, Resolved, NexTree.Remove, Modes;
      var split := SplitParent(path);
      if split.Err? {
        return Err(split.error);
      }
      var (parent, name) := split.value;
      var found := Resolve(parent);
      if found.Err? {
        return Err(found.error);
      }
      ghost var fs, d := Files(), found.value;
      ReadyTree();
      ghost var i;
      r, i := RemoveIn(found.value, name);
      if r.Ok? {
        RemoveAtResolved(fs, path, d, i, []);
        forall p {
          RemoveAtResolved(fs, path, d, i, p);
        }
      }
    }

    /** `remove` once the parent is resolved. */
    method RemoveIn(d: nat, name: Name) returns (r: Result<()>, ghost i: nat)
      requires Ready() && d in Files()
      modifies this`disk, this`sb, this`log
      ensures Ready() && old(log) <= log
      ensures r.Ok? <==> RemoveInError(old(Files()), d, name).None?
      ensures r.Err? ==> RemoveInError(old(Files()), d, name) == Some(r.error) && disk == old(disk) && sb == old(sb)
      ensures r.Ok? ==> Unlinkable(old(Files()), d, i, name) && Files() == NexTree.Remove(old(Files()), d, i)
      ensures r.Ok? ==> Modes(V()) == Modes(old(V())) - {Entries(old(Files()), d)[i].inode}
      ensures r.Ok? ==> Later(old(sb), sb, 1)
    {
      hide View, WellFormed, Consistent, FsAt, Inodes, Mounted, BlocksOk, InodeOk, NodeOf, Ownership, Tree, Step, Modes;
      ghost var fs := Files();
      ReadyTree();
      i := 0;
      var parent := LoadInode(d);
      var listing := LoadDirectory(parent, d);
      if listing.Err? {
        return Err(NotDirectory), 0;
      }
      var entries := listing.value;
      var position := FindEntry(entries, name);
      if position.None? {
        return Err(NotFound), 0;
      }
      i := position.value;
      var n := entries[position.value].inode;
      TreeEntry(fs, d, i);
      var target := LoadInode(n);
      var empty := true;
      if target.kind == Directory {
        var children := LoadDirectory(target, n);
        empty := children.value == [];
      }
      if !empty {
        return Err(DirectoryNotEmpty), i;
      }
      FileDirectory(V(), d, parent);
      Unlink(d, parent, entries, position.value, target);
      r := Ok(());
    }

    /** The writes of `remove`. */
    method Unlink(d: nat, parent: Inode, entries: seq<DirEntry>, i: nat, target: Inode)
      requires Ready() && d in Files() && d in Inodes(V()) && parent == Inodes(V())[d] && Files()[d] == Dir(entries)
      requires i < |entries| && Entries(Files(), entries[i].inode) == [] && entries[i].inode in Inodes(V())
      requires target == Inodes(V())[entries[i].inode] && target.blockCount <= MAX_FILE_BLOCKS
      requires ValidEntries(entries) && parent.blockCount <= MAX_FILE_BLOCKS && parent.kind.Directory?
      modifies this`disk, this`sb, this`log
      ensures Ready() && old(log) <= log && Files() == NexTree.Remove(old(Files()), d, i)
      ensures Modes(V()) == Modes(old(V())) - {entries[i].inode}
      ensures Later(old(sb), sb, 1)
    {
      hide View, WellFormed, Consistent, FsAt, Inodes, Mounted, Ownership, Tree, Stamped, DirectoryFits, Replaced, ValidEntry, Shrunk, Modes;
      ghost var v, fs := V(), Files();
      var n := entries[i].inode;
      ReadyTree();
      TreeEntry(fs, d, i);
      var timestamp := NextTimestamp();
      RemoveEntry(d, parent, entries, i, timestamp);
      ghost var w := V();
      ConsistentOwnership(w);
      Drop(n, target, w);
      FinishMutation();
      RemoveKeepsTree(fs, d, i);
      RemoveIsMinus(fs, d, i);
      ConsistentTree(V());
    }

    /** Gives back a target's blocks, clears its inode and frees the number. */
    method Drop(n: nat, target: Inode, ghost w: Vol)
      requires Mounted() && w == V() && Consistent(w) && n in Inodes(w) && target == Inodes(w)[n] && n != ROOT
      requires target.blockCount <= MAX_FILE_BLOCKS && Ownership(w, Inodes(w))
      modifies this`disk, this`log
      ensures Mounted() && old(log) <= log && Consistent(V()) && Files() == FsAt(w) - {n}
      ensures Modes(V()) == Modes(w) - {n}
    {
      hide View, Consistent, FsAt, Inodes, Mounted, Ownership, Shrunk, Modes;
      var emptied := TruncateInodeBlocks(target, 0, Inodes(w), n);
      ghost var x := V();
      ShrunkChanged(w, Inodes(w), x, n, emptied.value);
      Discarded(w, x, n, emptied.value);
      ModesDropped(w, x.(slots := x.slots[n := Err(CorruptInode)], ibits := x.ibits - {n}), n);
      InodeNumbers(w, n);
      var _ := ClearInode(n);
      var _ := SetInodeAllocated(n, false);
    }

    /** Whether `target` lies in the subtree of `directory`: depth-first, each directory once. */
    method DirectoryContains(directory: nat, target: nat) returns (r: bool)
      requires Ready() && directory in Files() && Files()[directory].Dir?
      ensures r <==> Reach(Files(), directory, target)
    {
      hide View, WellFormed, Consistent, FsAt, Inodes, Mounted, Tree, Reach, EntriesOk, Searching;
      ghost var fs := Files();
      ReadyTree();
      ReachSelf(fs, directory);
      if directory == target {
        return true;
      }
      var pending, visited: set<nat> := [directory], {};
      SearchStarts(fs, directory, target);
      while pending != []
        invariant Searching(fs, directory, target, visited, pending)
        decreases fs.Keys - visited, |pending|
      {
        var current := pending[|pending| - 1];
        ghost var before := pending;
        pending := pending[..|pending| - 1];
        SearchingFacts(fs, directory, target, visited, before);
        if current in visited {
          SearchSkips(fs, directory, target, visited, before);
        } else {
          var found;
          found, pending := ListDirectories(current, target, pending);
          if found {
            SearchFinds(fs, directory, current, target);
            return true;
          }
          SearchAdvances(fs, directory, target, visited, before, pending);
          visited := visited + {current};
        }
      }
      TreeEntriesOk(fs);
      SearchExhausted(fs, directory, target, visited);
      r := false;
    }

    /** Looks through one directory: finds the target or queues the subdirectories. */
    method ListDirectories(current: nat, target: nat, pending: seq<nat>) returns (found: bool, queue: seq<nat>)
      requires Ready() && current in Files() && Files()[current].Dir? && target !in pending
      ensures found <==> IsChild(Files(), current, target)
      ensures pending <= queue && target !in queue
      ensures forall x <- queue :: x in pending || IsSubdirectory(Files(), current, x)
      ensures !found ==> ListedBefore(Entries(Files(), current), |Entries(Files(), current)|, target, {}, queue)
    {
      hide View, WellFormed, Mounted, FsAt, BlocksOk, InodeOk, NodeOf, Ownership;
      var ino := LoadInode(current);
      var listing := LoadDirectory(ino, current);
      var entries := listing.value;
      ghost var es := Entries(Files(), current);
      queue := pending;
      var k := 0;
      while k < |entries|
        invariant k <= |entries| && pending <= queue && target !in queue && entries == es
        invariant forall x <- queue :: x in pending || IsSubdirectory(Files(), current, x)
        invariant ListedBefore(entries, k, target, {}, queue)
      {
        var entry := entries[k];
        if entry.inode == target {
          assert es[k].inode == target;
          return true, queue;
        }
        if entry.kind == Directory {
          assert es[k].inode == entry.inode;
          queue := queue + [entry.inode];
        }
        k := k + 1;
      }
      found := false;
    }

    /** `rename` once both parents are resolved. */
    method RenameIn(a: nat, name: Name, b: nat, name': Name) returns (r: Result<()>, ghost i: nat)
      requires Ready() && a in Files() && b in Files() && ValidName(name') && Utf8(name')
      modifies this`disk, this`sb, this`log
      ensures Mounted() && old(log) <= log
      ensures r.Ok? <==> RenameInError(old(V()), a, name, b, name').None?
      ensures r.Err? ==> RenameInError(old(V()), a, name, b, name') == Some(r.error) && KeepsOthers(old(Files()), Files(), b)
      ensures r.Err? && r.error != NoSpace ==> disk == old(disk) && sb == old(sb)
      ensures r.Ok? ==>
        && Ready() && i < |Entries(old(Files()), a)| && Entries(old(Files()), a)[i].name == name
        && Movable(old(Files()), a, i, b, name') && Files() == NexTree.Rename(old(Files()), a, i, b, name')
      ensures r.Ok? ==> Modes(V()) == Modes(old(V()))
      ensures r.Ok? ==> Later(old(sb), sb, 1)
    {
      hide View, WellFormed, Consistent, FsAt, Inodes, Mounted, BlocksOk, InodeOk, NodeOf, Ownership, Tree, Reach, Step,
           EntriesFit, DirectoryFits, ValidName, Utf8, ValidEntries, NexTree.Rename, Named, Recorded, MoveError, KeepsOthers, Modes;
      ghost var v, fs := V(), Files();
      ReadyTree();
      KeepsSelf(fs, b);
      i := 0;
      var source := LoadInode(a);
      var listing := LoadDirectory(source, a);
      if listing.Err? {
        return Err(NotDirectory), 0;
      }
      var position := FindEntry(listing.value, name);
      if position.None? {
        return Err(NotFound), 0;
      }
      i := position.value;
      var e := listing.value[position.value];
      TreeEntry(fs, a, i);
      var target := LoadInode(b);
      var listing' := LoadDirectory(target, b);
      if listing'.Err? {
        return Err(NotDirectory), i;
      }
      var clash := FindEntry(listing'.value, name');
      if clash.Some? {
        NamedAt(listing'.value, clash.value);
        return Err(AlreadyExists), i;
      }
      var cycle := MovesIntoItself(a, position.value, e, b);
      if cycle {
        return Err(InvalidPath), i;
      }
      FileDirectory(v, a, source);
      FileDirectory(v, b, target);
      r := MoveEntry(a, source, listing.value, position.value, b, target, listing'.value, name');
    }

    /** The writes of `rename`. */
    method MoveEntry(a: nat, source: Inode, entries: seq<DirEntry>, i: nat,
                     b: nat, target: Inode, entries': seq<DirEntry>, name: Name) returns (r: Result<()>)
      requires Ready() && a in Files() && a in Inodes(V()) && source == Inodes(V())[a] && Files()[a] == Dir(entries)
      requires b in Files() && b in Inodes(V()) && target == Inodes(V())[b] && Files()[b] == Dir(entries')
      requires i < |entries| && Movable(Files(), a, i, b, name) && ValidName(name) && Utf8(name)
      requires ValidEntries(entries) && source.blockCount <= MAX_FILE_BLOCKS && source.kind.Directory?
      requires ValidEntries(entries') && target.blockCount <= MAX_FILE_BLOCKS && target.kind.Directory?
      modifies this`disk, this`sb, this`log
      ensures Mounted() && old(log) <= log
      ensures r.Ok? <==> MoveError(old(V()), a, b).None?
      ensures r.Err? ==> MoveError(old(V()), a, b) == Some(r.error) && KeepsOthers(old(Files()), Files(), b)
      ensures r.Err? && r.error != NoSpace ==> disk == old(disk) && sb == old(sb)
      ensures r.Ok? ==> Ready() && Files() == NexTree.Rename(old(Files()), a, i, b, name)
      ensures r.Ok? ==> Modes(V()) == Modes(old(V()))
      ensures r.Ok? ==> Later(old(sb), sb, 1)
    {
      hide View, WellFormed, Consistent, FsAt, Inodes, Mounted, BlocksOk, InodeOk, NodeOf, Ownership, Tree, Reach, Step,
           EntriesFit, DirectoryFits, ValidName, Utf8, ValidEntries, NexTree.Rename, Named, Recorded, KeepsOthers, Modes;
      ReadyTree();
      TreeEntry(Files(), a, i);
      ValidAt(entries, i);
      if a == b {
        RenameWithin(a, source, entries, i, name);
        r := Ok(());
      } else {
        EntriesFitHere(V(), b, |entries'| + 1);
        r := RenameAcross(a, source, entries, i, b, target, entries', name);
      }
    }

    /** The cycle guard of `rename`; only a directory can contain the destination. */
    method MovesIntoItself(a: nat, i: nat, e: DirEntry, b: nat) returns (cycle: bool)
      requires Ready() && i < |Entries(Files(), a)| && Entries(Files(), a)[i] == e && b in Files() && Files()[b].Dir?
      ensures cycle <==> Reach(Files(), e.inode, b)
    {
      hide View, WellFormed, FsAt, Mounted, Tree, Reach;
      ReadyTree();
      TreeEntry(Files(), a, i);
      if e.kind == Directory {
        cycle := DirectoryContains(e.inode, b);
      } else {
        FileReach(Files(), e.inode, b);
        cycle := false;
      }
    }

    /** The writes of `rename` inside one directory. */
    method RenameWithin(a: nat, source: Inode, entries: seq<DirEntry>, i: nat, name: Name)
      requires Ready() && a in Files() && a in Inodes(V()) && source == Inodes(V())[a] && Files()[a] == Dir(entries)
      requires i < |entries| && Movable(Files(), a, i, a, name) && ValidName(name) && Utf8(name) && entries[i].inode != 0
      requires ValidEntries(entries) && source.blockCount <= MAX_FILE_BLOCKS && source.kind.Directory?
      modifies this`disk, this`sb, this`log
      ensures Ready() && old(log) <= log && Files() == NexTree.Rename(old(Files()), a, i, a, name)
      ensures Modes(V()) == Modes(old(V()))
      ensures Later(old(sb), sb, 1)
    {
      hide View, WellFormed, Consistent, FsAt, Inodes, Mounted, Ownership, Tree, Stamped, DirectoryFits, Replaced, ValidName, Utf8, Reach, Modes;
      ghost var v, fs := V(), Files();
      ReadyTree();
      ConsistentOwnership(v);
      var renamed := entries[i := entries[i].(name := name)];
      RewriteFits(v, a, |renamed|);
      var replaced := ReplaceDirectory(source, renamed, Inodes(v), a);
      var timestamp := NextTimestamp();
      StoreDirectory(a, replaced.value, timestamp, v, renamed);
      FinishMutation();
      RenameKeepsTree(fs, a, i, a, name);
      ConsistentTree(V());
    }

    /** The writes of `rename` between two directories: link first, then unlink. */
    method RenameAcross(a: nat, source: Inode, entries: seq<DirEntry>, i: nat,
                        b: nat, target: Inode, entries': seq<DirEntry>, name: Name) returns (r: Result<()>)
      requires Ready() && a in Files() && a in Inodes(V()) && source == Inodes(V())[a] && Files()[a] == Dir(entries)
      requires b in Files() && b in Inodes(V()) && target == Inodes(V())[b] && Files()[b] == Dir(entries') && a != b
      requires i < |entries| && Movable(Files(), a, i, b, name) && ValidName(name) && Utf8(name) && entries[i].inode != 0
      requires ValidEntries(entries) && source.blockCount <= MAX_FILE_BLOCKS && source.kind.Directory?
      requires ValidEntries(entries') && target.blockCount <= MAX_FILE_BLOCKS && target.kind.Directory?
      modifies this`disk, this`sb, this`log
      ensures Mounted() && old(log) <= log
      ensures r.Ok? <==> DirectoryFits(old(V()), target, |entries'| + 1)
      ensures r.Err? ==> r.error == if DIR_ENTRY_SIZE * (|entries'| + 1) > MAX_BYTES then FileTooLarge else NoSpace
      ensures r.Err? && r.error == FileTooLarge ==> disk == old(disk) && sb == old(sb)
      ensures r.Err? ==> KeepsOthers(old(Files()), Files(), b)
      ensures r.Ok? ==> Ready() && Files() == NexTree.Rename(old(Files()), a, i, b, name)
      ensures r.Ok? ==> Modes(V()) == Modes(old(V()))
      ensures r.Ok? ==> Later(old(sb), sb, 1)
    {
      hide View, WellFormed, Consistent, FsAt, Inodes, Mounted, Ownership, Tree, Stamped, DirectoryFits, Replaced, ValidName, Utf8, Reach,
           OthersSame, KeepsOthers, Modes;
      ghost var v, fs := V(), Files();
      ReadyTree();
      KeepsSelf(fs, b);
      ConsistentOwnership(v);
      var more := entries' + [entries[i].(name := name)];
      var replaced := ReplaceDirectory(target, more, Inodes(v), b);
      if replaced.Err? {
        if replaced.error == NoSpace {
          OthersKeepNodes(v, V(), b);
        }
        return Err(replaced.error);
      }
      var timestamp := NextTimestamp();
      StoreDirectory(b, replaced.value, timestamp, v, more);
      RemoveEntry(a, source, entries, i, timestamp);
      FinishMutation();
      RenameKeepsTree(fs, a, i, b, name);
      ConsistentTree(V());
      r := Ok(());
    }

    /** Rewrites a directory without its `i`-th entry; this always fits. */
    method RemoveEntry(d: nat, parent: Inode, entries: seq<DirEntry>, i: nat, timestamp: u64)
      requires Mounted() && Consistent(V()) && d in Files() && d in Inodes(V()) && parent == Inodes(V())[d]
      requires Files()[d] == Dir(entries) && i < |entries|
      requires ValidEntries(entries) && parent.blockCount <= MAX_FILE_BLOCKS && parent.kind.Directory?
      modifies this`disk, this`log
      ensures Mounted() && old(log) <= log && Consistent(V()) && Files() == old(Files())[d := Dir(SwapRemove(entries, i))]
      ensures forall m <- old(Inodes(V())) :: m != d ==> m in Inodes(V()) && Inodes(V())[m] == old(Inodes(V()))[m]
      ensures Modes(V()) == Modes(old(V()))
    {
      hide View, Consistent, FsAt, Inodes, Mounted, Ownership, Stamped, DirectoryFits, Replaced, ValidEntry, Modes;
      ghost var v := V();
      ConsistentOwnership(v);
      var rest := SwapRemove(entries, i);
      RewriteFits(v, d, |rest|);
      var replaced := ReplaceDirectory(parent, rest, Inodes(v), d);
      StoreDirectory(d, replaced.value, timestamp, v, rest);
    }

    /**
      Moves a file or a whole directory.  On success a path below the destination names
      what the same path below the source named, the source names nothing, and all
      other paths are as they were; moving a directory into itself is refused.
     */
    method Rename(source: seq<byte>, destination: seq<byte>) returns (r: Result<()>)
      requires Ready() && Utf8(destination)
      modifies this`disk, this`sb, this`log
      ensures Mounted() && old(log) <= log
      ensures r.Ok? <==> RenameError(old(V()), source, destination).None?
      ensures r.Err? ==> RenameError(old(V()), source, destination) == Some(r.error) && KeepsContents(old(Files()), Files())
      ensures r.Err? ==> KeepsOutside(old(Files()), Files(), PathOf(destination))
      ensures r.Err? && r.error != NoSpace ==> disk == old(disk) && sb == old(sb)
      ensures r.Ok? ==> Ready() && forall p ::
        At(Files(), p) == MovedAt(old(Files()), PathOf(source), PathOf(destination), p)
      ensures r.Ok? ==> Modes(V()) == Modes(old(V()))
      ensures r.Ok? ==> Later(old(sb), sb, 1)
    {
      hide View, WellFormed, FsAt, Inodes, Mounted, Tree, Lookup, At, PathOf, Components, SplitParent, Utf8, ValidName, Resolved,
           NexTree.Rename, RenameInError, Named, Entries, Reach, MovedAt, KeepsContents, KeepsOthers, KeepsOutside, Modes;
      KeepsAll(Files(), PathOf(destination));
      var split := SplitParent(source);
      if split.Err? {
        return Err(split.error);
      }
      var split' := SplitParent(destination);
      if split'.Err? {
        return Err(split'.error);
      }
      SplitParentUtf8(destination);
      var found := Resolve(split.value.0);
      if found.Err? {
        return Err(found.error);
      }
      var found' := Resolve(split'.value.0);
      if found'.Err? {
        return Err(found'.error);
      }
      ghost var fs := Files();
      ReadyTree();
      ghost var i;
      r, i := RenameIn(found.value, split.value.1, found'.value, split'.value.1);
      if r.Ok? {
        forall p {
          RenameAtResolved(fs, source, destination, found.value, i, found'.value, p);
        }
      } else {
        OthersKeepResolved(fs, Files(), destination, found'.value);
      }
    }
  }

  /** The bytes of the file at a path, nothing where there is none. */
  function BytesAt(fs: Fs, p: Path): seq<byte> {
    match At(fs, p)
    case Some(FileObject(bytes)) => bytes
    case _ => []
  }

  /** Inode `n` could have `end` bytes, with what it has and what is free. */
  ghost predicate RoomFor(v: Vol, n: nat, end: nat) {
    && n in Inodes(v) && Inodes(v)[n].blockCount <= MAX_FILE_BLOCKS
    && HasRoom(v, Inodes(v)[n], DataBlocksForSize(Max(Inodes(v)[n].size, end)))
  }

  lemma RoomForInode(v: Vol, n: nat, end: nat)
    requires n in Inodes(v) && Inodes(v)[n].blockCount <= MAX_FILE_BLOCKS
    ensures RoomFor(v, n, end) <==> HasRoom(v, Inodes(v)[n], DataBlocksForSize(Max(Inodes(v)[n].size, end)))
  {
  }

  lemma InodeOkFacts(v: Vol, ino: Inode)
    requires InodeOk(v, ino)
    ensures SizeOk(ino) && Tight(ino) && ino.blockCount <= MAX_FILE_BLOCKS
  {
  }

  /** `SetFileAtPath` for a path string that was resolved. */
  lemma {:induction false} SetFileAtResolved(fs: Fs, path: seq<byte>, n: nat, bytes: seq<byte>, p: Path)
    requires Tree(fs) && Resolved(fs, Components(path)) == Ok(n) && n in fs && fs[n].File?
    ensures At(SetFile(fs, n, bytes), p) == if p == PathOf(path) then Some(FileObject(bytes)) else At(fs, p)
    ensures BytesAt(fs, PathOf(path)) == fs[n].bytes
  {
    hide Tree, Resolved;
    ResolvedIsLookup(fs, Components(path), n);
    SetFileAtPath(fs, PathOf(path), bytes, p);
  }

  /** `count` entries fit in directory `n` with what it has and what is free. */
  ghost predicate EntriesFit(v: Vol, n: nat, count: nat) {
    n in Inodes(v) && Inodes(v)[n].blockCount <= MAX_FILE_BLOCKS && DirectoryFits(v, Inodes(v)[n], count)
  }

  lemma EntriesFitHere(v: Vol, n: nat, count: nat)
    requires n in Inodes(v) && Inodes(v)[n].blockCount <= MAX_FILE_BLOCKS
    ensures EntriesFit(v, n, count) <==> DirectoryFits(v, Inodes(v)[n], count)
    ensures DIR_ENTRY_SIZE * count > MAX_BYTES ==> !DirectoryFits(v, Inodes(v)[n], count)
  {
    hide Available;
  }

  lemma NewInodeEmpty(kind: FileType, permissions: u16, timestamp: u64)
    ensures var new' := NewInode(kind, permissions, timestamp); |new'.direct| == DIRECT_BLOCKS && EmptyInode(new') && new'.kind == kind
  {
  }

  lemma FreshInode(v: Vol, n: nat)
    requires n !in v.ibits
    ensures n !in Inodes(v) && n !in FsAt(v)
  {
  }

  /** What an inode of the tree that is a directory brings along. */
  lemma {:induction false} FileDirectory(v: Vol, d: nat, ino: Inode)
    requires InodeOk(v, ino) && ino.kind.Directory? && SizeOk(ino)
    ensures NodeOf(v, ino).Dir? && ValidEntries(NodeOf(v, ino).entries) && ino.blockCount <= MAX_FILE_BLOCKS
  {
    hide NodeOf, ValidEntries, InodeOk;
    DirFacts(v, ino);
    InodeOkFacts(v, ino);
  }

  /** An empty node `n` was appended to the directory that `path` is to be in. */
  ghost predicate Created(before: Fs, after: Fs, path: seq<byte>, kind: FileType, n: u64) {
    && SplitParent(path).Ok? && n !in before
    && match Resolved(before, Components(SplitParent(path).value.0))
       case Err(_) => false
       case Ok(d) => after == NexTree.Create(before, d, SplitParent(path).value.1, kind, n)
  }

  function EmptyObject(kind: FileType): Object {
    if kind.Regular? then FileObject([]) else DirObject
  }

  /** `CreateAtPath` for a path string whose parent was resolved. */
  lemma {:induction false} CreateAtResolved(fs: Fs, path: seq<byte>, d: nat, kind: FileType, n: u64, p: Path)
    requires Tree(fs) && SplitParent(path).Ok? && Resolved(fs, Components(SplitParent(path).value.0)) == Ok(d)
    requires d in fs && fs[d].Dir? && n !in fs && !Named(Entries(fs, d), SplitParent(path).value.1)
    ensures At(NexTree.Create(fs, d, SplitParent(path).value.1, kind, n), p)
      == if p == PathOf(path) then Some(EmptyObject(kind)) else At(fs, p)
    ensures Lookup(NexTree.Create(fs, d, SplitParent(path).value.1, kind, n), PathOf(path)) == Some(n)
  {
    hide Tree, Resolved, SplitParent, Lookup, NexTree.Create;
    var (parent, name) := SplitParent(path).value;
    SplitParentIsLast(path);
    ResolvedIsLookup(fs, Components(parent), d);
    CreateAtPath(fs, PathOf(parent), name, kind, n, p);
    CreateLookup(fs, PathOf(parent), name, kind, n, PathOf(path));
  }

  /** `OthersKeepPaths` for a path string whose parent was resolved. */
  lemma {:induction false} OthersKeepResolved(fs: Fs, after: Fs, path: seq<byte>, d: nat)
    requires Tree(fs) && SplitParent(path).Ok? && Resolved(fs, Components(SplitParent(path).value.0)) == Ok(d)
    requires KeepsOthers(fs, after, d)
    ensures KeepsOutside(fs, after, PathOf(path)) && KeepsContents(fs, after)
  {
    hide Tree, Resolved, SplitParent, Lookup, KeepsOthers, KeepsOutside, KeepsContents;
    var (parent, name) := SplitParent(path).value;
    SplitParentIsLast(path);
    ResolvedIsLookup(fs, Components(parent), d);
    assert PathOf(path)[..|PathOf(path)| - 1] == PathOf(parent);
    OthersKeepPaths(fs, after, d, PathOf(path));
  }

  /** Why inode `n` cannot have `end` bytes written or be truncated to them, if it cannot. */
  ghost function SizeError(v: Vol, n: nat, end: nat): Option<FsError> {
    if n !in FsAt(v) || FsAt(v)[n].Dir? then Some(IsDirectory)
    else if end > MAX_BYTES then Some(FileTooLarge)
    else if RoomFor(v, n, end) then None
    else Some(NoSpace)
  }

  ghost function ResizeError(v: Vol, path: seq<byte>, end: nat): Option<FsError> {
    match Resolved(FsAt(v), Components(path))
    case Err(e) => Some(e)
    case Ok(n) => SizeError(v, n, end)
  }

  /** Why `create` fails, if it does. */
  ghost function CreateError(v: Vol, path: seq<byte>): Option<FsError> {
    match SplitParent(path)
    case Err(e) => Some(e)
    case Ok((parent, name)) =>
      match Resolved(FsAt(v), Components(parent))
      case Err(e) => Some(e)
      case Ok(d) => CreateInError(v, d, name)
  }

  ghost function CreateInError(v: Vol, d: nat, name: Name): Option<FsError> {
    if d !in FsAt(v) || FsAt(v)[d].File? then Some(NotDirectory)
    else if Named(FsAt(v)[d].entries, name) then Some(AlreadyExists)
    else if NoFreeInode(v) then Some(NoSpace)
    else if DIR_ENTRY_SIZE * (|FsAt(v)[d].entries| + 1) > MAX_BYTES then Some(FileTooLarge)
    else if EntriesFit(v, d, |FsAt(v)[d].entries| + 1) then None
    else Some(NoSpace)
  }

  /** Why `remove` fails, if it does. */
  ghost function RemoveError(v: Vol, path: seq<byte>): Option<FsError> {
    match SplitParent(path)
    case Err(e) => Some(e)
    case Ok((parent, name)) =>
      match Resolved(FsAt(v), Components(parent))
      case Err(e) => Some(e)
      case Ok(d) => RemoveInError(FsAt(v), d, name)
  }

  /** Why `rename` fails, if it does. */
  ghost function RenameError(v: Vol, source: seq<byte>, destination: seq<byte>): Option<FsError> {
    match (SplitParent(source), SplitParent(destination))
    case (Err(e), _) => Some(e)
    case (Ok(_), Err(e)) => Some(e)
    case (Ok((from, name)), Ok((to, name'))) =>
      match (Resolved(FsAt(v), Components(from)), Resolved(FsAt(v), Components(to)))
      case (Err(e), _) => Some(e)
      case (Ok(_), Err(e)) => Some(e)
      case (Ok(a), Ok(b)) => RenameInError(v, a, name, b, name')
  }

  ghost function RenameInError(v: Vol, a: nat, name: Name, b: nat, name': Name): Option<FsError> {
    var fs := FsAt(v);
    if a !in fs || fs[a].File? then Some(NotDirectory)
    else
      match Step(fs[a].entries, name)
      case None => Some(NotFound)
      case Some(x) =>
        if b !in fs || fs[b].File? then Some(NotDirectory)
        else if Named(fs[b].entries, name') then Some(AlreadyExists)
        else if Reach(fs, x, b) then Some(InvalidPath)
        else MoveError(v, a, b)
  }

  /** Why directory `b` cannot take an entry from `a`, if it cannot. */
  ghost function MoveError(v: Vol, a: nat, b: nat): Option<FsError> {
    var count := |Entries(FsAt(v), b)| + 1;
    if a == b then None
    else if DIR_ENTRY_SIZE * count > MAX_BYTES then Some(FileTooLarge)
    else if EntriesFit(v, b, count) then None
    else Some(NoSpace)
  }

  /** Why removing `name` from directory `d` fails, if it does. */
  function RemoveInError(fs: Fs, d: nat, name: Name): Option<FsError> {
    if d !in fs || fs[d].File? then Some(NotDirectory)
    else
      match Step(fs[d].entries, name)
      case None => Some(NotFound)
      case Some(n) => if Entries(fs, n) != [] then Some(DirectoryNotEmpty) else None
  }

  /** Entry `i` of directory `d` is called `name` and names a file or an empty directory. */
  predicate Unlinkable(fs: Fs, d: nat, i: nat, name: Name) {
    i < |Entries(fs, d)| && Entries(fs, d)[i].name == name && Entries(fs, Entries(fs, d)[i].inode) == []
  }

  lemma {:induction false} RemoveAtResolved(fs: Fs, path: seq<byte>, d: nat, i: nat, p: Path)
    requires Tree(fs) && SplitParent(path).Ok? && Resolved(fs, Components(SplitParent(path).value.0)) == Ok(d)
    requires Unlinkable(fs, d, i, SplitParent(path).value.1)
    ensures At(NexTree.Remove(fs, d, i), p) == if p == PathOf(path) then None else At(fs, p)
    ensures Lookup(fs, PathOf(path)) == Some(Entries(fs, d)[i].inode)
  {
    hide Tree, Resolved, SplitParent, Lookup, NexTree.Remove;
    var (parent, name) := SplitParent(path).value;
    SplitParentIsLast(path);
    ResolvedIsLookup(fs, Components(parent), d);
    LookupSnoc(fs, PathOf(parent), name);
    TreeStep(fs, d, i);
    RemoveAtPath(fs, PathOf(parent), i, p);
  }

  /** Where a directory entry of a tree leads. */
  lemma TreeEntry(fs: Fs, d: nat, i: nat)
    requires Tree(fs) && i < |Entries(fs, d)|
    ensures EntryOk(fs, Entries(fs, d)[i])
    ensures Entries(fs, Entries(fs, d)[i].inode) == [] ==> Entries(fs, d)[i].inode != d
  {
  }

  lemma RemoveIsMinus(fs: Fs, d: nat, i: nat)
    requires i < |Entries(fs, d)|
    ensures NexTree.Remove(fs, d, i) == fs[d := Dir(SwapRemove(Entries(fs, d), i))] - {Entries(fs, d)[i].inode}
  {
  }

  lemma ShrunkChanged(v: Vol, t: InodeTable, w: Vol, n: nat, ino: Inode)
    requires n in t && Shrunk(v, t, w, n, ino)
    ensures Changed(v, t, w, n, ino) && w.g == v.g
  {
    hide Raw;
  }

  lemma InodeNumbers(v: Vol, n: nat)
    requires Consistent(v) && n in Inodes(v)
    ensures n < v.g.InodeCount()
  {
    hide Sound;
  }

  ghost predicate IsChild(fs: Fs, d: nat, x: nat) {
    exists i :: 0 <= i < |Entries(fs, d)| && Entries(fs, d)[i].inode == x
  }

  ghost predicate IsSubdirectory(fs: Fs, d: nat, x: nat) {
    exists i :: 0 <= i < |Entries(fs, d)| && Entries(fs, d)[i].inode == x && Entries(fs, d)[i].kind.Directory?
  }

  lemma SearchStarts(fs: Fs, top: nat, target: nat)
    requires top in fs && fs[top].Dir? && top != target && Reach(fs, top, top)
    ensures Searching(fs, top, target, {}, [top])
  {
    hide Reach;
  }

  lemma SearchingFacts(fs: Fs, top: nat, target: nat, visited: set<nat>, pending: seq<nat>)
    requires Searching(fs, top, target, visited, pending) && pending != []
    ensures var c := pending[|pending| - 1]; c in fs && fs[c].Dir? && Reach(fs, top, c)
    ensures target !in pending
  {
    hide Reach;
  }

  /** A directory met again adds nothing. */
  lemma {:induction false} SearchSkips(fs: Fs, top: nat, target: nat, visited: set<nat>, pending: seq<nat>)
    requires pending != [] && pending[|pending| - 1] in visited && Searching(fs, top, target, visited, pending)
    ensures Searching(fs, top, target, visited, pending[..|pending| - 1])
  {
    hide Reach;
    var rest := pending[..|pending| - 1];
    assert pending == rest + [pending[|pending| - 1]];
    forall d <- visited ensures ListedBefore(Entries(fs, d), |Entries(fs, d)|, target, visited, rest) {
      assert ListedBefore(Entries(fs, d), |Entries(fs, d)|, target, visited, pending);
    }
  }

  lemma SearchFinds(fs: Fs, top: nat, d: nat, target: nat)
    requires Reach(fs, top, d) && IsChild(fs, d, target)
    ensures Reach(fs, top, target)
  {
    hide Reach;
    var i :| 0 <= i < |Entries(fs, d)| && Entries(fs, d)[i].inode == target;
    ReachEntry(fs, top, d, i);
  }

  /** A directory looked through for the first time joins the visited ones. */
  lemma {:induction false} SearchAdvances(fs: Fs, top: nat, target: nat, visited: set<nat>, pending: seq<nat>, queue: seq<nat>)
    requires Tree(fs) && pending != [] && Searching(fs, top, target, visited, pending)
    requires pending[..|pending| - 1] <= queue
    requires var c := pending[|pending| - 1];
      && (forall x <- queue :: x in pending[..|pending| - 1] || IsSubdirectory(fs, c, x))
      && ListedBefore(Entries(fs, c), |Entries(fs, c)|, target, {}, queue) && target !in queue
    ensures Searching(fs, top, target, visited + {pending[|pending| - 1]}, queue)
  {
    hide Reach, Tree;
    var rest, c := pending[..|pending| - 1], pending[|pending| - 1];
    assert pending == rest + [c];
    assert forall x <- rest :: x in queue;
    forall x <- queue ensures x in fs && fs[x].Dir? && Reach(fs, top, x) {
      if x !in rest {
        var i :| 0 <= i < |Entries(fs, c)| && Entries(fs, c)[i].inode == x && Entries(fs, c)[i].kind.Directory?;
        ReachEntry(fs, top, c, i);
        TreeEntry(fs, c, i);
      }
    }
    forall d <- visited + {c} ensures ListedBefore(Entries(fs, d), |Entries(fs, d)|, target, visited + {c}, queue) {
      if d in visited {
        assert ListedBefore(Entries(fs, d), |Entries(fs, d)|, target, visited, pending);
      }
    }
  }

  lemma TreeEntriesOk(fs: Fs)
    requires Tree(fs)
    ensures EntriesOk(fs)
  {
  }

  /** Entry `i` of `a` may move to directory `b` under the new name. */
  ghost predicate Movable(fs: Fs, a: nat, i: nat, b: nat, name: Name) {
    && i < |Entries(fs, a)| && b in fs && fs[b].Dir?
    && !Named(Entries(fs, b), name) && !Reach(fs, Entries(fs, a)[i].inode, b)
  }

  lemma ValidAt(es: seq<DirEntry>, i: nat)
    requires ValidEntries(es) && i < |es|
    ensures es[i].inode != 0
  {
    hide ValidName, Utf8;
  }

  /** What a path names after the move, in terms of what paths named before. */
  function MovedAt(fs: Fs, src: Path, dst: Path, p: Path): Option<Object> {
    if dst <= p then At(fs, src + p[|dst|..]) else if src <= p then None else At(fs, p)
  }

  lemma {:induction false} RenameAtResolved(fs: Fs, source: seq<byte>, destination: seq<byte>, a: nat, i: nat, b: nat, p: Path)
    requires Tree(fs) && SplitParent(source).Ok? && SplitParent(destination).Ok?
    requires Resolved(fs, Components(SplitParent(source).value.0)) == Ok(a)
    requires Resolved(fs, Components(SplitParent(destination).value.0)) == Ok(b)
    requires Movable(fs, a, i, b, SplitParent(destination).value.1)
    requires Entries(fs, a)[i].name == SplitParent(source).value.1
    ensures At(NexTree.Rename(fs, a, i, b, SplitParent(destination).value.1), p)
      == MovedAt(fs, PathOf(source), PathOf(destination), p)
  {
    hide Tree, Resolved, SplitParent, Lookup, NexTree.Rename, Reach;
    var from := SplitParent(source).value.0;
    var (to, name) := SplitParent(destination).value;
    SplitParentIsLast(source);
    SplitParentIsLast(destination);
    ResolvedIsLookup(fs, Components(from), a);
    ResolvedIsLookup(fs, Components(to), b);
    RenameAtPath(fs, PathOf(from), i, PathOf(to), name, p);
  }
}
