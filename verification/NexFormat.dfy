/**
  Formatting a device.  The result is a volume the checker accepts, with an empty root.
 */
module NexFormat {
  import opened Bytes
  import opened NexLayout
  import opened NexVolume
  import opened NexBlocks
  import opened NexTree
  import opened NexState
  import opened NexCommit
  import opened NexCheck
  import opened NexCrash

  /** The layout `format` chooses for a device of `total` blocks. */
  function FormatLayout(total: nat): (g: Geometry)
    ensures MIN_BLOCKS <= total < 0x1_0000_0000_0000_0000 ==> g.Valid()
  {
    var bitmapBlocks := (total + BITS_PER_BLOCK - 1) / BITS_PER_BLOCK;
    var table := 3 + bitmapBlocks;
    Geometry(total, table, table + Min(Max(total / 256, 4), MAX_INODE_TABLE_BLOCKS))
  }

  /**
    One block in 256 holds inodes, sixteen to a block, but there are at least 64 and at
    most 32768 of them; the data region is what the bitmaps and the table leave.
   */
  lemma {:induction false} FormatCounts(total: nat)
    requires MIN_BLOCKS <= total < 0x1_0000_0000_0000_0000
    ensures var g := FormatLayout(total);
      && g.total == total && g.InodeCount() == (if total < 1024 then 64 else if total >= 524288 then 32768 else 16 * (total / 256))
      && 16 * (g.dataStart - 3 - (total + 32767) / 32768) == g.InodeCount()
  {
  }

  /** One block of the block bitmap, whose first bit stands for block `first`. */
  method ReservedBits(first: nat, dataStart: nat) returns (bitmap: Block)
    ensures forall j: nat :: j < BITS_PER_BLOCK ==> (Bit(bitmap, j) <==> first + j < dataStart)
  {
    hide Bit, WithBit;
    bitmap := Zeros(BLOCK_SIZE);
    NoBits();
    var block := first;
    while block < Min(dataStart, first + BITS_PER_BLOCK)
      invariant first <= block && (block <= first + BITS_PER_BLOCK || block == first)
      invariant forall j: nat :: j < BITS_PER_BLOCK ==> (Bit(bitmap, j) <==> first + j < block)
      invariant block > first ==> block <= dataStart
    {
      bitmap := WithBit(bitmap, block - first, true);
      block := block + 1;
    }
  }

  lemma {:induction false} NoBits()
    ensures forall j: nat :: !Bit(Zeros(BLOCK_SIZE), j)
  {
    forall j: nat ensures !Bit(Zeros(BLOCK_SIZE), j) {
      ZeroHasNoBits(j % 8);
    }
  }

  lemma {:induction false} ZeroHasNoBits(k: nat)
    ensures !NatBit(0, k)
  {
    if k > 0 {
      ZeroHasNoBits(k - 1);
    }
  }

  /** The metadata `format` leaves behind. */
  ghost predicate Formatted(disk: Disk, g: Geometry, root: Inode)
    requires Fits(disk, g)
  {
    && (forall n: nat :: Bit(disk[2], n) <==> n == 0 || n == ROOT)
    && (forall b: nat :: b < g.BitmapBlocks() * BITS_PER_BLOCK ==> (BlockBit(disk, g, b) <==> b < g.dataStart))
    && SlotBytes(disk, g, ROOT) == EncodeInode(root)
    && EmptyInode(root) && root.kind.Directory?
  }

  lemma {:induction false} FormattedView(disk: Disk, g: Geometry, root: Inode)
    requires Fits(disk, g) && Formatted(disk, g, root)
    ensures var v := View(disk, g);
      && VolOk(v) && v.ibits == {0, ROOT} && v.slots[ROOT] == Ok(root)
      && forall b: nat :: b in v.bbits <==> b < g.dataStart
  {
    hide Bit, BlockBit, DecodeInode, EncodeInode, EmptyInode, SlotBytes;
    InodeRoundTrip(root);
  }

  lemma {:induction false} FormattedWellFormed(disk: Disk, g: Geometry, root: Inode)
    requires Fits(disk, g) && Formatted(disk, g, root)
    ensures WellFormed(View(disk, g)) && FsAt(View(disk, g)) == map[ROOT := Dir([])] && Modes(View(disk, g)) == map[ROOT := root.permissions]
  {
    hide View, Formatted, InodeOk, Ownership, Tree, EmptyInode;
    FormattedView(disk, g, root);
    var v := View(disk, g);
    var t := Inodes(v);
    assert t == map[ROOT := root];
    assert EmptyInode(root) && root.kind.Directory? by { FormattedRoot(disk, g, root); }
    EmptyInodeOk(v, root);
    LoneRootOwns(v, root);
    LoneRootTree();
    InodeOkSize(v, root);
    assert FsOf(v, t) == map[ROOT := Dir([])];
  }

  lemma FormattedRoot(disk: Disk, g: Geometry, root: Inode)
    requires Fits(disk, g) && Formatted(disk, g, root)
    ensures EmptyInode(root) && root.kind.Directory?
  {
  }

  lemma {:induction false} LoneRootOwns(v: Vol, root: Inode)
    requires VolOk(v) && EmptyInode(root) && forall b: nat :: b in v.bbits <==> b < v.g.dataStart
    ensures Ownership(v, map[ROOT := root])
  {
    OwnsNothing(v, root);
    var t: InodeTable := map[ROOT := root];
    assert forall n, b :: !Owner(v, t, n, b);
  }

  lemma LoneRootTree()
    ensures Tree(map[ROOT := Dir([])])
  {
    var fs: Fs := map[ROOT := Dir([])];
    assert forall d: nat :: Entries(fs, d) == [];
  }

  ghost predicate BitmapReads(bitmap: Block, k: nat, dataStart: nat) {
    forall j: nat :: j < BITS_PER_BLOCK ==> (Bit(bitmap, j) <==> k * BITS_PER_BLOCK + j < dataStart)
  }

  function BitmapOf(disk: Disk, k: nat): Block
    requires 3 + k < |disk|
  {
    disk[3 + k]
  }

  /** Zeroes the metadata, then writes the bitmaps and the root inode. */
  method FormatMetadata(device: Disk, g: Geometry, root: Inode) returns (disk: Disk)
    requires Fits(device, g) && EmptyInode(root) && root.kind.Directory?
    ensures |disk| == |device| && Fits(disk, g) && Formatted(disk, g, root)
    ensures forall b: nat :: b < 2 || g.dataStart <= b < |disk| ==> disk[b] == device[b]
  {
    hide Bit, WithBit, BitmapReads, EncodeInode, EmptyInode;
    disk := device;
    for block := 2 to g.dataStart
      invariant |disk| == |device| && forall b: nat :: b < 2 || g.dataStart <= b < |disk| ==> disk[b] == device[b]
    {
      disk := disk[block := Zeros(BLOCK_SIZE)];
    }
    NoBits();
    var inodes := WithBit(WithBit(Zeros(BLOCK_SIZE), 0, true), ROOT, true);
    disk := disk[2 := inodes];
    for index := 0 to g.BitmapBlocks()
      invariant |disk| == |device| && disk[2] == inodes
      invariant forall b: nat :: b < 2 || g.dataStart <= b < |disk| ==> disk[b] == device[b]
      invariant forall k: nat :: k < index ==> BitmapReads(BitmapOf(disk, k), k, g.dataStart)
    {
      var bitmap := ReservedBits(index * BITS_PER_BLOCK, g.dataStart);
      assert BitmapReads(bitmap, index, g.dataStart) by { BitmapMeans(bitmap, index, g.dataStart); }
      ghost var before := disk;
      disk := disk[3 + index := bitmap];
      assert forall k: nat :: k < index ==> BitmapOf(disk, k) == BitmapOf(before, k);
    }
    var slots := WithSlot(Zeros(BLOCK_SIZE), INODE_SIZE, EncodeInode(root));
    ghost var before := disk;
    disk := disk[g.table := slots];
    assert forall k: nat :: k < g.BitmapBlocks() ==> BitmapOf(disk, k) == BitmapOf(before, k);
    assert SlotBytes(disk, g, ROOT) == EncodeInode(root);
    BitmapsRead(disk, g);
  }

  lemma BitmapMeans(bitmap: Block, k: nat, dataStart: nat)
    ensures BitmapReads(bitmap, k, dataStart) <==>
      forall j: nat :: j < BITS_PER_BLOCK ==> (Bit(bitmap, j) <==> k * BITS_PER_BLOCK + j < dataStart)
  {
    hide Bit;
  }

  lemma {:induction false} BitmapsRead(disk: Disk, g: Geometry)
    requires Fits(disk, g) && forall k: nat :: k < g.BitmapBlocks() ==> BitmapReads(BitmapOf(disk, k), k, g.dataStart)
    ensures forall b: nat :: b < g.BitmapBlocks() * BITS_PER_BLOCK ==> (BlockBit(disk, g, b) <==> b < g.dataStart)
  {
    hide Bit;
    forall b: nat | b < g.BitmapBlocks() * BITS_PER_BLOCK ensures BlockBit(disk, g, b) <==> b < g.dataStart {
      var k := b / BITS_PER_BLOCK;
      assert BitmapReads(BitmapOf(disk, k), k, g.dataStart);
      assert k * BITS_PER_BLOCK + b % BITS_PER_BLOCK == b;
    }
  }

  /** The metadata does not include the superblock. */
  lemma SuperblockApart(disk: Disk, g: Geometry, root: Inode, block: Block)
    requires Fits(disk, g) && Formatted(disk, g, root)
    ensures Formatted(disk[1 := block], g, root)
  {
    hide Bit, EncodeInode, EmptyInode;
    SlotBlockRange(g, ROOT);
    var d := disk[1 := block];
    assert d[2] == disk[2] && SlotBytes(d, g, ROOT) == SlotBytes(disk, g, ROOT);
    forall b: nat | b < g.BitmapBlocks() * BITS_PER_BLOCK
      ensures BlockBit(d, g, b) == BlockBit(disk, g, b)
    {
      assert d[3 + b / BITS_PER_BLOCK] == disk[3 + b / BITS_PER_BLOCK];
    }
  }

  /** Writes dirty superblock, zeroed metadata, bitmaps, root inode, clean superblock. */
  method Format(device: Disk, uuid: seq<byte>) returns (r: Result<Superblock>, disk: Disk)
    requires |uuid| == 16 && |device| < 0x1_0000_0000_0000_0000
    ensures r.Ok? <==> |device| >= MIN_BLOCKS
    ensures r.Err? ==> r.error == TooSmall && disk == device
    ensures r.Ok? ==>
      && |disk| == |device| && Accepts(disk) && DecodeSuperblock(disk[1]) == r && TreeOn(disk) == map[ROOT := Dir([])]
      && r.value.totalBlocks == |device| && GeometryOf(r.value) == FormatLayout(|device|) && r.value.uuid == uuid && disk[0] == device[0]
      && Fits(disk, GeometryOf(r.value)) && Modes(View(disk, GeometryOf(r.value))) == map[ROOT := 0x1ed]
      && forall b: nat :: r.value.dataStartBlock <= b < |disk| ==> disk[b] == device[b]
  {
    hide View, WellFormed, EncodeSuperblock, DecodeSuperblock, Bit, FsAt, EncodeInode, Formatted, Modes;
    var total := |device|;
    disk := device;
    if total < MIN_BLOCKS {
      return Err(TooSmall), disk;
    }
    var g := FormatLayout(total);
    var sb: Superblock := RawSuperblock.Superblock(VERSION, BLOCK_SIZE, total, 2, 3, g.table, g.dataStart, ROOT, 1, 1, uuid);
    disk := disk[1 := EncodeSuperblock(sb.(flags := 0))];
    var root := NewInode(Directory, 0x1ed, sb.generation);
    disk := FormatMetadata(disk, g, root);
    SuperblockApart(disk, g, root, EncodeSuperblock(sb));
    disk := disk[1 := EncodeSuperblock(sb)];
    SuperblockRoundTrip(sb);
    FormattedWellFormed(disk, g, root);
    r := Ok(sb);
  }
}
