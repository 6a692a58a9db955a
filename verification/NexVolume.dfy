/**
  The typed view of a NexFS disk.  `View` reads the bitmaps, inode slots and data
  blocks out of the raw 4096-byte blocks; the lemmas say what each of the five
  kinds of block write does to that view, so that everything above this module
  reasons about the view alone.
 */
module NexVolume {
  import opened Bytes
  import opened NexLayout

  type Disk = seq<Block>

  datatype Geometry = Geometry(total: nat, table: nat, dataStart: nat) {
    predicate Valid() {
      && MIN_BLOCKS <= total < 0x1_0000_0000_0000_0000
      && table == 3 + BitmapBlocks()
      && table < dataStart <= table + MAX_INODE_TABLE_BLOCKS
      && dataStart < total
    }

    function BitmapBlocks(): nat {
      (total + BITS_PER_BLOCK - 1) / BITS_PER_BLOCK
    }

    function InodeCount(): nat {
      if table <= dataStart then (dataStart - table) * INODES_PER_BLOCK else 0
    }

    predicate InData(b: int) {
      dataStart <= b < total
    }
  }

  function GeometryOf(sb: Superblock): (g: Geometry)
    ensures sb.Validate().Ok? ==> g.Valid() && g.InodeCount() == sb.InodeCount()
  {
    Geometry(sb.totalBlocks, sb.inodeTableBlock, sb.dataStartBlock)
  }

  datatype Vol = Vol(
    g: Geometry,
    ibits: set<nat>,             // inode bitmap
    bbits: set<nat>,             // block bitmap
    slots: seq<Result<Inode>>,   // inode table
    data: map<nat, Block>)       // data region

  ghost predicate NoFreeInode(v: Vol) {
    forall n: nat :: 2 <= n < v.g.InodeCount() ==> n in v.ibits
  }

  predicate Fits(disk: Disk, g: Geometry) {
    g.Valid() && g.total <= |disk|
  }

  function SlotBlock(g: Geometry, n: nat): nat {
    g.table + n * INODE_SIZE / BLOCK_SIZE
  }

  function SlotOffset(n: nat): (o: nat)
    ensures o + INODE_SIZE <= BLOCK_SIZE
  {
    n * INODE_SIZE % BLOCK_SIZE
  }

  lemma SlotBlockRange(g: Geometry, n: nat)
    requires g.Valid() && n < g.InodeCount()
    ensures g.table <= SlotBlock(g, n) < g.dataStart
  {
  }

  function SlotBytes(disk: Disk, g: Geometry, n: nat): (s: seq<byte>)
    requires Fits(disk, g) && n < g.InodeCount()
    ensures |s| == INODE_SIZE
  {
    disk[SlotBlock(g, n)][SlotOffset(n)..SlotOffset(n) + INODE_SIZE]
  }

  predicate BlockBit(disk: Disk, g: Geometry, b: nat)
    requires Fits(disk, g)
  {
    b < g.BitmapBlocks() * BITS_PER_BLOCK && Bit(disk[3 + b / BITS_PER_BLOCK], b % BITS_PER_BLOCK)
  }

  ghost function InodeBits(disk: Disk, g: Geometry): set<nat>
    requires Fits(disk, g)
  {
    set n: nat | 0 <= n < BITS_PER_BLOCK && Bit(disk[2], n)
  }

  ghost function BlockBits(disk: Disk, g: Geometry): set<nat>
    requires Fits(disk, g)
  {
    set b: nat | 0 <= b < g.BitmapBlocks() * BITS_PER_BLOCK && BlockBit(disk, g, b)
  }

  ghost function Slots(disk: Disk, g: Geometry): (s: seq<Result<Inode>>)
    requires Fits(disk, g)
    ensures |s| == g.InodeCount()
  {
    seq(g.InodeCount(), n requires 0 <= n < g.InodeCount() => DecodeInode(SlotBytes(disk, g, n)))
  }

  ghost function Data(disk: Disk, g: Geometry): (m: map<nat, Block>)
    requires Fits(disk, g)
    ensures forall b: nat :: b in m <==> g.InData(b)
  {
    map b: nat | g.dataStart <= b < g.total :: disk[b]
  }

  ghost function View(disk: Disk, g: Geometry): (v: Vol)
    requires Fits(disk, g)
    ensures v.g == g && |v.slots| == g.InodeCount()
    ensures forall b: nat :: b in v.data <==> g.InData(b)
  {
    Vol(g, InodeBits(disk, g), BlockBits(disk, g), Slots(disk, g), Data(disk, g))
  }

  /** Parts of the disk that a write leaves alone keep their part of the view. */
  lemma SameParts(disk: Disk, d: Disk, g: Geometry)
    requires Fits(disk, g) && Fits(d, g)
    ensures d[2] == disk[2] ==> InodeBits(d, g) == InodeBits(disk, g)
    ensures d[3..g.table] == disk[3..g.table] ==> BlockBits(d, g) == BlockBits(disk, g)
    ensures d[g.table..g.dataStart] == disk[g.table..g.dataStart] ==> Slots(d, g) == Slots(disk, g)
    ensures d[g.dataStart..] == disk[g.dataStart..] ==> Data(d, g) == Data(disk, g)
  {
    SameBlockBits(disk, d, g);
    SameSlots(disk, d, g);
    if d[g.dataStart..] == disk[g.dataStart..] {
      forall b: nat | g.InData(b) ensures Data(d, g)[b] == Data(disk, g)[b] {
        assert d[b] == d[g.dataStart..][b - g.dataStart] && disk[b] == disk[g.dataStart..][b - g.dataStart];
      }
    }
  }

  lemma SameBlockBits(disk: Disk, d: Disk, g: Geometry)
    requires Fits(disk, g) && Fits(d, g)
    ensures d[3..g.table] == disk[3..g.table] ==> BlockBits(d, g) == BlockBits(disk, g)
  {
    if d[3..g.table] == disk[3..g.table] {
      forall b: nat | b < g.BitmapBlocks() * BITS_PER_BLOCK ensures BlockBit(d, g, b) == BlockBit(disk, g, b) {
        var k := b / BITS_PER_BLOCK;
        assert d[3 + k] == d[3..g.table][k] && disk[3 + k] == disk[3..g.table][k];
      }
    }
  }

  lemma SameSlots(disk: Disk, d: Disk, g: Geometry)
    requires Fits(disk, g) && Fits(d, g)
    ensures d[g.table..g.dataStart] == disk[g.table..g.dataStart] ==> Slots(d, g) == Slots(disk, g)
  {
    if d[g.table..g.dataStart] == disk[g.table..g.dataStart] {
      forall n: nat | n < g.InodeCount() ensures SlotBytes(d, g, n) == SlotBytes(disk, g, n) {
        var k := n * INODE_SIZE / BLOCK_SIZE;
        assert d[g.table + k] == d[g.table..g.dataStart][k] && disk[g.table + k] == disk[g.table..g.dataStart][k];
      }
    }
  }

  function Toggled(s: set<nat>, x: nat, on: bool): set<nat> {
    if on then s + {x} else s - {x}
  }

  lemma InodeBitView(disk: Disk, g: Geometry, n: nat, on: bool)
    requires Fits(disk, g) && n < BITS_PER_BLOCK
    ensures var d := disk[2 := WithBit(disk[2], n, on)];
      View(d, g) == View(disk, g).(ibits := Toggled(View(disk, g).ibits, n, on))
  {
    var d := disk[2 := WithBit(disk[2], n, on)];
    assert InodeBits(d, g) == Toggled(InodeBits(disk, g), n, on);
    SameParts(disk, d, g);
  }

  lemma BlockBitsApart(disk: Disk, g: Geometry, b: nat, on: bool, c: nat)
    requires Fits(disk, g) && b < g.total && c < g.BitmapBlocks() * BITS_PER_BLOCK
    ensures var k := 3 + b / BITS_PER_BLOCK;
      var d := disk[k := WithBit(disk[k], b % BITS_PER_BLOCK, on)];
      BlockBit(d, g, c) == if c == b then on else BlockBit(disk, g, c)
  {
    if c / BITS_PER_BLOCK == b / BITS_PER_BLOCK && c != b {
      assert c % BITS_PER_BLOCK != b % BITS_PER_BLOCK;
    }
  }

  lemma BlockBitView(disk: Disk, g: Geometry, b: nat, on: bool)
    requires Fits(disk, g) && b < g.total
    ensures var k := 3 + b / BITS_PER_BLOCK;
      var d := disk[k := WithBit(disk[k], b % BITS_PER_BLOCK, on)];
      View(d, g) == View(disk, g).(bbits := Toggled(View(disk, g).bbits, b, on))
  {
    var k := 3 + b / BITS_PER_BLOCK;
    var d := disk[k := WithBit(disk[k], b % BITS_PER_BLOCK, on)];
    forall c: nat | c < g.BitmapBlocks() * BITS_PER_BLOCK
      ensures BlockBit(d, g, c) == if c == b then on else BlockBit(disk, g, c)
    {
      BlockBitsApart(disk, g, b, on, c);
    }
    BlockBitsToggled(disk, d, g, b, on);
    SameParts(disk, d, g);
  }

  lemma BlockBitsToggled(disk: Disk, d: Disk, g: Geometry, b: nat, on: bool)
    requires Fits(disk, g) && Fits(d, g) && b < g.total
    requires forall c: nat :: c < g.BitmapBlocks() * BITS_PER_BLOCK ==>
      BlockBit(d, g, c) == if c == b then on else BlockBit(disk, g, c)
    ensures BlockBits(d, g) == Toggled(BlockBits(disk, g), b, on)
  {
    hide BlockBit;
  }

  function WithSlot(block: Block, offset: nat, s: seq<byte>): Block
    requires |s| == INODE_SIZE && offset + INODE_SIZE <= BLOCK_SIZE
  {
    block[..offset] + s + block[offset + INODE_SIZE..]
  }

  lemma SlotWritten(disk: Disk, g: Geometry, n: nat, s: seq<byte>, m: nat)
    requires Fits(disk, g) && n < g.InodeCount() && m < g.InodeCount() && |s| == INODE_SIZE
    ensures var k := SlotBlock(g, n);
      SlotBytes(disk[k := WithSlot(disk[k], SlotOffset(n), s)], g, m) == if m == n then s else SlotBytes(disk, g, m)
  {
    var k, o := SlotBlock(g, n), SlotOffset(n);
    var old', new' := disk[k], WithSlot(disk[k], o, s);
    SlotsApart(n, m);
    assert new'[o..o + INODE_SIZE] == s;
    if m != n && SlotBlock(g, m) == k {
      var p := SlotOffset(m);
      if p < o {
        assert new'[p..p + INODE_SIZE] == old'[p..p + INODE_SIZE];
      } else {
        assert new'[p..p + INODE_SIZE] == old'[p..p + INODE_SIZE];
      }
    }
  }

  lemma SlotView(disk: Disk, g: Geometry, n: nat, s: seq<byte>)
    requires Fits(disk, g) && n < g.InodeCount() && |s| == INODE_SIZE
    ensures var k := SlotBlock(g, n);
      g.table <= k < g.dataStart
      && var d := disk[k := WithSlot(disk[k], SlotOffset(n), s)];
      View(d, g) == View(disk, g).(slots := View(disk, g).slots[n := DecodeInode(s)])
  {
    var k := SlotBlock(g, n);
    var d := disk[k := WithSlot(disk[k], SlotOffset(n), s)];
    forall m: nat | m < g.InodeCount()
      ensures SlotBytes(d, g, m) == if m == n then s else SlotBytes(disk, g, m)
    {
      SlotWritten(disk, g, n, s, m);
    }
    assert Slots(d, g) == Slots(disk, g)[n := DecodeInode(s)];
    SameParts(disk, d, g);
  }

  lemma SlotsApart(n: nat, m: nat)
    ensures n != m && n * INODE_SIZE / BLOCK_SIZE == m * INODE_SIZE / BLOCK_SIZE ==>
      SlotOffset(n) + INODE_SIZE <= SlotOffset(m) || SlotOffset(m) + INODE_SIZE <= SlotOffset(n)
  {
  }

  lemma DataView(disk: Disk, g: Geometry, b: nat, block: Block)
    requires Fits(disk, g) && g.InData(b)
    ensures View(disk[b := block], g) == View(disk, g).(data := View(disk, g).data[b := block])
  {
    var d := disk[b := block];
    assert Data(d, g) == Data(disk, g)[b := block];
    SameParts(disk, d, g);
  }

  lemma SuperblockView(disk: Disk, g: Geometry, block: Block)
    requires Fits(disk, g)
    ensures View(disk[1 := block], g) == View(disk, g)
  {
    SameParts(disk, disk[1 := block], g);
  }
}
