/**
  What an accepted volume is good for, item by item as the format's documentation
  lists the checks: bits, blocks and paths.
 */
module NexAudit {
  import opened Bytes
  import opened NexLayout
  import opened NexTree
  import opened NexVolume
  import opened NexBlocks
  import opened NexState
  import opened NexCommit
  import opened NexCheck
  import opened NexFull

  /** The geometry and the volume on an accepted disk. */
  ghost predicate Audited(disk: Disk, g: Geometry) {
    Accepts(disk) && g == GeometryOf(DecodeSuperblock(disk[1]).value) && Fits(disk, g)
  }

  lemma AuditedVolume(disk: Disk, g: Geometry)
    requires Audited(disk, g)
    ensures WellFormed(View(disk, g))
  {
    hide View, WellFormed, DecodeSuperblock;
  }

  /** Reserved bits are set, bits past the ends are clear, and every inode marked can be decoded. */
  lemma {:induction false} AcceptedBits(disk: Disk, g: Geometry, k: nat)
    requires Audited(disk, g)
    ensures k <= 1 ==> Bit(disk[2], k)
    ensures k < 32768 && Bit(disk[2], k) ==> k < 16 * (g.dataStart - g.table) && (k != 0 ==> DecodeInode(SlotBytes(disk, g, k)).Ok?)
    ensures k < g.dataStart ==> BlockBit(disk, g, k)
    ensures BlockBit(disk, g, k) ==> k < g.total
  {
    hide Bit, DecodeInode, DecodeSuperblock, Ownership, Tree, InodeOk, FsOf, BlockBit, Accepts;
    AuditedVolume(disk, g);
    var v := View(disk, g);
    assert k in v.ibits <==> k < BITS_PER_BLOCK && Bit(disk[2], k);
    BlockBitIn(disk, g, k);
  }

  lemma BlockBitIn(disk: Disk, g: Geometry, b: nat)
    requires Fits(disk, g)
    ensures b in View(disk, g).bbits <==> BlockBit(disk, g, b)
  {
    hide Bit;
  }

  /** The inode's pointers lead to block `b`, or it is their table. */
  ghost predicate Points(disk: Disk, g: Geometry, ino: Inode, b: nat)
    requires Fits(disk, g)
  {
    || (ino.indirect == b != 0)
    || (exists i: nat :: i < ino.blockCount && i < 12 && ino.direct[i] == b)
    || (g.InData(ino.indirect) && exists i: nat :: i < 512 && 12 + i < ino.blockCount && PtrIn(disk[ino.indirect], i) == b)
  }

  /** Inode `n` uses block `b`, for data or for its table of pointers. */
  ghost predicate Uses(disk: Disk, g: Geometry, n: nat, b: nat)
    requires Fits(disk, g)
  {
    && 0 < n < g.InodeCount() && n < 32768 && Bit(disk[2], n)
    && match DecodeInode(SlotBytes(disk, g, n)) case Err(_) => false case Ok(ino) => Points(disk, g, ino, b)
  }

  /** No data block is missing, leaked or shared: it is marked exactly when an inode uses it, and then only one does. */
  lemma {:induction false} AcceptedBlocks(disk: Disk, g: Geometry, b: nat, n: nat, m: nat)
    requires Audited(disk, g) && g.InData(b)
    ensures BlockBit(disk, g, b) <==> exists x: nat :: Uses(disk, g, x, b)
    ensures Uses(disk, g, n, b) && Uses(disk, g, m, b) ==> n == m
  {
    hide Bit, DecodeInode, DecodeSuperblock, Accepts, WellFormed, View, Uses, BlockBit, Ownership, Inodes;
    AuditedVolume(disk, g);
    var v := View(disk, g);
    WellFormedOwns(v);
    BlockBitIn(disk, g, b);
    forall x: nat ensures Uses(disk, g, x, b) <==> Owner(v, Inodes(v), x, b) { UsesOwner(disk, g, x, b); }
    OwnershipAt(v, Inodes(v), n, m, b);
  }

  lemma OwnershipAt(v: Vol, t: InodeTable, n: nat, m: nat, b: nat)
    requires Ownership(v, t) && v.g.InData(b)
    ensures Owner(v, t, n, b) && Owner(v, t, m, b) ==> n == m
    ensures b in v.bbits <==> exists x: nat :: Owner(v, t, x, b)
  {
    hide Owner;
  }

  lemma {:induction false} UsesOwner(disk: Disk, g: Geometry, n: nat, b: nat)
    requires Fits(disk, g) && WellFormed(View(disk, g)) && g.InData(b)
    ensures Uses(disk, g, n, b) <==> Owner(View(disk, g), Inodes(View(disk, g)), n, b)
  {
    hide Bit, DecodeInode, WellFormed, Points, Owned, BlocksOk, SlotBytes;
    var v := View(disk, g);
    WellFormedOwns(v);
    var t := Inodes(v);
    assert n in v.ibits <==> n < 32768 && Bit(disk[2], n);
    if n in t {
      assert BlocksOk(v, t[n]);
      PointsOwned(disk, g, t[n], b);
    }
  }

  lemma {:induction false} PointsOwned(disk: Disk, g: Geometry, ino: Inode, b: nat)
    requires Fits(disk, g) && BlocksOk(View(disk, g), ino) && g.InData(b)
    ensures ino.blockCount <= MAX_FILE_BLOCKS && (Points(disk, g, ino, b) <==> b in Owned(View(disk, g), ino))
  {
    hide PtrIn, InodeBits, BlockBits, Slots;
    var v := View(disk, g);
    if b in Owned(v, ino) && b != ino.indirect {
      var i: nat :| i < ino.blockCount && Ptr(v, ino, i) == b;
      if i >= 12 {
        assert PtrIn(disk[ino.indirect], i - 12) == b;
      }
    }
    if Points(disk, g, ino, b) && b != ino.indirect {
      if i: nat :| i < ino.blockCount && i < 12 && ino.direct[i] == b {
        assert Ptr(v, ino, i) == b;
      } else {
        var i: nat :| i < 512 && 12 + i < ino.blockCount && PtrIn(disk[ino.indirect], i) == b;
        assert Ptr(v, ino, 12 + i) == b;
      }
    }
  }

  /** Every inode marked, but number 0, has one path and no other; the root is a directory. */
  lemma {:induction false} AcceptedPaths(disk: Disk, g: Geometry, n: nat)
    requires Audited(disk, g) && 0 < n < 32768 && Bit(disk[2], n)
    ensures var fs := FsAt(View(disk, g));
      && At(fs, []) == Some(DirObject) && HasPath(fs, n)
      && forall p, q :: Lookup(fs, p) == Some(n) && Lookup(fs, q) == Some(n) ==> p == q
  {
    hide Bit, DecodeInode, DecodeSuperblock, Accepts, WellFormed, Tree, Lookup, HasPath, FsOf;
    AuditedVolume(disk, g);
    AcceptedBits(disk, g, n);
    var v := View(disk, g);
    var fs := FsAt(v);
    WellFormedTree(v);
    assert n in fs;
    EveryInodeHasPath(fs, n);
    RootIsDirectory(fs);
    forall p, q | Lookup(fs, p) == Some(n) && Lookup(fs, q) == Some(n) ensures p == q {
      LookupInjective(fs, p, q);
    }
  }

  lemma RootIsDirectory(fs: Fs)
    requires Tree(fs)
    ensures At(fs, []) == Some(DirObject)
  {
  }
}
