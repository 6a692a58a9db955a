/**
  Power failure at any moment of a session.  Writes that have not been flushed may
  have reached the device in any order and any subset, down to single sectors; the
  checker still accepts only the state before mounting or the state after unmounting.
 */
module NexCrash {
  import opened Arithmetic
  import opened Bytes
  import opened NexLayout
  import opened NexVolume
  import opened NexLog
  import opened NexTree
  import opened NexState
  import opened NexCommit
  import opened NexCheck
  import opened NexFsVolume

  /** Sectors divide a block, and a superblock record fits in one. */
  predicate ValidSector(sector: nat) {
    100 <= sector <= BLOCK_SIZE && BLOCK_SIZE % sector == 0
  }

  function Piece(b: Block, sector: nat, s: nat): seq<byte> {
    if (s + 1) * sector <= BLOCK_SIZE then b[s * sector..(s + 1) * sector] else []
  }

  /** Sector `s` of block `b` is the durable one or comes from a pending write. */
  ghost predicate Landed(durable: Block, pending: seq<DiskEvent>, b: nat, sector: nat, s: nat, image: Block) {
    || Piece(image, sector, s) == Piece(durable, sector, s)
    || exists i :: 0 <= i < |pending| && pending[i].Write? && pending[i].block == b
                   && Piece(image, sector, s) == Piece(pending[i].data, sector, s)
  }

  /** `image` is left by a failure after `k` events, the last flush being event `f - 1`. */
  ghost predicate CrashAt(base: Disk, log: seq<DiskEvent>, f: nat, k: nat, sector: nat, image: Disk) {
    && |image| == |base| && f <= k <= |log| && (f == 0 || log[f - 1].Flush?)
    && (forall i :: f <= i < k ==> log[i].Write?)
    && forall b: nat, s: nat :: b < |image| ==> Landed(Replay(base, log[..f])[b], log[f..k], b, sector, s, image[b])
  }

  ghost predicate CrashImage(base: Disk, log: seq<DiskEvent>, sector: nat, image: Disk) {
    exists f: nat, k: nat :: CrashAt(base, log, f, k, sector, image)
  }

  /** Equal, but for the part of block 1 beyond its first sector, which nothing reads. */
  ghost predicate SameBut(a: Disk, b: Disk, sector: nat)
    requires sector <= BLOCK_SIZE
  {
    && |a| == |b| && (forall i: nat :: i < |a| && i != 1 ==> a[i] == b[i])
    && (|a| > 1 ==> a[1][..sector] == b[1][..sector])
  }

  /** With atomic block writes that is equality. */
  lemma SameButWhole(a: Disk, b: Disk)
    requires SameBut(a, b, BLOCK_SIZE)
    ensures a == b
  {
    forall i: nat | i < |a| ensures a[i] == b[i] {
      if i == 1 {
        assert a[1][..BLOCK_SIZE] == a[1] && b[1][..BLOCK_SIZE] == b[1];
      }
    }
  }

  /** The superblock is read from the first hundred bytes. */
  lemma {:induction false} DecodesAlike(a: Block, b: Block, sector: nat)
    requires 100 <= sector <= BLOCK_SIZE && a[..sector] == b[..sector]
    ensures DecodeSuperblock(a) == DecodeSuperblock(b)
  {
    hide Crc32, RawSuperblock.Validate;
    assert a[..100] == a[..sector][..100] && b[..100] == b[..sector][..100];
    SamePrefix(a, b);
  }

  lemma {:induction false} SamePrefix(a: Block, b: Block)
    requires a[..100] == b[..100]
    ensures forall i, j :: 0 <= i <= j <= 100 ==> a[i..j] == b[i..j]
    ensures forall i :: 0 <= i < 100 ==> a[i] == b[i]
  {
    forall i | 0 <= i < 100 ensures a[i] == b[i] {
      assert a[..100][i] == b[..100][i];
    }
  }

  /** Such disks get the same verdict and hold the same files. */
  lemma {:induction false} SameButAccepts(a: Disk, b: Disk, sector: nat)
    requires ValidSector(sector) && SameBut(a, b, sector)
    ensures Accepts(a) <==> Accepts(b)
    ensures Accepts(a) ==> a[1][..sector] == b[1][..sector] && TreeOn(a) == TreeOn(b)
  {
    hide DecodeSuperblock, WellFormed, View, FsAt;
    if |a| > 1 {
      DecodesAlike(a[1], b[1], sector);
      if DecodeSuperblock(a[1]).Ok? && DecodeSuperblock(a[1]).value.totalBlocks <= |a| {
        DecodedValid(a[1]);
        var g := GeometryOf(DecodeSuperblock(a[1]).value);
        assert a[1 := b[1]] == b;
        SuperblockView(a, g, b[1]);
      }
    }
  }

  ghost function TreeOn(disk: Disk): Fs
    requires Accepts(disk)
  {
    var sb := DecodeSuperblock(disk[1]).value;
    DecodedValid(disk[1]);
    FsAt(View(disk, GeometryOf(sb)))
  }

  // ---------- pieces and blocks ----------

  lemma {:induction false} PiecesMakeBlock(a: Block, b: Block, sector: nat)
    requires ValidSector(sector) && forall s: nat :: Piece(a, sector, s) == Piece(b, sector, s)
    ensures a == b
  {
    forall i | 0 <= i < BLOCK_SIZE ensures a[i] == b[i] {
      var s: nat := i / sector;
      PieceBound(sector, i);
      assert Piece(a, sector, s) == Piece(b, sector, s);
      assert a[i] == Piece(a, sector, s)[i - s * sector] && b[i] == Piece(b, sector, s)[i - s * sector];
    }
  }

  lemma {:induction false} PieceBound(sector: nat, i: nat)
    requires ValidSector(sector) && i < BLOCK_SIZE
    ensures (i / sector) * sector <= i < (i / sector + 1) * sector <= BLOCK_SIZE
  {
    DivMod(BLOCK_SIZE, sector);
    DivMod(i, sector);
    MulLess(i / sector, BLOCK_SIZE / sector, sector);
    MulStep(i / sector, BLOCK_SIZE / sector, sector);
    Distribute(i / sector, sector);
  }

  lemma Distribute(a: nat, c: nat)
    ensures (a + 1) * c == a * c + c
  {
  }

  lemma FirstPiece(b: Block, sector: nat)
    requires ValidSector(sector)
    ensures Piece(b, sector, 0) == b[..sector]
  {
  }

  /** The first sector of block 1, and with it the superblock, comes from one write. */
  lemma {:induction false} SuperblockSource(durable: Block, pending: seq<DiskEvent>, sector: nat, image: Block) returns (source: Block)
    requires ValidSector(sector) && Landed(durable, pending, 1, sector, 0, image)
    ensures image[..sector] == source[..sector] && DecodeSuperblock(image) == DecodeSuperblock(source)
    ensures source == durable || exists i :: 0 <= i < |pending| && pending[i].Write? && pending[i].block == 1 && pending[i].data == source
  {
    hide DecodeSuperblock;
    FirstPiece(image, sector);
    if Piece(image, sector, 0) == Piece(durable, sector, 0) {
      source := durable;
    } else {
      var i :| 0 <= i < |pending| && pending[i].Write? && pending[i].block == 1
        && Piece(image, sector, 0) == Piece(pending[i].data, sector, 0);
      source := pending[i].data;
    }
    FirstPiece(source, sector);
    DecodesAlike(image, source, sector);
  }

  /** A block without pending writes is the durable one. */
  lemma {:induction false} UntouchedBlock(durable: Block, pending: seq<DiskEvent>, b: nat, sector: nat, image: Block)
    requires ValidSector(sector) && forall s: nat :: Landed(durable, pending, b, sector, s, image)
    requires forall i :: 0 <= i < |pending| ==> !(pending[i].Write? && pending[i].block == b)
    ensures image == durable
  {
    forall s: nat ensures Piece(image, sector, s) == Piece(durable, sector, s) {
      assert Landed(durable, pending, b, sector, s, image);
    }
    PiecesMakeBlock(image, durable, sector);
  }

  // ---------- an open session ----------

  /** From its first flush on, a session's durable superblock is dirty. */
  lemma {:induction false} DurablyDirty(base: Disk, log: seq<DiskEvent>, f: nat)
    requires OpenLog(log) && |base| > 1 && 1 <= f <= |log|
    ensures DirtyBlock(Replay(base, log[..f])[1])
  {
    hide Replay, DirtyBlock;
    assert log[..f] == log[..f - 1] + [log[f - 1]];
    assert SafeEvent(log[f - 1]);
    ReplayStep(base, log[..f - 1], log[f - 1]);
    if f > 1 {
      DurablyDirty(base, log, f - 1);
    }
  }

  /** An image left by a mounted volume is accepted only if mounting never took effect. */
  lemma {:induction false} OpenCrash(base: Disk, log: seq<DiskEvent>, f: nat, k: nat, sector: nat, image: Disk)
    requires ValidSector(sector) && OpenLog(log) && |base| > 1 && CrashAt(base, log, f, k, sector, image)
    ensures Accepts(image) ==> SameBut(image, base, sector)
  {
    hide Replay, DecodeSuperblock, WellFormed, View, Landed;
    var pending := log[f..k];
    var durable := Replay(base, log[..f]);
    assert Landed(durable[1], pending, 1, sector, 0, image[1]);
    var source := SuperblockSource(durable[1], pending, sector, image[1]);
    forall i | 0 <= i < |pending| ensures SafeEvent(pending[i]) {
      assert pending[i] == log[f + i];
    }
    if f > 0 {
      DurablyDirty(base, log, f);
      assert DirtyBlock(source);
    } else {
      assert log[..0] == [];
      ReplayNothing(base);
      if Accepts(image) {
        assert source == durable[1];
        forall b: nat | b < |image| && b != 1 ensures image[b] == base[b] {
          assert forall i :: 0 <= i < |pending| ==> pending[i] == log[i];
          UntouchedBlock(durable[b], pending, b, sector, image[b]);
        }
      }
    }
  }

  /** A crash of a mounted volume, told through the class. */
  lemma MountedCrash(fs: NexFs, sector: nat, image: Disk)
    requires fs.Mounted() && ValidSector(sector) && CrashImage(fs.base, fs.log, sector, image) && Accepts(image)
    ensures SameBut(image, fs.base, sector)
  {
    hide Replay, Accepts, CrashAt, SameBut;
    var f: nat, k: nat :| CrashAt(fs.base, fs.log, f, k, sector, image);
    OpenCrash(fs.base, fs.log, f, k, sector, image);
  }

  // ---------- a whole session ----------

  ghost predicate ClosedLog(log: seq<DiskEvent>, full: seq<DiskEvent>, clean: Block) {
    OpenLog(log) && full == log + [Flush, Write(1, clean), Flush]
  }

  /** Every accepted crash image is the volume before mounting or after unmounting. */
  lemma {:induction false} SessionCrash(base: Disk, log: seq<DiskEvent>, full: seq<DiskEvent>, clean: Block, f: nat, k: nat, sector: nat, image: Disk)
    requires ValidSector(sector) && ClosedLog(log, full, clean) && |base| > 1 && CrashAt(base, full, f, k, sector, image)
    ensures Accepts(image) ==> SameBut(image, base, sector) || SameBut(image, Replay(base, full), sector)
  {
    hide Replay, DecodeSuperblock, Accepts, Landed, SafeEvent, SameBut;
    var n := |log|;
    if f <= n {
      assert forall i :: 0 <= i < n ==> full[i] == log[i];
      assert k <= n by {
        assert full[n].Flush?;
      }
      assert full[..f] == log[..f] && full[f..k] == log[f..k];
      OpenCrash(base, log, f, k, sector, image);
    } else if f == n + 1 {
      assert full[..f] == log + [Flush];
      assert k <= n + 2 by {
        assert full[n + 2].Flush?;
      }
      ReplayStep(base, log, Flush);
      ClosingCrash(base, log, clean, full[f..k], sector, image);
      ReplayClosed(base, log, clean);
    } else {
      assert f == n + 3 by {
        assert full[n + 1].Write?;
      }
      assert full[..f] == full && full[f..k] == [];
      SettledCrash(Replay(base, full), sector, image);
    }
  }

  lemma ReplayClosed(base: Disk, log: seq<DiskEvent>, clean: Block)
    requires OpenLog(log) && |base| > 1
    ensures Replay(base, log + [Flush, Write(1, clean), Flush]) == Replay(base, log)[1 := clean]
  {
    hide Replay;
    SessionCloses(base, Replay(base, log), log, clean);
  }

  /** While the clean superblock is on its way. */
  lemma {:induction false} ClosingCrash(base: Disk, log: seq<DiskEvent>, clean: Block, pending: seq<DiskEvent>, sector: nat, image: Disk)
    requires ValidSector(sector) && OpenLog(log) && |base| > 1 && |image| == |base| && pending <= [Write(1, clean)]
    requires forall b: nat, s: nat :: b < |image| ==> Landed(Replay(base, log)[b], pending, b, sector, s, image[b])
    ensures Accepts(image) ==> SameBut(image, Replay(base, log)[1 := clean], sector)
  {
    hide Replay, DecodeSuperblock, WellFormed, View, Landed;
    var durable := Replay(base, log);
    assert log[..|log|] == log;
    DurablyDirty(base, log, |log|);
    assert Landed(durable[1], pending, 1, sector, 0, image[1]);
    var source := SuperblockSource(durable[1], pending, sector, image[1]);
    forall b: nat | b < |image| && b != 1 ensures image[b] == durable[b] {
      UntouchedBlock(durable[b], pending, b, sector, image[b]);
    }
  }

  /** With nothing on its way the device holds what was written. */
  lemma {:induction false} SettledCrash(durable: Disk, sector: nat, image: Disk)
    requires ValidSector(sector) && |image| == |durable|
    requires forall b: nat, s: nat :: b < |image| ==> Landed(durable[b], [], b, sector, s, image[b])
    ensures SameBut(image, durable, sector)
  {
    hide Landed;
    forall b: nat | b < |image| ensures image[b] == durable[b] {
      UntouchedBlock(durable[b], [], b, sector, image[b]);
    }
  }
}
