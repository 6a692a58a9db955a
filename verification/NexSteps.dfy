/**
  What the block-level routines of a mounted volume achieve, as relations between
  the volume before and after: an inode grows, shrinks, is overwritten, or is
  rewritten as a directory, while every other file keeps its blocks and bytes.
 */
module NexSteps {
  import opened Bytes
  import opened NexLayout
  import opened NexVolume
  import opened NexBlocks
  import opened NexSpace
  import opened NexState

  /** Fields that block allocation leaves alone. */
  predicate SameMeta(a: Inode, b: Inode) {
    a.kind == b.kind && a.permissions == b.permissions && a.size == b.size && a.created == b.created
    && a.modified == b.modified && a.generation == b.generation
  }

  /** `count` data blocks and their table fit in what `ino` may use. */
  ghost predicate HasRoom(v: Vol, ino: Inode, count: nat)
    requires ino.blockCount <= MAX_FILE_BLOCKS
  {
    Footprint(Max(count, ino.blockCount), ino.indirect != 0) <= |Available(v, ino)|
  }

  /** The inode gained zeroed blocks at its end, and nothing else happened. */
  ghost predicate Grown(v: Vol, t: InodeTable, w: Vol, n: nat, ino: Inode)
    requires n in t
  {
    && t[n].blockCount <= ino.blockCount <= MAX_FILE_BLOCKS
    && Changed(v, t, w, n, ino) && SameMeta(t[n], ino)
    && (ino.indirect != 0 <==> t[n].indirect != 0 || ino.blockCount > DIRECT_BLOCKS)
    && (ino.blockCount == t[n].blockCount ==> ino == t[n])
    && Raw(w, ino) == Raw(v, t[n]) + Zeros(BLOCK_SIZE * (ino.blockCount - t[n].blockCount))
  }

  lemma HoldsBlocks(v: Vol, t: InodeTable, n: nat)
    requires Ownership(v, t) && n in t
    ensures BlocksOk(v, t[n]) && Holds(v, t[n]) && t[n].blockCount <= MAX_FILE_BLOCKS
    ensures t[n].indirect != 0 ==> v.g.InData(t[n].indirect) && t[n].indirect in v.bbits
    ensures t[n].blockCount > DIRECT_BLOCKS ==> t[n].indirect != 0
  {
    HoldsOf(v, t, n);
    assert t[n].indirect != 0 ==> t[n].indirect in Owned(v, t[n]);
  }

  /** When taking `b` uses up the free blocks, one block more is all there was. */
  lemma {:induction false} OneLeft(v: Vol, t: InodeTable, n: nat, b: nat, w: Vol)
    requires Ownership(v, t) && n in t && Free(v, b) && w.g == v.g && w.bbits == v.bbits + {b}
    requires forall c: nat :: !Free(w, c)
    ensures t[n].blockCount <= MAX_FILE_BLOCKS
    ensures |Available(v, t[n])| == Footprint(t[n].blockCount, t[n].indirect != 0) + 1
  {
    hide Ownership, BlocksOk;
    HoldsBlocks(v, t, n);
    FreeNotOwned(v, t, n, b);
    forall c: nat | c != b ensures !Free(v, c) {
      assert !Free(w, c);
    }
    OneFree(v, t[n], b);
  }

  lemma FreeNotOwned(v: Vol, t: InodeTable, n: nat, b: nat)
    requires Ownership(v, t) && n in t && Free(v, b)
    ensures t[n].blockCount <= MAX_FILE_BLOCKS && b !in Owned(v, t[n])
  {
    HoldsOf(v, t, n);
  }

  /** Whatever an inode has grown to was available to it. */
  lemma {:induction false} GrownFits(v: Vol, t: InodeTable, w: Vol, n: nat, ino: Inode)
    requires Ownership(v, t) && n in t && Changed(v, t, w, n, ino)
    ensures t[n].blockCount <= MAX_FILE_BLOCKS
    ensures Footprint(ino.blockCount, ino.indirect != 0) <= |Available(v, t[n])|
  {
    AvailableConserved(v, t, w, n, ino);
    assert BlocksOk(w, t[n := ino][n]);
    OwnedAvailable(w, ino);
  }

  lemma PtrInData(v: Vol, ino: Inode, i: nat)
    requires BlocksOk(v, ino) && i < ino.blockCount
    ensures v.g.InData(Ptr(v, ino, i))
  {
  }

  lemma {:induction false} GrownRefl(v: Vol, t: InodeTable, n: nat)
    requires Ownership(v, t) && n in t
    ensures t[n].blockCount <= MAX_FILE_BLOCKS && Grown(v, t, v, n, t[n])
  {
    hide Raw;
    HoldsBlocks(v, t, n);
    ChangedRefl(v, t, n);
  }

  lemma GrownOwnership(v: Vol, t: InodeTable, w: Vol, n: nat, ino: Inode)
    requires Ownership(v, t) && n in t && Grown(v, t, w, n, ino)
    ensures Ownership(w, t[n := ino])
    ensures t[n].blockCount <= MAX_FILE_BLOCKS && ino.blockCount <= MAX_FILE_BLOCKS
    ensures Available(w, ino) == Available(v, t[n])
    ensures Footprint(ino.blockCount, ino.indirect != 0) <= |Available(v, t[n])|
  {
    AvailableConserved(v, t, w, n, ino);
    GrownFits(v, t, w, n, ino);
  }

  lemma {:induction false} GrownTransitive(v: Vol, t: InodeTable, w: Vol, x: Vol, n: nat, i: Inode, j: Inode)
    requires n in t && Grown(v, t, w, n, i) && Grown(w, t[n := i], x, n, j)
    ensures Grown(v, t, x, n, j)
  {
    hide Changed, Raw;
    ChangedTransitive(v, t, w, x, n, i, j);
    var a, b := BLOCK_SIZE * (i.blockCount - t[n].blockCount), BLOCK_SIZE * (j.blockCount - i.blockCount);
    assert Zeros(a) + Zeros(b) == Zeros(a + b);
    assert Raw(v, t[n]) + Zeros(a) + Zeros(b) == Raw(v, t[n]) + (Zeros(a) + Zeros(b));
  }

  /** The inode lost blocks from its end, and nothing else happened. */
  ghost predicate Shrunk(v: Vol, t: InodeTable, w: Vol, n: nat, ino: Inode)
    requires n in t
  {
    && ino.blockCount <= t[n].blockCount <= MAX_FILE_BLOCKS
    && Changed(v, t, w, n, ino) && SameMeta(t[n], ino)
    && Raw(w, ino) == Raw(v, t[n])[..BLOCK_SIZE * ino.blockCount]
  }

  lemma {:induction false} ShrunkRefl(v: Vol, t: InodeTable, n: nat)
    requires Ownership(v, t) && n in t
    ensures Shrunk(v, t, v, n, t[n])
  {
    hide Raw;
    HoldsBlocks(v, t, n);
    ChangedRefl(v, t, n);
  }

  lemma {:induction false} ShrunkByTable(v: Vol, t: InodeTable, w: Vol, n: nat)
    requires n in t && Changed(v, t, w, n, t[n].(indirect := 0)) && t[n].blockCount <= MAX_FILE_BLOCKS
    requires Raw(w, t[n].(indirect := 0)) == Raw(v, t[n])
    ensures Shrunk(v, t, w, n, t[n].(indirect := 0))
  {
    hide Changed, Raw;
  }

  lemma ShrunkOwnership(v: Vol, t: InodeTable, w: Vol, n: nat, ino: Inode)
    requires n in t && Shrunk(v, t, w, n, ino)
    ensures Ownership(w, t[n := ino])
  {
    hide Ownership, Raw;
  }

  lemma {:induction false} ShrunkTransitive(v: Vol, t: InodeTable, w: Vol, x: Vol, n: nat, i: Inode, j: Inode)
    requires n in t && Shrunk(v, t, w, n, i) && Shrunk(w, t[n := i], x, n, j)
    ensures Shrunk(v, t, x, n, j)
  {
    hide Changed, Raw;
    ChangedTransitive(v, t, w, x, n, i, j);
    assert Raw(v, t[n])[..BLOCK_SIZE * i.blockCount][..BLOCK_SIZE * j.blockCount] == Raw(v, t[n])[..BLOCK_SIZE * j.blockCount];
  }

  /** `length` bytes at `offset` fit in a file and in the free space. */
  ghost predicate Writable(v: Vol, ino: Inode, offset: nat, length: nat)
    requires ino.blockCount <= MAX_FILE_BLOCKS
  {
    length == 0 || (offset + length <= MAX_BYTES && HasRoom(v, ino, DataBlocksForSize(offset + length)))
  }

  function Slice(s: seq<byte>, at: nat, n: nat): seq<byte> {
    if at >= |s| then [] else s[at..Min(at + n, |s|)]
  }

  lemma WritableMeans(v: Vol, ino: Inode, offset: nat, length: nat)
    requires ino.blockCount <= MAX_FILE_BLOCKS
    ensures length == 0 ==> Writable(v, ino, offset, length)
    ensures length > 0 ==>
      (Writable(v, ino, offset, length) <==> offset + length <= MAX_BYTES && HasRoom(v, ino, DataBlocksForSize(offset + length)))
  {
    hide HasRoom;
  }

  lemma BlocksCover(size: nat)
    ensures DataBlocksForSize(size) > MAX_FILE_BLOCKS <==> size > MAX_BYTES
    ensures size <= BLOCK_SIZE * DataBlocksForSize(size)
  {
  }

  lemma SliceOfPrefix(s: seq<byte>, size: nat, at: nat, n: nat)
    requires at + n <= size <= |s|
    ensures s[..size][at..at + n] == s[at..at + n]
  {
  }

  lemma SlicesJoin(s: seq<byte>, a: nat, b: nat, c: nat)
    requires a <= b <= c <= |s|
    ensures s[a..b] + s[b..c] == s[a..c]
  {
  }

  lemma OverlayWhole(a: Block, b: Block, chunk: seq<byte>)
    requires |chunk| == BLOCK_SIZE
    ensures Patched(a, 0, chunk) == Patched(b, 0, chunk)
  {
  }

  lemma OverlayNothing(s: seq<byte>, at: nat, nothing: seq<byte>)
    requires at <= |s| && |nothing| == 0
    ensures Patched(s, at, nothing) == s
  {
  }

  lemma {:induction false} RawChunk(v: Vol, ino: Inode, i: nat, within: nat, amount: nat)
    requires i < ino.blockCount <= MAX_FILE_BLOCKS && within + amount <= BLOCK_SIZE
    ensures Raw(v, ino)[BLOCK_SIZE * i + within..BLOCK_SIZE * i + within + amount]
      == BlockAt(v, Ptr(v, ino, i))[within..within + amount]
  {
    hide Ptr, BlockAt;
    var at := BLOCK_SIZE * i + within;
    forall k | at <= k < at + amount ensures Raw(v, ino)[k] == BlockAt(v, Ptr(v, ino, i))[k - BLOCK_SIZE * i] {
      assert k / BLOCK_SIZE == i && k % BLOCK_SIZE == k - BLOCK_SIZE * i;
    }
  }

  /** The inode grew as far as needed and its bytes at `offset` became `input`. */
  ghost predicate Written(v: Vol, t: InodeTable, w: Vol, n: nat, ino: Inode, offset: nat, input: seq<byte>)
    requires n in t
  {
    && t[n].blockCount <= ino.blockCount <= MAX_FILE_BLOCKS
    && Changed(v, t, w, n, ino) && SameMeta(t[n], ino)
    && (ino.indirect != 0 <==> t[n].indirect != 0 || ino.blockCount > DIRECT_BLOCKS)
    && (ino.blockCount == t[n].blockCount ==> ino == t[n])
    && (input == [] ==> ino == t[n] && w == v)
    && (input != [] ==>
          && ino.blockCount == Max(t[n].blockCount, DataBlocksForSize(offset + |input|))
          && offset + |input| <= BLOCK_SIZE * ino.blockCount
          && Raw(w, ino) == Patched(Raw(v, t[n]) + Zeros(BLOCK_SIZE * (ino.blockCount - t[n].blockCount)), offset, input))
  }

  lemma {:induction false} WrittenNothing(v: Vol, t: InodeTable, n: nat, offset: nat)
    requires Ownership(v, t) && n in t
    ensures Written(v, t, v, n, t[n], offset, [])
  {
    hide Changed, Raw;
    HoldsBlocks(v, t, n);
    ChangedRefl(v, t, n);
  }

  lemma {:induction false} WrittenAfter(v: Vol, t: InodeTable, w: Vol, x: Vol, n: nat, ino: Inode, offset: nat, input: seq<byte>)
    requires n in t && Grown(v, t, w, n, ino) && Changed(w, t[n := ino], x, n, ino) && input != []
    requires ino.blockCount == Max(t[n].blockCount, DataBlocksForSize(offset + |input|))
    requires offset + |input| <= BLOCK_SIZE * ino.blockCount
    requires Raw(x, ino) == Patched(Raw(w, ino), offset, input)
    ensures Written(v, t, x, n, ino, offset, input)
  {
    hide Changed, Raw;
    ChangedTransitive(v, t, w, x, n, ino, ino);
  }

  lemma ChangedSelf(w: Vol, u: InodeTable, x: Vol, n: nat)
    requires n in u && Changed(w, u, x, n, u[n])
    ensures Ownership(x, u)
  {
    hide Ownership;
    assert u[n := u[n]] == u;
  }

  lemma {:induction false} RoomWithin(v: Vol, t: InodeTable, n: nat, count: nat)
    requires Ownership(v, t) && n in t && count <= t[n].blockCount
    ensures t[n].blockCount <= MAX_FILE_BLOCKS && HasRoom(v, t[n], count)
  {
    hide Ownership, BlocksOk, Available;
    HoldsBlocks(v, t, n);
    OwnedAvailable(v, t[n]);
  }

  lemma {:induction false} WrittenInPlace(w: Vol, u: InodeTable, x: Vol, y: Vol, n: nat, ino: Inode, offset: nat, completed: nat, amount: nat)
    requires n in u && u[n].blockCount <= MAX_FILE_BLOCKS && amount > 0
    requires offset + completed + amount <= BLOCK_SIZE * u[n].blockCount
    requires Changed(w, u, x, n, u[n]) && Raw(x, u[n]) == Patched(Raw(w, u[n]), offset, Zeros(completed))
    requires Written(x, u, y, n, ino, offset + completed, Zeros(amount))
    ensures ino == u[n]
    ensures Changed(w, u, y, n, u[n]) && Raw(y, u[n]) == Patched(Raw(w, u[n]), offset, Zeros(completed + amount))
  {
    hide Changed, Raw;
    assert u[n := u[n]] == u;
    assert Zeros(amount) != [];
    var raw := Raw(w, u[n]);
    assert DataBlocksForSize(offset + completed + amount) <= u[n].blockCount;
    ChangedTransitive(w, u, x, y, n, u[n], u[n]);
    assert Raw(x, u[n]) + Zeros(0) == Raw(x, u[n]);
    OverlayTwice(raw, offset, Zeros(completed), Zeros(amount));
    assert Zeros(completed) + Zeros(amount) == Zeros(completed + amount);
  }

  /** The blocks `count` entries need fit in the directory's own and the free ones. */
  ghost predicate DirectoryFits(v: Vol, ino: Inode, count: nat)
    requires ino.blockCount <= MAX_FILE_BLOCKS
  {
    DIR_ENTRY_SIZE * count <= MAX_BYTES
    && Footprint(DataBlocksForSize(DIR_ENTRY_SIZE * count), false) <= |Available(v, ino)|
  }

  /** The directory holds exactly `entries`; only its own size and blocks changed. */
  ghost predicate Replaced(v: Vol, t: InodeTable, w: Vol, n: nat, ino: Inode, entries: seq<DirEntry>)
    requires n in t && ValidEntries(entries)
  {
    && Changed(v, t, w, n, ino) && SameMeta(t[n].(size := ino.size), ino)
    && ino.size == DIR_ENTRY_SIZE * |entries| && SizeOk(ino) && Tight(ino)
    && (SizeCovers(ino); Content(w, ino) == EncodeAll(entries))
  }

  lemma {:induction false} ParseDirPrefix(s: seq<byte>, k: nat)
    requires |s| % DIR_ENTRY_SIZE == 0 && k % DIR_ENTRY_SIZE == 0 && k <= |s|
    ensures ParseDir(s[..k]).Err? ==> ParseDir(s) == ParseDir(s[..k])
    ensures k == 0 ==> ParseDir(s[..k]) == Ok([])
    decreases |s| - k
  {
    hide DecodeEntry;
    if k == |s| {
      assert s[..k] == s;
    } else {
      assert s[..k + DIR_ENTRY_SIZE] == s[..k] + s[k..k + DIR_ENTRY_SIZE];
      ParseDirAppend(s[..k], s[k..k + DIR_ENTRY_SIZE]);
      ParseDirPrefix(s, k + DIR_ENTRY_SIZE);
    }
  }

  /** Inodes that differ in size and times only own the same bytes. */
  predicate SameBlocks(a: Inode, b: Inode) {
    a.direct == b.direct && a.indirect == b.indirect && a.blockCount == b.blockCount
  }

  lemma {:induction false} SameBlocksAlike(v: Vol, a: Inode, b: Inode)
    requires SameBlocks(a, b) && a.blockCount <= MAX_FILE_BLOCKS
    ensures BlocksOk(v, a) <==> BlocksOk(v, b)
    ensures Owned(v, a) == Owned(v, b) && Raw(v, a) == Raw(v, b)
  {
    forall i: nat | i < MAX_FILE_BLOCKS ensures Ptr(v, a, i) == Ptr(v, b, i) {}
    assert Raw(v, a) == Raw(v, b);
  }

  /** A change of an inode is one of any inode with the same blocks. */
  lemma {:induction false} ChangedMeta(v: Vol, t: InodeTable, w: Vol, n: nat, a: Inode, b: Inode)
    requires Changed(v, t, w, n, a) && SameBlocks(a, b)
    ensures Changed(v, t, w, n, b) && b.blockCount <= MAX_FILE_BLOCKS && Raw(w, b) == Raw(w, a)
  {
    hide BlocksOk, Owned, Raw, SameFile;
    var u, x := t[n := a], t[n := b];
    assert BlocksOk(w, u[n]);
    BlocksOkBound(w, a);
    SameBlocksAlike(w, a, b);
    forall m <- x ensures BlocksOk(w, x[m]) {
      if m != n { assert BlocksOk(w, u[m]); }
    }
    forall m: nat, c: nat ensures Owner(w, x, m, c) == Owner(w, u, m, c) {}
    EqualOwners(w, u, x);
  }

  lemma {:induction false} ReplacedNothing(v: Vol, t: InodeTable, w: Vol, n: nat, ino: Inode)
    requires n in t && Shrunk(v, t, w, n, ino) && ino.blockCount == 0 && Tight(ino)
    ensures Replaced(v, t, w, n, ino.(size := 0), [])
  {
    hide Changed, Raw;
    ChangedMeta(v, t, w, n, ino, ino.(size := 0));
  }

  lemma {:induction false} ReplacedFacts(v: Vol, t: InodeTable, w: Vol, n: nat, ino: Inode, es: seq<DirEntry>)
    requires n in t && ValidEntries(es) && Replaced(v, t, w, n, ino, es)
    ensures Ownership(w, t[n := ino]) && ino.blockCount <= MAX_FILE_BLOCKS && ino.size == DIR_ENTRY_SIZE * |es|
  {
    hide Ownership;
  }

  lemma {:induction false} ReplacedFits(v: Vol, t: InodeTable, w: Vol, n: nat, ino: Inode, es: seq<DirEntry>)
    requires Ownership(v, t) && n in t && ValidEntries(es) && Replaced(v, t, w, n, ino, es)
    ensures t[n].blockCount <= MAX_FILE_BLOCKS && DirectoryFits(v, t[n], |es|)
  {
    hide Ownership, Changed, Available, Content;
    GrownFits(v, t, w, n, ino);
    ReplacedFacts(v, t, w, n, ino, es);
    HoldsBlocks(w, t[n := ino], n);
  }

  lemma {:induction false} DirectoryFull(v: Vol, t: InodeTable, w: Vol, n: nat, ino: Inode, es: seq<DirEntry>, k: nat)
    requires Ownership(v, t) && n in t && ValidEntries(es) && k < |es|
    requires Replaced(v, t, w, n, ino, es[..k])
    requires ino.blockCount <= MAX_FILE_BLOCKS && !Writable(w, ino, ino.size, DIR_ENTRY_SIZE)
    requires DIR_ENTRY_SIZE * |es| <= MAX_BYTES
    ensures t[n].blockCount <= MAX_FILE_BLOCKS && !DirectoryFits(v, t[n], |es|)
  {
    hide Ownership, Changed, Available, Content;
    AvailableConserved(v, t, w, n, ino);
    assert DataBlocksForSize(ino.size) <= DataBlocksForSize(ino.size + DIR_ENTRY_SIZE) <= DataBlocksForSize(DIR_ENTRY_SIZE * |es|);
  }

  lemma {:induction false} ReplacedOneMore(v: Vol, t: InodeTable, w: Vol, x: Vol, n: nat, ino: Inode, mid: Inode, es: seq<DirEntry>, k: nat)
    requires n in t && ValidEntries(es) && k < |es|
    requires Replaced(v, t, w, n, ino, es[..k])
    requires Written(w, t[n := ino], x, n, mid, ino.size, EncodeEntry(es[k]))
    requires ino.size + DIR_ENTRY_SIZE <= MAX_BYTES
    ensures Replaced(v, t, x, n, mid.(size := ino.size + DIR_ENTRY_SIZE), es[..k + 1])
  {
    hide Changed, Raw, EncodeEntry, ValidName, Utf8, Patched;
    var next: Inode := mid.(size := ino.size + DIR_ENTRY_SIZE);
    var input := EncodeEntry(es[k]);
    assert input != [];
    ChangedTransitive(v, t, w, x, n, ino, mid);
    ChangedMeta(v, t, x, n, mid, next);
    var raw := Raw(w, ino);
    SizeCovers(ino);
    SpliceRaw(raw, ino.size, BLOCK_SIZE * (mid.blockCount - ino.blockCount), ino.size, input);
    SpliceAtEnd(raw[..ino.size], input);
    assert SizeOk(next);
    SizeCovers(next);
    assert es[..k + 1][..k] == es[..k];
  }

  lemma SpliceAtEnd(s: seq<byte>, input: seq<byte>)
    ensures Spliced(s, |s|, input) == s + input
  {
  }

  // ---------- whole writes and truncations ----------

  /** The inode's contents become `bytes`; it stays in order and nothing else moves. */
  ghost predicate Holding(v: Vol, t: InodeTable, w: Vol, n: nat, ino: Inode, bytes: seq<byte>)
    requires n in t
  {
    && Changed(v, t, w, n, ino) && SameMeta(t[n].(size := ino.size), ino)
    && SizeOk(ino) && Tight(ino)
    && (SizeCovers(ino); Content(w, ino) == bytes)
  }

  /** The inode's blocks cover `size` bytes, which are `bytes`; its size field is still the old one. */
  ghost predicate Covered(v: Vol, t: InodeTable, w: Vol, n: nat, ino: Inode, size: nat, bytes: seq<byte>)
    requires n in t
  {
    && t[n].blockCount <= ino.blockCount == DataBlocksForSize(size) <= MAX_FILE_BLOCKS
    && Changed(v, t, w, n, ino) && SameMeta(t[n], ino)
    && (ino.indirect != 0 <==> t[n].indirect != 0 || ino.blockCount > DIRECT_BLOCKS)
    && size <= BLOCK_SIZE * ino.blockCount && Raw(w, ino)[..size] == bytes
  }

  lemma {:induction false} CoveredAlready(v: Vol, t: InodeTable, n: nat, offset: nat)
    requires Ownership(v, t) && n in t && SizeOk(t[n]) && offset <= t[n].size
    ensures Covered(v, t, v, n, t[n], Max(t[n].size, offset), Padded(Content(v, t[n]), offset))
  {
    hide Changed, Raw;
    HoldsBlocks(v, t, n);
    ChangedRefl(v, t, n);
    SizeCovers(t[n]);
  }

  /** A gap before the write is filled with zeros. */
  lemma {:induction false} CoveredByPadding(v: Vol, t: InodeTable, w: Vol, n: nat, ino: Inode, offset: nat)
    requires n in t && SizeOk(t[n]) && t[n].size < offset
    requires Written(v, t, w, n, ino, t[n].size, Zeros(offset - t[n].size))
    ensures Covered(v, t, w, n, ino, Max(t[n].size, offset), Padded(Content(v, t[n]), offset))
  {
    hide Changed, Raw, Patched, Padded;
    assert Zeros(offset - t[n].size) != [];
    SizeCovers(t[n]);
    PadRaw(Raw(v, t[n]), t[n].size, BLOCK_SIZE * (ino.blockCount - t[n].blockCount), offset);
  }

  /** The write proper, on a file whose blocks cover `size` bytes. */
  lemma {:induction false} WriteStep(v: Vol, t: InodeTable, w: Vol, n: nat, ino: Inode, size: nat, offset: nat, input: seq<byte>)
    requires n in t && t[n].blockCount == DataBlocksForSize(size) <= MAX_FILE_BLOCKS && offset <= size
    requires Written(v, t, w, n, ino, offset, input)
    ensures var end := Max(size, offset + |input|);
      ino.blockCount == DataBlocksForSize(end) && end <= BLOCK_SIZE * ino.blockCount
      && size <= BLOCK_SIZE * t[n].blockCount
      && Raw(w, ino)[..end] == Spliced(Raw(v, t[n])[..size], offset, input)
  {
    hide Changed, Raw, Patched, Spliced;
    var raw := Raw(v, t[n]);
    var more := BLOCK_SIZE * (ino.blockCount - t[n].blockCount);
    SpliceRaw(raw, size, more, offset, input);
    if input == [] {
      assert more == 0 && raw + Zeros(0) == raw;
      OverlayNothing(raw, offset, input);
    }
  }

  /** Filling the gap and then writing splices the contents. */
  lemma {:induction false} WriteCovered(v: Vol, t: InodeTable, w: Vol, x: Vol, n: nat, i: Inode, ino: Inode, offset: nat, input: seq<byte>)
    requires n in t && SizeOk(t[n]) && Tight(t[n]) && t[n].size <= BLOCK_SIZE * t[n].blockCount
    requires Covered(v, t, w, n, i, Max(t[n].size, offset), Padded(Content(v, t[n]), offset))
    requires Written(w, t[n := i], x, n, ino, offset, input) && offset + |input| <= MAX_BYTES
    ensures Holding(v, t, x, n, ino.(size := Max(t[n].size, offset + |input|)), Spliced(Content(v, t[n]), offset, input))
  {
    hide Changed, Raw, Patched, Spliced, Padded, Content;
    var size, end := Max(t[n].size, offset), Max(t[n].size, offset + |input|);
    var next: Inode := ino.(size := end);
    WriteStep(w, t[n := i], x, n, ino, size, offset, input);
    ChangedTransitive(v, t, w, x, n, i, ino);
    ChangedMeta(v, t, x, n, ino, next);
    SplicePadding(Content(v, t[n]), offset, input);
    ContentIsPrefix(x, next);
  }

  lemma ContentIsPrefix(v: Vol, ino: Inode)
    requires SizeOk(ino)
    ensures ino.size <= BLOCK_SIZE * ino.blockCount && Content(v, ino) == Raw(v, ino)[..ino.size]
  {
    hide Raw;
    SizeCovers(ino);
  }

  lemma SplicePadding(s: seq<byte>, at: nat, input: seq<byte>)
    ensures Spliced(Padded(s, at), at, input) == Spliced(s, at, input)
  {
    if at > |s| {
      SplicePadded(s, at, input);
    }
  }

  /** The write after the gap succeeds exactly when the final size has room. */
  lemma {:induction false} WriteRoom(v: Vol, t: InodeTable, w: Vol, n: nat, i: Inode, offset: nat, length: nat)
    requires Ownership(v, t) && n in t && SizeOk(t[n]) && offset + length <= MAX_BYTES && i.blockCount <= MAX_FILE_BLOCKS
    requires t[n].size <= BLOCK_SIZE * t[n].blockCount
    requires Covered(v, t, w, n, i, Max(t[n].size, offset), Padded(Content(v, t[n]), offset))
    requires HasRoom(v, t[n], DataBlocksForSize(Max(t[n].size, offset)))
    ensures Writable(w, i, offset, length) <==> HasRoom(v, t[n], DataBlocksForSize(Max(t[n].size, offset + length)))
  {
    hide Ownership, Changed, Raw, Available, Padded, Content, HasRoom;
    if length > 0 {
      if offset + length >= Max(t[n].size, offset) {
        RoomAfter(v, t, w, n, i, DataBlocksForSize(offset + length));
      } else {
        ChangedInTable(v, t, w, n, i);
        RoomWithin(w, t[n := i], n, DataBlocksForSize(offset + length));
      }
    }
  }

  lemma ChangedInTable(v: Vol, t: InodeTable, w: Vol, n: nat, i: Inode)
    requires Changed(v, t, w, n, i)
    ensures Ownership(w, t[n := i])
  {
    hide Ownership;
  }

  lemma {:induction false} RoomAfter(v: Vol, t: InodeTable, w: Vol, n: nat, ino: Inode, count: nat)
    requires Ownership(v, t) && n in t && Changed(v, t, w, n, ino)
    requires t[n].blockCount <= ino.blockCount <= MAX_FILE_BLOCKS && ino.blockCount <= count
    requires ino.indirect != 0 <==> t[n].indirect != 0 || ino.blockCount > DIRECT_BLOCKS
    ensures HasRoom(w, ino, count) <==> HasRoom(v, t[n], count)
  {
    hide Ownership, Changed, Available;
    AvailableConserved(v, t, w, n, ino);
  }

  /** Blocks beyond the new size are gone; the rest of the contents is kept. */
  lemma {:induction false} CutStep(v: Vol, t: InodeTable, w: Vol, n: nat, ino: Inode, size: nat)
    requires n in t && SizeOk(t[n]) && size <= t[n].size && Shrunk(v, t, w, n, ino)
    requires ino.blockCount == DataBlocksForSize(size)
    ensures size <= BLOCK_SIZE * ino.blockCount && t[n].size <= BLOCK_SIZE * t[n].blockCount
    ensures Raw(w, ino)[..size] == Content(v, t[n])[..size]
  {
    hide Changed, Raw;
    SizeCovers(t[n]);
    var raw := Raw(v, t[n]);
    assert raw[..BLOCK_SIZE * ino.blockCount][..size] == raw[..t[n].size][..size];
  }

  lemma OverlayBeyond(s: seq<byte>, at: nat, input: seq<byte>)
    requires at + |input| <= |s|
    ensures Patched(s, at, input)[..at] == s[..at]
  {
  }

  lemma CoveredFacts(v: Vol, t: InodeTable, w: Vol, n: nat, ino: Inode, size: nat, bytes: seq<byte>)
    requires n in t && Covered(v, t, w, n, ino, size, bytes)
    ensures Ownership(w, t[n := ino]) && ino.blockCount <= MAX_FILE_BLOCKS && SameMeta(t[n], ino)
  {
    hide Ownership, Raw;
  }

  lemma NoRoomFor(v: Vol, ino: Inode, a: nat, b: nat)
    requires ino.blockCount <= MAX_FILE_BLOCKS && a <= b && !HasRoom(v, ino, DataBlocksForSize(a))
    ensures !HasRoom(v, ino, DataBlocksForSize(b))
  {
    hide Available;
  }

  lemma {:induction false} HoldingPadded(v: Vol, t: InodeTable, w: Vol, n: nat, ino: Inode, size: nat)
    requires n in t && SizeOk(t[n]) && Tight(t[n]) && t[n].size <= size <= MAX_BYTES
    requires t[n].size <= BLOCK_SIZE * t[n].blockCount
    requires Covered(v, t, w, n, ino, size, Padded(Content(v, t[n]), size))
    ensures Holding(v, t, w, n, ino.(size := size), Resized(Content(v, t[n]), size))
  {
    hide Changed, Raw;
    ChangedMeta(v, t, w, n, ino, ino.(size := size));
    ContentIsPrefix(w, ino.(size := size));
    assert size == t[n].size ==> Content(v, t[n])[..size] == Content(v, t[n]);
  }

  /** After the cut, whatever is written past the new size is invisible. */
  lemma {:induction false} HoldingCut(v: Vol, t: InodeTable, w: Vol, x: Vol, n: nat, ino: Inode, size: nat)
    requires n in t && SizeOk(t[n]) && size <= t[n].size && Shrunk(v, t, w, n, ino) && Tight(ino)
    requires ino.blockCount == DataBlocksForSize(size) && size <= MAX_BYTES
    requires t[n].size <= BLOCK_SIZE * t[n].blockCount
    requires Changed(w, t[n := ino], x, n, ino) && Raw(x, ino)[..size] == Raw(w, ino)[..size]
    ensures Holding(v, t, x, n, ino.(size := size), Resized(Content(v, t[n]), size))
  {
    hide Changed, Raw, Content;
    CutStep(v, t, w, n, ino, size);
    ChangedTransitive(v, t, w, x, n, ino, ino);
    ChangedMeta(v, t, x, n, ino, ino.(size := size));
    ContentIsPrefix(x, ino.(size := size));
  }
}
