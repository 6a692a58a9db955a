/**
  A volume that is too small for what is written to it: how many blocks are free, and
  what a write that runs out of them leaves for the checker.
 */
module NexFull {
  import opened Bytes
  import opened Slashes
  import opened NexLayout
  import opened NexTree
  import opened NexPath
  import opened NexVolume
  import opened NexBlocks
  import opened NexSpace
  import opened NexState
  import opened NexCommit
  import opened NexSpare
  import opened NexLeak
  import opened NexCheck
  import opened NexCrash
  import opened NexFormat
  import opened NexFsVolume

  ghost function Range(start: nat, end: nat): (s: set<nat>)
    requires start <= end
    ensures |s| == end - start && (forall b: nat :: b in s <==> start <= b < end)
    decreases end - start
  {
    if start == end then {} else {start} + Range(start + 1, end)
  }

  /** The free blocks are the data blocks that the inodes do not have. */
  lemma {:induction false} FreeCount(v: Vol, t: InodeTable)
    requires Ownership(v, t)
    ensures |FreeBlocks(v)| + Total(t) == v.g.total - v.g.dataStart
  {
    hide Ownership;
    OwnershipVolOk(v, t);
    MarkedCount(v, t);
    assert FreeBlocks(v) !! Marked(v);
    assert FreeBlocks(v) + Marked(v) == Range(v.g.dataStart, v.g.total);
  }

  lemma TotalPair(t: InodeTable, a: nat, b: nat)
    requires a != b && t.Keys == {a, b}
    ensures Total(t) == Footprint(t[a].blockCount, t[a].indirect != 0) + Footprint(t[b].blockCount, t[b].indirect != 0)
  {
    var n := Pick(t);
    var rest := t - {n};
    assert rest.Keys == if n == a then {b} else {a};
    TotalOne(rest, if n == a then b else a);
  }

  lemma TotalOne(t: InodeTable, a: nat)
    requires t.Keys == {a}
    ensures Total(t) == Footprint(t[a].blockCount, t[a].indirect != 0)
  {
    assert Pick(t) == a;
    assert (t - {a}).Keys == {};
  }

  /** A directory of `k` entries has the blocks they need, and an empty file none. */
  lemma {:induction false} NodeBlocks(v: Vol, n: nat)
    requires WellFormed(v) && n in FsAt(v)
    ensures n in Inodes(v) && Inodes(v)[n].blockCount <= MAX_FILE_BLOCKS && Tight(Inodes(v)[n])
    ensures FsAt(v)[n].File? ==> Inodes(v)[n].blockCount == DataBlocksForSize(|FsAt(v)[n].bytes|)
    ensures FsAt(v)[n].Dir? ==> Inodes(v)[n].blockCount == DataBlocksForSize(DIR_ENTRY_SIZE * |FsAt(v)[n].entries|)
  {
    hide Ownership, Tree, Raw, Content;
    var ino := Inodes(v)[n];
    assert InodeOk(v, ino);
  }

  /** On a freshly formatted volume all data blocks are free, and there is an inode to spare. */
  lemma {:induction false} FreshSpace(v: Vol)
    requires WellFormed(v) && FsAt(v) == map[ROOT := Dir([])]
    ensures !NoFreeInode(v) && EntriesFit(v, ROOT, 1)
  {
    hide Ownership, Tree, WellFormed, InodeOk, FsOf;
    var t := Inodes(v);
    assert t.Keys == FsAt(v).Keys == {ROOT};
    NodeBlocks(v, ROOT);
    TotalOne(t, ROOT);
    WellFormedOwns(v);
    FreeCount(v, t);
    assert 2 !in v.ibits && 2 < v.g.InodeCount() by { SpareInode(v); }
    OwnsNone(v, t[ROOT]);
  }

  lemma WellFormedOwns(v: Vol)
    requires WellFormed(v)
    ensures Ownership(v, Inodes(v)) && v.g.Valid()
  {
  }

  lemma SpareInode(v: Vol)
    requires WellFormed(v) && Inodes(v).Keys == {ROOT}
    ensures 2 !in v.ibits && 2 < v.g.InodeCount()
  {
    hide Ownership, Tree, InodeOk, FsOf;
    assert 2 !in Inodes(v).Keys;
  }

  lemma OwnsNone(v: Vol, ino: Inode)
    requires ino.blockCount == 0 && Tight(ino)
    ensures Available(v, ino) == FreeBlocks(v)
  {
  }

  /** With one empty file there, one block is taken, and a small volume cannot hold the largest file. */
  lemma {:induction false} OneFileSpace(v: Vol, n: nat, e: DirEntry)
    requires WellFormed(v) && n != ROOT && FsAt(v) == map[n := File([])][ROOT := Dir([e])]
    requires v.g.dataStart + 1 < v.g.total <= MAX_FILE_BLOCKS
    ensures !NoneFree(v) && SizeError(v, n, MAX_BYTES) == Some(NoSpace)
  {
    hide Ownership, Tree, WellFormed, InodeOk, FsOf;
    var t := Inodes(v);
    assert t.Keys == FsAt(v).Keys == {ROOT, n};
    NodeBlocks(v, ROOT);
    NodeBlocks(v, n);
    TotalPair(t, ROOT, n);
    WellFormedOwns(v);
    FreeCount(v, t);
    assert FreeBlocks(v) != {};
    var b :| b in FreeBlocks(v);
    assert Free(v, b);
    OwnsNone(v, t[n]);
    RoomForInode(v, n, MAX_BYTES);
  }

  const LETTER: byte := 0x61
  const FILE: seq<byte> := [SLASH, LETTER]

  lemma RootPath()
    ensures Components([SLASH]) == []
  {
    assert TrimStart([SLASH]) == [];
  }

  /** A one-letter name in the root directory. */
  lemma {:induction false} OneLetter(path: seq<byte>, name: Name)
    requires |name| == 1 && name[0] == LETTER && path == [SLASH] + name
    ensures Components(path) == [name] && ValidName(name) && SplitParent(path) == Ok(([SLASH], name))
  {
    assert path[1..] == name && path[..1] == [SLASH];
    assert TrimStart(name) == name && TrimStart(path) == name && TrimEnd(name) == name && TrimEnd(path) == path;
    assert FirstSlash(name) == 1;
    assert LastSlash(path) == 0;
  }

  lemma {:induction false} Ascii(s: seq<byte>)
    requires forall k :: 0 <= k < |s| ==> s[k] < 0x80
    ensures Utf8(s)
  {
    if s != [] {
      Ascii(s[1..]);
    }
  }

  lemma {:induction false} FilePath(fs: Fs)
    requires Tree(fs)
    ensures SplitParent(FILE) == Ok(([SLASH], [LETTER])) && Utf8(FILE)
    ensures Resolved(fs, Components([SLASH])) == Ok(ROOT)
    ensures Lookup(fs, PathOf(FILE)).Some? ==> Resolved(fs, Components(FILE)) == Ok(Lookup(fs, PathOf(FILE)).value)
  {
    hide Tree, Lookup, SplitParent, Utf8, Components;
    RootPath();
    OneLetter(FILE, [LETTER]);
    Ascii(FILE);
    if Lookup(fs, PathOf(FILE)).Some? {
      ResolvedIsLookup(fs, Components(FILE), Lookup(fs, PathOf(FILE)).value);
    }
  }

  /** Nothing keeps the file from being created on a fresh volume. */
  lemma {:induction false} FileFits(v: Vol)
    requires WellFormed(v) && FsAt(v) == map[ROOT := Dir([])]
    ensures CreateError(v, FILE).None? && Utf8(FILE)
  {
    hide WellFormed, FsAt, Inodes, NoFreeInode, EntriesFit, SplitParent, Resolved, Components, Utf8, Tree;
    FreshSpace(v);
    WellFormedTree(v);
    FilePath(FsAt(v));
  }

  lemma WellFormedTree(v: Vol)
    requires WellFormed(v)
    ensures Tree(FsAt(v))
  {
  }

  /** Once it is there, it cannot have all it could on a larger volume. */
  lemma {:induction false} FileOverflows(v: Vol, w: Vol, n: u64)
    requires FsAt(v) == map[ROOT := Dir([])] && WellFormed(v) && WellFormed(w)
    requires Created(FsAt(v), FsAt(w), FILE, Regular, n) && Lookup(FsAt(w), PathOf(FILE)) == Some(n)
    requires w.g.dataStart + 1 < w.g.total <= MAX_FILE_BLOCKS
    ensures !NoneFree(w) && ResizeError(w, FILE, MAX_BYTES) == Some(NoSpace)
  {
    hide WellFormed, FsAt, Inodes, SplitParent, Resolved, Components, Utf8, Tree, Lookup, NoneFree, SizeError, PathOf;
    WellFormedTree(v);
    WellFormedTree(w);
    FilePath(FsAt(v));
    FilePath(FsAt(w));
    var e := DirEntry(n, Regular, [LETTER]);
    assert Entries(FsAt(v), ROOT) + [e] == [e];
    assert FsAt(w) == map[n := File([])][ROOT := Dir([e])];
    OneFileSpace(w, n, e);
  }

  /**
    Formats a small device, creates one file, writes the largest file there can be, and
    unmounts: the write runs out of space, and the checker refuses what is left.
   */
  method Overfill(device: Disk, uuid: seq<byte>) returns (r: Result<nat>, disk: Disk)
    requires |uuid| == 16 && MIN_BLOCKS <= |device| <= MAX_FILE_BLOCKS
    ensures r == Err(NoSpace) && !Accepts(disk)
  {
    hide View, WellFormed, FsAt, Inodes, NexFs.Mounted, Accepts, DecodeSuperblock, EncodeSuperblock, Tree, Lookup, NoneFree, Utf8, PathOf, Zeros,
         CreateError, ResizeError, Created, FormatLayout, At, KeepsOutside, KeepsContents;
    var formatted, image := Format(device, uuid);
    var mounted := NexFs.Mount(image);
    var fs := mounted.value;
    ghost var v := fs.V();
    SmallLayout(|device|);
    FreshTree(image, v);
    FileFits(v);
    var made := fs.Create(FILE, Regular, 0x1a4);
    FileOverflows(v, fs.V(), made.value);
    r := fs.WriteFile(FILE, 0, Zeros(MAX_BYTES));
    var _ := fs.Unmount();
    disk := fs.disk;
  }

  lemma SmallLayout(total: nat)
    requires MIN_BLOCKS <= total <= MAX_FILE_BLOCKS
    ensures FormatLayout(total).dataStart + 1 < FormatLayout(total).total == total
  {
  }

  lemma FreshTree(image: Disk, v: Vol)
    requires Accepts(image) && var g := GeometryOf(DecodeSuperblock(image[1]).value); Fits(image, g) && v == View(image, g)
    ensures TreeOn(image) == FsAt(v) && WellFormed(v)
  {
    hide View, WellFormed, DecodeSuperblock;
  }
}
