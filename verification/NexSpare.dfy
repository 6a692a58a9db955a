/**
  Running out of space half-way: blocks taken so far stay taken, but every file still
  reads as before, because the inode on disk does not reach them.
 */
module NexSpare {
  import opened Bytes
  import opened NexLayout
  import opened NexTree
  import opened NexVolume
  import opened NexBlocks
  import opened NexState
  import opened NexSteps
  import opened NexCommit

  /** `b` has every pointer of `a`, and perhaps more. */
  predicate SamePointers(a: Inode, b: Inode) {
    && a.blockCount <= b.blockCount
    && (forall i :: 0 <= i < DIRECT_BLOCKS && i < a.blockCount ==> b.direct[i] == a.direct[i])
    && (a.indirect != 0 ==> b.indirect == a.indirect)
  }

  lemma SamePointersAppended(ino: Inode, b: u64, x: u64)
    requires ino.blockCount < MAX_FILE_BLOCKS && (ino.indirect != 0 ==> x == ino.indirect)
    ensures ino.blockCount < DIRECT_BLOCKS ==> SamePointers(ino, DirectAppended(ino, b))
    ensures SamePointers(ino, TableAppended(ino, x))
  {
  }

  lemma SamePointersSelf(a: Inode)
    ensures SamePointers(a, a)
  {
  }

  lemma SamePointersTransitive(a: Inode, b: Inode, c: Inode)
    requires SamePointers(a, b) && SamePointers(b, c)
    ensures SamePointers(a, c)
  {
  }

  /** Only blocks that were free have changed. */
  ghost predicate OnlyFree(v: Vol, w: Vol) {
    && w.g == v.g && w.ibits == v.ibits && w.slots == v.slots
    && forall b: nat :: v.g.InData(b) && b in v.bbits ==> BlockAt(w, b) == BlockAt(v, b)
  }

  /** The files of `t` read as before: all of each, but of `n` the first `size` bytes. */
  ghost predicate Spared(v: Vol, t: InodeTable, w: Vol, n: nat, size: nat) {
    && w.g == v.g && w.ibits == v.ibits && w.slots == v.slots
    && (forall m <- t :: m != n ==> SameFile(v, w, t[m]))
    && n in t && t[n].blockCount <= MAX_FILE_BLOCKS && size <= BLOCK_SIZE * t[n].blockCount
    && Raw(w, t[n])[..size] == Raw(v, t[n])[..size]
  }

  lemma {:induction false} OnlyFreeSpares(v: Vol, t: InodeTable, w: Vol, n: nat)
    requires Ownership(v, t) && n in t && OnlyFree(v, w)
    ensures t[n].blockCount <= MAX_FILE_BLOCKS && Spared(v, t, w, n, BLOCK_SIZE * t[n].blockCount)
  {
    hide Raw, Ownership, OnlyFree, BlocksOk, Owned;
    OwnedKept(v, t, w, n);
    forall m <- t ensures SameFile(v, w, t[m]) && Raw(w, t[m]) == Raw(v, t[m]) {
      OwnedKept(v, t, w, m);
      FrameFile(v, w, t[m]);
      SameRaw(v, w, t[m]);
    }
  }

  lemma {:induction false} OwnedKept(v: Vol, t: InodeTable, w: Vol, m: nat)
    requires Ownership(v, t) && m in t && OnlyFree(v, w)
    ensures BlocksOk(v, t[m]) && t[m].blockCount <= MAX_FILE_BLOCKS && w.g == v.g && forall b <- Owned(v, t[m]) :: BlockAt(w, b) == BlockAt(v, b)
    ensures w.ibits == v.ibits && w.slots == v.slots
  {
    assert BlocksOk(v, t[m]);
    forall b <- Owned(v, t[m]) ensures BlockAt(w, b) == BlockAt(v, b) {
      assert Owner(v, t, m, b);
      OwnedInData(v, t, m, b);
    }
  }

  /** The inode on disk reaches the same bytes as the one in memory. */
  lemma {:induction false} RawThrough(v: Vol, w: Vol, a: Inode, b: Inode)
    requires BlocksOk(v, a) && SamePointers(a, b) && b.blockCount <= MAX_FILE_BLOCKS
    ensures a.blockCount <= MAX_FILE_BLOCKS && Raw(w, a) == Raw(w, b)[..BLOCK_SIZE * a.blockCount]
  {
    forall p | 0 <= p < BLOCK_SIZE * a.blockCount ensures Raw(w, a)[p] == Raw(w, b)[p] {
      var i := p / BLOCK_SIZE;
      assert i < a.blockCount && Ptr(w, a, i) == Ptr(w, b, i);
    }
  }

  /** First the inode changes in memory, then space runs out. */
  lemma {:induction false} SparedAfter(v: Vol, t: InodeTable, w: Vol, n: nat, ino: Inode, x: Vol, size: nat)
    requires n in t && BlocksOk(v, t[n]) && Changed(v, t, w, n, ino) && SamePointers(t[n], ino) && ino.blockCount <= MAX_FILE_BLOCKS
    requires Spared(w, t[n := ino], x, n, BLOCK_SIZE * ino.blockCount)
    requires t[n].blockCount <= MAX_FILE_BLOCKS && size <= BLOCK_SIZE * t[n].blockCount
    requires Raw(w, ino)[..size] == Raw(v, t[n])[..size]
    ensures Spared(v, t, x, n, size)
  {
    hide Raw, Ownership, BlocksOk, Owned, SamePointers;
    var u := t[n := ino];
    assert SamePointers(t[n], ino);
    RawThrough(v, x, t[n], ino);
    forall m <- t | m != n ensures SameFile(v, x, t[m]) {
      assert u[m] == t[m] && SameFile(v, w, t[m]) && SameFile(w, x, u[m]);
    }
    PointersGrow(t[n], ino);
    assert Raw(x, ino)[..BLOCK_SIZE * ino.blockCount] == Raw(x, ino) && Raw(w, ino)[..BLOCK_SIZE * ino.blockCount] == Raw(w, ino);
    assert Raw(x, t[n])[..size] == Raw(x, ino)[..BLOCK_SIZE * t[n].blockCount][..size] == Raw(x, ino)[..size];
  }

  /** Space runs out while the block map grows. */
  lemma {:induction false} SpaceLost(v: Vol, t: InodeTable, w: Vol, n: nat, ino: Inode, x: Vol)
    requires Ownership(v, t) && n in t && Grown(v, t, w, n, ino) && SamePointers(t[n], ino) && OnlyFree(w, x)
    ensures t[n].blockCount <= MAX_FILE_BLOCKS && Spared(v, t, x, n, BLOCK_SIZE * t[n].blockCount)
  {
    hide Raw, Ownership, OnlyFree, Spared, SamePointers, BlocksOk;
    var u, size := t[n := ino], BLOCK_SIZE * t[n].blockCount;
    OwnedBlocksOk(v, t, n);
    OnlyFreeSpares(w, u, x, n);
    assert Raw(w, ino)[..size] == Raw(v, t[n]) == Raw(v, t[n])[..size];
    SparedAfter(v, t, w, n, ino, x, size);
  }

  /** Space runs out after the gap before the write has been filled. */
  lemma {:induction false} SpaceLostCovered(v: Vol, t: InodeTable, w: Vol, n: nat, ino: Inode, x: Vol, offset: nat)
    requires Ownership(v, t) && n in t && SizeOk(t[n]) && SamePointers(t[n], ino) && t[n].size <= BLOCK_SIZE * t[n].blockCount
    requires t[n].blockCount <= MAX_FILE_BLOCKS && Covered(v, t, w, n, ino, Max(t[n].size, offset), Padded(Content(v, t[n]), offset))
    requires Spared(w, t[n := ino], x, n, BLOCK_SIZE * ino.blockCount)
    ensures Spared(v, t, x, n, t[n].size)
  {
    hide Raw, Ownership, Spared, SamePointers, BlocksOk, Changed;
    OwnedBlocksOk(v, t, n);
    var size, all := t[n].size, Max(t[n].size, offset);
    assert Raw(w, ino)[..all][..size] == Raw(w, ino)[..size];
    assert Padded(Content(v, t[n]), offset)[..size] == Content(v, t[n]);
    SparedAfter(v, t, w, n, ino, x, size);
  }

  lemma SparedLess(v: Vol, t: InodeTable, w: Vol, n: nat, size: nat, less: nat)
    requires Spared(v, t, w, n, size) && less <= size
    ensures Spared(v, t, w, n, less)
  {
    hide Raw;
    assert Raw(w, t[n])[..less] == Raw(w, t[n])[..size][..less];
    assert Raw(v, t[n])[..less] == Raw(v, t[n])[..size][..less];
  }

  lemma PointersGrow(a: Inode, b: Inode)
    requires SamePointers(a, b)
    ensures a.blockCount <= b.blockCount
  {
  }

  /** Nothing in the tree changes. */
  lemma {:induction false} SparedFs(v: Vol, w: Vol, n: nat)
    requires Ownership(v, Inodes(v)) && n in Inodes(v) && SizeOk(Inodes(v)[n]) && Spared(v, Inodes(v), w, n, Inodes(v)[n].size)
    ensures FsAt(w) == FsAt(v)
  {
    hide Raw, Ownership, BlocksOk, Owned, ParseDir;
    var t := Inodes(v);
    assert Inodes(w) == t;
    forall m <- t ensures FsOf(w, t)[m] == FsOf(v, t)[m] {
      if m == n {
        SizeCovers(t[n]);
        assert Content(w, t[n]) == Content(v, t[n]);
      } else {
        OwnedBlocksOk(v, t, m);
        SameNode(v, w, t[m]);
      }
    }
  }

  /** Every file of `t` but `n` is as it was. */
  ghost predicate OthersSame(v: Vol, t: InodeTable, w: Vol, n: nat) {
    && w.g == v.g && w.ibits == v.ibits && w.slots == v.slots
    && forall m <- t :: m != n ==> SameFile(v, w, t[m])
  }

  lemma {:induction false} OthersAfter(v: Vol, t: InodeTable, w: Vol, n: nat, ino: Inode, es: seq<DirEntry>, x: Vol, size: nat)
    requires n in t && ValidEntries(es) && Replaced(v, t, w, n, ino, es) && Spared(w, t[n := ino], x, n, size)
    ensures OthersSame(v, t, x, n)
  {
    hide Raw, Ownership, Owned, ValidEntry;
    var u := t[n := ino];
    forall m <- t | m != n ensures SameFile(v, x, t[m]) {
      assert u[m] == t[m] && SameFile(v, w, t[m]) && SameFile(w, x, u[m]);
    }
  }

  /** No file loses its contents. */
  ghost predicate KeepsContents(before: Fs, after: Fs) {
    forall m <- before :: before[m].File? ==> m in after && after[m] == before[m]
  }

  /** All nodes but directory `d` are as they were. */
  ghost predicate KeepsOthers(before: Fs, after: Fs, d: nat) {
    forall m <- before :: m in after && (after[m] == before[m] || (m == d && before[m].Dir? && after[m].Dir?))
  }

  /** Only paths below the directory that `path` is in may name something else. */
  ghost predicate KeepsOutside(before: Fs, after: Fs, path: Path) {
    forall p: Path :: path == [] || !(path[..|path| - 1] < p) ==> At(after, p) == At(before, p)
  }

  lemma {:induction false} LookupOutside(before: Fs, after: Fs, d: nat, top: Path, p: Path)
    requires Tree(before) && Lookup(before, top) == Some(d) && KeepsOthers(before, after, d) && !(top < p)
    ensures Lookup(after, p) == Lookup(before, p)
  {
    hide Tree;
    if p != [] {
      var front := p[..|p| - 1];
      assert top < front ==> top < p;
      LookupOutside(before, after, d, top, front);
      if Lookup(before, front).Some? {
        LookupInFs(before, front);
        assert top == front ==> top < p;
        if Lookup(before, front) == Some(d) {
          LookupInjective(before, top, front);
        }
      }
    }
  }

  lemma {:induction false} OthersKeepPaths(before: Fs, after: Fs, d: nat, path: Path)
    requires Tree(before) && path != [] && Lookup(before, path[..|path| - 1]) == Some(d) && KeepsOthers(before, after, d)
    ensures KeepsOutside(before, after, path) && KeepsContents(before, after)
  {
    hide Tree, Lookup;
    var top := path[..|path| - 1];
    forall p: Path | !(top < p) ensures At(after, p) == At(before, p) {
      LookupOutside(before, after, d, top, p);
      LookupInFs(before, p);
    }
  }

  lemma {:induction false} OthersKeepNodes(v: Vol, w: Vol, n: nat)
    requires Ownership(v, Inodes(v)) && OthersSame(v, Inodes(v), w, n) && n in FsAt(v) && FsAt(v)[n].Dir?
    ensures KeepsOthers(FsAt(v), FsAt(w), n)
  {
    hide Raw, Ownership, BlocksOk, Owned, ParseDir;
    var t := Inodes(v);
    assert Inodes(w) == t;
    forall m <- t | m != n ensures FsOf(w, t)[m] == FsOf(v, t)[m] {
      OwnedBlocksOk(v, t, m);
      SameNode(v, w, t[m]);
    }
  }

  lemma KeepsMore(a: Fs, b: Fs, d: nat, n: nat, node: Node)
    requires n !in a && KeepsOthers(a[n := node], b, d)
    ensures KeepsOthers(a, b, d)
  {
    forall m <- a ensures m in b && (b[m] == a[m] || (m == d && a[m].Dir? && b[m].Dir?)) {
      assert a[n := node][m] == a[m];
    }
  }

  lemma KeepsSelf(a: Fs, d: nat)
    ensures KeepsOthers(a, a, d)
  {
  }

  lemma KeepsAll(a: Fs, path: Path)
    ensures KeepsOutside(a, a, path) && KeepsContents(a, a)
  {
  }

  lemma OwnedBlocksOk(v: Vol, t: InodeTable, m: nat)
    requires Ownership(v, t) && m in t
    ensures BlocksOk(v, t[m])
  {
  }
}
