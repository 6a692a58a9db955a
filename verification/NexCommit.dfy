/**
  How a change made to an inode in memory becomes part of the volume: writing the
  inode back, adding a new inode, discarding one.  Each lemma says what happens to
  the file tree and that everything but the tree shape stays well formed.
 */
module NexCommit {
  import opened Bytes
  import opened NexLayout
  import opened NexVolume
  import opened NexBlocks
  import opened NexSpace
  import opened NexTree
  import opened NexState
  import opened NexSteps

  /** The inodes of `t` own their blocks properly and each is in order by itself. */
  ghost predicate Sound(v: Vol, t: InodeTable) {
    Ownership(v, t) && forall n <- t :: InodeOk(v, t[n])
  }

  /** A well-formed volume, but for the shape of its directory graph. */
  ghost predicate Consistent(v: Vol) {
    VolOk(v) && BitsOk(v) && Sound(v, Inodes(v))
  }

  ghost function FsAt(v: Vol): Fs {
    FsOf(v, Inodes(v))
  }

  lemma ConsistentTree(v: Vol)
    ensures WellFormed(v) <==> Consistent(v) && Tree(FsAt(v))
  {
    hide Ownership, InodeOk, Tree;
  }

  /** Allocated inodes are the keys of the tree, and their slots decode. */
  lemma {:induction false} NodeFacts(v: Vol, n: nat)
    requires Consistent(v) && n in FsAt(v)
    ensures n in Inodes(v) && n in v.ibits && n < v.g.InodeCount() && v.slots[n] == Ok(Inodes(v)[n])
    ensures BlocksOk(v, Inodes(v)[n]) && InodeOk(v, Inodes(v)[n]) && SizeOk(Inodes(v)[n])
    ensures FsAt(v)[n] == NodeOf(v, Inodes(v)[n])
  {
    assert BlocksOk(v, Inodes(v)[n]);
  }

  /** What reading a directory inode gives, in terms of its node. */
  lemma {:induction false} DirFacts(v: Vol, ino: Inode)
    requires InodeOk(v, ino)
    ensures SizeOk(ino)
    ensures ino.kind.Directory? ==>
      && ino.size % DIR_ENTRY_SIZE == 0
      && NodeOf(v, ino).Dir? && ParseDir(Content(v, ino)) == Ok(NodeOf(v, ino).entries)
      && ino.size == DIR_ENTRY_SIZE * |NodeOf(v, ino).entries| && ValidEntries(NodeOf(v, ino).entries)
    ensures ino.kind.Regular? ==> NodeOf(v, ino) == File(Content(v, ino))
    ensures NodeOf(v, ino).Kind() == ino.kind
  {
    hide ParseDir, Content;
  }

  lemma ConsistentOwnership(v: Vol)
    requires Consistent(v)
    ensures Ownership(v, Inodes(v))
  {
    hide Ownership;
  }

  // ---------- writing an inode back ----------

  lemma {:induction false} SlotInodes(w: Vol, n: nat, ino: Inode)
    requires n < |w.slots| && n != 0 && n in w.ibits
    ensures Inodes(w.(slots := w.slots[n := Ok(ino)])) == Inodes(w)[n := ino]
  {
  }

  lemma SameInodes(v: Vol, w: Vol)
    requires v.ibits == w.ibits && v.slots == w.slots
    ensures Inodes(v) == Inodes(w)
  {
  }

  lemma InodeOkSize(v: Vol, ino: Inode)
    requires InodeOk(v, ino)
    ensures SizeOk(ino)
  {
  }

  lemma SoundVolOk(v: Vol, t: InodeTable)
    requires Sound(v, t)
    ensures VolOk(v) && |v.slots| == v.g.InodeCount()
  {
  }

  /** A change in memory keeps the table sound and rewrites one node. */
  lemma {:induction false} SoundAfter(v: Vol, t: InodeTable, w: Vol, n: nat, i: Inode, ino: Inode)
    requires Sound(v, t) && n in t && Changed(v, t, w, n, i) && SameBlocks(i, ino) && InodeOk(w, ino)
    ensures Sound(w, t[n := ino]) && FsOf(w, t[n := ino]) == FsOf(v, t)[n := NodeOf(w, ino)]
  {
    hide Ownership, InodeOk, NodeOf, SameBlocks, FsOf;
    ChangedMeta(v, t, w, n, i, ino);
    InodeOkSize(w, ino);
    ChangedFs(v, t, w, n, ino);
    ChangedOwnership(v, t, w, n, ino);
  }

  lemma ChangedOwnership(v: Vol, t: InodeTable, w: Vol, n: nat, ino: Inode)
    requires Changed(v, t, w, n, ino)
    ensures Ownership(w, t[n := ino]) && w.g == v.g && w.ibits == v.ibits && w.slots == v.slots
    ensures forall b: nat :: !v.g.InData(b) ==> (b in w.bbits <==> b in v.bbits)
  {
    hide Ownership;
  }

  /** Soundness looks at the bitmap of blocks and the data region only. */
  lemma {:induction false} SoundView(w: Vol, x: Vol, u: InodeTable)
    requires Sound(w, u) && x.g == w.g && x.bbits == w.bbits && x.data == w.data && |x.slots| == |w.slots|
    ensures Sound(x, u) && FsOf(x, u) == FsOf(w, u)
  {
    hide Ownership, InodeOk, NodeOf, BlocksOk, SameFile, FsOf;
    OwnershipOfView(w, x, u);
    SameNodes(w, x, u);
  }

  lemma {:induction false} SameNodes(w: Vol, x: Vol, u: InodeTable)
    requires Ownership(w, u) && x.g == w.g && forall n <- u :: SameFile(w, x, u[n])
    requires forall n <- u :: InodeOk(w, u[n])
    ensures FsOf(x, u) == FsOf(w, u) && forall n <- u :: InodeOk(x, u[n])
  {
    hide BlocksOk, SameFile, InodeOk, NodeOf;
    forall n <- u ensures InodeOk(x, u[n]) && FsOf(x, u)[n] == FsOf(w, u)[n] {
      assert BlocksOk(w, u[n]);
      SameNode(w, x, u[n]);
    }
  }

  lemma {:induction false} SlotBits(v: Vol, w: Vol, n: nat, ino: Inode)
    requires BitsOk(v) && w.g == v.g && w.ibits == v.ibits && w.slots == v.slots && n in Inodes(v)
    requires forall b: nat :: !v.g.InData(b) ==> (b in w.bbits <==> b in v.bbits)
    ensures BitsOk(w.(slots := w.slots[n := Ok(ino)])) && n in w.ibits && n != 0
  {
  }

  /** Inode `n`, changed in memory, is written back. */
  lemma {:induction false} Installed(v: Vol, w: Vol, n: nat, i: Inode, ino: Inode)
    requires Consistent(v) && n in Inodes(v) && Changed(v, Inodes(v), w, n, i)
    requires SameBlocks(i, ino) && InodeOk(w, ino)
    ensures var x := w.(slots := w.slots[n := Ok(ino)]);
      Consistent(x) && Inodes(x) == Inodes(v)[n := ino] && FsAt(x) == FsAt(v)[n := NodeOf(w, ino)]
  {
    hide Sound, Changed, InodeOk, NodeOf, SameBlocks, FsOf, VolOk, BitsOk;
    ChangedOwnership(v, Inodes(v), w, n, i);
    var x := w.(slots := w.slots[n := Ok(ino)]);
    SlotBits(v, w, n, ino);
    SameInodes(v, w);
    SlotInodes(w, n, ino);
    SoundAfter(v, Inodes(v), w, n, i, ino);
    SoundView(w, x, Inodes(v)[n := ino]);
    SoundVolOk(x, Inodes(x));
    SoundVolOk(v, Inodes(v));
  }

  // ---------- adding and discarding inodes ----------

  predicate EmptyInode(ino: Inode) {
    && ino.size == 0 && ino.blockCount == 0 && ino.indirect == 0
    && forall i: nat :: i < DIRECT_BLOCKS ==> ino.direct[i] == 0
  }

  lemma {:induction false} EmptyInodeOk(v: Vol, ino: Inode)
    requires EmptyInode(ino)
    ensures InodeOk(v, ino) && NodeOf(v, ino) == EmptyNode(ino.kind)
  {
    assert Content(v, ino) == [];
    assert ParseDir([]) == Ok([]);
  }

  /** A free inode number is taken and an empty inode written to its slot. */
  lemma {:induction false} Added(v: Vol, n: nat, ino: Inode)
    requires Consistent(v) && 0 < n < v.g.InodeCount() && n !in v.ibits && EmptyInode(ino)
    ensures n < |v.slots|
    ensures var x := v.(ibits := v.ibits + {n}, slots := v.slots[n := Ok(ino)]);
      Consistent(x) && Inodes(x) == Inodes(v)[n := ino] && FsAt(x) == FsAt(v)[n := EmptyNode(ino.kind)]
  {
    hide Sound, EmptyInode, FsOf, VolOk;
    SoundVolOk(v, Inodes(v));
    var x := v.(ibits := v.ibits + {n}, slots := v.slots[n := Ok(ino)]);
    assert Inodes(x) == Inodes(v)[n := ino];
    SoundWithEmpty(v, Inodes(v), n, ino);
    SoundView(v, x, Inodes(x));
    SoundVolOk(x, Inodes(x));
  }

  lemma {:induction false} SoundWithEmpty(v: Vol, t: InodeTable, n: nat, ino: Inode)
    requires Sound(v, t) && n !in t && EmptyInode(ino)
    ensures Sound(v, t[n := ino]) && FsOf(v, t[n := ino]) == FsOf(v, t)[n := EmptyNode(ino.kind)]
  {
    hide Ownership, InodeOk, NodeOf, EmptyInode;
    AddEmptyInode(v, t, n, ino);
    EmptyInodeOk(v, ino);
    InodeOkSize(v, ino);
  }

  lemma AddEmptyInode(v: Vol, t: InodeTable, n: nat, ino: Inode)
    requires Ownership(v, t) && n !in t && EmptyInode(ino)
    ensures Ownership(v, t[n := ino])
  {
    AddEmpty(v, t, n, ino);
  }

  /** An inode that has given back its blocks is cleared and its number freed. */
  lemma {:induction false} Discarded(v: Vol, w: Vol, n: nat, ino: Inode)
    requires Consistent(v) && n in Inodes(v) && n != ROOT && Changed(v, Inodes(v), w, n, ino)
    requires ino.blockCount == 0 && ino.indirect == 0
    ensures n < |w.slots|
    ensures var x := w.(slots := w.slots[n := Err(CorruptInode)], ibits := w.ibits - {n});
      Consistent(x) && Inodes(x) == Inodes(v) - {n} && FsAt(x) == FsAt(v) - {n}
  {
    hide Sound, Changed, FsOf, VolOk;
    ChangedOwnership(v, Inodes(v), w, n, ino);
    SoundVolOk(v, Inodes(v));
    var x := w.(slots := w.slots[n := Err(CorruptInode)], ibits := w.ibits - {n});
    assert Inodes(x) == Inodes(v) - {n};
    SoundWithout(v, Inodes(v), w, n, ino);
    SoundView(w, x, Inodes(x));
    SoundVolOk(x, Inodes(x));
  }

  lemma {:induction false} SoundWithout(v: Vol, t: InodeTable, w: Vol, n: nat, ino: Inode)
    requires Sound(v, t) && n in t && Changed(v, t, w, n, ino) && ino.blockCount == 0 && ino.indirect == 0
    ensures Sound(w, t - {n}) && FsOf(w, t - {n}) == FsOf(v, t) - {n}
  {
    hide InodeOk, NodeOf, BlocksOk, SameFile;
    var full: InodeTable := t[n := ino];
    DropEmpty(w, full, n);
    assert full - {n} == t - {n};
    var u: InodeTable := t - {n};
    forall m <- u ensures InodeOk(w, u[m]) && FsOf(w, u)[m] == FsOf(v, t)[m] {
      assert m in t && u[m] == t[m] && m != n;
      assert BlocksOk(v, t[m]) && InodeOk(v, t[m]);
      InodeOkSize(v, t[m]);
      SameNode(v, w, t[m]);
    }
  }

  // ---------- files and directories written back ----------

  function Stamped(ino: Inode, timestamp: u64): (r: Inode)
    ensures SameBlocks(ino, r) && r.kind == ino.kind && r.size == ino.size
  {
    ino.(modified := timestamp, generation := timestamp)
  }

  /** The permissions of every inode. */
  ghost function Modes(v: Vol): map<nat, u16> {
    map n <- Inodes(v) :: Inodes(v)[n].permissions
  }

  lemma ModesKeys(v: Vol)
    ensures Modes(v).Keys == FsAt(v).Keys
  {
    hide Inodes;
  }

  lemma ModesKept(v: Vol, w: Vol, n: nat, ino: Inode)
    requires n in Inodes(v) && Inodes(w) == Inodes(v)[n := ino] && ino.permissions == Inodes(v)[n].permissions
    ensures Modes(w) == Modes(v)
  {
    hide Inodes;
  }

  lemma ModesAdded(v: Vol, w: Vol, n: nat, ino: Inode)
    requires Inodes(w) == Inodes(v)[n := ino]
    ensures Modes(w) == Modes(v)[n := ino.permissions]
  {
    hide Inodes;
  }

  lemma ModesDropped(v: Vol, w: Vol, n: nat)
    requires Inodes(w) == Inodes(v) - {n}
    ensures Modes(w) == Modes(v) - {n}
  {
    hide Inodes;
  }

  lemma ModesSame(v: Vol, w: Vol)
    requires Inodes(w) == Inodes(v)
    ensures Modes(w) == Modes(v)
  {
    hide Inodes;
  }

  /** The contents of an inode do not depend on its times. */
  lemma {:induction false} StampedNode(v: Vol, ino: Inode, timestamp: u64)
    requires SizeOk(ino)
    ensures SizeOk(Stamped(ino, timestamp)) && NodeOf(v, Stamped(ino, timestamp)) == NodeOf(v, ino)
    ensures InodeOk(v, Stamped(ino, timestamp)) <==> InodeOk(v, ino)
  {
    hide Raw, ParseDir;
    SameBlocksAlike(v, ino, Stamped(ino, timestamp));
    SizeCovers(ino);
    SizeCovers(Stamped(ino, timestamp));
  }

  /** A regular file with new contents is written back: the tree changes there only. */
  lemma {:induction false} StoredFile(v: Vol, w: Vol, n: nat, ino: Inode, timestamp: u64, bytes: seq<byte>)
    requires WellFormed(v) && n in FsAt(v) && FsAt(v)[n].File? && n in Inodes(v)
    requires Holding(v, Inodes(v), w, n, ino, bytes)
    ensures n < |w.slots| && n < v.g.InodeCount() && w.g == v.g
    ensures var x := w.(slots := w.slots[n := Ok(Stamped(ino, timestamp))]);
      WellFormed(x) && FsAt(x) == SetFile(FsAt(v), n, bytes) && Modes(x) == Modes(v)
  {
    hide WellFormed, Consistent, Changed, NodeOf, InodeOk, Tree, FsOf, Content, VolOk, Modes;
    ConsistentTree(v);
    NodeFacts(v, n);
    DirFacts(v, Inodes(v)[n]);
    ChangedOwnership(v, Inodes(v), w, n, ino);
    HoldingFile(v, Inodes(v), w, n, ino, bytes);
    StampedNode(w, ino, timestamp);
    Installed(v, w, n, ino, Stamped(ino, timestamp));
    SetFileKeepsTree(FsAt(v), n, bytes);
    ModesKept(v, w.(slots := w.slots[n := Ok(Stamped(ino, timestamp))]), n, Stamped(ino, timestamp));
    ConsistentTree(w.(slots := w.slots[n := Ok(Stamped(ino, timestamp))]));
  }

  lemma {:induction false} HoldingFile(v: Vol, t: InodeTable, w: Vol, n: nat, ino: Inode, bytes: seq<byte>)
    requires n in t && t[n].kind.Regular? && Holding(v, t, w, n, ino, bytes)
    ensures InodeOk(w, ino) && NodeOf(w, ino) == File(bytes)
  {
    hide Changed, Content;
  }

  /** A rewritten directory is in order and lists what was written. */
  lemma {:induction false} ReplacedDirectory(v: Vol, t: InodeTable, w: Vol, n: nat, ino: Inode, es: seq<DirEntry>)
    requires n in t && t[n].kind.Directory? && ValidEntries(es) && Replaced(v, t, w, n, ino, es)
    ensures InodeOk(w, ino) && NodeOf(w, ino) == Dir(es) && SizeOk(ino)
  {
    hide Changed, Content, ParseDir, ValidEntry, EncodeAll;
    DirectoryRoundTrip(es);
  }

  /** A directory with new entries is written back. */
  lemma {:induction false} StoredDirectory(v: Vol, w: Vol, n: nat, ino: Inode, timestamp: u64, es: seq<DirEntry>)
    requires Consistent(v) && n in FsAt(v) && FsAt(v)[n].Dir? && n in Inodes(v) && ValidEntries(es)
    requires Replaced(v, Inodes(v), w, n, ino, es)
    ensures n < |w.slots| && n < v.g.InodeCount() && w.g == v.g
    ensures var x := w.(slots := w.slots[n := Ok(Stamped(ino, timestamp))]);
      && Consistent(x) && FsAt(x) == FsAt(v)[n := Dir(es)] && Inodes(x) == Inodes(v)[n := Stamped(ino, timestamp)]
      && Modes(x) == Modes(v)
  {
    hide Consistent, Changed, NodeOf, InodeOk, FsOf, Content, VolOk, ValidEntry, EncodeAll, Modes;
    NodeFacts(v, n);
    DirFacts(v, Inodes(v)[n]);
    ChangedOwnership(v, Inodes(v), w, n, ino);
    ReplacedDirectory(v, Inodes(v), w, n, ino, es);
    StampedNode(w, ino, timestamp);
    Installed(v, w, n, ino, Stamped(ino, timestamp));
    ModesKept(v, w.(slots := w.slots[n := Ok(Stamped(ino, timestamp))]), n, Stamped(ino, timestamp));
  }

  /** A directory always has room for as many entries as it holds, or fewer. */
  lemma {:induction false} RewriteFits(v: Vol, n: nat, count: nat)
    requires Consistent(v) && n in FsAt(v) && FsAt(v)[n].Dir? && count <= |FsAt(v)[n].entries|
    ensures n in Inodes(v) && Inodes(v)[n].blockCount <= MAX_FILE_BLOCKS && DirectoryFits(v, Inodes(v)[n], count)
  {
    hide Consistent, NodeOf, InodeOk, FsOf, Content, BlocksOk, ParseDir, Available, ValidEntries;
    NodeFacts(v, n);
    var ino := Inodes(v)[n];
    DirFacts(v, ino);
    OwnedAvailable(v, ino);
    TableInUse(v, ino);
    assert DataBlocksForSize(DIR_ENTRY_SIZE * count) <= DataBlocksForSize(ino.size);
  }

  lemma TableInUse(v: Vol, ino: Inode)
    requires BlocksOk(v, ino)
    ensures ino.blockCount > DIRECT_BLOCKS ==> ino.indirect != 0
  {
  }

  /** Space does not depend on the inode table. */
  lemma {:induction false} FitsAlike(v: Vol, w: Vol, ino: Inode, count: nat)
    requires w.g == v.g && w.bbits == v.bbits && w.data == v.data && ino.blockCount <= MAX_FILE_BLOCKS
    ensures DirectoryFits(w, ino, count) <==> DirectoryFits(v, ino, count)
  {
    forall i: nat | i < MAX_FILE_BLOCKS ensures Ptr(w, ino, i) == Ptr(v, ino, i) {}
    assert Owned(w, ino) == Owned(v, ino);
    assert FreeBlocks(w) == FreeBlocks(v);
  }
}
