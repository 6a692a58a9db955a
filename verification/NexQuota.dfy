/**
  The space law: how many blocks are free is decided by the sizes of the files and of
  the directories, and by nothing else.
 */
module NexQuota {
  import opened Bytes
  import opened NexTree
  import opened NexVolume
  import opened NexBlocks
  import opened NexSpace
  import opened NexState
  import opened NexCommit
  import opened NexLeak
  import opened NexFull
  import opened NexVerdict

  /** Bytes of a file, or 256 for each entry of a directory. */
  function Size(node: Node): nat {
    if node.File? then |node.bytes| else 256 * |node.entries|
  }

  ghost function PickNode(fs: Fs): (n: nat)
    requires fs != map[]
    ensures n in fs
  {
    var n :| n in fs;
    n
  }

  /** The blocks all objects of a tree cost. */
  ghost function Used(fs: Fs): nat
    decreases |fs|
  {
    if fs == map[] then 0
    else
      var n := PickNode(fs);
      Cost(Size(fs[n])) + Used(fs - {n})
  }

  /** In whatever order they are counted. */
  lemma {:induction false} UsedSplit(fs: Fs, n: nat)
    requires n in fs
    ensures Used(fs) == Cost(Size(fs[n])) + Used(fs - {n})
    decreases |fs|
  {
    hide Cost, Size;
    var m := PickNode(fs);
    if m != n {
      UsedSplit(fs - {m}, n);
      UsedSplit(fs - {n}, m);
      assert fs - {m} - {n} == fs - {n} - {m};
    }
  }

  lemma {:induction false} UsedUpdate(fs: Fs, n: nat, node: Node)
    ensures Used(fs[n := node]) == Used(fs - {n}) + Cost(Size(node))
    ensures n in fs ==> Used(fs[n := node]) == Used(fs) - Cost(Size(fs[n])) + Cost(Size(node))
    ensures n !in fs ==> Used(fs[n := node]) == Used(fs) + Cost(Size(node))
  {
    hide Cost, Size, Used;
    UsedSplit(fs[n := node], n);
    assert fs[n := node] - {n} == fs - {n};
    if n in fs {
      UsedSplit(fs, n);
    } else {
      assert fs - {n} == fs;
    }
  }

  lemma {:induction false} TotalIsUsed(t: InodeTable, fs: Fs)
    requires fs.Keys == t.Keys && forall n <- t :: Footprint(t[n].blockCount, t[n].indirect != 0) == Cost(Size(fs[n]))
    ensures Total(t) == Used(fs)
    decreases |t|
  {
    hide Cost, Size, Footprint;
    if t == map[] {
      assert fs == map[];
    } else {
      var n := Pick(t);
      UsedSplit(fs, n);
      TotalIsUsed(t - {n}, fs - {n});
    }
  }

  /** Free blocks and the cost of everything there is make up the data region. */
  lemma {:induction false} SpaceLaw(v: Vol)
    requires WellFormed(v)
    ensures |FreeBlocks(v)| + Used(FsAt(v)) == v.g.total - v.g.dataStart
  {
    hide WellFormed, FsAt, Inodes, Ownership, Total, Used, Cost, Size, Footprint, FreeBlocks;
    var t, fs := Inodes(v), FsAt(v);
    WellFormedOwns(v);
    FreeCount(v, t);
    SameObjects(v);
    forall n <- t ensures Footprint(t[n].blockCount, t[n].indirect != 0) == Cost(Size(fs[n])) {
      NodeCost(v, n);
    }
    TotalIsUsed(t, fs);
  }

  lemma SameObjects(v: Vol)
    ensures FsAt(v).Keys == Inodes(v).Keys
  {
    hide Inodes;
  }

  lemma {:induction false} NodeCost(v: Vol, n: nat)
    requires WellFormed(v) && n in FsAt(v)
    ensures n in Inodes(v) && Footprint(Inodes(v)[n].blockCount, Inodes(v)[n].indirect != 0) == Cost(Size(FsAt(v)[n]))
  {
    hide WellFormed, FsAt, Inodes, Cost, Footprint;
    OwnedCost(v, n, Size(FsAt(v)[n]));
  }

  /** Two volumes of one layout with the same tree have the same number of blocks free. */
  lemma {:induction false} SameTreeSameSpace(v: Vol, w: Vol)
    requires WellFormed(v) && WellFormed(w) && w.g == v.g && FsAt(w) == FsAt(v)
    ensures |FreeBlocks(w)| == |FreeBlocks(v)|
  {
    hide WellFormed, FsAt, FreeBlocks, Used;
    SpaceLaw(v);
    SpaceLaw(w);
  }

  /** A file that grows or shrinks takes or gives back what its size costs. */
  lemma {:induction false} SpaceAfterResize(v: Vol, w: Vol, n: nat, bytes: seq<byte>)
    requires WellFormed(v) && WellFormed(w) && w.g == v.g && n in FsAt(v) && FsAt(v)[n].File? && FsAt(w) == SetFile(FsAt(v), n, bytes)
    ensures |FreeBlocks(w)| == |FreeBlocks(v)| + Cost(|FsAt(v)[n].bytes|) - Cost(|bytes|)
  {
    hide WellFormed, FsAt, FreeBlocks, Used, Cost;
    SpaceLaw(v);
    SpaceLaw(w);
    UsedUpdate(FsAt(v), n, File(bytes));
  }
}
