/**
  What running out of space leaves behind: blocks that are marked and belong to nobody,
  unless none was free to begin with.  A count of the marked blocks tells.
 */
module NexLeak {
  import opened NexLayout
  import opened NexTree
  import opened NexVolume
  import opened NexBlocks
  import opened NexSpace
  import opened NexState
  import opened NexSpare

  ghost predicate NoneFree(v: Vol) {
    forall b: nat :: !Free(v, b)
  }

  /** Blocks may have been taken, and only free ones. */
  ghost predicate Grew(v: Vol, w: Vol) {
    w.g == v.g && v.bbits <= w.bbits && forall b: nat :: b in w.bbits && b !in v.bbits ==> Free(v, b)
  }

  /** Something was taken, if anything could be. */
  ghost predicate Leaked(v: Vol, w: Vol) {
    Grew(v, w) && (w.bbits == v.bbits ==> NoneFree(v))
  }

  lemma GrewSelf(v: Vol)
    ensures Grew(v, v)
  {
  }

  lemma GrewTransitive(v: Vol, w: Vol, x: Vol)
    requires Grew(v, w)
    ensures Grew(w, x) ==> Grew(v, x)
    ensures Leaked(w, x) ==> Leaked(v, x)
  {
    if Leaked(w, x) && x.bbits == v.bbits {
      assert w.bbits == v.bbits;
      forall b: nat ensures !Free(v, b) { assert !Free(w, b); }
    }
  }

  /** With nothing free nothing can be taken. */
  lemma NothingTaken(v: Vol, w: Vol)
    requires Grew(v, w) && NoneFree(v)
    ensures w.bbits == v.bbits && NoneFree(w)
  {
    forall b: nat ensures !Free(w, b) { assert !Free(v, b); }
    forall b: nat | b in w.bbits ensures b in v.bbits { assert !Free(v, b); }
  }

  /** An inode may have grown by free blocks. */
  ghost predicate Took(v: Vol, w: Vol, start: Inode, ino: Inode) {
    Grew(v, w) && (NoneFree(v) ==> ino == start)
  }

  ghost predicate RanOut(v: Vol, w: Vol) {
    Leaked(v, w) && (NoneFree(v) ==> w == v)
  }

  lemma TookSelf(v: Vol, ino: Inode)
    ensures Took(v, v, ino, ino)
  {
  }

  lemma TookThen(v: Vol, w: Vol, x: Vol, start: Inode, ino: Inode)
    requires Took(v, w, start, ino) && Grew(w, x)
    ensures Took(v, x, start, ino)
  {
    hide NoneFree;
    GrewTransitive(v, w, x);
  }

  // ---------- counting ----------

  ghost function Marked(v: Vol): set<nat> {
    set b | b in v.bbits && v.g.InData(b)
  }

  ghost function Pick(t: InodeTable): (n: nat)
    requires t != map[]
    ensures n in t
  {
    var n :| n in t;
    n
  }

  /** The blocks the inodes of a table say they have. */
  ghost function Total(t: InodeTable): nat
    decreases |t|
  {
    if t == map[] then 0
    else
      var n := Pick(t);
      Footprint(t[n].blockCount, t[n].indirect != 0) + Total(t - {n})
  }

  ghost function OwnedBy(v: Vol, t: InodeTable): set<nat>
    decreases |t|
  {
    if t == map[] then {}
    else
      var n := Pick(t);
      (if t[n].blockCount <= MAX_FILE_BLOCKS then Owned(v, t[n]) else {}) + OwnedBy(v, t - {n})
  }

  lemma {:induction false} OwnedByIs(v: Vol, t: InodeTable, b: nat)
    ensures b in OwnedBy(v, t) <==> exists n: nat :: Owner(v, t, n, b)
    decreases |t|
  {
    hide Owned;
    if t != map[] {
      var n := Pick(t);
      var rest := t - {n};
      OwnedByIs(v, rest, b);
      if m: nat :| Owner(v, rest, m, b) {
        assert Owner(v, t, m, b);
      }
      if m: nat :| Owner(v, t, m, b) {
        assert m == n || Owner(v, rest, m, b);
      }
      assert t[n].blockCount <= MAX_FILE_BLOCKS && b in Owned(v, t[n]) ==> Owner(v, t, n, b);
    }
  }

  ghost predicate Distributed(v: Vol, t: InodeTable) {
    (forall n <- t :: BlocksOk(v, t[n])) && forall n: nat, m: nat, b: nat :: Owner(v, t, n, b) && Owner(v, t, m, b) ==> n == m
  }

  lemma {:induction false} OwnedCount(v: Vol, t: InodeTable)
    requires Distributed(v, t)
    ensures |OwnedBy(v, t)| == Total(t)
    decreases |t|
  {
    hide Owned, BlocksOk, Footprint;
    if t != map[] {
      var n := Pick(t);
      var rest := t - {n};
      RestDistributed(v, t, n);
      OwnedCount(v, rest);
      BlocksOkBound(v, t[n]);
      OwnedSize(v, t[n]);
      forall b | b in OwnedBy(v, rest) ensures b !in Owned(v, t[n]) {
        NotShared(v, t, n, b);
      }
      assert OwnedBy(v, t) == Owned(v, t[n]) + OwnedBy(v, rest);
    }
  }

  lemma {:induction false} NotShared(v: Vol, t: InodeTable, n: nat, b: nat)
    requires Distributed(v, t) && n in t && b in OwnedBy(v, t - {n})
    ensures !Owner(v, t, n, b)
  {
    hide Owned, BlocksOk, OwnedBy;
    OwnedByIs(v, t - {n}, b);
    var m: nat :| Owner(v, t - {n}, m, b);
    assert Owner(v, t, m, b) && m != n;
  }

  lemma {:induction false} RestDistributed(v: Vol, t: InodeTable, n: nat)
    requires Distributed(v, t)
    ensures Distributed(v, t - {n})
  {
    hide Owned, BlocksOk;
    var rest := t - {n};
    forall a: nat, m: nat, b: nat | Owner(v, rest, a, b) && Owner(v, rest, m, b) ensures a == m {
      assert Owner(v, t, a, b) && Owner(v, t, m, b);
    }
  }

  /** As many blocks are marked as the inodes have. */
  lemma {:induction false} MarkedCount(v: Vol, t: InodeTable)
    requires Ownership(v, t)
    ensures |Marked(v)| == Total(t)
  {
    hide Owned, BlocksOk;
    OwnedCount(v, t);
    forall b: nat ensures b in Marked(v) <==> b in OwnedBy(v, t) {
      OwnedByIs(v, t, b);
      if n: nat :| Owner(v, t, n, b) {
        OwnedInData(v, t, n, b);
      }
    }
    assert Marked(v) == OwnedBy(v, t);
  }

  /** So two well-formed volumes with the same inodes mark as many. */
  lemma {:induction false} SameMarked(v: Vol, w: Vol, t: InodeTable)
    requires Ownership(v, t) && Ownership(w, t) && Grew(v, w)
    ensures w.bbits == v.bbits
  {
    hide Ownership;
    MarkedCount(v, t);
    MarkedCount(w, t);
    assert Marked(v) <= Marked(w);
    assert |Marked(w) - Marked(v)| == |Marked(w)| - |Marked(v)|;
    assert Marked(w) - Marked(v) == {};
    forall b: nat | b in w.bbits ensures b in v.bbits {
      assert b in v.bbits || Free(v, b);
      assert b in v.bbits || b in Marked(w);
      assert b in Marked(w) ==> b !in Marked(w) - Marked(v);
    }
  }

  /** After running out of space a volume is well formed exactly when no block was free. */
  lemma {:induction false} LeakIff(v: Vol, w: Vol, n: nat)
    requires WellFormed(v) && n in Inodes(v) && Spared(v, Inodes(v), w, n, Inodes(v)[n].size)
    requires Leaked(v, w) && (NoneFree(v) ==> Ownership(w, Inodes(v)))
    ensures WellFormed(w) <==> NoneFree(v)
  {
    hide Ownership, Tree, FsOf, Raw, Spared, Inodes, InodeOk, NoneFree, Grew, VolOk, BitsOk;
    var t := Inodes(v);
    SparedTable(v, w, n);
    if WellFormed(w) {
      SameMarked(v, w, t);
    }
    if NoneFree(v) {
      NothingTaken(v, w);
      SameBits(v, w);
      OwnershipVolOk(w, t);
      assert InodeOk(v, t[n]);
      InodeSize(v, t[n]);
      SparedFs(v, w, n);
      forall m <- t ensures InodeOk(w, t[m]) {
        SparedInode(v, w, n, m);
      }
    }
  }

  lemma SparedTable(v: Vol, w: Vol, n: nat)
    requires Spared(v, Inodes(v), w, n, if n in Inodes(v) then Inodes(v)[n].size else 0)
    ensures Inodes(w) == Inodes(v) && w.g == v.g && w.ibits == v.ibits && w.slots == v.slots
  {
    hide Raw;
    assert Inodes(w).Keys == Inodes(v).Keys;
  }

  lemma SameBits(v: Vol, w: Vol)
    requires BitsOk(v) && w.g == v.g && w.ibits == v.ibits && w.slots == v.slots && w.bbits == v.bbits
    ensures BitsOk(w)
  {
  }

  lemma OwnershipVolOk(v: Vol, t: InodeTable)
    requires Ownership(v, t)
    ensures VolOk(v)
  {
  }

  lemma InodeSize(v: Vol, ino: Inode)
    requires InodeOk(v, ino)
    ensures SizeOk(ino)
  {
  }

  lemma {:induction false} SparedInode(v: Vol, w: Vol, n: nat, m: nat)
    requires WellFormed(v) && n in Inodes(v) && m in Inodes(v) && Spared(v, Inodes(v), w, n, Inodes(v)[n].size)
    ensures InodeOk(w, Inodes(v)[m])
  {
    hide Raw, Ownership, BlocksOk, Owned, ParseDir, Tree, FsOf, Inodes;
    var t := Inodes(v);
    assert InodeOk(v, t[m]);
    if m == n {
      SizeCovers(t[n]);
      assert Content(w, t[n]) == Content(v, t[n]);
    } else {
      OwnedBlocksOk(v, t, m);
      SameNode(v, w, t[m]);
    }
  }
}
