/**
  Space accounting: what an inode can use is conserved by every change to it, so
  that running out of space can be decided before a change starts.
 */
module NexSpace {
  import opened Arithmetic
  import opened NexLayout
  import opened NexVolume
  import opened NexBlocks

  /** Blocks a file of `count` data blocks occupies, pointer table included. */
  function Footprint(count: nat, table: bool): nat {
    count + if count > DIRECT_BLOCKS || table then 1 else 0
  }

  ghost function FreeBlocks(v: Vol): set<nat> {
    set b: nat | v.g.dataStart <= b < v.g.total && Free(v, b)
  }

  /** The blocks `ino` may use: its own and the free ones. */
  ghost function Available(v: Vol, ino: Inode): set<nat>
    requires ino.blockCount <= MAX_FILE_BLOCKS
  {
    FreeBlocks(v) + Owned(v, ino)
  }

  lemma {:induction false} PtrSetSize(v: Vol, ino: Inode, k: nat)
    requires BlocksOk(v, ino) && k <= ino.blockCount
    ensures |set i: nat | i < k :: Ptr(v, ino, i)| == k
  {
    hide Ptr;
    var s := set i: nat | i < k :: Ptr(v, ino, i);
    if k == 0 {
      assert s == {};
    } else {
      var r := set i: nat | i < k - 1 :: Ptr(v, ino, i);
      PtrSetSize(v, ino, k - 1);
      assert s == r + {Ptr(v, ino, k - 1)};
    }
  }

  lemma {:induction false} OwnedSize(v: Vol, ino: Inode)
    requires BlocksOk(v, ino)
    ensures |Owned(v, ino)| == Footprint(ino.blockCount, ino.indirect != 0)
  {
    PtrSetSize(v, ino, ino.blockCount);
    var s := set i: nat | i < ino.blockCount :: Ptr(v, ino, i);
    assert ino.indirect != 0 ==> ino.indirect !in s;
  }

  /** No change of an inode alters what it has available. */
  lemma {:induction false} AvailableConserved(v: Vol, t: InodeTable, w: Vol, n: nat, ino: Inode)
    requires Ownership(v, t) && n in t && Changed(v, t, w, n, ino)
    ensures t[n].blockCount <= MAX_FILE_BLOCKS && ino.blockCount <= MAX_FILE_BLOCKS
    ensures Available(w, ino) == Available(v, t[n])
  {
    hide Ownership, Available;
    AvailableBounds(v, t, n);
    AvailableBounds(w, t[n := ino], n);
    forall b: nat ensures b in Available(w, ino) <==> b in Available(v, t[n]) {
      AvailableAlike(v, t, w, n, ino, b);
    }
    assert Available(w, ino) == Available(v, t[n]);
  }

  lemma AvailableBounds(v: Vol, t: InodeTable, n: nat)
    requires Ownership(v, t) && n in t
    ensures t[n].blockCount <= MAX_FILE_BLOCKS
    ensures forall b <- Available(v, t[n]) :: v.g.InData(b)
  {
    assert BlocksOk(v, t[n]);
    forall b <- Owned(v, t[n]) ensures v.g.InData(b) {
      assert Owner(v, t, n, b);
      OwnedInData(v, t, n, b);
    }
  }

  lemma {:induction false} AvailableAlike(v: Vol, t: InodeTable, w: Vol, n: nat, ino: Inode, b: nat)
    requires Ownership(v, t) && n in t && Changed(v, t, w, n, ino)
    requires t[n].blockCount <= MAX_FILE_BLOCKS && ino.blockCount <= MAX_FILE_BLOCKS
    ensures b in Available(w, ino) <==> b in Available(v, t[n])
  {
    hide Ownership, Available;
    AvailableBounds(v, t, n);
    AvailableBounds(w, t[n := ino], n);
    assert b in Available(v, t[n]) ==> v.g.InData(b);
    assert b in Available(w, t[n := ino][n]) ==> w.g.InData(b);
    if v.g.InData(b) {
      AvailableIsUnclaimed(v, t, n, b);
      AvailableIsUnclaimed(w, t[n := ino], n, b);
      UnclaimedAlike(v, t, w, n, ino, b);
      assert b in Available(w, t[n := ino][n]) <==> b in Available(v, t[n]);
      assert t[n := ino][n] == ino;
    }
  }

  ghost predicate Unclaimed(v: Vol, t: InodeTable, n: nat, b: nat) {
    forall m :: m != n ==> !Owner(v, t, m, b)
  }

  lemma {:induction false} UnclaimedAlike(v: Vol, t: InodeTable, w: Vol, n: nat, ino: Inode, b: nat)
    requires n in t && forall m <- t :: m != n ==> SameFile(v, w, t[m])
    ensures Unclaimed(v, t, n, b) <==> Unclaimed(w, t[n := ino], n, b)
  {
    hide Owned;
    var u := t[n := ino];
    forall m: nat | m != n ensures Owner(w, u, m, b) == Owner(v, t, m, b) {
      if m in t {
        assert SameFile(v, w, t[m]) && u[m] == t[m];
      }
    }
  }

  lemma {:induction false} AvailableIsUnclaimed(v: Vol, t: InodeTable, n: nat, b: nat)
    requires Ownership(v, t) && n in t && v.g.InData(b)
    ensures t[n].blockCount <= MAX_FILE_BLOCKS
    ensures b in Available(v, t[n]) <==> Unclaimed(v, t, n, b)
  {
    hide BlocksOk;
    assert BlocksOk(v, t[n]) && t[n].blockCount <= MAX_FILE_BLOCKS by { BlocksOkBound(v, t[n]); }
    assert Owner(v, t, n, b) <==> b in Owned(v, t[n]);
    if b in v.bbits {
      var m :| Owner(v, t, m, b);
    }
  }

  lemma {:induction false} NothingFree(v: Vol, ino: Inode)
    requires BlocksOk(v, ino) && forall b: nat :: !Free(v, b)
    ensures |Available(v, ino)| == Footprint(ino.blockCount, ino.indirect != 0)
  {
    hide BlocksOk, Owned;
    OwnedSize(v, ino);
    assert FreeBlocks(v) == {};
  }

  lemma {:induction false} OneFree(v: Vol, ino: Inode, b: nat)
    requires BlocksOk(v, ino) && Free(v, b) && b !in Owned(v, ino) && forall c: nat :: c != b ==> !Free(v, c)
    ensures |Available(v, ino)| == Footprint(ino.blockCount, ino.indirect != 0) + 1
  {
    hide BlocksOk, Owned;
    OwnedSize(v, ino);
    assert FreeBlocks(v) == {b};
  }

  lemma {:induction false} OwnedAvailable(v: Vol, ino: Inode)
    requires BlocksOk(v, ino)
    ensures Footprint(ino.blockCount, ino.indirect != 0) <= |Available(v, ino)|
  {
    OwnedSize(v, ino);
    SubsetSize(Owned(v, ino), Available(v, ino));
  }
}
