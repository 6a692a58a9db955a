/**
  The checker's ownership ledger: one entry per block, 0 for unclaimed, 1 for
  reserved, 2 for claimed by an inode.  An inode's pointers can all be claimed
  exactly when its block map is in order and shares nothing with earlier claims.
 */
module NexClaims {
  import opened Bytes
  import opened NexLayout
  import opened NexVolume
  import opened NexBlocks
  import opened NexState

  type Ledger = seq<nat>

  ghost predicate Distinct(cs: seq<nat>) {
    forall i, j :: 0 <= i < j < |cs| ==> cs[i] != cs[j]
  }

  /** `cs` can be claimed one after the other. */
  ghost predicate Claims(v: Vol, owners: Ledger, cs: seq<nat>)
    requires |owners| == v.g.total
  {
    && (forall i :: 0 <= i < |cs| ==> v.g.InData(cs[i]) && cs[i] in v.bbits && owners[cs[i]] == 0)
    && Distinct(cs)
  }

  ghost predicate Claimed(before: Ledger, after: Ledger, cs: seq<nat>) {
    && |after| == |before|
    && forall b :: 0 <= b < |before| ==> after[b] == if b in cs then 2 else before[b]
  }

  /** Pointers `validate_inode_blocks` claims, in its order: direct, table, indirect. */
  ghost function ClaimList(v: Vol, ino: Inode): (cs: seq<nat>)
    requires ino.blockCount <= MAX_FILE_BLOCKS
    ensures |cs| == ino.blockCount + if ino.blockCount > DIRECT_BLOCKS then 1 else 0
  {
    if ino.blockCount <= DIRECT_BLOCKS then ino.direct[..ino.blockCount]
    else ino.direct + [ino.indirect] + TableBlocks(v, ino, ino.blockCount - DIRECT_BLOCKS)
  }

  ghost function TableBlocks(v: Vol, ino: Inode, n: nat): (s: seq<u64>)
    requires n <= INDIRECT_POINTERS
    ensures |s| == n && forall i :: 0 <= i < n ==> s[i] == Ptr(v, ino, DIRECT_BLOCKS + i)
  {
    if n == 0 then [] else TableBlocks(v, ino, n - 1) + [Ptr(v, ino, DIRECT_BLOCKS + n - 1)]
  }

  /** Pointers that are not in use are zero, and the table is there only if needed. */
  ghost predicate UnusedZero(v: Vol, ino: Inode)
    requires ino.blockCount <= MAX_FILE_BLOCKS
  {
    && (forall i: nat :: ino.blockCount <= i < DIRECT_BLOCKS ==> ino.direct[i] == 0)
    && (ino.blockCount <= DIRECT_BLOCKS ==> ino.indirect == 0)
    && (ino.blockCount > DIRECT_BLOCKS ==> forall i: nat :: ino.blockCount <= i < MAX_FILE_BLOCKS ==> Ptr(v, ino, i) == 0)
  }

  /** What the checker demands of one inode's block map. */
  ghost predicate Claimable(v: Vol, owners: Ledger, ino: Inode)
    requires |owners| == v.g.total
  {
    SizeOk(ino) && UnusedZero(v, ino) && Claims(v, owners, ClaimList(v, ino))
  }

  /** Position of pointer `i` in the claim list. */
  function ClaimIndex(i: nat): nat {
    if i < DIRECT_BLOCKS then i else i + 1
  }

  lemma {:induction false} ClaimListAt(v: Vol, ino: Inode, i: nat)
    requires i < ino.blockCount <= MAX_FILE_BLOCKS
    ensures ClaimIndex(i) < |ClaimList(v, ino)| && ClaimList(v, ino)[ClaimIndex(i)] == Ptr(v, ino, i)
  {
  }

  lemma {:induction false} ClaimListOwned(v: Vol, ino: Inode, b: nat)
    requires ino.blockCount <= MAX_FILE_BLOCKS && (ino.indirect != 0 <==> ino.blockCount > DIRECT_BLOCKS)
    ensures b in ClaimList(v, ino) <==> b in Owned(v, ino)
  {
    var cs := ClaimList(v, ino);
    if b in Owned(v, ino) {
      if i: nat :| i < ino.blockCount && Ptr(v, ino, i) == b {
        ClaimListAt(v, ino, i);
      } else {
        assert cs[DIRECT_BLOCKS] == ino.indirect;
      }
    }
    if b in cs {
      var k :| 0 <= k < |cs| && cs[k] == b;
      if k != DIRECT_BLOCKS || ino.blockCount <= DIRECT_BLOCKS {
        ClaimListAt(v, ino, if k < DIRECT_BLOCKS then k else k - 1);
      }
    }
  }

  /** The block map is in order and unclaimed exactly when its pointers can be claimed. */
  lemma {:induction false} ClaimableIff(v: Vol, owners: Ledger, ino: Inode)
    requires VolOk(v) && |owners| == v.g.total
    ensures Claimable(v, owners, ino) <==>
      SizeOk(ino) && Tight(ino) && BlocksOk(v, ino) && forall b <- Owned(v, ino) :: b in v.bbits && b < |owners| && owners[b] == 0
  {
    if SizeOk(ino) {
      if Claimable(v, owners, ino) {
        ClaimableIsOk(v, owners, ino);
      }
      if Tight(ino) && BlocksOk(v, ino) && forall b <- Owned(v, ino) :: b in v.bbits && b < |owners| && owners[b] == 0 {
        OkIsClaimable(v, owners, ino);
      }
    }
  }

  lemma {:induction false} ClaimableIsOk(v: Vol, owners: Ledger, ino: Inode)
    requires VolOk(v) && |owners| == v.g.total && Claimable(v, owners, ino)
    ensures Tight(ino) && BlocksOk(v, ino) && forall b <- Owned(v, ino) :: b in v.bbits && b < |owners| && owners[b] == 0
  {
    hide ClaimList, Owned;
    var cs := ClaimList(v, ino);
    forall i: nat | i < ino.blockCount ensures v.g.InData(Ptr(v, ino, i)) {
      ClaimListAt(v, ino, i);
    }
    forall i: nat, j: nat | i < j < ino.blockCount ensures Ptr(v, ino, i) != Ptr(v, ino, j) {
      ClaimListAt(v, ino, i);
      ClaimListAt(v, ino, j);
    }
    TableClaim(v, ino);
    forall i: nat | i < ino.blockCount && ino.blockCount > DIRECT_BLOCKS ensures Ptr(v, ino, i) != ino.indirect {
      ClaimListAt(v, ino, i);
    }
    forall b <- Owned(v, ino) ensures b in v.bbits && b < |owners| && owners[b] == 0 {
      ClaimListOwned(v, ino, b);
    }
  }

  lemma TableClaim(v: Vol, ino: Inode)
    requires ino.blockCount <= MAX_FILE_BLOCKS
    ensures ino.blockCount > DIRECT_BLOCKS ==> ClaimList(v, ino)[DIRECT_BLOCKS] == ino.indirect
  {
  }

  lemma {:induction false} OkIsClaimable(v: Vol, owners: Ledger, ino: Inode)
    requires VolOk(v) && |owners| == v.g.total && SizeOk(ino) && Tight(ino) && BlocksOk(v, ino)
    requires forall b <- Owned(v, ino) :: b in v.bbits && b < |owners| && owners[b] == 0
    ensures Claimable(v, owners, ino)
  {
    hide ClaimList, Owned;
    var cs := ClaimList(v, ino);
    TableClaim(v, ino);
    forall k | 0 <= k < |cs| ensures v.g.InData(cs[k]) && cs[k] in v.bbits && owners[cs[k]] == 0 {
      ClaimListOwned(v, ino, cs[k]);
      ClaimSource(v, ino, k);
    }
    forall i, j | 0 <= i < j < |cs| ensures cs[i] != cs[j] {
      ClaimSource(v, ino, i);
      ClaimSource(v, ino, j);
    }
  }

  /** Each claim is the table block or pointer `k` or `k - 1`. */
  lemma {:induction false} ClaimSource(v: Vol, ino: Inode, k: nat)
    requires ino.blockCount <= MAX_FILE_BLOCKS && k < |ClaimList(v, ino)|
    ensures if k < DIRECT_BLOCKS then k < ino.blockCount && ClaimList(v, ino)[k] == Ptr(v, ino, k)
      else if k == DIRECT_BLOCKS then ino.blockCount > DIRECT_BLOCKS && ClaimList(v, ino)[k] == ino.indirect
      else k - 1 < ino.blockCount && ClaimList(v, ino)[k] == Ptr(v, ino, k - 1)
  {
  }

  // ---------- the ledger over all inodes ----------

  /** The ledger after the inodes of `t` have been claimed. */
  ghost predicate LedgerOk(v: Vol, owners: Ledger, t: InodeTable) {
    && |owners| == v.g.total
    && (forall b: nat :: b < v.g.dataStart && b < |owners| ==> owners[b] == 1)
    && (forall b: nat :: v.g.InData(b) ==> (owners[b] == 0 || owners[b] == 2))
    && (forall b: nat :: v.g.InData(b) ==> (owners[b] == 2 <==> exists n: nat :: Owner(v, t, n, b)))
    && (forall n <- t :: BlocksOk(v, t[n]) && SizeOk(t[n]) && Tight(t[n]) && forall b <- Owned(v, t[n]) :: b in v.bbits)
    && (forall n: nat, m: nat, b: nat :: Owner(v, t, n, b) && Owner(v, t, m, b) ==> n == m)
  }

  lemma {:induction false} LedgerAdds(v: Vol, owners: Ledger, t: InodeTable, after: Ledger, n: nat, ino: Inode)
    requires VolOk(v) && LedgerOk(v, owners, t) && n !in t && Claimable(v, owners, ino)
    requires Claimed(owners, after, ClaimList(v, ino))
    ensures LedgerOk(v, after, t[n := ino])
  {
    hide BlocksOk, ClaimList, Claimable, Owned;
    ClaimableIff(v, owners, ino);
    var u := t[n := ino];
    TableOnlyIfNeeded(v, ino);
    forall b: nat ensures b in ClaimList(v, ino) <==> b in Owned(v, ino) {
      ClaimListOwned(v, ino, b);
    }
    BlocksOkCount(v, ino);
    forall b: nat ensures Owner(v, u, n, b) <==> b in Owned(v, ino) {}
    forall m: nat, b: nat | m != n ensures Owner(v, u, m, b) <==> Owner(v, t, m, b) {}
    LedgerClauses(v, owners, t, after, n, ino);
  }

  lemma BlocksOkCount(v: Vol, ino: Inode)
    requires BlocksOk(v, ino)
    ensures ino.blockCount <= MAX_FILE_BLOCKS
  {
  }

  lemma TableOnlyIfNeeded(v: Vol, ino: Inode)
    requires BlocksOk(v, ino) && Tight(ino)
    ensures ino.indirect != 0 <==> ino.blockCount > DIRECT_BLOCKS
    ensures forall b <- Owned(v, ino) :: v.g.InData(b)
  {
  }

  lemma {:induction false} LedgerClauses(v: Vol, owners: Ledger, t: InodeTable, after: Ledger, n: nat, ino: Inode)
    requires LedgerOk(v, owners, t) && n !in t && BlocksOk(v, ino) && SizeOk(ino) && Tight(ino) && ino.blockCount <= MAX_FILE_BLOCKS
    requires |after| == |owners|
    requires forall b: nat :: b < |owners| ==> after[b] == if b in Owned(v, ino) then 2 else owners[b]
    requires forall b <- Owned(v, ino) :: v.g.InData(b) && b in v.bbits && owners[b] == 0
    requires forall b: nat :: Owner(v, t[n := ino], n, b) <==> b in Owned(v, ino)
    requires forall m: nat, b: nat :: m != n ==> (Owner(v, t[n := ino], m, b) <==> Owner(v, t, m, b))
    ensures LedgerOk(v, after, t[n := ino])
  {
    hide BlocksOk, Owned, Owner;
    var u := t[n := ino];
    forall b: nat | b < v.g.dataStart && b < |owners| ensures after[b] == 1 {
      assert owners[b] == 1 && b !in Owned(v, ino);
    }
    forall m <- u ensures BlocksOk(v, u[m]) && SizeOk(u[m]) && Tight(u[m]) && forall b <- Owned(v, u[m]) :: b in v.bbits {}
    forall b: nat | v.g.InData(b) ensures after[b] == 2 <==> exists m: nat :: Owner(v, u, m, b) {
      if b in Owned(v, ino) {
        assert Owner(v, u, n, b);
      } else if owners[b] == 2 {
        var m: nat :| Owner(v, t, m, b);
        OwnerIn(v, t, m, b);
        assert Owner(v, u, m, b);
      } else {
        assert forall m: nat :: m != n ==> (Owner(v, u, m, b) <==> Owner(v, t, m, b));
      }
    }
    forall k: nat, m: nat, b: nat | Owner(v, u, k, b) && Owner(v, u, m, b) ensures k == m {
      if k != n { assert Owner(v, t, k, b); }
      if m != n { assert Owner(v, t, m, b); }
      if k == n || m == n {
        assert b in Owned(v, ino) && owners[b] == 0 && v.g.InData(b);
      }
    }
  }

  lemma OwnerIn(v: Vol, t: InodeTable, m: nat, b: nat)
    requires Owner(v, t, m, b)
    ensures m in t
  {
  }

  /** A complete ledger that agrees with the bitmap is the ownership invariant. */
  lemma {:induction false} LedgerIsOwnership(v: Vol, owners: Ledger, t: InodeTable)
    requires VolOk(v) && LedgerOk(v, owners, t)
    requires forall b: nat :: v.g.InData(b) ==> (b in v.bbits <==> owners[b] == 2)
    ensures Ownership(v, t)
  {
    hide BlocksOk;
    forall n, b | Owner(v, t, n, b) ensures b in v.bbits {
      assert b in Owned(v, t[n]);
    }
  }
}
