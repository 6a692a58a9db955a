/**
  The offline checker.  `CheckDetailed` reads the raw blocks and accepts exactly the
  disks that hold a clean, well-formed volume.
 */
module NexCheck {
  import opened Bytes
  import opened NexLayout
  import opened NexVolume
  import opened NexLog
  import opened NexBlocks
  import opened NexTree
  import opened NexState
  import opened NexSteps
  import opened NexClaims
  import opened NexExplore

  /** The specification: a clean superblock over a well-formed volume. */
  ghost predicate Accepts(disk: Disk) {
    && |disk| > 1 && DecodeSuperblock(disk[1]).Ok?
    && var sb := DecodeSuperblock(disk[1]).value;
    && sb.IsClean() && sb.totalBlocks <= |disk|
    && WellFormed(View(disk, GeometryOf(sb)))
  }

  // ---------- bitmaps ----------

  method ReadBitmap(disk: Disk, g: Geometry) returns (bitmap: seq<byte>)
    requires Fits(disk, g)
    ensures |bitmap| == BLOCK_SIZE * g.BitmapBlocks()
    ensures forall b: nat :: Bit(bitmap, b) <==> b in View(disk, g).bbits
  {
    hide Bit;
    bitmap := [];
    for index := 0 to g.BitmapBlocks()
      invariant |bitmap| == BLOCK_SIZE * index
      invariant forall b: nat :: b < BITS_PER_BLOCK * index ==> Bit(bitmap, b) == BlockBit(disk, g, b)
    {
      forall b: nat | b < BITS_PER_BLOCK * (index + 1)
        ensures Bit(bitmap + disk[3 + index], b) == BlockBit(disk, g, b)
      {
        BitOfConcat(bitmap, disk[3 + index], b);
      }
      bitmap := bitmap + disk[3 + index];
    }
    forall b: nat ensures Bit(bitmap, b) <==> b in View(disk, g).bbits {
      BitInRange(bitmap, b);
    }
  }

  lemma BitInRange(s: seq<byte>, b: nat)
    ensures Bit(s, b) ==> b < 8 * |s|
  {
  }

  lemma BitOfConcat(s: seq<byte>, t: seq<byte>, b: nat)
    ensures b < 8 * |s| ==> Bit(s + t, b) == Bit(s, b)
    ensures b >= 8 * |s| ==> Bit(s + t, b) == Bit(t, b - 8 * |s|)
  {
  }

  /** Every metadata block must be marked; their ledger entries become 1. */
  method ReserveBlocks(g: Geometry, bitmap: seq<byte>, ghost v: Vol) returns (r: Result<Ledger>)
    requires VolOk(v) && v.g == g && forall b: nat :: Bit(bitmap, b) <==> b in v.bbits
    ensures r.Ok? <==> forall b: nat :: b < g.dataStart ==> b in v.bbits
    ensures r.Ok? ==> LedgerOk(v, r.value, map[])
  {
    hide Bit;
    var owners: Ledger := seq(g.total, _ => 0);
    for block := 0 to g.dataStart
      invariant |owners| == g.total
      invariant forall b: nat :: b < block ==> b in v.bbits && owners[b] == 1
      invariant forall b: nat :: block <= b < g.total ==> owners[b] == 0
    {
      if !Bit(bitmap, block) || owners[block] != 0 {
        return Err(InvalidLayout);
      }
      owners := owners[block := 1];
    }
    r := Ok(owners);
  }

  // ---------- inodes and their blocks ----------

  method ClaimDataBlock(g: Geometry, bitmap: seq<byte>, owners: Ledger, block: nat, ghost v: Vol) returns (r: Result<Ledger>)
    requires VolOk(v) && v.g == g && (forall b: nat :: Bit(bitmap, b) <==> b in v.bbits) && |owners| == g.total
    ensures r.Ok? <==> CanClaim(v, owners, block)
    ensures r.Ok? ==> block < |owners| && r.value == owners[block := 2]
    ensures r.Err? ==> r.error == InvalidLayout
  {
    hide Bit;
    if block < g.dataStart || block >= g.total || !Bit(bitmap, block) {
      return Err(InvalidLayout);
    }
    if owners[block] != 0 {
      return Err(InvalidLayout);
    }
    r := Ok(owners[block := 2]);
  }

  /** Claims a run of pointers; those from `used` on must be zero. */
  method ClaimRun(g: Geometry, bitmap: seq<byte>, owners: Ledger, pointers: seq<u64>, used: nat, ghost v: Vol)
    returns (r: Result<Ledger>)
    requires VolOk(v) && v.g == g && (forall b: nat :: Bit(bitmap, b) <==> b in v.bbits) && |owners| == g.total
    requires used <= |pointers|
    ensures r.Ok? <==> Claims(v, owners, pointers[..used]) && forall i :: used <= i < |pointers| ==> pointers[i] == 0
    ensures r.Ok? ==> Claimed(owners, r.value, pointers[..used])
  {
    hide Bit;
    var current := owners;
    for index := 0 to |pointers|
      invariant |current| == g.total
      invariant Claims(v, owners, pointers[..Min(index, used)]) && Claimed(owners, current, pointers[..Min(index, used)])
      invariant forall i :: used <= i < index ==> pointers[i] == 0
    {
      var pointer := pointers[index];
      if index < used {
        assert pointers[..used][..index] == pointers[..index] && pointers[..used][..index + 1] == pointers[..index + 1];
        ClaimsStep(v, owners, current, pointers[..used], index);
        var claimed := ClaimDataBlock(g, bitmap, current, pointer, v);
        if claimed.Err? {
          return claimed;
        }
        current := claimed.value;
      } else if pointer != 0 {
        return Err(CorruptInode);
      }
    }
    assert pointers[..Min(|pointers|, used)] == pointers[..used];
    r := Ok(current);
  }

  ghost predicate CanClaim(v: Vol, owners: Ledger, b: nat)
    requires |owners| == v.g.total
  {
    v.g.InData(b) && b in v.bbits && owners[b] == 0
  }

  /** Claiming one pointer after a prefix decides the prefix one longer. */
  lemma {:induction false} ClaimsStep(v: Vol, owners: Ledger, current: Ledger, cs: seq<nat>, k: nat)
    requires |owners| == v.g.total && k < |cs| && Claims(v, owners, cs[..k]) && Claimed(owners, current, cs[..k])
    ensures CanClaim(v, current, cs[k]) <==> Claims(v, owners, cs[..k + 1])
    ensures !CanClaim(v, current, cs[k]) ==> !Claims(v, owners, cs)
    ensures CanClaim(v, current, cs[k]) ==> Claimed(owners, current[cs[k] := 2], cs[..k + 1])
  {
    assert cs[..k + 1] == cs[..k] + [cs[k]];
    if Claims(v, owners, cs) {
      ClaimsEach(v, owners, current, cs, k);
    }
    if Claims(v, owners, cs[..k + 1]) {
      assert cs[..k + 1][..k] == cs[..k];
      ClaimsEach(v, owners, current, cs[..k + 1], k);
    }
    if CanClaim(v, current, cs[k]) {
      assert cs[k] !in cs[..k];
    }
  }

  lemma {:induction false} ClaimsEach(v: Vol, owners: Ledger, current: Ledger, cs: seq<nat>, k: nat)
    requires |owners| == v.g.total && k < |cs| && Claims(v, owners, cs) && Claimed(owners, current, cs[..k])
    ensures CanClaim(v, current, cs[k])
  {
    assert forall i :: 0 <= i < k ==> cs[..k][i] == cs[i];
    assert cs[k] !in cs[..k];
  }

  lemma {:induction false} ClaimsConcat(v: Vol, owners: Ledger, mid: Ledger, a: seq<nat>, b: seq<nat>)
    requires |owners| == v.g.total && Claims(v, owners, a) && Claimed(owners, mid, a)
    ensures Claims(v, mid, b) <==> Claims(v, owners, a + b)
    ensures forall after :: Claimed(mid, after, b) ==> Claimed(owners, after, a + b)
  {
    var cs := a + b;
    if Claims(v, mid, b) {
      assert forall i :: 0 <= i < |b| ==> b[i] !in a;
    }
    if Claims(v, owners, cs) {
      assert forall i :: 0 <= i < |a| ==> cs[i] == a[i];
      forall j | 0 <= j < |b| ensures b[j] !in a && v.g.InData(b[j]) && b[j] in v.bbits && owners[b[j]] == 0 {
        assert cs[|a| + j] == b[j];
      }
      forall i, j | 0 <= i < j < |b| ensures b[i] != b[j] {
        assert cs[|a| + i] == b[i] && cs[|a| + j] == b[j];
      }
    }
  }

  lemma ClaimsPrefix(v: Vol, owners: Ledger, a: seq<nat>, b: seq<nat>)
    requires |owners| == v.g.total && Claims(v, owners, a + b)
    ensures Claims(v, owners, a)
  {
    assert forall i :: 0 <= i < |a| ==> (a + b)[i] == a[i];
  }

  function TableWords(table: Block, n: nat): (s: seq<u64>)
    requires n <= INDIRECT_POINTERS
    ensures |s| == n && forall i :: 0 <= i < n ==> s[i] == PtrIn(table, i)
  {
    if n == 0 then [] else TableWords(table, n - 1) + [PtrIn(table, n - 1)]
  }

  /** `validate_inode_blocks`: claims every pointer of one inode. */
  method ValidateInodeBlocks(disk: Disk, g: Geometry, bitmap: seq<byte>, owners: Ledger, ino: Inode, ghost v: Vol)
    returns (r: Result<Ledger>)
    requires Fits(disk, g) && v == View(disk, g) && (forall b: nat :: Bit(bitmap, b) <==> b in v.bbits) && |owners| == g.total
    ensures r.Ok? <==> Claimable(v, owners, ino)
    ensures r.Ok? ==> Claimed(owners, r.value, ClaimList(v, ino))
  {
    hide View, Bit, Claims, Claimed, VolOk;
    ViewVolOk(disk, g);
    var expected := DataBlocksForSize(ino.size);
    if expected != ino.blockCount || expected > MAX_FILE_BLOCKS {
      return Err(CorruptInode);
    }
    var used := Min(expected, DIRECT_BLOCKS);
    r := ClaimRun(g, bitmap, owners, ino.direct, used, v);
    ghost var cs := ClaimList(v, ino);
    DirectClaims(v, owners, ino);
    if r.Err? {
      return;
    }
    if expected <= DIRECT_BLOCKS {
      if ino.indirect != 0 {
        r := Err(CorruptInode);
      }
      return;
    }
    assert ino.direct[..used] == ino.direct;
    r := ValidateTable(disk, g, bitmap, owners, r.value, ino, v);
  }

  lemma ViewVolOk(disk: Disk, g: Geometry)
    requires Fits(disk, g)
    ensures VolOk(View(disk, g))
  {
  }

  /** The direct pointers decide a small file, and are a precondition for a large one. */
  lemma {:induction false} DirectClaims(v: Vol, owners: Ledger, ino: Inode)
    requires |owners| == v.g.total && SizeOk(ino)
    ensures var used := Min(ino.blockCount, DIRECT_BLOCKS);
      var ok := Claims(v, owners, ino.direct[..used]) && forall i :: used <= i < |ino.direct| ==> ino.direct[i] == 0;
      && (Claimable(v, owners, ino) ==> ok)
      && (ino.blockCount <= DIRECT_BLOCKS ==> ClaimList(v, ino) == ino.direct[..used])
      && (ino.blockCount <= DIRECT_BLOCKS ==> (Claimable(v, owners, ino) <==> ok && ino.indirect == 0))
  {
    hide Claims;
    if ino.blockCount > DIRECT_BLOCKS {
      var rest := [ino.indirect] + TableBlocks(v, ino, ino.blockCount - DIRECT_BLOCKS);
      assert ClaimList(v, ino) == ino.direct + rest;
      assert ino.direct[..DIRECT_BLOCKS] == ino.direct;
      if Claims(v, owners, ino.direct + rest) {
        ClaimsPrefix(v, owners, ino.direct, rest);
      }
    }
  }

  /** The pointer table and the pointers in it. */
  method ValidateTable(disk: Disk, g: Geometry, bitmap: seq<byte>, owners: Ledger, direct: Ledger, ino: Inode, ghost v: Vol)
    returns (r: Result<Ledger>)
    requires Fits(disk, g) && v == View(disk, g) && (forall b: nat :: Bit(bitmap, b) <==> b in v.bbits) && |owners| == g.total
    requires SizeOk(ino) && ino.blockCount > DIRECT_BLOCKS && Claims(v, owners, ino.direct) && Claimed(owners, direct, ino.direct)
    ensures r.Ok? <==> Claimable(v, owners, ino)
    ensures r.Ok? ==> Claimed(owners, r.value, ClaimList(v, ino))
  {
    hide View, Bit, Claims, Claimed, VolOk, ClaimList;
    ViewVolOk(disk, g);
    ClaimedLength(owners, direct, ino.direct);
    var table := ClaimDataBlock(g, bitmap, direct, ino.indirect, v);
    TableClaims(v, owners, direct, ino);
    if table.Err? {
      return table;
    }
    ClaimedLength(owners, table.value, ino.direct + [ino.indirect]);
    var count := ino.blockCount - DIRECT_BLOCKS;
    DataBlockBytes(disk, g, ino.indirect);
    var words := TableWords(disk[ino.indirect], INDIRECT_POINTERS);
    WordsClaims(v, owners, table.value, ino, words);
    r := ClaimRun(g, bitmap, table.value, words, count, v);
  }

  lemma ClaimedLength(a: Ledger, b: Ledger, cs: seq<nat>)
    requires Claimed(a, b, cs)
    ensures |a| == |b|
  {
  }

  lemma DataBlockBytes(disk: Disk, g: Geometry, b: nat)
    requires Fits(disk, g) && g.InData(b)
    ensures BlockAt(View(disk, g), b) == disk[b]
  {
  }

  lemma {:induction false} TableClaims(v: Vol, owners: Ledger, direct: Ledger, ino: Inode)
    requires |owners| == v.g.total && SizeOk(ino) && ino.blockCount > DIRECT_BLOCKS && |direct| == |owners|
    requires Claims(v, owners, ino.direct) && Claimed(owners, direct, ino.direct)
    ensures Claimable(v, owners, ino) ==> CanClaim(v, direct, ino.indirect)
    ensures CanClaim(v, direct, ino.indirect) ==>
      Claims(v, owners, ino.direct + [ino.indirect]) && Claimed(owners, direct[ino.indirect := 2], ino.direct + [ino.indirect])
    ensures CanClaim(v, direct, ino.indirect) ==> v.g.InData(ino.indirect)
  {
    hide Claims, Claimed;
    var cs := ino.direct + [ino.indirect];
    var rest := TableBlocks(v, ino, ino.blockCount - DIRECT_BLOCKS);
    assert cs[..DIRECT_BLOCKS] == ino.direct && cs[DIRECT_BLOCKS] == ino.indirect && cs[..DIRECT_BLOCKS + 1] == cs;
    ClaimsStep(v, owners, direct, cs, DIRECT_BLOCKS);
    assert ClaimList(v, ino) == cs + rest;
    if Claims(v, owners, cs + rest) {
      ClaimsPrefix(v, owners, cs, rest);
    }
  }

  lemma {:induction false} WordsClaims(v: Vol, owners: Ledger, table: Ledger, ino: Inode, words: seq<u64>)
    requires |owners| == v.g.total && SizeOk(ino) && ino.blockCount > DIRECT_BLOCKS && |table| == |owners|
    requires Claims(v, owners, ino.direct + [ino.indirect]) && Claimed(owners, table, ino.direct + [ino.indirect])
    requires |words| == INDIRECT_POINTERS && forall i :: 0 <= i < |words| ==> words[i] == PtrIn(BlockAt(v, ino.indirect), i)
    ensures var count := ino.blockCount - DIRECT_BLOCKS;
      && (Claimable(v, owners, ino) <==>
            Claims(v, table, words[..count]) && forall i :: count <= i < |words| ==> words[i] == 0)
      && (forall after :: Claimed(table, after, words[..count]) ==> Claimed(owners, after, ClaimList(v, ino)))
  {
    hide Claims, Claimed, PtrIn;
    var count := ino.blockCount - DIRECT_BLOCKS;
    var cs := ino.direct + [ino.indirect];
    assert TableBlocks(v, ino, count) == words[..count];
    assert ClaimList(v, ino) == cs + words[..count];
    ClaimsConcat(v, owners, table, cs, words[..count]);
    UnusedWords(v, ino, words);
  }

  lemma {:induction false} UnusedWords(v: Vol, ino: Inode, words: seq<u64>)
    requires DIRECT_BLOCKS < ino.blockCount <= MAX_FILE_BLOCKS
    requires |words| == INDIRECT_POINTERS && forall i :: 0 <= i < |words| ==> words[i] == PtrIn(BlockAt(v, ino.indirect), i)
    ensures UnusedZero(v, ino) <==> forall i :: ino.blockCount - DIRECT_BLOCKS <= i < |words| ==> words[i] == 0
  {
    hide PtrIn;
    forall i: nat | DIRECT_BLOCKS <= i < MAX_FILE_BLOCKS ensures Ptr(v, ino, i) == words[i - DIRECT_BLOCKS] {}
    if UnusedZero(v, ino) {
      forall i | ino.blockCount - DIRECT_BLOCKS <= i < |words| ensures words[i] == 0 {
        assert Ptr(v, ino, DIRECT_BLOCKS + i) == words[i];
      }
    }
  }

  ghost predicate SlotsDecode(v: Vol) {
    forall n <- v.ibits :: 0 < n < |v.slots| ==> v.slots[n].Ok?
  }

  /** What the pass over the inode table finds out about each inode by itself. */
  ghost predicate KindsOk(t: InodeTable) {
    && (ROOT in t ==> t[ROOT].kind.Directory?)
    && forall n <- t :: t[n].kind.Directory? ==> t[n].size % DIR_ENTRY_SIZE == 0
  }

  /** The part of the inode table below `n`. */
  ghost predicate TableBelow(v: Vol, t: InodeTable, n: nat) {
    && (forall m: nat :: m in t <==> m < n && m in Inodes(v))
    && (forall m: nat :: m in t && m in Inodes(v) ==> t[m] == Inodes(v)[m])
  }

  method ReadSlot(disk: Disk, g: Geometry, n: nat) returns (r: Result<Inode>)
    requires Fits(disk, g) && n < g.InodeCount()
    ensures r == View(disk, g).slots[n]
  {
    SlotBlockRange(g, n);
    r := DecodeInode(disk[SlotBlock(g, n)][SlotOffset(n)..SlotOffset(n) + INODE_SIZE]);
  }

  ghost predicate KindOk(n: nat, ino: Inode) {
    (n == ROOT ==> ino.kind == Directory) && (ino.kind == Directory ==> ino.size % DIR_ENTRY_SIZE == 0)
  }

  /**
    What the pass over the inode table demands: every allocated inode decodes and is of a
    possible kind, its block map is in order over marked blocks, and no block is in two maps.
   */
  ghost predicate Apportioned(v: Vol) {
    var t := Inodes(v);
    && VolOk(v) && SlotsDecode(v) && KindsOk(t)
    && (forall n <- t :: BlocksOk(v, t[n]) && SizeOk(t[n]) && Tight(t[n]))
    && (forall n: nat, b: nat :: Owner(v, t, n, b) ==> b in v.bbits)
    && forall n: nat, m: nat, b: nat :: Owner(v, t, n, b) && Owner(v, t, m, b) ==> n == m
  }

  /** One allocated inode: decode, check its kind, claim its blocks. */
  method ClaimInode(disk: Disk, g: Geometry, bitmap: seq<byte>, owners: Ledger, n: nat, ghost v: Vol, ghost t: InodeTable)
    returns (r: Result<(Ledger, Inode)>)
    requires Fits(disk, g) && v == View(disk, g) && (forall b: nat :: Bit(bitmap, b) <==> b in v.bbits)
    requires 0 < n < g.InodeCount() && n in v.ibits && LedgerOk(v, owners, t) && TableBelow(v, t, n)
    ensures r.Ok? ==> v.slots[n] == Ok(r.value.1) && KindOk(n, r.value.1) && LedgerOk(v, r.value.0, t[n := r.value.1])
    ensures r.Err? ==> !Apportioned(v)
  {
    hide View, Bit, Apportioned, LedgerOk, Claimable, Inodes;
    var slot := ReadSlot(disk, g, n);
    InodesHere(v, n);
    if slot.Err? {
      BadSlot(v, n);
      return Err(slot.error);
    }
    var ino := slot.value;
    GoodKind(v, n);
    if n == ROOT && ino.kind != Directory {
      return Err(InvalidLayout);
    }
    if ino.kind == Directory && ino.size % DIR_ENTRY_SIZE != 0 {
      return Err(CorruptDirectory);
    }
    LedgerLength(v, owners, t);
    var claimed := ValidateInodeBlocks(disk, g, bitmap, owners, ino, v);
    if claimed.Err? {
      ApportionedClaims(v, owners, t, n);
      return Err(claimed.error);
    }
    ViewVolOk(disk, g);
    LedgerAdds(v, owners, t, claimed.value, n, ino);
    r := Ok((claimed.value, ino));
  }

  /** The pass over the inode table. */
  method ClaimInodes(disk: Disk, g: Geometry, bitmap: seq<byte>, start: Ledger, ghost v: Vol)
    returns (r: Result<(Ledger, InodeTable)>)
    requires Fits(disk, g) && v == View(disk, g) && (forall b: nat :: Bit(bitmap, b) <==> b in v.bbits)
    requires LedgerOk(v, start, map[])
    ensures r.Ok? ==> r.value.1 == Inodes(v) && LedgerOk(v, r.value.0, Inodes(v)) && SlotsDecode(v) && KindsOk(Inodes(v))
    ensures r.Ok? <==> Apportioned(v)
  {
    hide View, Bit, Apportioned, LedgerOk, Inodes, TableBelow, KindsOk, KindOk;
    var owners: Ledger, t: InodeTable := start, map[];
    TableStarts(v);
    var n := 1;
    while n < g.InodeCount()
      invariant 1 <= n <= g.InodeCount() && TableBelow(v, t, n) && LedgerOk(v, owners, t) && KindsOk(t)
      invariant forall m: nat :: m in v.ibits && 0 < m < n ==> m < |v.slots| && v.slots[m].Ok?
    {
      InodeBitHere(disk, g, n);
      if Bit(disk[2], n) {
        var claimed := ClaimInode(disk, g, bitmap, owners, n, v, t);
        if claimed.Err? {
          return Err(claimed.error);
        }
        TableGrows(v, t, n, claimed.value.1);
        owners, t := claimed.value.0, t[n := claimed.value.1];
      } else {
        TableSkips(v, t, n);
      }
      n := n + 1;
    }
    TableComplete(v, t);
    ViewVolOk(disk, g);
    LedgerApportioned(v, owners);
    r := Ok((owners, t));
  }

  lemma TableGrows(v: Vol, t: InodeTable, n: nat, ino: Inode)
    requires TableBelow(v, t, n) && 0 < n < |v.slots| && n in v.ibits && v.slots[n] == Ok(ino)
    requires KindsOk(t) && KindOk(n, ino)
    ensures TableBelow(v, t[n := ino], n + 1) && KindsOk(t[n := ino])
  {
    InodesHere(v, n);
  }

  lemma TableSkips(v: Vol, t: InodeTable, n: nat)
    requires TableBelow(v, t, n) && n !in v.ibits
    ensures TableBelow(v, t, n + 1)
  {
  }

  lemma TableStarts(v: Vol)
    ensures TableBelow(v, map[], 1) && KindsOk(map[])
  {
  }

  lemma LedgerLength(v: Vol, owners: Ledger, t: InodeTable)
    requires LedgerOk(v, owners, t)
    ensures |owners| == v.g.total
  {
  }

  lemma InodeBitHere(disk: Disk, g: Geometry, n: nat)
    requires Fits(disk, g)
    ensures Bit(disk[2], n) <==> n in View(disk, g).ibits
    ensures |View(disk, g).slots| == g.InodeCount()
  {
    hide Bit;
    BitInRange(disk[2], n);
  }

  lemma InodesHere(v: Vol, n: nat)
    requires 0 < n < |v.slots|
    ensures n in Inodes(v) <==> n in v.ibits && v.slots[n].Ok?
    ensures n in Inodes(v) ==> v.slots[n] == Ok(Inodes(v)[n])
  {
  }

  lemma BadSlot(v: Vol, n: nat)
    requires n in v.ibits && 0 < n < |v.slots| && v.slots[n].Err?
    ensures !Apportioned(v)
  {
  }

  lemma {:induction false} GoodKind(v: Vol, n: nat)
    requires n in Inodes(v)
    ensures Apportioned(v) ==> KindOk(n, Inodes(v)[n])
  {
    hide Inodes, Owned, BlocksOk;
  }

  /** On an apportioned volume every claim succeeds. */
  lemma {:induction false} ApportionedClaims(v: Vol, owners: Ledger, t: InodeTable, n: nat)
    requires LedgerOk(v, owners, t) && TableBelow(v, t, n) && n in Inodes(v)
    ensures Apportioned(v) ==> Claimable(v, owners, Inodes(v)[n])
  {
    hide Claimable, LedgerOk, Inodes, Owned, BlocksOk, TableBelow, SizeOk, Tight;
    if Apportioned(v) {
      var ino := Inodes(v)[n];
      LedgerLength(v, owners, t);
      BlocksOkBound(v, ino);
      forall b <- Owned(v, ino) ensures b in v.bbits && b < |owners| && owners[b] == 0 {
        UnclaimedYet(v, owners, t, n, b);
      }
      ClaimableIff(v, owners, ino);
    }
  }

  lemma {:induction false} UnclaimedYet(v: Vol, owners: Ledger, t: InodeTable, n: nat, b: nat)
    requires LedgerOk(v, owners, t) && TableBelow(v, t, n) && n in Inodes(v) && Apportioned(v)
    requires Inodes(v)[n].blockCount <= MAX_FILE_BLOCKS && b in Owned(v, Inodes(v)[n])
    ensures b in v.bbits && b < |owners| && owners[b] == 0
  {
    hide Inodes, SlotsDecode, KindsOk;
    var full := Inodes(v);
    assert Owner(v, full, n, b);
    assert v.g.InData(b) by { assert BlocksOk(v, full[n]); }
    assert forall m: nat :: Owner(v, t, m, b) ==> Owner(v, full, m, b) && m < n;
  }

  lemma {:induction false} WellFormedApportioned(v: Vol)
    requires WellFormed(v)
    ensures Apportioned(v)
  {
    hide Tree, ParseDir, Content, Owned, BlocksOk;
    var t := Inodes(v);
    forall n <- t ensures SizeOk(t[n]) && Tight(t[n]) && KindOk(n, t[n]) {
      assert InodeOk(v, t[n]);
      if n == ROOT {
        RootKind(v, n);
      }
    }
  }

  lemma RootKind(v: Vol, n: nat)
    requires WellFormed(v) && n in Inodes(v) && n == ROOT
    ensures Inodes(v)[n].kind == Directory
  {
    hide Ownership, EntriesOk, NamesOk, SingleRefs, Connected, BitsOk, VolOk, ParseDir, Content;
    assert InodeOk(v, Inodes(v)[n]);
  }

  lemma LedgerApportioned(v: Vol, owners: Ledger)
    requires VolOk(v) && LedgerOk(v, owners, Inodes(v)) && SlotsDecode(v) && KindsOk(Inodes(v))
    ensures Apportioned(v)
  {
    hide Owned, BlocksOk, Inodes, KindsOk, SlotsDecode;
  }

  lemma TableComplete(v: Vol, t: InodeTable)
    requires TableBelow(v, t, |v.slots|)
    ensures t == Inodes(v)
  {
    assert t.Keys == Inodes(v).Keys;
  }

  // ---------- coverage and tails ----------

  ghost predicate Covering(v: Vol, owners: Ledger)
    requires |owners| == v.g.total
  {
    forall b: nat :: v.g.InData(b) ==> (b in v.bbits <==> owners[b] == 2)
  }

  ghost predicate TailsClear(v: Vol) {
    (forall b <- v.bbits :: b < v.g.total) && (forall n <- v.ibits :: n < v.g.InodeCount())
  }

  /** Every allocated data block has an owner, and every owned one is allocated. */
  method CheckCoverage(g: Geometry, bitmap: seq<byte>, owners: Ledger, ghost v: Vol) returns (ok: bool)
    requires VolOk(v) && v.g == g && (forall b: nat :: Bit(bitmap, b) <==> b in v.bbits) && |owners| == g.total
    ensures ok <==> Covering(v, owners)
  {
    hide Bit;
    for block := g.dataStart to g.total
      invariant forall b: nat :: g.dataStart <= b < block ==> (b in v.bbits <==> owners[b] == 2)
    {
      if Bit(bitmap, block) != (owners[block] == 2) {
        return false;
      }
    }
    ok := true;
  }

  /** No bit beyond the end of either bitmap is set. */
  method CheckTails(disk: Disk, g: Geometry, bitmap: seq<byte>, ghost v: Vol) returns (ok: bool)
    requires Fits(disk, g) && v == View(disk, g) && (forall b: nat :: Bit(bitmap, b) <==> b in v.bbits)
    requires |bitmap| == BLOCK_SIZE * g.BitmapBlocks()
    ensures ok <==> TailsClear(v)
  {
    hide Bit, View;
    for block := g.total to |bitmap| * 8
      invariant forall b: nat :: g.total <= b < block ==> b !in v.bbits
    {
      if Bit(bitmap, block) {
        return false;
      }
    }
    forall b <- v.bbits ensures b < g.total {
      BitInRange(bitmap, b);
    }
    for n := g.InodeCount() to BITS_PER_BLOCK
      invariant forall m: nat :: g.InodeCount() <= m < n ==> m !in v.ibits
    {
      InodeBitHere(disk, g, n);
      if Bit(disk[2], n) {
        return false;
      }
    }
    forall n <- v.ibits ensures n < g.InodeCount() {
      InodeBitHere(disk, g, n);
      BitInRange(disk[2], n);
    }
    ok := true;
  }

  // ---------- the directory graph ----------

  /** The worklist: directories reached but not visited, each once. */
  ghost predicate PendingOk(t: InodeTable, reached: set<nat>, visited: set<nat>, pending: seq<nat>) {
    && reached <= t.Keys && visited <= reached && Distinct(pending)
    && (forall i :: 0 <= i < |pending| ==> pending[i] in t && pending[i] in reached && pending[i] !in visited && t[pending[i]].kind.Directory?)
    && (forall x <- reached :: t[x].kind.Directory? ==> x in visited || x in pending)
  }

  /** `read_all_inode_data`. */
  method ReadAll(disk: Disk, g: Geometry, ino: Inode, ghost v: Vol) returns (output: seq<byte>)
    requires Fits(disk, g) && v == View(disk, g) && BlocksOk(v, ino) && SizeOk(ino)
    ensures SizeOk(ino) && (SizeCovers(ino); output == Content(v, ino))
  {
    hide View, BlocksOk, Raw, PtrIn;
    ghost var raw := Raw(v, ino);
    output := [];
    for index := 0 to ino.blockCount
      invariant output == raw[..Min(BLOCK_SIZE * index, ino.size)]
    {
      var pointer := Pointer(disk, g, ino, index, v);
      var amount := Min(BLOCK_SIZE, ino.size - BLOCK_SIZE * index);
      RawChunk(v, ino, index, 0, amount);
      DataBlockBytes(disk, g, pointer);
      var at := BLOCK_SIZE * index;
      assert raw[..at] + raw[at..at + amount] == raw[..at + amount];
      output := output + disk[pointer][..amount];
    }
  }

  method Pointer(disk: Disk, g: Geometry, ino: Inode, index: nat, ghost v: Vol) returns (pointer: nat)
    requires Fits(disk, g) && v == View(disk, g) && BlocksOk(v, ino) && index < ino.blockCount && SizeOk(ino)
    ensures pointer == Ptr(v, ino, index) && g.InData(pointer)
  {
    hide View, PtrIn;
    if index < DIRECT_BLOCKS {
      pointer := ino.direct[index];
    } else {
      DataBlockBytes(disk, g, ino.indirect);
      pointer := PtrIn(disk[ino.indirect], index - DIRECT_BLOCKS);
    }
    PtrInData(v, ino, index);
  }

  /** What the pass over the inode table has established for every inode. */
  ghost predicate Screened(v: Vol, t: InodeTable) {
    && KindsOk(t) && ROOT in t
    && forall n <- t :: BlocksOk(v, t[n]) && SizeOk(t[n]) && Tight(t[n])
  }

  lemma {:induction false} ScreenedNode(v: Vol, t: InodeTable, n: nat)
    requires Screened(v, t) && n in t
    ensures BlocksOk(v, t[n]) && SizeOk(t[n]) && FsOf(v, t)[n].Kind() == t[n].kind
    ensures t[n].kind.Regular? ==> InodeOk(v, t[n]) && Entries(FsOf(v, t), n) == []
    ensures t[n].kind.Directory? ==>
      && t[n].size % DIR_ENTRY_SIZE == 0
      && (SizeCovers(t[n]);
          var parsed := ParseDir(Content(v, t[n]));
          (InodeOk(v, t[n]) <==> parsed.Ok?) && (parsed.Ok? ==> Entries(FsOf(v, t), n) == parsed.value))
  {
    hide BlocksOk, ParseDir, Content;
    SizeCovers(t[n]);
  }

  lemma {:induction false} ParseDirTake(s: seq<byte>, k: nat)
    requires |s| % DIR_ENTRY_SIZE == 0 && k % DIR_ENTRY_SIZE == 0 && k <= |s| && ParseDir(s[..k]).Ok? && ParseDir(s).Ok?
    ensures ParseDir(s[..k]).value <= ParseDir(s).value
    decreases |s| - k
  {
    hide ParseDir, DecodeEntry;
    if k == |s| {
      assert s[..k] == s;
    } else {
      var next := s[..k + DIR_ENTRY_SIZE];
      assert next == s[..k] + s[k..k + DIR_ENTRY_SIZE];
      ParseDirAppend(s[..k], s[k..k + DIR_ENTRY_SIZE]);
      ParseDirPrefix(s, k + DIR_ENTRY_SIZE);
      ParseDirTake(s, k + DIR_ENTRY_SIZE);
    }
  }

  /** Directory `d`, if it parses at all, has been explored as far as `es`. */
  ghost predicate Along(fs: Fs, d: nat, parses: bool, es: seq<DirEntry>, reached: set<nat>, seen: Progress) {
    parses ==> es <= Entries(fs, d) && Explored(fs, reached, seen[d := |es|])
  }

  lemma AlongStart(fs: Fs, d: nat, parses: bool, reached: set<nat>, seen: Progress)
    requires Explored(fs, reached, seen[d := 0])
    ensures Along(fs, d, parses, [], reached, seen)
  {
    hide Explored;
  }

  lemma AlongEnd(fs: Fs, d: nat, es: seq<DirEntry>, reached: set<nat>, seen: Progress)
    requires Along(fs, d, true, es, reached, seen)
    ensures Explored(fs, reached, seen[d := |es|])
  {
    hide Explored;
  }

  lemma {:induction false} AlongStep(fs: Fs, d: nat, parses: bool, es: seq<DirEntry>, e: DirEntry, reached: set<nat>, seen: Progress)
    requires Along(fs, d, parses, es, reached, seen) && (parses ==> es + [e] <= Entries(fs, d))
    ensures EntryOk(fs, e) && e.inode !in reached && !Named(es, e.name) ==> Along(fs, d, parses, es + [e], reached + {e.inode}, seen)
    ensures !EntryOk(fs, e) || e.inode in reached || Named(es, e.name) ==> !parses || !Tree(fs)
  {
    hide Entries, EntryOk, Explored, Named, Tree;
    if parses {
      var now := seen[d := |es|];
      assert (es + [e])[|es|] == e;
      assert Entries(fs, d)[|es|] == e && Entries(fs, d)[..|es|] == es;
      if EntryOk(fs, e) && e.inode !in reached && !Named(es, e.name) {
        ExploreStep(fs, reached, now, d);
        assert now[d := |es| + 1] == seen[d := |es| + 1];
      } else {
        StepRefutes(fs, reached, now, d);
      }
    }
  }

  lemma {:induction false} PendingStep(t: InodeTable, reached: set<nat>, visited: set<nat>, pending: seq<nat>, x: nat)
    requires PendingOk(t, reached, visited, pending) && x in t && x !in reached
    ensures PendingOk(t, reached + {x}, visited, if t[x].kind.Directory? then pending + [x] else pending)
  {
  }

  /** Entries that lead to inodes of their kind, met neither before nor twice, under different names. */
  ghost predicate Admissible(fs: Fs, es: seq<DirEntry>, reached: set<nat>) {
    forall k :: 0 <= k < |es| ==>
      && EntryOk(fs, es[k]) && es[k].inode !in reached
      && forall j :: 0 <= j < k ==> es[j].inode != es[k].inode && es[j].name != es[k].name
  }

  ghost predicate Admitted(fs: Fs, es: seq<DirEntry>, start: set<nat>, reached: set<nat>) {
    Admissible(fs, es, start) && forall n: nat :: n in reached <==> n in start || exists j :: 0 <= j < |es| && es[j].inode == n
  }

  lemma {:induction false} AdmitStep(fs: Fs, es: seq<DirEntry>, e: DirEntry, start: set<nat>, reached: set<nat>, all: Result<seq<DirEntry>>)
    requires Admitted(fs, es, start, reached) && (all.Ok? ==> es + [e] <= all.value)
    ensures EntryOk(fs, e) && e.inode !in reached && !Named(es, e.name) ==> Admitted(fs, es + [e], start, reached + {e.inode})
    ensures !EntryOk(fs, e) || e.inode in reached || Named(es, e.name) ==> all.Err? || !Admissible(fs, all.value, start)
  {
    hide EntryOk;
    var more := es + [e];
    assert more[|es|] == e && forall j :: 0 <= j < |es| ==> more[j] == es[j];
    assert all.Ok? ==> forall j :: 0 <= j < |more| ==> all.value[j] == more[j];
  }

  lemma NoneAdmitted(fs: Fs, start: set<nat>)
    ensures Admitted(fs, [], start, start)
  {
  }

  lemma AdmittedAll(fs: Fs, es: seq<DirEntry>, start: set<nat>, reached: set<nat>)
    requires Admitted(fs, es, start, reached)
    ensures Admissible(fs, es, start)
  {
  }

  /** One directory: its records decode, its names differ, its targets are new. */
  method CheckDirectory(t: InodeTable, bytes: seq<byte>, start: set<nat>, waiting: seq<nat>, ghost v: Vol, ghost d: nat, ghost seen: Progress)
    returns (r: Result<(set<nat>, seq<nat>)>)
    requires Screened(v, t) && d in t && SizeOk(t[d]) && t[d].kind.Directory? && (SizeCovers(t[d]); bytes == Content(v, t[d]))
    requires Explored(FsOf(v, t), start, seen[d := 0]) && PendingOk(t, start, seen.Keys + {d}, waiting)
    ensures r.Ok? ==>
      && ParseDir(bytes).Ok? && Explored(FsOf(v, t), r.value.0, seen[d := |Entries(FsOf(v, t), d)|])
      && PendingOk(t, r.value.0, seen.Keys + {d}, r.value.1)
    ensures r.Ok? <==> ParseDir(bytes).Ok? && Admissible(FsOf(v, t), ParseDir(bytes).value, start)
    ensures r.Err? ==> ParseDir(bytes).Err? || !Tree(FsOf(v, t))
  {
    hide Admissible, Admitted, EntryOk, Along, Screened, Content, FsOf, Entries, Explored, PendingOk, ParseDir, DecodeEntry, Named, Tree;
    ghost var fs := FsOf(v, t);
    ghost var parsed := ParseDir(bytes);
    ScreenedNode(v, t, d);
    var reached: set<nat>, pending: seq<nat> := start, waiting;
    var names: set<Name> := {};
    ghost var es: seq<DirEntry> := [];
    ParseDirPrefix(bytes, 0);
    NoneNamed();
    NoneAdmitted(fs, start);
    AlongStart(fs, d, parsed.Ok?, start, seen);
    for index := 0 to |bytes| / DIR_ENTRY_SIZE
      invariant ParseDir(bytes[..DIR_ENTRY_SIZE * index]) == Ok(es)
      invariant forall name: Name :: name in names <==> Named(es, name)
      invariant Along(fs, d, parsed.Ok?, es, reached, seen) && PendingOk(t, reached, seen.Keys + {d}, pending)
      invariant Admitted(fs, es, start, reached)
    {
      var at := index * DIR_ENTRY_SIZE;
      var encoded := bytes[at..at + DIR_ENTRY_SIZE];
      assert bytes[..at + DIR_ENTRY_SIZE] == bytes[..at] + encoded;
      ParseDirAppend(bytes[..at], encoded);
      ParseDirPrefix(bytes, at + DIR_ENTRY_SIZE);
      var decoded := DecodeEntry(encoded);
      if decoded.Err? {
        return Err(decoded.error);
      }
      var entry := decoded.value;
      ghost var next := es + [entry];
      if parsed.Ok? {
        ParseDirTake(bytes, at + DIR_ENTRY_SIZE);
      }
      AlongStep(fs, d, parsed.Ok?, es, entry, reached, seen);
      AdmitStep(fs, es, entry, start, reached, parsed);
      EntryTarget(v, t, entry);
      if entry.name in names || entry.inode == ROOT || entry.inode !in t {
        return Err(CorruptDirectory);
      }
      if t[entry.inode].kind != entry.kind || entry.inode in reached {
        return Err(CorruptDirectory);
      }
      OneMoreName(es, entry);
      PendingStep(t, reached, seen.Keys + {d}, pending, entry.inode);
      names := names + {entry.name};
      reached := reached + {entry.inode};
      if t[entry.inode].kind == Directory {
        pending := pending + [entry.inode];
      }
      es := next;
    }
    assert bytes[..|bytes|] == bytes;
    AdmittedAll(fs, es, start, reached);
    AlongEnd(fs, d, es, reached, seen);
    r := Ok((reached, pending));
  }

  lemma NoneNamed()
    ensures forall name: Name :: !Named([], name)
  {
  }

  lemma {:induction false} OneMoreName(es: seq<DirEntry>, e: DirEntry)
    ensures forall name: Name :: Named(es + [e], name) <==> Named(es, name) || name == e.name
  {
    forall name: Name ensures Named(es + [e], name) <==> Named(es, name) || name == e.name {
      if Named(es, name) {
        var i :| 0 <= i < |es| && es[i].name == name;
        assert (es + [e])[i].name == name;
      }
      if name == e.name {
        assert (es + [e])[|es|].name == name;
      }
    }
  }

  lemma {:induction false} EntryTarget(v: Vol, t: InodeTable, e: DirEntry)
    requires Screened(v, t)
    ensures EntryOk(FsOf(v, t), e) <==> e.inode != ROOT && e.inode in t && t[e.inode].kind == e.kind
  {
    hide Screened;
    if e.inode in t {
      ScreenedNode(v, t, e.inode);
    }
  }

  /** The directories opened so far parse and have been looked through. */
  ghost predicate Scanned(v: Vol, t: InodeTable, seen: Progress) {
    forall x <- seen :: x in t && InodeOk(v, t[x]) && seen[x] == |Entries(FsOf(v, t), x)|
  }

  lemma PendingPop(t: InodeTable, reached: set<nat>, visited: set<nat>, pending: seq<nat>)
    requires PendingOk(t, reached, visited, pending) && pending != []
    ensures var d := pending[|pending| - 1];
      && d in t && d in reached && d !in visited && t[d].kind.Directory?
      && PendingOk(t, reached, visited + {d}, pending[..|pending| - 1])
  {
  }

  /** The worklist is empty: the tree is decided by what has been reached. */
  lemma {:induction false} WalkDone(v: Vol, t: InodeTable, reached: set<nat>, seen: Progress)
    requires Screened(v, t) && Explored(FsOf(v, t), reached, seen) && PendingOk(t, reached, seen.Keys, []) && Scanned(v, t, seen)
    ensures t.Keys <= reached ==> Tree(FsOf(v, t)) && forall n <- t :: InodeOk(v, t[n])
    ensures !(t.Keys <= reached) ==> !Tree(FsOf(v, t))
  {
    hide Screened, Explored, Tree, InodeOk, Entries, FsOf;
    var fs := FsOf(v, t);
    forall n <- t ensures n in reached ==> Entries(fs, n) == [] || n in seen {
      ScreenedNode(v, t, n);
    }
    if t.Keys <= reached {
      forall n <- t ensures InodeOk(v, t[n]) {
        ScreenedNode(v, t, n);
      }
      RootIsDirectory(v, t);
      ExploredTree(fs, reached, seen);
    } else {
      var n :| n in t && n !in reached;
      LeftoverRefutes(fs, reached, seen, n);
    }
  }

  lemma RootIsDirectory(v: Vol, t: InodeTable)
    requires Screened(v, t)
    ensures ROOT in t && t[ROOT].kind.Directory? && FsOf(v, t)[ROOT].Dir?
  {
    ScreenedNode(v, t, ROOT);
  }

  /** Walks the directories from the root with a stack, then looks for what was missed. */
  method WalkTree(disk: Disk, g: Geometry, t: InodeTable, ghost v: Vol) returns (r: Result<()>)
    requires Fits(disk, g) && v == View(disk, g) && Screened(v, t) && forall n <- t :: 0 < n < g.InodeCount()
    ensures r.Ok? <==> Tree(FsOf(v, t)) && forall n <- t :: InodeOk(v, t[n])
  {
    hide View, Screened, Explored, PendingOk, Tree, InodeOk, Entries, FsOf, Content, ParseDir, BlocksOk;
    ghost var fs := FsOf(v, t);
    ghost var seen: Progress := map[];
    RootIsDirectory(v, t);
    ExploreStart(fs);
    var reached: set<nat>, pending: seq<nat> := {ROOT}, [ROOT];
    PendingStart(t);
    assert seen.Keys == {};
    while pending != []
      invariant Explored(fs, reached, seen) && PendingOk(t, reached, seen.Keys, pending) && Scanned(v, t, seen)
      decreases t.Keys - seen.Keys
    {
      var d := pending[|pending| - 1];
      PendingPop(t, reached, seen.Keys, pending);
      pending := pending[..|pending| - 1];
      ScreenedNode(v, t, d);
      var bytes := ReadAll(disk, g, t[d], v);
      ExploreOpen(fs, reached, seen, d);
      var checked := CheckDirectory(t, bytes, reached, pending, v, d, seen);
      if checked.Err? {
        return Err(checked.error);
      }
      reached, pending := checked.value.0, checked.value.1;
      ghost var next: Progress := seen[d := |Entries(fs, d)|];
      assert next.Keys == seen.Keys + {d};
      seen := next;
    }
    WalkDone(v, t, reached, seen);
    for n: nat := 1 to g.InodeCount()
      invariant forall m: nat :: m < n && m in t ==> m in reached
    {
      if n in t && n !in reached {
        return Err(InvalidLayout);
      }
    }
    r := Ok(());
  }

  lemma PendingStart(t: InodeTable)
    requires ROOT in t && t[ROOT].kind.Directory?
    ensures PendingOk(t, {ROOT}, {}, [ROOT])
  {
  }

  // ---------- the whole check ----------

  /** What the passes over the bitmaps and inodes decide. */
  lemma {:induction false} AcceptedVolume(v: Vol, owners: Ledger)
    requires VolOk(v) && LedgerOk(v, owners, Inodes(v)) && SlotsDecode(v) && KindsOk(Inodes(v)) && |owners| == v.g.total
    requires 0 in v.ibits && ROOT in v.ibits && forall b: nat :: b < v.g.dataStart ==> b in v.bbits
    ensures ROOT in Inodes(v) && Screened(v, Inodes(v)) && forall n <- Inodes(v) :: 0 < n < v.g.InodeCount()
    ensures WellFormed(v) <==>
      Covering(v, owners) && TailsClear(v) && Tree(FsOf(v, Inodes(v))) && forall n <- Inodes(v) :: InodeOk(v, Inodes(v)[n])
  {
    hide Tree, InodeOk, FsOf, Ownership, LedgerOk, Covering, Inodes, Screened, KindsOk, SlotsDecode, TailsClear, BitsOk, VolOk;
    var t := Inodes(v);
    DecodedInodes(v);
    BitsDecide(v);
    LedgerScreens(v, owners, t);
    if Covering(v, owners) {
      CoveringOwnership(v, owners, t);
    }
    if WellFormed(v) {
      OwnershipCovers(v, owners, t);
    }
  }

  lemma DecodedInodes(v: Vol)
    requires VolOk(v) && SlotsDecode(v) && ROOT in v.ibits
    ensures ROOT in Inodes(v) && forall n <- Inodes(v) :: 0 < n < v.g.InodeCount()
  {
  }

  lemma BitsDecide(v: Vol)
    requires VolOk(v) && SlotsDecode(v) && 0 in v.ibits && ROOT in v.ibits && forall b: nat :: b < v.g.dataStart ==> b in v.bbits
    ensures BitsOk(v) <==> TailsClear(v)
  {
  }

  lemma LedgerScreens(v: Vol, owners: Ledger, t: InodeTable)
    requires LedgerOk(v, owners, t) && KindsOk(t) && ROOT in t
    ensures Screened(v, t)
  {
  }

  lemma CoveringOwnership(v: Vol, owners: Ledger, t: InodeTable)
    requires VolOk(v) && LedgerOk(v, owners, t) && |owners| == v.g.total && Covering(v, owners)
    ensures Ownership(v, t)
  {
    hide LedgerOk, Ownership;
    LedgerIsOwnership(v, owners, t);
  }

  lemma {:induction false} OwnershipCovers(v: Vol, owners: Ledger, t: InodeTable)
    requires LedgerOk(v, owners, t) && |owners| == v.g.total && Ownership(v, t)
    ensures Covering(v, owners)
  {
    hide BlocksOk;
    forall b: nat | v.g.InData(b) ensures b in v.bbits <==> owners[b] == 2 {
      if owners[b] == 2 {
        var n: nat :| Owner(v, t, n, b);
        OwnerIn(v, t, n, b);
        assert b in Owned(v, t[n]);
      }
    }
  }

  /** `check_detailed` accepts exactly the clean, well-formed volumes. */
  method CheckDetailed(disk: Disk) returns (r: Result<Superblock>)
    ensures r.Ok? <==> Accepts(disk)
    ensures r.Ok? ==> r == DecodeSuperblock(disk[1])
    ensures |disk| > 1 && DirtyBlock(disk[1]) ==> r == Err(Dirty)
  {
    hide View, WellFormed, LedgerOk, Inodes, Bit, Tree, FsOf, InodeOk, DecodeSuperblock, VolOk, Screened, TailsClear, Covering;
    if |disk| < 2 {
      return Err(Storage);
    }
    var decoded := DecodeSuperblock(disk[1]);
    if decoded.Err? {
      return decoded;
    }
    var sb := decoded.value;
    if !sb.IsClean() {
      return Err(Dirty);
    }
    if sb.totalBlocks > |disk| {
      return Err(InvalidLayout);
    }
    r := CheckVolume(disk, sb);
  }

  lemma DecodedValid(block: Block)
    requires DecodeSuperblock(block).Ok?
    ensures DecodeSuperblock(block).value.Validate().Ok?
  {
  }

  method CheckVolume(disk: Disk, sb: Superblock) returns (r: Result<Superblock>)
    requires Fits(disk, GeometryOf(sb))
    ensures r.Ok? <==> WellFormed(View(disk, GeometryOf(sb)))
    ensures r.Ok? ==> r.value == sb
  {
    hide View, WellFormed, LedgerOk, Inodes, Bit, Tree, FsOf, InodeOk, VolOk, Screened, TailsClear, Covering, KindsOk, SlotsDecode, Apportioned;
    var g := GeometryOf(sb);
    ghost var v := View(disk, g);
    ViewVolOk(disk, g);
    InodeBitHere(disk, g, 0);
    InodeBitHere(disk, g, ROOT);
    ReservedSet(v);
    if !Bit(disk[2], 0) || !Bit(disk[2], ROOT) {
      return Err(InvalidLayout);
    }
    var bitmap := ReadBitmap(disk, g);
    var reserved := ReserveBlocks(g, bitmap, v);
    if reserved.Err? {
      return Err(reserved.error);
    }
    var claimed := ClaimInodes(disk, g, bitmap, reserved.value, v);
    if claimed.Err? {
      if WellFormed(v) {
        WellFormedApportioned(v);
      }
      return Err(claimed.error);
    }
    var owners, t := claimed.value.0, claimed.value.1;
    LedgerLength(v, owners, t);
    AcceptedVolume(v, owners);
    var covered := CheckCoverage(g, bitmap, owners, v);
    if !covered {
      return Err(InvalidLayout);
    }
    var clear := CheckTails(disk, g, bitmap, v);
    if !clear {
      return Err(InvalidLayout);
    }
    var walked := WalkTree(disk, g, t, v);
    if walked.Err? {
      return Err(walked.error);
    }
    r := Ok(sb);
  }

  lemma ReservedSet(v: Vol)
    ensures WellFormed(v) ==> 0 in v.ibits && ROOT in v.ibits && forall b: nat :: b < v.g.dataStart ==> b in v.bbits
  {
  }
}
