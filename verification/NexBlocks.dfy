/**
  Which data blocks an inode owns, the invariant that ties ownership to the block
  bitmap, and how appending, dropping and overwriting blocks moves it.  The
  table `t` maps inode numbers to inodes; an operation that works on an inode in
  memory passes the table with that inode's new value, whatever the inode's slot
  on disk still says.
 */
module NexBlocks {
  import opened Bytes
  import opened NexLayout
  import opened NexVolume

  type InodeTable = map<nat, Inode>

  const MAX_BYTES := BLOCK_SIZE * MAX_FILE_BLOCKS

  ghost predicate VolOk(v: Vol) {
    && v.g.Valid() && |v.slots| == v.g.InodeCount()
    && forall b: nat :: b in v.data <==> v.g.InData(b)
  }

  // ---------- pointers ----------

  function BlockAt(v: Vol, b: nat): Block {
    if b in v.data then v.data[b] else Zeros(BLOCK_SIZE)
  }

  function PtrIn(table: Block, k: nat): u64
    requires k < INDIRECT_POINTERS
  {
    GetU64(table, 8 * k)
  }

  function WithPtr(table: Block, k: nat, b: u64): Block
    requires k < INDIRECT_POINTERS
  {
    table[..8 * k] + LittleEndian(b, 8) + table[8 * k + 8..]
  }

  /** Block number `i` of the file, through the direct pointers or the table. */
  function Ptr(v: Vol, ino: Inode, i: nat): u64
    requires i < MAX_FILE_BLOCKS
  {
    if i < DIRECT_BLOCKS then ino.direct[i] else PtrIn(BlockAt(v, ino.indirect), i - DIRECT_BLOCKS)
  }

  lemma {:induction false} PtrInWithPtr(table: Block, k: nat, b: u64, j: nat)
    requires k < INDIRECT_POINTERS && j < INDIRECT_POINTERS
    ensures PtrIn(WithPtr(table, k, b), j) == if j == k then b else PtrIn(table, j)
  {
    var s := WithPtr(table, k, b);
    if j == k {
      assert b < Pow256(8) by { Pow256Values(); }
      StoredInteger(table[..8 * k], b, 8, table[8 * k + 8..]);
    } else if j < k {
      assert s[8 * j..8 * j + 8] == table[8 * j..8 * j + 8];
    } else {
      assert s[8 * j..8 * j + 8] == table[8 * j..8 * j + 8];
    }
  }

  lemma {:induction false} ZeroInteger(n: nat)
    ensures FromLittleEndian(Zeros(n)) == 0
  {
    if n > 0 {
      assert Zeros(n)[1..] == Zeros(n - 1);
      ZeroInteger(n - 1);
    }
  }

  lemma {:induction false} PtrInZeros(k: nat)
    requires k < INDIRECT_POINTERS
    ensures PtrIn(Zeros(BLOCK_SIZE), k) == 0
  {
    assert Zeros(BLOCK_SIZE)[8 * k..8 * k + 8] == Zeros(8);
    ZeroInteger(8);
  }

  // ---------- ownership ----------

  /** Pointers in use are in the data region, the others are zero. */
  ghost predicate Shape(v: Vol, ino: Inode) {
    && ino.blockCount <= MAX_FILE_BLOCKS
    && (forall i: nat :: i < ino.blockCount ==> v.g.InData(Ptr(v, ino, i)))
    && (forall i: nat :: ino.blockCount <= i < DIRECT_BLOCKS ==> ino.direct[i] == 0)
    && (ino.blockCount > DIRECT_BLOCKS ==> ino.indirect != 0)
    && (ino.indirect != 0 ==> v.g.InData(ino.indirect))
    && (ino.indirect != 0 ==>
          forall i: nat :: DIRECT_BLOCKS <= i < MAX_FILE_BLOCKS && ino.blockCount <= i ==> Ptr(v, ino, i) == 0)
  }

  ghost predicate Injective(v: Vol, ino: Inode)
    requires ino.blockCount <= MAX_FILE_BLOCKS
  {
    && (forall i: nat, j: nat :: i < j < ino.blockCount ==> Ptr(v, ino, i) != Ptr(v, ino, j))
    && (ino.indirect != 0 ==> forall i: nat :: i < ino.blockCount ==> Ptr(v, ino, i) != ino.indirect)
  }

  ghost predicate BlocksOk(v: Vol, ino: Inode) {
    Shape(v, ino) && Injective(v, ino)
  }

  ghost function Owned(v: Vol, ino: Inode): set<nat>
    requires ino.blockCount <= MAX_FILE_BLOCKS
  {
    (set i: nat | i < ino.blockCount :: Ptr(v, ino, i)) + (if ino.indirect != 0 then {ino.indirect} else {})
  }

  ghost predicate Owner(v: Vol, t: InodeTable, n: nat, b: nat) {
    n in t && t[n].blockCount <= MAX_FILE_BLOCKS && b in Owned(v, t[n])
  }

  /**
    Every block of the data region that the bitmap marks is owned by exactly one
    inode, through exactly one pointer, and no inode owns anything else.
   */
  ghost predicate Ownership(v: Vol, t: InodeTable) {
    && VolOk(v)
    && (forall n <- t :: BlocksOk(v, t[n]))
    && (forall n, m, b :: Owner(v, t, n, b) && Owner(v, t, m, b) ==> n == m)
    && (forall b: nat :: v.g.InData(b) && b in v.bbits ==> exists n :: Owner(v, t, n, b))
    && (forall n, b :: Owner(v, t, n, b) ==> b in v.bbits)
  }

  /** Nothing changes but free blocks and blocks of `ino`. */
  ghost predicate Touches(v: Vol, w: Vol, ino: Inode)
    requires ino.blockCount <= MAX_FILE_BLOCKS
  {
    && w.g == v.g && w.ibits == v.ibits && w.slots == v.slots && VolOk(w)
    && (forall b: nat :: !v.g.InData(b) ==> (b in w.bbits <==> b in v.bbits))
    && (forall b: nat :: b in v.bbits && b !in Owned(v, ino) ==> BlockAt(w, b) == BlockAt(v, b))
  }

  /** A file whose blocks, and what they hold, are the same in `v` and `w`. */
  ghost predicate SameFile(v: Vol, w: Vol, ino: Inode) {
    && ino.blockCount <= MAX_FILE_BLOCKS
    && Owned(w, ino) == Owned(v, ino)
    && forall b <- Owned(v, ino) :: BlockAt(w, b) == BlockAt(v, b)
  }

  lemma {:induction false} FrameFile(v: Vol, w: Vol, ino: Inode)
    requires w.g == v.g && BlocksOk(v, ino)
    requires forall b <- Owned(v, ino) :: BlockAt(w, b) == BlockAt(v, b)
    ensures SameFile(v, w, ino) && BlocksOk(w, ino)
    ensures forall i: nat :: i < MAX_FILE_BLOCKS && (i < ino.blockCount || ino.indirect != 0) ==> Ptr(w, ino, i) == Ptr(v, ino, i)
  {
    assert ino.indirect != 0 ==> ino.indirect in Owned(v, ino);
    assert forall i: nat :: i < MAX_FILE_BLOCKS && (i < ino.blockCount || ino.indirect != 0) ==> Ptr(w, ino, i) == Ptr(v, ino, i);
    assert Owned(w, ino) == Owned(v, ino);
  }

  /** The one place where the global invariant is re-established. */
  lemma {:induction false} OwnershipUpdate(v: Vol, t: InodeTable, w: Vol, n: nat, ino: Inode)
    requires Ownership(v, t) && n in t && Touches(v, w, t[n]) && BlocksOk(w, ino)
    requires forall b: nat :: v.g.InData(b) ==>
      (b in w.bbits <==> b in Owned(w, ino) || (b in v.bbits && b !in Owned(v, t[n])))
    requires forall b <- Owned(w, ino) :: b in Owned(v, t[n]) || b !in v.bbits
    ensures Ownership(w, t[n := ino])
    ensures forall m <- t :: m != n ==> SameFile(v, w, t[m])
  {
    forall m <- t | m != n ensures SameFile(v, w, t[m]) && BlocksOk(w, t[m]) {
      forall b <- Owned(v, t[m]) ensures BlockAt(w, b) == BlockAt(v, b) {
        assert Owner(v, t, m, b);
        assert b in Owned(v, t[n]) ==> Owner(v, t, n, b);
      }
      FrameFile(v, w, t[m]);
    }
    var u := t[n := ino];
    assert forall m, b :: m != n ==> Owner(w, u, m, b) == Owner(v, t, m, b);
    assert forall b :: Owner(w, u, n, b) <==> b in Owned(w, ino);
    assert forall b :: Owner(v, t, n, b) <==> b in Owned(v, t[n]);
    OwnershipFromOwners(v, t, w, n, ino);
  }

  lemma {:induction false} OwnershipFromOwners(v: Vol, t: InodeTable, w: Vol, n: nat, ino: Inode)
    requires Ownership(v, t) && n in t && w.g == v.g && VolOk(w)
    requires BlocksOk(w, ino)
    requires forall m <- t :: m != n ==> BlocksOk(w, t[m])
    requires forall m, b :: m != n ==> Owner(w, t[n := ino], m, b) == Owner(v, t, m, b)
    requires forall b :: Owner(w, t[n := ino], n, b) ==> Owner(v, t, n, b) || b !in v.bbits
    requires forall b: nat :: v.g.InData(b) ==>
      (b in w.bbits <==> Owner(w, t[n := ino], n, b) || (b in v.bbits && !Owner(v, t, n, b)))
    requires forall b <- Owned(w, ino) :: v.g.InData(b)
    ensures Ownership(w, t[n := ino])
  {
    hide BlocksOk;
    var u := t[n := ino];
    forall m, k, b | Owner(w, u, m, b) && Owner(w, u, k, b) ensures m == k {
      if m != n { assert Owner(v, t, m, b); }
      if k != n { assert Owner(v, t, k, b); }
    }
    forall b: nat | v.g.InData(b) && b in w.bbits ensures exists m :: Owner(w, u, m, b) {
      if !Owner(w, u, n, b) {
        var m :| Owner(v, t, m, b);
        assert m != n && Owner(w, u, m, b);
      }
    }
    forall m, b | Owner(w, u, m, b) ensures b in w.bbits {
      if m != n {
        assert Owner(v, t, m, b);
        OwnedInData(v, t, m, b);
        assert !Owner(v, t, n, b);
      }
    }
  }

  lemma BlocksOkBound(v: Vol, ino: Inode)
    ensures BlocksOk(v, ino) ==> ino.blockCount <= MAX_FILE_BLOCKS
  {
  }

  lemma OwnedInData(v: Vol, t: InodeTable, n: nat, b: nat)
    requires Ownership(v, t) && Owner(v, t, n, b)
    ensures v.g.InData(b)
  {
    assert BlocksOk(v, t[n]);
  }

  // ---------- contents ----------

  /** Every byte of the blocks of a file, in file order. */
  ghost function Raw(v: Vol, ino: Inode): (s: seq<byte>)
    requires ino.blockCount <= MAX_FILE_BLOCKS
    ensures |s| == BLOCK_SIZE * ino.blockCount
  {
    seq(BLOCK_SIZE * ino.blockCount,
        p requires 0 <= p < BLOCK_SIZE * ino.blockCount => BlockAt(v, Ptr(v, ino, p / BLOCK_SIZE))[p % BLOCK_SIZE])
  }

  lemma {:induction false} SameRaw(v: Vol, w: Vol, ino: Inode)
    requires BlocksOk(v, ino) && w.g == v.g
    requires forall b <- Owned(v, ino) :: BlockAt(w, b) == BlockAt(v, b)
    ensures Raw(w, ino) == Raw(v, ino)
  {
    FrameFile(v, w, ino);
    forall p | 0 <= p < BLOCK_SIZE * ino.blockCount ensures Raw(w, ino)[p] == Raw(v, ino)[p] {
      assert Ptr(v, ino, p / BLOCK_SIZE) in Owned(v, ino);
    }
  }

  // ---------- the four ways a block map changes ----------

  ghost predicate Free(v: Vol, b: nat) {
    v.g.InData(b) && b !in v.bbits
  }

  /** What every change of inode `n`, in memory, must achieve. */
  ghost predicate Changed(v: Vol, t: InodeTable, w: Vol, n: nat, ino: Inode) {
    && Ownership(w, t[n := ino])
    && w.g == v.g && w.ibits == v.ibits && w.slots == v.slots
    && (forall b: nat :: !v.g.InData(b) ==> (b in w.bbits <==> b in v.bbits))
    && (forall m <- t :: m != n ==> SameFile(v, w, t[m]))
  }

  lemma {:induction false} ChangedTransitive(v: Vol, t: InodeTable, w: Vol, x: Vol, n: nat, i: Inode, j: Inode)
    requires Changed(v, t, w, n, i) && Changed(w, t[n := i], x, n, j)
    ensures Changed(v, t, x, n, j)
  {
    hide Ownership;
    assert t[n := i][n := j] == t[n := j];
    forall m <- t | m != n ensures SameFile(v, x, t[m]) {
      assert t[n := i][m] == t[m];
    }
  }

  lemma ChangedRefl(v: Vol, t: InodeTable, n: nat)
    requires Ownership(v, t) && n in t
    ensures Changed(v, t, v, n, t[n])
  {
    assert t[n := t[n]] == t;
    forall m <- t ensures SameFile(v, v, t[m]) {
      assert BlocksOk(v, t[m]);
    }
  }

  function DirectAppended(ino: Inode, b: u64): Inode
    requires ino.blockCount < DIRECT_BLOCKS
  {
    ino.(direct := ino.direct[ino.blockCount := b], blockCount := ino.blockCount + 1)
  }

  /** The facts about one inode that the steps below start from. */
  ghost predicate Holds(v: Vol, ino: Inode) {
    VolOk(v) && BlocksOk(v, ino) && Owned(v, ino) <= v.bbits
  }

  lemma HoldsOf(v: Vol, t: InodeTable, n: nat)
    requires Ownership(v, t) && n in t
    ensures Holds(v, t[n])
  {
    forall b <- Owned(v, t[n]) ensures b in v.bbits {
      assert Owner(v, t, n, b);
    }
  }

  /** `w` and `new'` differ from `v` and `ino` by blocks gained and lost. */
  ghost predicate Moves(v: Vol, ino: Inode, w: Vol, new': Inode, gained: set<nat>, lost: set<nat>)
    requires ino.blockCount <= MAX_FILE_BLOCKS
  {
    && Touches(v, w, ino) && BlocksOk(w, new')
    && w.bbits == v.bbits + gained - lost
    && Owned(w, new') == Owned(v, ino) + gained - lost
    && gained !! v.bbits && lost <= Owned(v, ino)
  }

  lemma {:induction false} ChangedByMove(v: Vol, t: InodeTable, n: nat, w: Vol, new': Inode, gained: set<nat>, lost: set<nat>)
    requires Ownership(v, t) && n in t && t[n].blockCount <= MAX_FILE_BLOCKS
    requires Moves(v, t[n], w, new', gained, lost)
    ensures Changed(v, t, w, n, new')
  {
    hide Ownership, BlocksOk, VolOk;
    HoldsOf(v, t, n);
    OwnershipUpdate(v, t, w, n, new');
  }

  /** Appending block `b`, possibly with a new table, seen through the pointers. */
  lemma {:induction false} AppendedBlocks(v: Vol, ino: Inode, w: Vol, new': Inode, b: nat)
    requires Holds(v, ino) && Free(v, b) && ino.blockCount < MAX_FILE_BLOCKS && w.g == v.g
    requires new'.blockCount == ino.blockCount + 1
    requires new'.indirect == ino.indirect || (ino.indirect == 0 && Free(v, new'.indirect) && new'.indirect != b)
    requires new'.blockCount > DIRECT_BLOCKS ==> new'.indirect != 0
    requires forall i: nat :: new'.blockCount <= i < DIRECT_BLOCKS ==> new'.direct[i] == 0
    requires forall i: nat :: i < ino.blockCount ==> Ptr(w, new', i) == Ptr(v, ino, i)
    requires Ptr(w, new', ino.blockCount) == b
    requires new'.indirect != 0 ==>
      forall i: nat :: DIRECT_BLOCKS <= i < MAX_FILE_BLOCKS && new'.blockCount <= i ==> Ptr(w, new', i) == 0
    ensures BlocksOk(w, new')
    ensures Owned(w, new') == Owned(v, ino) + {b} + (if new'.indirect != 0 then {new'.indirect} else {})
  {
    hide Ptr;
    assert forall i: nat :: i < ino.blockCount ==> Ptr(v, ino, i) in Owned(v, ino);
    assert ino.indirect != 0 ==> ino.indirect in Owned(v, ino);
  }

  lemma {:induction false} AppendDirectMoves(v: Vol, ino: Inode, b: u64)
    requires Holds(v, ino) && ino.blockCount < DIRECT_BLOCKS && Free(v, b)
    ensures var w := v.(bbits := v.bbits + {b}, data := v.data[b := Zeros(BLOCK_SIZE)]);
      var new' := DirectAppended(ino, b);
      Moves(v, ino, w, new', {b}, {}) && Ptr(w, new', ino.blockCount) == b
      && forall i: nat :: i < ino.blockCount ==> Ptr(w, new', i) == Ptr(v, ino, i)
  {
    hide Injective;
    var new' := DirectAppended(ino, b);
    var w := v.(bbits := v.bbits + {b}, data := v.data[b := Zeros(BLOCK_SIZE)]);
    assert ino.indirect != 0 ==> ino.indirect in Owned(v, ino);
    forall i: nat | i < MAX_FILE_BLOCKS && i != ino.blockCount && (i < DIRECT_BLOCKS || ino.indirect != 0)
      ensures Ptr(w, new', i) == Ptr(v, ino, i) {}
    AppendedBlocks(v, ino, w, new', b);
    assert Owned(w, new') == Owned(v, ino) + {b};
  }

  lemma {:induction false} AppendDirect(v: Vol, t: InodeTable, n: nat, b: u64)
    requires Ownership(v, t) && n in t && t[n].blockCount < DIRECT_BLOCKS && Free(v, b)
    ensures var w := v.(bbits := v.bbits + {b}, data := v.data[b := Zeros(BLOCK_SIZE)]);
      Changed(v, t, w, n, DirectAppended(t[n], b))
      && Raw(w, DirectAppended(t[n], b)) == Raw(v, t[n]) + Zeros(BLOCK_SIZE)
  {
    hide Ownership, Changed, Moves;
    var w := v.(bbits := v.bbits + {b}, data := v.data[b := Zeros(BLOCK_SIZE)]);
    HoldsOf(v, t, n);
    AppendDirectMoves(v, t[n], b);
    ChangedByMove(v, t, n, w, DirectAppended(t[n], b), {b}, {});
    RawAppended(v, t[n], w, DirectAppended(t[n], b), b);
  }

  /** A zeroed block at the end of the block map adds 4096 zero bytes. */
  lemma {:induction false} RawAppended(v: Vol, ino: Inode, w: Vol, new': Inode, b: nat)
    requires Holds(v, ino) && ino.blockCount < MAX_FILE_BLOCKS && new'.blockCount == ino.blockCount + 1
    requires forall i: nat :: i < ino.blockCount ==> Ptr(w, new', i) == Ptr(v, ino, i)
    requires forall i: nat :: i < ino.blockCount ==> BlockAt(w, Ptr(v, ino, i)) == BlockAt(v, Ptr(v, ino, i))
    requires Ptr(w, new', ino.blockCount) == b && BlockAt(w, b) == Zeros(BLOCK_SIZE)
    ensures Raw(w, new') == Raw(v, ino) + Zeros(BLOCK_SIZE)
  {
    var r := Raw(v, ino) + Zeros(BLOCK_SIZE);
    forall p | 0 <= p < |r| ensures Raw(w, new')[p] == r[p] {
      var i := p / BLOCK_SIZE;
      assert i < ino.blockCount || i == ino.blockCount;
    }
  }

  /** The volume and inode after block `b` joins the pointer table in block `x`. */
  ghost function TableAppendedVol(v: Vol, ino: Inode, b: u64, x: u64): Vol
    requires DIRECT_BLOCKS <= ino.blockCount < MAX_FILE_BLOCKS
  {
    var table := if ino.indirect != 0 then BlockAt(v, x) else Zeros(BLOCK_SIZE);
    v.(bbits := v.bbits + {b, x},
       data := v.data[b := Zeros(BLOCK_SIZE)][x := WithPtr(table, ino.blockCount - DIRECT_BLOCKS, b)])
  }

  function TableAppended(ino: Inode, x: u64): Inode
    requires ino.blockCount < MAX_FILE_BLOCKS
  {
    ino.(indirect := x, blockCount := ino.blockCount + 1)
  }

  lemma {:induction false} AppendInTableMoves(v: Vol, ino: Inode, b: u64, x: u64)
    requires Holds(v, ino) && DIRECT_BLOCKS <= ino.blockCount < MAX_FILE_BLOCKS && Free(v, b)
    requires if ino.indirect != 0 then x == ino.indirect else Free(v, x) && x != b
    ensures var w, new' := TableAppendedVol(v, ino, b, x), TableAppended(ino, x);
      Moves(v, ino, w, new', if ino.indirect != 0 then {b} else {b, x}, {}) && Ptr(w, new', ino.blockCount) == b
      && forall i: nat :: i < ino.blockCount ==> Ptr(w, new', i) == Ptr(v, ino, i)
  {
    hide Injective, PtrIn, WithPtr;
    var w, new' := TableAppendedVol(v, ino, b, x), TableAppended(ino, x);
    assert ino.indirect != 0 ==> x in Owned(v, ino);
    TablePointers(v, ino, w, new', b);
    AppendedBlocks(v, ino, w, new', b);
    var gained := if ino.indirect != 0 then {b} else {b, x};
    assert Owned(w, new') == Owned(v, ino) + gained;
    assert w.bbits == v.bbits + gained;
  }

  lemma {:induction false} TablePointers(v: Vol, ino: Inode, w: Vol, new': Inode, b: u64)
    requires BlocksOk(v, ino) && DIRECT_BLOCKS <= ino.blockCount < MAX_FILE_BLOCKS
    requires new'.direct == ino.direct
    requires BlockAt(w, new'.indirect)
      == WithPtr(if ino.indirect != 0 then BlockAt(v, ino.indirect) else Zeros(BLOCK_SIZE), ino.blockCount - DIRECT_BLOCKS, b)
    ensures forall i: nat :: i < ino.blockCount ==> Ptr(w, new', i) == Ptr(v, ino, i)
    ensures Ptr(w, new', ino.blockCount) == b
    ensures forall i: nat :: ino.blockCount < i < MAX_FILE_BLOCKS ==> Ptr(w, new', i) == 0
  {
    hide Injective;
    forall i: nat | i < MAX_FILE_BLOCKS
      ensures Ptr(w, new', i) == if i < ino.blockCount then Ptr(v, ino, i) else if i == ino.blockCount then b else 0
    {
      if i >= DIRECT_BLOCKS {
        TablePointer(v, ino, w, new', b, i);
      }
    }
  }

  lemma {:induction false} TablePointer(v: Vol, ino: Inode, w: Vol, new': Inode, b: u64, i: nat)
    requires BlocksOk(v, ino) && DIRECT_BLOCKS <= ino.blockCount < MAX_FILE_BLOCKS && DIRECT_BLOCKS <= i < MAX_FILE_BLOCKS
    requires BlockAt(w, new'.indirect)
      == WithPtr(if ino.indirect != 0 then BlockAt(v, ino.indirect) else Zeros(BLOCK_SIZE), ino.blockCount - DIRECT_BLOCKS, b)
    ensures Ptr(w, new', i) == if i < ino.blockCount then Ptr(v, ino, i) else if i == ino.blockCount then b else 0
  {
    hide Injective, WithPtr, PtrIn, BlockAt;
    var k := ino.blockCount - DIRECT_BLOCKS;
    var old' := if ino.indirect != 0 then BlockAt(v, ino.indirect) else Zeros(BLOCK_SIZE);
    PtrInWithPtr(old', k, b, i - DIRECT_BLOCKS);
    assert Ptr(w, new', i) == PtrIn(WithPtr(old', k, b), i - DIRECT_BLOCKS);
    if ino.indirect == 0 {
      PtrInZeros(i - DIRECT_BLOCKS);
    } else {
      assert Ptr(v, ino, i) == PtrIn(old', i - DIRECT_BLOCKS);
    }
  }

  /** Appends block `b` to the pointer table in block `x`, new or already owned. */
  lemma {:induction false} AppendInTable(v: Vol, t: InodeTable, n: nat, b: u64, x: u64)
    requires Ownership(v, t) && n in t && DIRECT_BLOCKS <= t[n].blockCount < MAX_FILE_BLOCKS && Free(v, b)
    requires if t[n].indirect != 0 then x == t[n].indirect else Free(v, x) && x != b
    ensures Changed(v, t, TableAppendedVol(v, t[n], b, x), n, TableAppended(t[n], x))
    ensures Raw(TableAppendedVol(v, t[n], b, x), TableAppended(t[n], x)) == Raw(v, t[n]) + Zeros(BLOCK_SIZE)
  {
    hide Ownership, Changed, Moves;
    var ino := t[n];
    var w, new' := TableAppendedVol(v, ino, b, x), TableAppended(ino, x);
    HoldsOf(v, t, n);
    AppendInTableMoves(v, ino, b, x);
    ChangedByMove(v, t, n, w, new', if ino.indirect != 0 then {b} else {b, x}, {});
    assert ino.indirect != 0 ==> ino.indirect in Owned(v, ino);
    assert forall i: nat :: i < ino.blockCount ==> Ptr(v, ino, i) in Owned(v, ino);
    RawAppended(v, ino, w, new', b);
  }

  /** The inode and volume after the last block of the file is given back. */
  function LastDropped(ino: Inode): Inode
    requires 0 < ino.blockCount
  {
    var c := ino.blockCount - 1;
    if c < DIRECT_BLOCKS then ino.(direct := ino.direct[c := 0], blockCount := c) else ino.(blockCount := c)
  }

  ghost function LastDroppedVol(v: Vol, ino: Inode): Vol
    requires 0 < ino.blockCount <= MAX_FILE_BLOCKS
  {
    var c := ino.blockCount - 1;
    var w := v.(bbits := v.bbits - {Ptr(v, ino, c)});
    if c < DIRECT_BLOCKS then w
    else w.(data := v.data[ino.indirect := WithPtr(BlockAt(v, ino.indirect), c - DIRECT_BLOCKS, 0)])
  }

  lemma {:induction false} DroppedPointers(v: Vol, ino: Inode, i: nat)
    requires BlocksOk(v, ino) && 0 < ino.blockCount && i < MAX_FILE_BLOCKS
    requires i < DIRECT_BLOCKS || ino.indirect != 0
    ensures Ptr(LastDroppedVol(v, ino), LastDropped(ino), i) == if i < ino.blockCount - 1 then Ptr(v, ino, i) else 0
  {
    hide Injective, PtrIn, WithPtr;
    var c := ino.blockCount - 1;
    var w, new' := LastDroppedVol(v, ino), LastDropped(ino);
    if c >= DIRECT_BLOCKS && i >= DIRECT_BLOCKS {
      var table := BlockAt(v, ino.indirect);
      PtrInWithPtr(table, c - DIRECT_BLOCKS, 0, i - DIRECT_BLOCKS);
      assert Ptr(w, new', i) == PtrIn(WithPtr(table, c - DIRECT_BLOCKS, 0), i - DIRECT_BLOCKS);
      assert Ptr(v, ino, i) == PtrIn(table, i - DIRECT_BLOCKS);
    } else {
      assert i != c ==> Ptr(w, new', i) == Ptr(v, ino, i);
    }
  }

  lemma {:induction false} DropLastMoves(v: Vol, ino: Inode)
    requires Holds(v, ino) && 0 < ino.blockCount
    ensures Moves(v, ino, LastDroppedVol(v, ino), LastDropped(ino), {}, {Ptr(v, ino, ino.blockCount - 1)})
    ensures forall i: nat :: i < ino.blockCount - 1 ==>
      Ptr(LastDroppedVol(v, ino), LastDropped(ino), i) == Ptr(v, ino, i)
  {
    hide Injective, PtrIn, WithPtr;
    var c := ino.blockCount - 1;
    var w, new', b := LastDroppedVol(v, ino), LastDropped(ino), Ptr(v, ino, c);
    forall i: nat | i < MAX_FILE_BLOCKS && (i < DIRECT_BLOCKS || ino.indirect != 0)
      ensures Ptr(w, new', i) == if i < c then Ptr(v, ino, i) else 0
    {
      DroppedPointers(v, ino, i);
    }
    DroppedBlocks(v, ino, w, new', b);
  }

  lemma {:induction false} DroppedBlocks(v: Vol, ino: Inode, w: Vol, new': Inode, b: nat)
    requires Holds(v, ino) && 0 < ino.blockCount && b == Ptr(v, ino, ino.blockCount - 1) && w.g == v.g
    requires new'.blockCount == ino.blockCount - 1 && new'.indirect == ino.indirect
    requires forall i: nat :: new'.blockCount <= i < DIRECT_BLOCKS ==> new'.direct[i] == 0
    requires forall i: nat :: i < new'.blockCount ==> Ptr(w, new', i) == Ptr(v, ino, i)
    requires new'.indirect != 0 ==>
      forall i: nat :: DIRECT_BLOCKS <= i < MAX_FILE_BLOCKS && new'.blockCount <= i ==> Ptr(w, new', i) == 0
    ensures BlocksOk(w, new') && Owned(w, new') == Owned(v, ino) - {b}
    ensures ino.indirect != 0 ==> ino.indirect in Owned(v, ino)
    ensures b in Owned(v, ino)
  {
    hide Ptr;
    assert forall i: nat :: i < ino.blockCount ==> Ptr(v, ino, i) in Owned(v, ino);
    assert forall i: nat :: i < new'.blockCount ==> Ptr(v, ino, i) != b;
    assert ino.indirect != 0 ==> ino.indirect in Owned(v, ino);
  }

  lemma {:induction false} DropLast(v: Vol, t: InodeTable, n: nat)
    requires Ownership(v, t) && n in t && 0 < t[n].blockCount
    ensures t[n].blockCount <= MAX_FILE_BLOCKS
    ensures Changed(v, t, LastDroppedVol(v, t[n]), n, LastDropped(t[n]))
    ensures Raw(LastDroppedVol(v, t[n]), LastDropped(t[n])) == Raw(v, t[n])[..BLOCK_SIZE * (t[n].blockCount - 1)]
  {
    hide Ownership, Changed, Moves;
    var ino := t[n];
    HoldsOf(v, t, n);
    DropLastMoves(v, ino);
    var c := ino.blockCount - 1;
    var w, new' := LastDroppedVol(v, ino), LastDropped(ino);
    ChangedByMove(v, t, n, w, new', {}, {Ptr(v, ino, c)});
    forall p | 0 <= p < BLOCK_SIZE * c ensures Raw(w, new')[p] == Raw(v, ino)[p] {
      assert p / BLOCK_SIZE < c;
      assert Ptr(v, ino, p / BLOCK_SIZE) != ino.indirect || ino.indirect == 0;
    }
    assert Raw(w, new') == Raw(v, ino)[..BLOCK_SIZE * c];
  }

  /** Giving back a pointer table that no block needs any more. */
  lemma {:induction false} DropTable(v: Vol, t: InodeTable, n: nat)
    requires Ownership(v, t) && n in t && t[n].blockCount <= DIRECT_BLOCKS && t[n].indirect != 0
    ensures var w := v.(bbits := v.bbits - {t[n].indirect});
      Changed(v, t, w, n, t[n].(indirect := 0)) && Raw(w, t[n].(indirect := 0)) == Raw(v, t[n])
  {
    hide Ownership, Changed;
    var ino := t[n];
    var w, new' := v.(bbits := v.bbits - {ino.indirect}), ino.(indirect := 0);
    HoldsOf(v, t, n);
    assert forall i: nat :: i < ino.blockCount ==> Ptr(w, new', i) == Ptr(v, ino, i);
    assert Owned(w, new') == Owned(v, ino) - {ino.indirect};
    ChangedByMove(v, t, n, w, new', {}, {ino.indirect});
    assert Raw(w, new') == Raw(v, ino);
  }

  /** Overwriting part of one block of the file overlays the file's bytes. */
  lemma {:induction false} WriteWithinBlock(v: Vol, t: InodeTable, n: nat, i: nat, within: nat, chunk: seq<byte>)
    requires Ownership(v, t) && n in t && i < t[n].blockCount && within + |chunk| <= BLOCK_SIZE
    ensures t[n].blockCount <= MAX_FILE_BLOCKS
    ensures var b := Ptr(v, t[n], i);
      var w := v.(data := v.data[b := Patched(BlockAt(v, b), within, chunk)]);
      Changed(v, t, w, n, t[n])
      && Raw(w, t[n]) == Patched(Raw(v, t[n]), BLOCK_SIZE * i + within, chunk)
  {
    hide Ownership, Changed, Moves;
    HoldsOf(v, t, n);
    var b := Ptr(v, t[n], i);
    var w := v.(data := v.data[b := Patched(BlockAt(v, b), within, chunk)]);
    OverwriteMoves(v, t[n], i, Patched(BlockAt(v, b), within, chunk));
    ChangedByMove(v, t, n, w, t[n], {}, {});
    RawOverlay(v, w, t[n], i, within, chunk);
  }

  lemma {:induction false} OverwriteMoves(v: Vol, ino: Inode, i: nat, block: Block)
    requires Holds(v, ino) && i < ino.blockCount
    ensures var w := v.(data := v.data[Ptr(v, ino, i) := block]);
      Moves(v, ino, w, ino, {}, {}) && forall j: nat :: j < ino.blockCount ==> Ptr(w, ino, j) == Ptr(v, ino, j)
  {
    hide PtrIn;
    var b := Ptr(v, ino, i);
    var w := v.(data := v.data[b := block]);
    assert b in Owned(v, ino);
    assert ino.indirect != 0 ==> ino.indirect != b;
    forall j: nat | j < MAX_FILE_BLOCKS && (j < DIRECT_BLOCKS || ino.indirect != 0)
      ensures Ptr(w, ino, j) == Ptr(v, ino, j) {}
    assert Owned(w, ino) == Owned(v, ino);
  }

  lemma {:induction false} RawOverlay(v: Vol, w: Vol, ino: Inode, i: nat, within: nat, chunk: seq<byte>)
    requires BlocksOk(v, ino) && i < ino.blockCount && within + |chunk| <= BLOCK_SIZE
    requires forall j: nat :: j < ino.blockCount ==> Ptr(w, ino, j) == Ptr(v, ino, j)
    requires forall j: nat :: j < ino.blockCount ==>
      BlockAt(w, Ptr(v, ino, j)) == if j == i then Patched(BlockAt(v, Ptr(v, ino, i)), within, chunk) else BlockAt(v, Ptr(v, ino, j))
    ensures Raw(w, ino) == Patched(Raw(v, ino), BLOCK_SIZE * i + within, chunk)
  {
    hide Ptr, BlockAt;
    var r := Patched(Raw(v, ino), BLOCK_SIZE * i + within, chunk);
    forall p | 0 <= p < |r| ensures Raw(w, ino)[p] == r[p] {
      var j := p / BLOCK_SIZE;
      assert p == BLOCK_SIZE * j + p % BLOCK_SIZE;
    }
  }
}
