/**
  What the processor lets through: a page may be used in some way exactly when every
  entry the walk reads is present and grants it.
 */
module PageAccess {
  import opened Bytes
  import opened Frames
  import opened PageTable

  datatype Right = ByUser | ForWriting | ForExecution

  /** Bits 1 and 2 grant, bit 63 denies. */
  predicate Grants(e: u64, right: Right) {
    match right
    case ByUser => e / 4 % 2 == 1
    case ForWriting => e / 2 % 2 == 1
    case ForExecution => e < 0x8000_0000_0000_0000
  }

  /** The entry that the walk for `va` reads at `level`. */
  function EntryAt(mem: Memory, root: nat, va: nat, level: nat): Option<u64> {
    match TableAt(mem, root, va, level)
    case None => None
    case Some(t) => if t in mem then Some(mem[t][Index(va, level)]) else None
  }

  predicate Passes(e: Option<u64>, right: Right) {
    e.Some? && Present(e.value) && Grants(e.value, right)
  }

  /** Down to `level`, every entry lets the walk pass. */
  ghost predicate Upper(mem: Memory, root: nat, va: nat, level: nat, right: Right) {
    forall k: nat :: k < level ==> Passes(EntryAt(mem, root, va, k), right)
  }

  ghost predicate Access(mem: Memory, root: nat, va: nat, right: Right) {
    forall k: nat :: k <= 3 && TableAt(mem, root, va, k).Some? ==> Passes(EntryAt(mem, root, va, k), right)
  }

  lemma TableBefore(mem: Memory, root: nat, va: nat, level: nat)
    requires TableAt(mem, root, va, level).Some?
    ensures forall k: nat :: k <= level ==> TableAt(mem, root, va, k).Some?
  {
    hide Leads, Index;
    if level > 0 {
      TableBefore(mem, root, va, level - 1);
    }
  }

  /** A walk that gets to the last table needs the three entries above and the leaf. */
  lemma {:induction false} AccessAtLeaf(mem: Memory, root: nat, va: nat, right: Right)
    requires TableAt(mem, root, va, 3).Some?
    ensures Access(mem, root, va, right) <==> Upper(mem, root, va, 3, right) && Passes(EntryAt(mem, root, va, 3), right)
  {
    hide TableAt, Index, Passes;
    TableBefore(mem, root, va, 3);
    if Access(mem, root, va, right) {
      forall k: nat | k < 3 ensures Passes(EntryAt(mem, root, va, k), right) {
        assert TableAt(mem, root, va, k).Some?;
      }
    }
    if Upper(mem, root, va, 3, right) && Passes(EntryAt(mem, root, va, 3), right) {
      forall k: nat | k <= 3 ensures Passes(EntryAt(mem, root, va, k), right) {}
    }
  }

  /** An entry that does not pass ends it. */
  lemma NoAccess(mem: Memory, root: nat, va: nat, level: nat, right: Right)
    requires level <= 3 && TableAt(mem, root, va, level).Some? && !Passes(EntryAt(mem, root, va, level), right)
    ensures !Access(mem, root, va, right)
  {
    hide TableAt, Index, Passes;
  }

  /** Walks that do not read the changed entry read what they read before. */
  lemma {:induction false} OtherEntries(mem: Memory, after: Memory, root: nat, tables: Tables, t: nat, i: nat, va: nat, level: nat)
    requires Tree(mem, root, tables) && OneEntry(mem, after, tables, t, i) && level <= 3
    requires !Reads(mem, root, tables, va, t, i) || level <= tables[t]
    ensures TableAt(after, root, va, level) == TableAt(mem, root, va, level)
    ensures !(Reads(mem, root, tables, va, t, i) && level == tables[t]) ==> EntryAt(after, root, va, level) == EntryAt(mem, root, va, level)
  {
    hide Frame, Huge, Present, Index, Leads;
    forall k: nat | k < level && TableAt(mem, root, va, k).Some?
      ensures var u := TableAt(mem, root, va, k).value;
        u in mem && u in after && Equivalent(mem[u][Index(va, k)], after[u][Index(va, k)], k)
    {
      TableLevel(mem, root, tables, va, k);
    }
    TableAlike(mem, after, root, va, level);
    if TableAt(mem, root, va, level).Some? {
      TableLevel(mem, root, tables, va, level);
    }
  }

  lemma {:induction false} OtherAccess(mem: Memory, after: Memory, root: nat, tables: Tables, t: nat, i: nat, va: nat, right: Right)
    requires Tree(mem, root, tables) && OneEntry(mem, after, tables, t, i) && !Reads(mem, root, tables, va, t, i)
    ensures Access(after, root, va, right) == Access(mem, root, va, right)
  {
    hide TableAt, Tree, OneEntry, Reads, Passes, EntryAt;
    forall k: nat | k <= 3
      ensures TableAt(after, root, va, k) == TableAt(mem, root, va, k) && EntryAt(after, root, va, k) == EntryAt(mem, root, va, k)
    {
      OtherEntries(mem, after, root, tables, t, i, va, k);
    }
  }

  /** Rights may have been gained, and by users only if `user`. */
  ghost predicate Widened(mem: Memory, after: Memory, root: nat, user: bool) {
    forall va: nat, right: Right ::
      && (Access(mem, root, va, right) ==> Access(after, root, va, right))
      && (!user || right != ByUser ==> (Access(after, root, va, right) ==> Access(mem, root, va, right)))
  }

  lemma WidenedSelf(mem: Memory, root: nat, user: bool)
    ensures Widened(mem, mem, root, user)
  {
    hide Access;
  }

  lemma WidenedTwice(a: Memory, b: Memory, c: Memory, root: nat, user: bool)
    requires Widened(a, b, root, user) && Widened(b, c, root, user)
    ensures Widened(a, c, root, user)
  {
    hide Access;
  }

  /** A new empty table gives nobody anything. */
  lemma {:induction false} NewTableAccess(mem: Memory, after: Memory, root: nat, tables: Tables, t: nat, i: nat, n: nat, user: bool)
    requires Tree(mem, root, tables) && OneEntry(mem, after, tables, t, i) && tables[t] < 3 && t in mem && !Present(mem[t][i])
    requires t in after && Leads(after[t][i], tables[t]) && Frame(after[t][i]) == n && n in after && after[n] == EMPTY_TABLE
    ensures Widened(mem, after, root, user)
  {
    hide TableAt, Tree, OneEntry, Access, Index, Leads, Frame;
    forall va: nat, right: Right ensures Access(after, root, va, right) == Access(mem, root, va, right) {
      if Reads(mem, root, tables, va, t, i) {
        NewTableShut(mem, after, root, tables, t, i, n, va, right);
      } else {
        OtherAccess(mem, after, root, tables, t, i, va, right);
      }
    }
  }

  lemma {:induction false} NewTableShut(mem: Memory, after: Memory, root: nat, tables: Tables, t: nat, i: nat, n: nat, va: nat, right: Right)
    requires Tree(mem, root, tables) && OneEntry(mem, after, tables, t, i) && tables[t] < 3 && t in mem && !Present(mem[t][i])
    requires t in after && Leads(after[t][i], tables[t]) && Frame(after[t][i]) == n && n in after && after[n] == EMPTY_TABLE
    requires Reads(mem, root, tables, va, t, i)
    ensures !Access(mem, root, va, right) && !Access(after, root, va, right)
  {
    hide Tree, OneEntry, Access, Index, Leads, Frame;
    var level := tables[t];
    OtherEntries(mem, after, root, tables, t, i, va, level);
    NoAccess(mem, root, va, level, right);
    assert TableAt(after, root, va, level + 1) == Some(n);
    NoAccess(after, root, va, level + 1, right);
  }

  ghost predicate GainsUser(e: u64, f: u64) {
    forall right: Right :: Grants(f, right) == (right == ByUser || Grants(e, right))
  }

  /** Changing one entry on the way down, so that nothing but the user bit may be gained. */
  lemma {:induction false} UserBitAccess(mem: Memory, after: Memory, root: nat, tables: Tables, t: nat, i: nat)
    requires Tree(mem, root, tables) && OneEntry(mem, after, tables, t, i) && t in mem && t in after && tables[t] < 3
    requires Leads(mem[t][i], tables[t]) && Leads(after[t][i], tables[t]) && Frame(after[t][i]) == Frame(mem[t][i])
    requires GainsUser(mem[t][i], after[t][i])
    ensures Widened(mem, after, root, true)
  {
    hide TableAt, Tree, OneEntry, Access, Index, Leads, Frame;
    forall va: nat, right: Right
      ensures Access(mem, root, va, right) ==> Access(after, root, va, right)
      ensures right != ByUser ==> (Access(after, root, va, right) ==> Access(mem, root, va, right))
    {
      if Reads(mem, root, tables, va, t, i) {
        UserBitRead(mem, after, root, tables, t, i, va, right);
      } else {
        OtherAccess(mem, after, root, tables, t, i, va, right);
      }
    }
  }

  lemma {:induction false} UserBitRead(mem: Memory, after: Memory, root: nat, tables: Tables, t: nat, i: nat, va: nat, right: Right)
    requires Tree(mem, root, tables) && OneEntry(mem, after, tables, t, i) && t in mem && t in after && tables[t] < 3
    requires Leads(mem[t][i], tables[t]) && Leads(after[t][i], tables[t]) && Frame(after[t][i]) == Frame(mem[t][i])
    requires Grants(after[t][i], right) == (right == ByUser || Grants(mem[t][i], right))
    requires Reads(mem, root, tables, va, t, i)
    ensures Access(mem, root, va, right) ==> Access(after, root, va, right)
    ensures right != ByUser ==> (Access(after, root, va, right) ==> Access(mem, root, va, right))
  {
    hide Frame, Huge, Index, Grants;
    var level := tables[t];
    forall k: nat | k <= 3 && TableAt(mem, root, va, k).Some?
      ensures var u := TableAt(mem, root, va, k).value;
        u in mem && u in after && Equivalent(mem[u][Index(va, k)], after[u][Index(va, k)], k)
    {
      TableLevel(mem, root, tables, va, k);
    }
    forall k: nat | k <= 3
      ensures TableAt(after, root, va, k) == TableAt(mem, root, va, k)
      ensures k != level ==> EntryAt(after, root, va, k) == EntryAt(mem, root, va, k)
    {
      TableAlike(mem, after, root, va, k);
      if TableAt(mem, root, va, k).Some? {
        TableLevel(mem, root, tables, va, k);
      }
    }
  }

  // ---------- mapping a page ----------

  /** An entry met on the way down will let the walk pass. */
  predicate Admits(e: Option<u64>, user: bool, right: Right) {
    || (right == ByUser && user)
    || (if e.Some? && Present(e.value) then Grants(e.value, right) else right != ByUser)
  }

  ghost predicate Admitted(mem: Memory, root: nat, va: nat, level: nat, user: bool, right: Right) {
    forall k: nat :: k < level ==> Admits(EntryAt(mem, root, va, k), user, right)
  }

  /** The entries that were there already grant the right. */
  ghost predicate Open(mem: Memory, root: nat, va: nat, right: Right) {
    forall k: nat :: k < 3 && EntryAt(mem, root, va, k).Some? && Present(EntryAt(mem, root, va, k).value) ==>
      Grants(EntryAt(mem, root, va, k).value, right)
  }

  lemma AdmittedMeans(mem: Memory, root: nat, va: nat, user: bool)
    ensures Admitted(mem, root, va, 3, user, ForWriting) <==> Open(mem, root, va, ForWriting)
    ensures Admitted(mem, root, va, 3, user, ForExecution) <==> Open(mem, root, va, ForExecution)
    ensures user ==> Admitted(mem, root, va, 3, user, ByUser)
  {
    hide EntryAt, Grants;
  }

  lemma {:induction false} OrBit(a: nat, b: nat, k: nat)
    ensures Or(a, b) / Pow2(k) % 2 == (if a / Pow2(k) % 2 == 1 || b / Pow2(k) % 2 == 1 then 1 else 0)
  {
    hide Or, Shr, Low;
    OrSplits(a, b, k);
    ShrIsDiv(a, k);
    ShrIsDiv(b, k);
    ShrIsDiv(Or(a, b), k);
    OrHalves(Shr(a, k), Shr(b, k));
  }

  lemma {:induction false} LeafBit(physical: u64, flags: u64, k: nat, p: nat)
    requires k > 0 && p == Pow2(k)
    ensures Leaf(physical, flags) / p % 2 == 1 <==> physical / p % 2 == 1 || flags / p % 2 == 1
  {
    hide Or, Pow2;
    var both := Or(physical, flags);
    OrBit(physical, flags, k);
    OrBit(both, 1, k);
    assert 1 / p == 0 by { PowAboveOne(k); }
  }

  lemma PowAboveOne(k: nat)
    requires k > 0
    ensures Pow2(k) > 1
  {
  }

  lemma Powers()
    ensures Pow2(1) == 2 && Pow2(2) == 4 && Pow2(63) == 0x8000_0000_0000_0000
  {
    BigPowersOfTwo();
    assert Pow2(64) == 2 * Pow2(63);
  }

  /** A leaf grants what the flags grant. */
  lemma {:induction false} LeafGrants(physical: u64, flags: u64)
    requires Aligned(physical)
    ensures Grants(Leaf(physical, flags), ByUser) <==> Grants(flags, ByUser)
    ensures Grants(Leaf(physical, flags), ForWriting) <==> Grants(flags, ForWriting)
    ensures Grants(Leaf(physical, flags), ForExecution) <==> Grants(flags, ForExecution) && Grants(physical, ForExecution)
  {
    hide Leaf, Pow2, Aligned;
    Powers();
    LowBitsClear(physical);
    LeafBit(physical, flags, 1, 2);
    LeafBit(physical, flags, 2, 4);
    LeafBit(physical, flags, 63, 0x8000_0000_0000_0000);
    TopBit(physical);
    TopBit(flags);
    TopBit(Leaf(physical, flags));
  }

  lemma LowBitsClear(a: nat)
    requires Aligned(a)
    ensures a / 4 % 2 == 0 && a / 2 % 2 == 0
  {
    var q := a / 4096;
    assert a / 4 == 1024 * q && a / 2 == 2048 * q;
  }

  lemma TopBit(a: nat)
    ensures a < 0x1_0000_0000_0000_0000 ==> (a / 0x8000_0000_0000_0000 % 2 == 1 <==> a >= 0x8000_0000_0000_0000)
  {
  }

  /** Addresses of one page are read alike. */
  lemma {:induction false} SameEntries(mem: Memory, root: nat, a: nat, b: nat, level: nat)
    requires level <= 3 && SamePage(a, b)
    ensures TableAt(mem, root, a, level) == TableAt(mem, root, b, level) && EntryAt(mem, root, a, level) == EntryAt(mem, root, b, level)
  {
    hide Index, SamePage, Leads, Frame;
    SamePageIndices(a, b);
    if level > 0 {
      SameEntries(mem, root, a, b, level - 1);
    }
  }

  lemma {:induction false} SameAccess(mem: Memory, root: nat, a: nat, b: nat, right: Right)
    requires SamePage(a, b)
    ensures Access(mem, root, a, right) == Access(mem, root, b, right)
  {
    hide TableAt, EntryAt, SamePage, Passes;
    forall k: nat | k <= 3
      ensures TableAt(mem, root, a, k) == TableAt(mem, root, b, k) && EntryAt(mem, root, a, k) == EntryAt(mem, root, b, k)
    {
      SameEntries(mem, root, a, b, k);
    }
  }

  /** Installing a leaf: its page may be used as the leaf and the entries above say, all others as before. */
  lemma {:induction false} LeafAccess(mem: Memory, after: Memory, root: nat, tables: Tables, va: nat, t: nat, e: u64, right: Right)
    requires Tree(mem, root, tables) && TableAt(mem, root, va, 3) == Some(t) && t in tables && tables[t] == 3
    requires OneEntry(mem, after, tables, t, Index(va, 3)) && t in after && after[t][Index(va, 3)] == e
    ensures Access(after, root, va, right) <==> Upper(mem, root, va, 3, right) && Present(e) && Grants(e, right)
  {
    hide Frame, Index, Leads, Tree, OneEntry, Grants, Present, Access;
    forall k: nat | k <= 3
      ensures TableAt(after, root, va, k) == TableAt(mem, root, va, k)
      ensures k < 3 ==> EntryAt(after, root, va, k) == EntryAt(mem, root, va, k)
    {
      OtherEntries(mem, after, root, tables, t, Index(va, 3), va, k);
    }
    AccessAtLeaf(after, root, va, right);
    assert EntryAt(after, root, va, 3) == Some(e);
  }

  /** Where the walk ends, the mapping's own flags grant what the page may be used for. */
  lemma {:induction false} AccessByLeaf(mem: Memory, hhdm: u64, root: nat, va: nat, level: nat, right: Right)
    requires level <= 3 && TableAt(mem, root, va, level).Some? && Access(mem, root, va, right)
    ensures var m := Descend(mem, hhdm, TableAt(mem, root, va, level).value, level, va); m.Some? ==> Grants(m.value.flags, right)
    decreases 3 - level
  {
    hide Frame, Huge, Index, Grants;
    var t := TableAt(mem, root, va, level).value;
    assert Passes(EntryAt(mem, root, va, level), right);
    if Leads(mem[t][Index(va, level)], level) {
      assert TableAt(mem, root, va, level + 1) == Some(Frame(mem[t][Index(va, level)]));
      AccessByLeaf(mem, hhdm, root, va, level + 1, right);
    }
  }
}
