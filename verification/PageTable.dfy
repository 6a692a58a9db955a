/**
  Four-level page tables in physical memory: what an address translates to, and what
  changing one entry does to every translation.
 */
module PageTable {
  import opened Arithmetic
  import opened Bytes
  import opened Frames

  const USER_BIT := 4

  type Table = s: seq<u64> | |s| == 512 witness seq(512, _ => 0)
  /** Physical memory, as tables by frame address. */
  type Memory = map<nat, Table>

  const EMPTY_TABLE: Table := seq(512, _ => 0)

  datatype Mapping = Mapping(physical: nat, pageSize: nat, flags: u64)

  // ---------- entries ----------

  predicate Present(e: u64) {
    e % 2 == 1
  }

  predicate Huge(e: u64) {
    e / 128 % 2 == 1
  }

  predicate User(e: u64) {
    e / 4 % 2 == 1
  }

  /** `entry & ENTRY_ADDRESS_MASK`: bits 12 to 51. */
  function Frame(e: nat): nat {
    e / PAGE_SIZE % 0x100_0000_0000 * PAGE_SIZE
  }

  /** Bitwise or. */
  function Or(a: nat, b: nat): nat {
    if a == 0 then b else if b == 0 then a
    else 2 * Or(a / 2, b / 2) + (if a % 2 == 1 || b % 2 == 1 then 1 else 0)
  }

  lemma {:induction false} OrHalves(a: nat, b: nat)
    ensures Or(a, b) / 2 == Or(a / 2, b / 2) && Or(a, b) % 2 == (if a % 2 == 1 || b % 2 == 1 then 1 else 0)
  {
  }

  function Shr(a: nat, k: nat): nat {
    if k == 0 then a else Shr(a / 2, k - 1)
  }

  function Low(a: nat, k: nat): nat {
    if k == 0 then 0 else 2 * Low(a / 2, k - 1) + a % 2
  }

  /** Or acts on the upper and lower bits separately. */
  lemma {:induction false} OrSplits(a: nat, b: nat, k: nat)
    ensures Shr(Or(a, b), k) == Or(Shr(a, k), Shr(b, k)) && Low(Or(a, b), k) == Or(Low(a, k), Low(b, k))
  {
    hide Or;
    if k == 0 {
      OrNone(0);
    } else {
      OrHalves(a, b);
      OrSplits(a / 2, b / 2, k - 1);
      OrHalves(Low(a, k), Low(b, k));
    }
  }

  lemma OrNone(a: nat)
    ensures Or(a, 0) == a && Or(0, a) == a
  {
  }

  lemma {:induction false} ShrIsDiv(a: nat, k: nat)
    ensures Shr(a, k) == a / Pow2(k) && Low(a, k) == a % Pow2(k)
  {
    if k > 0 {
      ShrIsDiv(a / 2, k - 1);
      HalfDivMod(a, Pow2(k - 1));
    }
  }

  lemma HalfDivMod(a: nat, p: nat)
    requires p > 0
    ensures a / (2 * p) == a / 2 / p && a % (2 * p) == 2 * (a / 2 % p) + a % 2
  {
    var h := a / 2;
    var q, r := h / p, h % p;
    assert h == q * p + r;
    assert q * (2 * p) == 2 * (q * p);
    DivModUnique(a, 2 * p, q, 2 * r + a % 2);
  }

  /** The frame of an or is the or of the frames. */
  lemma {:induction false} OrFrame(a: nat, b: nat)
    ensures Frame(Or(a, b)) == Or(Frame(a) / PAGE_SIZE, Frame(b) / PAGE_SIZE) * PAGE_SIZE
  {
    hide Or, Shr, Low;
    BigPowersOfTwo();
    OrSplits(a, b, 12);
    OrSplits(Shr(a, 12), Shr(b, 12), 40);
    ShrIsDiv(a, 12);
    ShrIsDiv(b, 12);
    ShrIsDiv(Or(a, b), 12);
    ShrIsDiv(a / 4096, 40);
    ShrIsDiv(b / 4096, 40);
    ShrIsDiv(Or(a, b) / 4096, 40);
  }

  lemma {:induction false} OrBound(a: nat, b: nat, k: nat)
    requires a < Pow2(k) && b < Pow2(k)
    ensures Or(a, b) < Pow2(k)
  {
    if k > 0 && a > 0 && b > 0 {
      OrBound(a / 2, b / 2, k - 1);
    }
  }

  /** The entry `map_page` installs. */
  function Leaf(physical: u64, flags: u64): (e: u64)
    ensures Present(e)
  {
    BigPowersOfTwo();
    OrBound(physical, flags, 64);
    OrBound(Or(physical, flags), 1, 64);
    OrHalves(Or(physical, flags), 1);
    Or(Or(physical, flags), 1)
  }

  /**
    A leaf leads to the page asked for exactly when the page is below 2^52 and the flags
    carry no address bit that the page does not have.
   */
  lemma {:induction false} LeafFrame(physical: u64, flags: u64)
    requires Aligned(physical)
    ensures Frame(Leaf(physical, flags)) == Or(Frame(physical) / PAGE_SIZE, Frame(flags) / PAGE_SIZE) * PAGE_SIZE
    ensures Frame(Leaf(physical, flags)) == physical <==>
            physical < PHYSICAL_END && Or(physical / PAGE_SIZE, Frame(flags) / PAGE_SIZE) == physical / PAGE_SIZE
    ensures physical < PHYSICAL_END && Frame(flags) == 0 ==> Frame(Leaf(physical, flags)) == physical
  {
    hide Or;
    OrFrame(physical, flags);
    OrFrame(Or(physical, flags), 1);
    OrNone(Frame(Or(physical, flags)) / PAGE_SIZE);
    FrameBelow(Or(physical, flags));
    FrameBelow(physical);
    OrNone(physical / PAGE_SIZE);
  }

  lemma FrameBelow(e: nat)
    ensures Frame(e) < PHYSICAL_END && Frame(e) % PAGE_SIZE == 0
    ensures e < PHYSICAL_END && Aligned(e) ==> Frame(e) == e
  {
    DivMod(e / PAGE_SIZE, 0x100_0000_0000);
  }

  /** Beyond 2^52, or with address bits in the flags, a page is mapped somewhere else. */
  lemma {:induction false} MisdirectedLeaf()
    ensures Frame(Leaf(PHYSICAL_END, 0)) == 0
    ensures Frame(Leaf(2 * PAGE_SIZE, PAGE_SIZE)) == 3 * PAGE_SIZE
  {
    LeafFrame(PHYSICAL_END, 0);
    LeafFrame(2 * PAGE_SIZE, PAGE_SIZE);
    assert Or(2, 1) == 2 * Or(1, 0) + 1;
  }

  // ---------- translation ----------

  function PageSize(level: nat): nat {
    if level == 1 then 0x4000_0000 else if level == 2 then 0x20_0000 else 4096
  }

  /** The nine bits of `va` that select an entry at `level`; level 0 is the top. */
  function Index(va: nat, level: nat): (i: nat)
    ensures i < 512
  {
    (if level == 0 then va / 0x80_0000_0000 else if level == 1 then va / 0x4000_0000 else if level == 2 then va / 0x20_0000 else va / 4096) % 512
  }

  /** `entry_pointer` does not overflow. */
  predicate Addressable(hhdm: u64, table: nat, index: nat) {
    hhdm + table + 8 * index < MAX_ADDRESS
  }

  /** The walk goes on to another table. */
  predicate Leads(e: u64, level: nat) {
    level < 3 && Present(e) && !((level == 1 || level == 2) && Huge(e))
  }

  /** The walk from a table on. */
  function Descend(mem: Memory, hhdm: u64, table: nat, level: nat, va: nat): Option<Mapping>
    decreases 4 - level
  {
    var i := Index(va, level);
    if level > 3 || table !in mem || !Addressable(hhdm, table, i) then None
    else
      var e := mem[table][i];
      if !Present(e) then None
      else if Leads(e, level) then Descend(mem, hhdm, Frame(e), level + 1, va)
      else Some(Mapping(Frame(e) + va % PageSize(level), PageSize(level), e))
  }

  function Translate(mem: Memory, hhdm: u64, root: nat, va: nat): Option<Mapping> {
    Descend(mem, hhdm, root, 0, va)
  }

  /** The table the walk for `va` meets at `level`. */
  function TableAt(mem: Memory, root: nat, va: nat, level: nat): Option<nat> {
    if level == 0 then Some(root)
    else
      match TableAt(mem, root, va, level - 1)
      case None => None
      case Some(t) =>
        if t in mem && Leads(mem[t][Index(va, level - 1)], level - 1) then Some(Frame(mem[t][Index(va, level - 1)])) else None
  }

  // ---------- trees ----------

  /** Frames that hold tables, with their levels. */
  type Tables = map<nat, nat>

  ghost predicate LeadsFrom(mem: Memory, tables: Tables, t: nat, i: nat, child: nat) {
    t in tables && t in mem && i < 512 && Leads(mem[t][i], tables[t]) && Frame(mem[t][i]) == child
  }

  /** Every table has one parent entry, and the root has none. */
  ghost predicate Tree(mem: Memory, root: nat, tables: Tables) {
    && root in tables && tables[root] == 0
    && (forall t <- tables :: t in mem && tables[t] <= 3)
    && (forall t: nat, i: nat, child: nat :: LeadsFrom(mem, tables, t, i, child) ==> child in tables && tables[child] == tables[t] + 1)
    && (forall t: nat, i: nat, u: nat, j: nat, child: nat ::
          LeadsFrom(mem, tables, t, i, child) && LeadsFrom(mem, tables, u, j, child) ==> t == u && i == j)
  }

  lemma {:induction false} TableLevel(mem: Memory, root: nat, tables: Tables, va: nat, level: nat)
    requires Tree(mem, root, tables) && level <= 3 && TableAt(mem, root, va, level).Some?
    ensures var t := TableAt(mem, root, va, level).value; t in tables && tables[t] == level
  {
    if level > 0 {
      TableLevel(mem, root, tables, va, level - 1);
      var t := TableAt(mem, root, va, level - 1).value;
      assert LeadsFrom(mem, tables, t, Index(va, level - 1), TableAt(mem, root, va, level).value);
    }
  }

  /** Walks that meet in a table came the same way. */
  lemma {:induction false} WalksMeet(mem: Memory, root: nat, tables: Tables, a: nat, b: nat, level: nat, k: nat)
    requires Tree(mem, root, tables) && level <= 3 && k < level
    requires TableAt(mem, root, a, level).Some? && TableAt(mem, root, a, level) == TableAt(mem, root, b, level)
    ensures Index(a, k) == Index(b, k)
    decreases level
  {
    hide Index;
    TableLevel(mem, root, tables, a, level - 1);
    TableLevel(mem, root, tables, b, level - 1);
    var t, u := TableAt(mem, root, a, level - 1).value, TableAt(mem, root, b, level - 1).value;
    var child := TableAt(mem, root, a, level).value;
    assert LeadsFrom(mem, tables, t, Index(a, level - 1), child) && LeadsFrom(mem, tables, u, Index(b, level - 1), child);
    if k < level - 1 {
      WalksMeet(mem, root, tables, a, b, level - 1, k);
    }
  }

  /** Addresses in the same 4 KiB page, as far as the walk can tell. */
  predicate SamePage(a: nat, b: nat) {
    a / 4096 % 0x10_0000_0000 == b / 4096 % 0x10_0000_0000
  }

  lemma SamePageIndices(a: nat, b: nat)
    ensures SamePage(a, b) <==> Index(a, 0) == Index(b, 0) && Index(a, 1) == Index(b, 1) && Index(a, 2) == Index(b, 2) && Index(a, 3) == Index(b, 3)
  {
    PageNumber(a);
    PageNumber(b);
  }

  /** A 36-bit page number is its four indices. */
  lemma PageNumber(a: nat)
    ensures a / 4096 % 0x10_0000_0000 == ((Index(a, 0) * 512 + Index(a, 1)) * 512 + Index(a, 2)) * 512 + Index(a, 3)
  {
    var n := a / 4096;
    Coarser(a, 4096);
    Coarser(a, 0x20_0000);
    Coarser(a, 0x4000_0000);
    FourDigits(n);
  }

  lemma Coarser(a: nat, size: nat)
    requires size > 0
    ensures a / (size * 512) == a / size / 512
  {
    var q := a / size;
    DivMod(a, size);
    DivMod(q, 512);
    assert q * size == q / 512 * (size * 512) + q % 512 * size;
    MulMono(q % 512 + 1, 512, size);
    assert (q % 512 + 1) * size == q % 512 * size + size;
    DivModUnique(a, size * 512, q / 512, q % 512 * size + a % size);
  }

  lemma FourDigits(n: nat)
    ensures n % 0x10_0000_0000 == ((n / 512 / 512 / 512 % 512 * 512 + n / 512 / 512 % 512) * 512 + n / 512 % 512) * 512 + n % 512
  {
    var m := n / 512;
    var l := m / 512;
    var k := l / 512;
    DivModUnique(n, 0x10_0000_0000, k / 512, ((k % 512 * 512 + l % 512) * 512 + m % 512) * 512 + n % 512);
  }

  // ---------- changing one entry ----------

  /** The walk cannot tell the entries apart. */
  predicate Equivalent(e: u64, f: u64, level: nat) {
    e == f || (Leads(e, level) && Leads(f, level) && Frame(e) == Frame(f))
  }

  ghost predicate WalkAlike(mem: Memory, after: Memory, root: nat, va: nat) {
    forall k: nat :: k <= 3 && TableAt(mem, root, va, k).Some? ==>
      var t := TableAt(mem, root, va, k).value;
      t in mem && t in after && Equivalent(mem[t][Index(va, k)], after[t][Index(va, k)], k)
  }

  lemma {:induction false} DescendAlike(mem: Memory, after: Memory, hhdm: u64, root: nat, va: nat, level: nat)
    requires WalkAlike(mem, after, root, va) && level <= 3 && TableAt(mem, root, va, level).Some?
    ensures var t := TableAt(mem, root, va, level).value; Descend(after, hhdm, t, level, va) == Descend(mem, hhdm, t, level, va)
    decreases 3 - level
  {
    hide Frame, Huge, Present, Index;
    var t := TableAt(mem, root, va, level).value;
    if Leads(mem[t][Index(va, level)], level) {
      assert TableAt(mem, root, va, level + 1) == Some(Frame(mem[t][Index(va, level)]));
      DescendAlike(mem, after, hhdm, root, va, level + 1);
    }
  }

  lemma {:induction false} TableAlike(mem: Memory, after: Memory, root: nat, va: nat, level: nat)
    requires level <= 3 && forall k: nat :: k < level && TableAt(mem, root, va, k).Some? ==>
      var t := TableAt(mem, root, va, k).value;
      t in mem && t in after && Equivalent(mem[t][Index(va, k)], after[t][Index(va, k)], k)
    ensures TableAt(after, root, va, level) == TableAt(mem, root, va, level)
  {
    hide Frame, Huge, Present, Index;
    if level > 0 {
      TableAlike(mem, after, root, va, level - 1);
    }
  }

  /** The walk ends as it does from the table it meets, or not at all. */
  lemma {:induction false} WalkFrom(mem: Memory, hhdm: u64, root: nat, va: nat, level: nat)
    requires level <= 3 && TableAt(mem, root, va, level).Some?
    ensures var t := TableAt(mem, root, va, level).value;
      Translate(mem, hhdm, root, va) == (if Passable(mem, hhdm, root, va, level) then Descend(mem, hhdm, t, level, va) else None)
  {
    hide Frame, Huge, Index;
    if level > 0 {
      WalkFrom(mem, hhdm, root, va, level - 1);
    }
  }

  /**
    A page that ends at the second, third or last level is 1 GiB, 2 MiB or 4 KiB of
    memory in one piece, whose place is the entry's.
   */
  lemma {:induction false} PageInOnePiece(mem: Memory, hhdm: u64, root: nat, a: nat, b: nat, level: nat, size: nat)
    requires (level, size) in {(1, 0x4000_0000), (2, 0x20_0000), (3, 4096)} && a / size == b / size
    requires TableAt(mem, root, a, level).Some? && TableAt(mem, root, a, level).value in mem
    requires var e := mem[TableAt(mem, root, a, level).value][Index(a, level)]; Present(e) && !Leads(e, level)
    requires Translate(mem, hhdm, root, a).Some?
    ensures var e := mem[TableAt(mem, root, a, level).value][Index(a, level)];
      && Translate(mem, hhdm, root, a).value.physical == Frame(e) + (a - a / size * size)
      && Translate(mem, hhdm, root, b).Some? && Translate(mem, hhdm, root, b).value.physical - Translate(mem, hhdm, root, a).value.physical == b - a
      && Translate(mem, hhdm, root, b).value.flags == Translate(mem, hhdm, root, a).value.flags == e
  {
    hide Frame, Huge, Index, Translate, Leads, Present;
    SameIndices(a, b, level, size);
    SameTables(mem, hhdm, root, a, b, level);
    WalkFrom(mem, hhdm, root, a, level);
    WalkFrom(mem, hhdm, root, b, level);
    DivMod(a, size);
    DivMod(b, size);
  }

  lemma SameIndices(a: nat, b: nat, level: nat, size: nat)
    requires (level, size) in {(1, 0x4000_0000), (2, 0x20_0000), (3, 4096)} && a / size == b / size
    ensures forall k: nat :: k <= level ==> Index(a, k) == Index(b, k)
  {
    if level >= 2 {
      assert a / 0x20_0000 == b / 0x20_0000;
      assert a / 0x4000_0000 == a / 0x20_0000 / 512 && b / 0x4000_0000 == b / 0x20_0000 / 512;
    }
    assert a / 0x80_0000_0000 == a / 0x4000_0000 / 512 && b / 0x80_0000_0000 == b / 0x4000_0000 / 512;
  }

  lemma {:induction false} SameTables(mem: Memory, hhdm: u64, root: nat, a: nat, b: nat, level: nat)
    requires level <= 3 && forall k: nat :: k < level ==> Index(a, k) == Index(b, k)
    ensures TableAt(mem, root, a, level) == TableAt(mem, root, b, level)
    ensures Passable(mem, hhdm, root, a, level) == Passable(mem, hhdm, root, b, level)
  {
    hide Index, Leads, Frame;
    if level > 0 {
      SameTables(mem, hhdm, root, a, b, level - 1);
    }
  }

  /** Every entry pointer on the way down to `level` can be formed. */
  predicate Passable(mem: Memory, hhdm: u64, root: nat, va: nat, level: nat) {
    level == 0 ||
    (&& Passable(mem, hhdm, root, va, level - 1) && TableAt(mem, root, va, level - 1).Some?
     && Addressable(hhdm, TableAt(mem, root, va, level - 1).value, Index(va, level - 1)))
  }

  /** The walk for `va` reads entry `i` of table `t`. */
  ghost predicate Reads(mem: Memory, root: nat, tables: Tables, va: nat, t: nat, i: nat) {
    t in tables && tables[t] <= 3 && TableAt(mem, root, va, tables[t]) == Some(t) && Index(va, tables[t]) == i
  }

  /** `after` differs from `mem` in entry `i` of table `t` and in frames that are no tables. */
  ghost predicate OneEntry(mem: Memory, after: Memory, tables: Tables, t: nat, i: nat) {
    && t in tables && i < 512 && mem.Keys <= after.Keys
    && forall u: nat, j: nat :: u in tables && u in mem && j < 512 && !(u == t && j == i) ==> after[u][j] == mem[u][j]
  }

  /** Walks that do not read the entry do not notice. */
  lemma {:induction false} OtherWalks(mem: Memory, after: Memory, hhdm: u64, root: nat, tables: Tables, t: nat, i: nat, va: nat)
    requires Tree(mem, root, tables) && OneEntry(mem, after, tables, t, i) && !Reads(mem, root, tables, va, t, i)
    ensures Translate(after, hhdm, root, va) == Translate(mem, hhdm, root, va)
  {
    hide Frame, Huge, Present, Index, Leads;
    forall k: nat | k <= 3 && TableAt(mem, root, va, k).Some?
      ensures var u := TableAt(mem, root, va, k).value;
        u in mem && u in after && Equivalent(mem[u][Index(va, k)], after[u][Index(va, k)], k)
    {
      TableLevel(mem, root, tables, va, k);
    }
    DescendAlike(mem, after, hhdm, root, va, 0);
  }

  /** Replacing an entry by one that leads the same way changes no translation. */
  lemma {:induction false} SameWay(mem: Memory, after: Memory, hhdm: u64, root: nat, tables: Tables, t: nat, i: nat, va: nat)
    requires Tree(mem, root, tables) && OneEntry(mem, after, tables, t, i) && t in mem && Equivalent(mem[t][i], after[t][i], tables[t])
    ensures Translate(after, hhdm, root, va) == Translate(mem, hhdm, root, va)
  {
    hide Frame, Huge, Present, Index, Leads, Equivalent;
    forall k: nat | k <= 3 && TableAt(mem, root, va, k).Some?
      ensures var u := TableAt(mem, root, va, k).value;
        u in mem && u in after && Equivalent(mem[u][Index(va, k)], after[u][Index(va, k)], k)
    {
      TableLevel(mem, root, tables, va, k);
      var u := TableAt(mem, root, va, k).value;
      if !(u == t && Index(va, k) == i) {
        EquivalentSelf(mem[u][Index(va, k)], k);
      }
    }
    DescendAlike(mem, after, hhdm, root, va, 0);
  }

  lemma EquivalentSelf(e: u64, level: nat)
    ensures Equivalent(e, e, level)
  {
  }

  /** Walks that read the entry still get to its table. */
  lemma {:induction false} SameApproach(mem: Memory, after: Memory, hhdm: u64, root: nat, tables: Tables, t: nat, i: nat, va: nat)
    requires Tree(mem, root, tables) && OneEntry(mem, after, tables, t, i) && Reads(mem, root, tables, va, t, i)
    ensures TableAt(after, root, va, tables[t]) == Some(t)
    ensures Passable(after, hhdm, root, va, tables[t]) == Passable(mem, hhdm, root, va, tables[t])
  {
    hide Frame, Huge, Present, Index, Leads;
    forall k: nat | k < tables[t] && TableAt(mem, root, va, k).Some?
      ensures var u := TableAt(mem, root, va, k).value;
        u in mem && u in after && Equivalent(mem[u][Index(va, k)], after[u][Index(va, k)], k)
    {
      TableLevel(mem, root, tables, va, k);
    }
    forall k: nat | k <= tables[t] ensures TableAt(after, root, va, k) == TableAt(mem, root, va, k) {
      TableAlike(mem, after, root, va, k);
    }
    SamePassage(mem, after, hhdm, root, va, tables[t]);
  }

  lemma {:induction false} SamePassage(mem: Memory, after: Memory, hhdm: u64, root: nat, va: nat, level: nat)
    requires forall k: nat :: k <= level ==> TableAt(after, root, va, k) == TableAt(mem, root, va, k)
    ensures Passable(after, hhdm, root, va, level) == Passable(mem, hhdm, root, va, level)
  {
    if level > 0 {
      SamePassage(mem, after, hhdm, root, va, level - 1);
    }
  }
}
