/**
  Editing page tables in place: `map_page` and `unmap_page` change one page's
  translation and no other.
 */
module Paging {
  import opened Arithmetic
  import opened Bytes
  import opened PageTable
  import opened PageAccess
  import opened Frames

  datatype PageMapError = Unaligned | AddressOverflow | OutOfFrames | HugePageConflict | AlreadyMapped | NotMapped
  datatype Result<+T> = Ok(value: T) | Err(error: PageMapError)

  // ---------- the three kinds of entry write ----------

  function ChildEntry(frame: nat, flags: u64): nat {
    frame + 3 + if User(flags) then USER_BIT else 0
  }

  lemma ChildEntryLeads(frame: nat, flags: u64)
    requires Aligned(frame) && frame < PHYSICAL_END
    ensures var e := ChildEntry(frame, flags);
      e < MAX_ADDRESS && Present(e) && !Huge(e) && Frame(e) == frame
  {
    hide User;
    FrameBits(frame / 4096, if User(flags) then 3 + USER_BIT else 3);
  }

  lemma FrameBits(q: nat, r: nat)
    requires r < 8
    ensures (4096 * q + r) / 128 == 32 * q && (4096 * q + r) / 4096 == q && (4096 * q + r) % 2 == r % 2
  {
    var a := 4096 * q + r;
    DivModUnique(a, 128, 32 * q, r);
    DivModUnique(a, 4096, q, r);
    DivModUnique(a, 2, 2048 * q + r / 2, r % 2);
  }

  /** A new parent entry is writable and executable, and for users if the page is. */
  lemma ChildEntryGrants(frame: nat, flags: u64, right: Right)
    requires Aligned(frame) && frame < PHYSICAL_END
    ensures var e := ChildEntry(frame, flags);
      e < MAX_ADDRESS && (Grants(e, right) <==> right != ByUser || User(flags))
  {
    hide User;
    GrantBits(frame / 4096, if User(flags) then 3 + USER_BIT else 3);
  }

  lemma GrantBits(q: nat, r: nat)
    requires r < 8
    ensures (4096 * q + r) / 2 % 2 == r / 2 % 2 && (4096 * q + r) / 4 % 2 == r / 4 % 2
  {
    EvenPart(2048 * q, r, 2);
    EvenPart(1024 * q, r, 4);
  }

  lemma EvenPart(q: nat, r: nat, d: nat)
    requires d > 0 && q % 2 == 0
    ensures (q * d + r) / d % 2 == r / d % 2
  {
    var x := r / d;
    DivMod(r, d);
    assert (q + x) * d == q * d + x * d;
    DivModUnique(q * d + r, d, q + x, r % d);
    EvenSum(q, x);
  }

  lemma EvenSum(q: nat, x: nat)
    requires q % 2 == 0
    ensures (q + x) % 2 == x % 2
  {
  }

  lemma UserEntryGrants(e: u64, right: Right)
    requires !User(e)
    ensures e + USER_BIT < MAX_ADDRESS && (Grants(e + USER_BIT, right) <==> right == ByUser || Grants(e, right))
  {
    var q, r := e / 8, e % 8;
    EvenPart(2 * q, r, 4);
    EvenPart(2 * q, r + 4, 4);
    EvenPart(4 * q, r, 2);
    EvenPart(4 * q, r + 4, 2);
    LowThree(r);
  }

  lemma LowThree(r: nat)
    requires r < 8
    ensures r / 4 % 2 == 0 ==> r < 4 && (r + 4) / 4 % 2 == 1 && (r + 4) / 2 % 2 == r / 2 % 2
  {
  }

  lemma UserEntryGains(e: u64)
    requires !User(e)
    ensures e + USER_BIT < MAX_ADDRESS && GainsUser(e, e + USER_BIT)
  {
    hide Grants, User;
    UserEntryGrants(e, ByUser);
    var f: u64 := e + USER_BIT;
    forall right: Right ensures Grants(f, right) == (right == ByUser || Grants(e, right)) { UserEntryGrants(e, right); }
  }

  lemma UserEntryLeads(e: u64)
    requires !User(e)
    ensures e + USER_BIT < MAX_ADDRESS && Present(e + USER_BIT) == Present(e) && Huge(e + USER_BIT) == Huge(e) && Frame(e + USER_BIT) == Frame(e)
  {
    LowBits(e / 8, e % 8);
    LowBits(e / 8, e % 8 + USER_BIT);
  }

  lemma LowBits(q: nat, r: nat)
    requires r < 8
    ensures (8 * q + r) / 128 == q / 16 && (8 * q + r) / 4096 == q / 512 && (8 * q + r) % 2 == r % 2
  {
    var a := 8 * q + r;
    DivModUnique(a, 128, q / 16, 8 * (q % 16) + r);
    DivModUnique(a, 4096, q / 512, 8 * (q % 512) + r);
    DivModUnique(a, 2, 4 * q + r / 2, r % 2);
  }

  function WithEntry(mem: Memory, t: nat, i: nat, e: u64): Memory
    requires t in mem && i < 512
  {
    mem[t := mem[t][i := e]]
  }

  /** An entry that leads the same way is as good. */
  lemma {:induction false} EquivalentEntry(mem: Memory, hhdm: u64, root: nat, tables: Tables, t: nat, i: nat, e: u64)
    requires Tree(mem, root, tables) && t in tables && i < 512 && t in mem && Equivalent(mem[t][i], e, tables[t])
    ensures Tree(WithEntry(mem, t, i, e), root, tables)
    ensures forall a: nat :: Translate(WithEntry(mem, t, i, e), hhdm, root, a) == Translate(mem, hhdm, root, a)
  {
    hide Frame, Huge, Present, Translate;
    var after := WithEntry(mem, t, i, e);
    forall u: nat, j: nat, child: nat ensures LeadsFrom(after, tables, u, j, child) == LeadsFrom(mem, tables, u, j, child) {}
    TreeAlike(mem, after, root, tables);
    forall a: nat ensures Translate(after, hhdm, root, a) == Translate(mem, hhdm, root, a) {
      SameWay(mem, after, hhdm, root, tables, t, i, a);
    }
  }

  lemma TreeAlike(mem: Memory, after: Memory, root: nat, tables: Tables)
    requires Tree(mem, root, tables) && mem.Keys <= after.Keys
    requires forall u: nat, j: nat, child: nat :: LeadsFrom(after, tables, u, j, child) == LeadsFrom(mem, tables, u, j, child)
    ensures Tree(after, root, tables)
  {
    hide LeadsFrom;
  }

  /** Hanging an empty table under an entry that was not present. */
  lemma {:induction false} NewTable(mem: Memory, hhdm: u64, root: nat, tables: Tables, t: nat, i: nat, n: nat, e: u64)
    requires Tree(mem, root, tables) && t in tables && tables[t] < 3 && t in mem && i < 512 && !Present(mem[t][i])
    requires n in mem && n !in tables && Present(e) && !Huge(e) && Frame(e) == n
    ensures var after := WithEntry(mem[n := EMPTY_TABLE], t, i, e);
      && Tree(after, root, tables[n := tables[t] + 1])
      && forall a: nat :: Translate(after, hhdm, root, a) == Translate(mem, hhdm, root, a)
  {
    hide Frame, Huge, Translate, Index;
    var after := WithEntry(mem[n := EMPTY_TABLE], t, i, e);
    var more := tables[n := tables[t] + 1];
    forall u: nat, j: nat, child: nat | LeadsFrom(after, more, u, j, child)
      ensures (u == t && j == i && child == n) || LeadsFrom(mem, tables, u, j, child) {}
    forall a: nat ensures Translate(after, hhdm, root, a) == Translate(mem, hhdm, root, a) {
      if Reads(mem, root, tables, a, t, i) {
        SameApproach(mem, after, hhdm, root, tables, t, i, a);
        WalkFrom(mem, hhdm, root, a, tables[t]);
        WalkFrom(after, hhdm, root, a, tables[t]);
        EmptyTableEnds(after, hhdm, n, tables[t] + 1, a);
      } else {
        OtherWalks(mem, after, hhdm, root, tables, t, i, a);
      }
    }
  }

  lemma EmptyTableEnds(mem: Memory, hhdm: u64, t: nat, level: nat, va: nat)
    requires t in mem && mem[t] == EMPTY_TABLE
    ensures Descend(mem, hhdm, t, level, va).None?
  {
  }

  /** Writing a leaf entry decides the walks that read it and no others. */
  lemma {:induction false} LeafEntry(mem: Memory, hhdm: u64, root: nat, tables: Tables, t: nat, i: nat, e: u64)
    requires Tree(mem, root, tables) && t in tables && tables[t] == 3 && t in mem && i < 512
    ensures var after := WithEntry(mem, t, i, e);
      && Tree(after, root, tables)
      && forall a: nat :: Translate(after, hhdm, root, a) ==
           if !Reads(mem, root, tables, a, t, i) then Translate(mem, hhdm, root, a)
           else if Passable(mem, hhdm, root, a, 3) && Addressable(hhdm, t, i) && Present(e) then Some(Mapping(Frame(e) + a % 4096, 4096, e))
           else None
  {
    hide Frame, Huge, Present, Translate, Index;
    var after := WithEntry(mem, t, i, e);
    forall u: nat, j: nat, child: nat ensures LeadsFrom(after, tables, u, j, child) == LeadsFrom(mem, tables, u, j, child) {}
    TreeAlike(mem, after, root, tables);
    forall a: nat ensures Translate(after, hhdm, root, a) ==
           if !Reads(mem, root, tables, a, t, i) then Translate(mem, hhdm, root, a)
           else if Passable(mem, hhdm, root, a, 3) && Addressable(hhdm, t, i) && Present(e) then Some(Mapping(Frame(e) + a % 4096, 4096, e))
           else None
    {
      if Reads(mem, root, tables, a, t, i) {
        SameApproach(mem, after, hhdm, root, tables, t, i, a);
        WalkFrom(after, hhdm, root, a, 3);
      } else {
        OtherWalks(mem, after, hhdm, root, tables, t, i, a);
      }
    }
  }

  /** The walks that read a leaf entry are those of its page. */
  lemma {:induction false} ReadersOfPage(mem: Memory, hhdm: u64, root: nat, tables: Tables, va: nat, a: nat)
    requires Tree(mem, root, tables) && TableAt(mem, root, va, 3).Some?
    ensures var t := TableAt(mem, root, va, 3).value;
      && t in tables && tables[t] == 3
      && (Reads(mem, root, tables, a, t, Index(va, 3)) <==> SamePage(a, va))
      && (SamePage(a, va) ==> Passable(mem, hhdm, root, a, 3) == Passable(mem, hhdm, root, va, 3))
  {
    hide SamePage, Index, Tree;
    TableLevel(mem, root, tables, va, 3);
    SamePageIndices(a, va);
    if SamePage(a, va) {
      SamePath(mem, hhdm, root, va, a, 3);
    }
    if TableAt(mem, root, a, 3) == TableAt(mem, root, va, 3) {
      WalksMeet(mem, root, tables, a, va, 3, 0);
      WalksMeet(mem, root, tables, a, va, 3, 1);
      WalksMeet(mem, root, tables, a, va, 3, 2);
    }
  }

  lemma {:induction false} SamePath(mem: Memory, hhdm: u64, root: nat, a: nat, b: nat, level: nat)
    requires level <= 3 && Index(a, 0) == Index(b, 0) && Index(a, 1) == Index(b, 1) && Index(a, 2) == Index(b, 2)
    ensures TableAt(mem, root, a, level) == TableAt(mem, root, b, level)
    ensures Passable(mem, hhdm, root, a, level) == Passable(mem, hhdm, root, b, level)
  {
    hide Index, Leads, Frame;
    if level > 0 {
      SamePath(mem, hhdm, root, a, b, level - 1);
    }
  }

  // ---------- what stands in the way ----------

  /** The first thing from `level` on that keeps `va` from being mapped. */
  function Obstacle(mem: Memory, hhdm: u64, root: nat, va: nat, level: nat): Option<PageMapError>
    decreases 4 - level
  {
    if level > 3 then None
    else
      match TableAt(mem, root, va, level)
      case None => None
      case Some(t) =>
        var i := Index(va, level);
        if t !in mem then None
        else if !Addressable(hhdm, t, i) then Some(AddressOverflow)
        else if level == 3 then (if Present(mem[t][i]) then Some(AlreadyMapped) else None)
        else if !Present(mem[t][i]) then None
        else if Huge(mem[t][i]) then Some(HugePageConflict)
        else Obstacle(mem, hhdm, root, va, level + 1)
  }

  /** How many tables down to `level` are missing on the way to `va`. */
  function Gaps(mem: Memory, root: nat, va: nat, level: nat): nat {
    if level == 0 then 0 else Gaps(mem, root, va, level - 1) + if TableAt(mem, root, va, level).None? then 1 else 0
  }

  /** What goes wrong when the tables from `level` on are made of the frames in `line`. */
  function Supply(hhdm: u64, va: nat, level: nat, line: seq<nat>): Option<PageMapError>
    decreases 4 - level, 1
  {
    if line == [] then Some(OutOfFrames)
    else if hhdm + line[0] >= MAX_ADDRESS then Some(AddressOverflow)
    else Onward(hhdm, va, level, line[0], line[1..])
  }

  /** The same once the table at `level` has been made. */
  function Onward(hhdm: u64, va: nat, level: nat, table: nat, line: seq<nat>): Option<PageMapError>
    decreases 4 - level, 0
  {
    if !Addressable(hhdm, table, Index(va, level)) then Some(AddressOverflow)
    else if level >= 3 then None
    else Supply(hhdm, va, level + 1, line)
  }

  /** Why the missing tables cannot be made, if they cannot. */
  function Lack(mem: Memory, hhdm: u64, root: nat, va: nat, line: seq<nat>): Option<PageMapError> {
    var gaps := Gaps(mem, root, va, 3);
    if gaps == 0 || gaps > 3 then None else Supply(hhdm, va, 4 - gaps, line)
  }

  /** Why `map_page` fails, if it does. */
  function MapError(mem: Memory, hhdm: u64, root: nat, va: nat, physical: nat, line: seq<nat>): Option<PageMapError> {
    if !Aligned(va) || !Aligned(physical) then Some(Unaligned)
    else if Obstacle(mem, hhdm, root, va, 0).Some? then Obstacle(mem, hhdm, root, va, 0)
    else Lack(mem, hhdm, root, va, line)
  }

  /** Every frame can be addressed through the direct map. */
  predicate Covered(hhdm: u64, line: seq<nat>) {
    forall j :: 0 <= j < |line| ==> hhdm + line[j] + PAGE_SIZE <= MAX_ADDRESS
  }

  /** The entry used in the table at `level + j` can be addressed, if that is made of frame `j`. */
  predicate InReach(hhdm: u64, va: nat, level: nat, line: seq<nat>, j: nat) {
    j < |line| && Addressable(hhdm, line[j], Index(va, level + j))
  }

  ghost predicate AllInReach(hhdm: u64, va: nat, level: nat, line: seq<nat>, n: nat) {
    forall j: nat :: j < n ==> InReach(hhdm, va, level, line, j)
  }

  lemma {:induction false} ReachShift(hhdm: u64, va: nat, level: nat, line: seq<nat>, n: nat)
    requires line != []
    ensures AllInReach(hhdm, va, level, line, n + 1) <==>
      Addressable(hhdm, line[0], Index(va, level)) && AllInReach(hhdm, va, level + 1, line[1..], n)
  {
    hide Index, Addressable;
    var next, rest := level + 1, line[1..];
    if Addressable(hhdm, line[0], Index(va, level)) && AllInReach(hhdm, va, next, rest, n) {
      forall j: nat | j < n + 1 ensures InReach(hhdm, va, level, line, j) {
        if j > 0 {
          ReachOne(hhdm, va, level, line, j - 1);
        }
      }
    }
    if AllInReach(hhdm, va, level, line, n + 1) {
      assert InReach(hhdm, va, level, line, 0);
      forall j: nat | j < n ensures InReach(hhdm, va, next, rest, j) {
        ReachOne(hhdm, va, level, line, j);
      }
    }
  }

  lemma ReachOne(hhdm: u64, va: nat, level: nat, line: seq<nat>, j: nat)
    requires line != []
    ensures InReach(hhdm, va, level, line, j + 1) <==> InReach(hhdm, va, level + 1, line[1..], j)
  {
    hide Index, Addressable;
    assert level + (j + 1) == level + 1 + j;
  }

  /** The tables can be made exactly when there are frames enough, and the entry used in each can be addressed. */
  lemma {:induction false} SupplyIff(hhdm: u64, va: nat, level: nat, line: seq<nat>)
    requires 1 <= level <= 3
    ensures Supply(hhdm, va, level, line).None? <==> 4 - level <= |line| && AllInReach(hhdm, va, level, line, 4 - level)
    ensures Supply(hhdm, va, level, line) == Some(OutOfFrames) <==> |line| < 4 - level && AllInReach(hhdm, va, level, line, |line|)
    decreases 4 - level
  {
    hide Index, AllInReach;
    NoneToReach(hhdm, va, level, line);
    NoneToReach(hhdm, va, level + 1, line);
    if line != [] {
      ReachShift(hhdm, va, level, line, 3 - level);
      ReachShift(hhdm, va, level, line, |line| - 1);
      NoneToReach(hhdm, va, level + 1, line[1..]);
      if level < 3 {
        SupplyIff(hhdm, va, level + 1, line[1..]);
      }
    }
  }

  lemma NoneToReach(hhdm: u64, va: nat, level: nat, line: seq<nat>)
    ensures AllInReach(hhdm, va, level, line, 0)
  {
  }

  /** With frames in reach, only their number matters. */
  lemma {:induction false} CoveredLack(mem: Memory, hhdm: u64, root: nat, va: nat, line: seq<nat>)
    requires Covered(hhdm, line)
    ensures Lack(mem, hhdm, root, va, line) == if Gaps(mem, root, va, 3) <= |line| then None else Some(OutOfFrames)
  {
    hide Index, TableAt, Supply, Onward;
    var gaps := Gaps(mem, root, va, 3);
    GapsBound(mem, root, va);
    if gaps > 0 {
      var level := 4 - gaps;
      SupplyIff(hhdm, va, level, line);
      forall n: nat | n <= |line| ensures AllInReach(hhdm, va, level, line, n) {}
    }
  }

  lemma GapsBound(mem: Memory, root: nat, va: nat)
    ensures Gaps(mem, root, va, 3) <= 3
  {
    hide TableAt;
    assert Gaps(mem, root, va, 1) <= 1 && Gaps(mem, root, va, 2) <= 2;
  }

  /** The first thing from `level` on that keeps `va` from being unmapped. */
  function Hindrance(mem: Memory, hhdm: u64, root: nat, va: nat, level: nat): Option<PageMapError>
    decreases 4 - level
  {
    if level > 3 then None
    else
      match TableAt(mem, root, va, level)
      case None => None
      case Some(t) =>
        var i := Index(va, level);
        if t !in mem then None
        else if !Addressable(hhdm, t, i) then Some(if level == 3 then AddressOverflow else NotMapped)
        else if !Present(mem[t][i]) then Some(NotMapped)
        else if level == 3 then None
        else if Huge(mem[t][i]) then Some(HugePageConflict)
        else Hindrance(mem, hhdm, root, va, level + 1)
  }

  /** The entries that the walk for `va` has yet to read are as they were. */
  ghost predicate Untouched(before: Memory, mem: Memory, root: nat, va: nat, level: nat) {
    forall k: nat :: level <= k <= 3 && TableAt(before, root, va, k).Some? ==>
      var t := TableAt(before, root, va, k).value;
      t in before && t in mem && mem[t][Index(va, k)] == before[t][Index(va, k)]
  }

  /** Writing the entry just read leaves the deeper ones alone. */
  lemma {:induction false} UntouchedDeeper(before: Memory, mem: Memory, after: Memory, root: nat, tables: Tables, va: nat, level: nat)
    requires Tree(before, root, tables) && level < 3 && Untouched(before, mem, root, va, level) && TableAt(before, root, va, level).Some?
    requires forall u <- tables :: u in mem && u != TableAt(before, root, va, level).value ==> u in after && after[u] == mem[u]
    ensures Untouched(before, after, root, va, level + 1)
  {
    hide Index, Leads, Frame;
    TableLevel(before, root, tables, va, level);
    forall k: nat | level < k <= 3 && TableAt(before, root, va, k).Some?
      ensures var t := TableAt(before, root, va, k).value; t in before && t in after && after[t][Index(va, k)] == before[t][Index(va, k)]
    {
      TableLevel(before, root, tables, va, k);
    }
  }

  /**
    What the page at `va` may be used for: by users if the flags say so, and for writing
    and execution if they do and the entries that were there before do not forbid it.
   */
  ghost predicate PageOpen(before: Memory, mem: Memory, root: nat, va: nat, physical: u64, flags: u64) {
    forall a: nat :: SamePage(a, va) ==>
      && (Access(mem, root, a, ByUser) <==> Grants(flags, ByUser))
      && (Access(mem, root, a, ForWriting) <==> Grants(flags, ForWriting) && Open(before, root, va, ForWriting))
      && (Access(mem, root, a, ForExecution) <==>
            Grants(flags, ForExecution) && Grants(physical, ForExecution) && Open(before, root, va, ForExecution))
  }

  ghost predicate PageShut(mem: Memory, root: nat, va: nat) {
    forall a: nat, right: Right :: SamePage(a, va) ==> !Access(mem, root, a, right)
  }

  /** A page that can be mapped could not be used. */
  lemma {:induction false} Unobstructed(mem: Memory, hhdm: u64, root: nat, tables: Tables, va: nat)
    requires Tree(mem, root, tables) && Obstacle(mem, hhdm, root, va, 0).None?
    ensures PageShut(mem, root, va)
  {
    hide Access, Obstacle, SamePage, Tree;
    TableTop(mem, root, va);
    forall a: nat, right: Right | SamePage(a, va) ensures !Access(mem, root, a, right) {
      UnobstructedFrom(mem, hhdm, root, tables, va, 0, right);
      SameAccess(mem, root, a, va, right);
    }
  }

  lemma {:induction false} UnobstructedFrom(mem: Memory, hhdm: u64, root: nat, tables: Tables, va: nat, level: nat, right: Right)
    requires Tree(mem, root, tables) && level <= 3 && TableAt(mem, root, va, level).Some? && Obstacle(mem, hhdm, root, va, level).None?
    ensures !Access(mem, root, va, right)
    decreases 3 - level
  {
    hide Access, Index, Frame, Huge, Tree, Present, Grants;
    TableIn(mem, root, tables, va, level);
    var e := mem[TableAt(mem, root, va, level).value][Index(va, level)];
    if Present(e) {
      UnobstructedFrom(mem, hhdm, root, tables, va, level + 1, right);
    } else {
      NoAccess(mem, root, va, level, right);
    }
  }

  /** No other page loses a right, and none gains one but for users of a user page. */
  ghost predicate WidenedOutside(before: Memory, mem: Memory, root: nat, va: nat, user: bool) {
    forall a: nat, right: Right :: !SamePage(a, va) ==>
      && (Access(before, root, a, right) ==> Access(mem, root, a, right))
      && (!user || right != ByUser ==> (Access(mem, root, a, right) ==> Access(before, root, a, right)))
  }

  lemma {:induction false} LeafInstalled(before: Memory, mid: Memory, mem: Memory, root: nat, tables: Tables, va: u64, t: nat, physical: u64, flags: u64)
    requires Tree(mid, root, tables) && TableAt(mid, root, va, 3) == Some(t) && t in mid && t in tables && tables[t] == 3 && Aligned(physical)
    requires mem == WithEntry(mid, t, Index(va, 3), Leaf(physical, flags))
    requires Widened(before, mid, root, User(flags)) && Opened(before, mid, root, va, 3, User(flags))
    ensures PageOpen(before, mem, root, va, physical, flags) && WidenedOutside(before, mem, root, va, User(flags))
  {
    hide Tree, TableAt, Index, Leaf, Access, Admitted, Upper, Grants, SamePage, Frame, Huge, Open, Aligned;
    var e := Leaf(physical, flags);
    LeafGrants(physical, flags);
    AdmittedMeans(before, root, va, User(flags));
    UserIsGranted(flags);
    forall right: Right ensures Access(mem, root, va, right) <==> Admitted(before, root, va, 3, User(flags), right) && Grants(e, right) {
      LeafAccess(mid, mem, root, tables, va, t, e, right);
    }
    forall a: nat, right: Right
      ensures SamePage(a, va) ==> Access(mem, root, a, right) == Access(mem, root, va, right)
      ensures !SamePage(a, va) ==> Access(mem, root, a, right) == Access(mid, root, a, right)
    {
      if SamePage(a, va) {
        SameAccess(mem, root, a, va, right);
      } else {
        ReadersOfPage(mid, 0, root, tables, va, a);
        OtherAccess(mid, mem, root, tables, t, Index(va, 3), a, right);
      }
    }
  }

  lemma {:induction false} LeafCleared(mem: Memory, after: Memory, root: nat, tables: Tables, va: nat, t: nat, a: nat, right: Right)
    requires Tree(mem, root, tables) && TableAt(mem, root, va, 3) == Some(t) && t in mem && t in tables && tables[t] == 3
    requires after == WithEntry(mem, t, Index(va, 3), 0)
    ensures Access(after, root, a, right) <==> !SamePage(a, va) && Access(mem, root, a, right)
  {
    hide Tree, TableAt, Index, Access, Upper, Grants, SamePage, Frame, Huge;
    if SamePage(a, va) {
      LeafAccess(mem, after, root, tables, va, t, 0, right);
      SameAccess(after, root, a, va, right);
    } else {
      ReadersOfPage(mem, 0, root, tables, va, a);
      OtherAccess(mem, after, root, tables, t, Index(va, 3), a, right);
    }
  }

  lemma UserIsGranted(flags: u64)
    ensures User(flags) <==> Grants(flags, ByUser)
  {
  }

  /** What address `a` of a page mapped to `physical` translates to. */
  function Mapped(physical: u64, flags: u64, a: nat): Option<Mapping> {
    Some(Mapping(Frame(Leaf(physical, flags)) + a % 4096, 4096, Leaf(physical, flags)))
  }

  class PageTables {
    const hhdm: u64
    const root: nat
    var mem: Memory
    ghost var tables: Tables

    ghost predicate Valid()
      reads this
    {
      Tree(mem, root, tables)
    }

    /** The allocator's frames are memory and hold no tables. */
    ghost predicate Supplied(allocator: FrameAllocator)
      reads this, allocator
    {
      && allocator.Valid()
      && forall f <- allocator.Available() :: f in mem && f !in tables && Aligned(f) && f < PHYSICAL_END
    }

    /** The walk the processor makes. */
    method TranslateAddress(va: u64) returns (r: Option<Mapping>)
      requires Valid()
      ensures r == Translate(mem, hhdm, root, va)
    {
      hide Frame, Huge, Present, Index;
      var table := root;
      for level := 0 to 4
        invariant level <= 3 ==> TableAt(mem, root, va, level) == Some(table)
        invariant level <= 3 ==> Translate(mem, hhdm, root, va) == Descend(mem, hhdm, table, level, va)
        invariant level == 4 ==> Translate(mem, hhdm, root, va).None?
      {
        TableLevel(mem, root, tables, va, level);
        var i := Index(va, level);
        if !Addressable(hhdm, table, i) {
          return None;
        }
        var entry := mem[table][i];
        if !Present(entry) {
          return None;
        }
        if (level == 1 || level == 2) && Huge(entry) {
          return Some(Mapping(Frame(entry) + va % PageSize(level), PageSize(level), entry));
        }
        if level == 3 {
          return Some(Mapping(Frame(entry) + va % 4096, 4096, entry));
        }
        table := Frame(entry);
      }
      r := None;
    }

    /** One round of the loop of `map_page`: the next table, made if it is missing. */
    method EnterTable(table: nat, level: nat, va: u64, flags: u64, allocator: FrameAllocator) returns (r: Result<nat>)
      requires Valid() && Supplied(allocator) && level < 3 && TableAt(mem, root, va, level) == Some(table)
      modifies this`mem, this`tables, allocator
      ensures Valid() && Supplied(allocator) && allocator.Available() <= old(allocator.Available())
      ensures forall a: nat :: Translate(mem, hhdm, root, a) == Translate(old(mem), hhdm, root, a)
      ensures forall u <- old(tables) :: u in tables && (u in old(mem) && u != table ==> u in mem && mem[u] == old(mem)[u])
      ensures r.Ok? ==>
        && TableAt(mem, root, va, level + 1) == Some(r.value)
        && Passable(mem, hhdm, root, va, level + 1) == Passable(old(mem), hhdm, root, va, level)
      ensures r.Ok? ==> table in mem && !Huge(mem[table][Index(va, level)])
      ensures table in old(mem)
      ensures var e := old(mem)[table][Index(va, level)];
        if !Addressable(hhdm, table, Index(va, level)) then r == Err(AddressOverflow)
        else if Present(e) then r == if Huge(e) then Err(HugePageConflict) else Ok(Frame(e))
        else if old(allocator.Queue()) == [] then r == Err(OutOfFrames)
        else if hhdm + old(allocator.Queue())[0] >= MAX_ADDRESS then r == Err(AddressOverflow)
        else r == Ok(old(allocator.Queue())[0]) && r.value in mem && mem[r.value] == EMPTY_TABLE
      ensures r.Ok? && Present(old(mem)[table][Index(va, level)]) ==> allocator.Queue() == old(allocator.Queue())
      ensures r.Ok? && !Present(old(mem)[table][Index(va, level)]) ==> old(allocator.Queue()) == [r.value] + allocator.Queue()
      ensures r == Err(OutOfFrames) ==> allocator.Queue() == []
      ensures Widened(old(mem), mem, root, User(flags))
      ensures r.Ok? ==> Entered(old(mem), mem, root, va, level, User(flags))
    {
      hide Frame, Huge, Index, Translate, User, Tree, Aligned, Pool, Line, Widened, Entered, Grants;
      WidenedSelf(mem, root, User(flags));
      var i := Index(va, level);
      TableIn(mem, root, tables, va, level);
      if !Addressable(hhdm, table, i) {
        return Err(AddressOverflow);
      }
      var entry := mem[table][i];
      if !Present(entry) {
        var frame := allocator.Allocate();
        if frame.None? {
          return Err(OutOfFrames);
        }
        var n := frame.value;
        if hhdm + n >= MAX_ADDRESS {
          return Err(AddressOverflow);
        }
        ChildEntryLeads(n, flags);
        NewTable(mem, hhdm, root, tables, table, i, n, ChildEntry(n, flags));
        NewTableReached(mem, hhdm, root, tables, va, level, table, n, ChildEntry(n, flags));
        NewTableOpens(mem, root, tables, va, level, table, n, flags);
        mem := mem[n := EMPTY_TABLE];
        mem := WithEntry(mem, table, i, ChildEntry(n, flags));
        tables := tables[n := level + 1];
        return Ok(n);
      }
      if Huge(entry) {
        return Err(HugePageConflict);
      }
      if User(flags) && !User(entry) {
        UserEntryLeads(entry);
        EquivalentEntry(mem, hhdm, root, tables, table, i, entry + USER_BIT);
        UserEntryReached(mem, hhdm, root, tables, va, level, table, entry + USER_BIT);
        UserEntryOpens(mem, root, tables, va, level, table);
        mem := WithEntry(mem, table, i, entry + USER_BIT);
      } else {
        EntryOpens(mem, root, tables, va, level, table, User(flags));
      }
      r := Ok(Frame(entry));
    }

    /** Walks to the last table, making those that are missing. */
    method WalkDown(va: u64, flags: u64, allocator: FrameAllocator) returns (r: Result<nat>)
      requires Valid() && Supplied(allocator)
      modifies this`mem, this`tables, allocator
      ensures Valid() && Supplied(allocator) && allocator.Available() <= old(allocator.Available())
      ensures forall a: nat :: Translate(mem, hhdm, root, a) == Translate(old(mem), hhdm, root, a)
      ensures r.Ok? ==> TableAt(mem, root, va, 3) == Some(r.value) && Passable(mem, hhdm, root, va, 3)
      ensures r.Ok? ==> r.value in mem && !HugeRoot(mem, root, va)
      ensures r.Ok? && TableAt(old(mem), root, va, 3).Some? ==>
        && TableAt(old(mem), root, va, 3) == Some(r.value) && r.value in old(mem)
        && mem[r.value][Index(va, 3)] == old(mem)[r.value][Index(va, 3)]
        && Obstacle(old(mem), hhdm, root, va, 0) == Obstacle(old(mem), hhdm, root, va, 3)
      ensures r.Ok? && TableAt(old(mem), root, va, 3).None? ==> mem[r.value] == EMPTY_TABLE && Obstacle(old(mem), hhdm, root, va, 0).None?
      ensures r.Ok? ==> Gaps(old(mem), root, va, 3) <= |old(allocator.Queue())|
      ensures r.Ok? ==> allocator.Queue() == old(allocator.Queue())[Gaps(old(mem), root, va, 3)..]
      ensures r.Ok? && TableAt(old(mem), root, va, 3).Some? ==> Lack(old(mem), hhdm, root, va, old(allocator.Queue())).None?
      ensures r.Ok? && TableAt(old(mem), root, va, 3).None? ==>
        var reached := Addressable(hhdm, r.value, Index(va, 3));
        Lack(old(mem), hhdm, root, va, old(allocator.Queue())) == if reached then None else Some(AddressOverflow)
      ensures r.Err? ==>
        || Obstacle(old(mem), hhdm, root, va, 0) == Some(r.error)
        || (Obstacle(old(mem), hhdm, root, va, 0).None? && Lack(old(mem), hhdm, root, va, old(allocator.Queue())) == Some(r.error))
      ensures r == Err(OutOfFrames) ==> allocator.Queue() == []
      ensures Widened(old(mem), mem, root, User(flags))
      ensures r.Ok? ==> Opened(old(mem), mem, root, va, 3, User(flags))
    {
      hide Frame, Huge, Index, Translate, Tree, Pool, TableAt, Obstacle, Gaps, Line, Supply, Onward, Lack, Addressable,
           Widened, Entered, Opened, User, EntryAt;
      WidenedSelf(mem, root, User(flags));
      OpenedNone(mem, mem, root, va, User(flags));
      ghost var line := allocator.Queue();
      var table := root;
      TableTop(mem, root, va);
      UntouchedSelf(mem, root, tables, va);
      ghost var made := false;
      NoGaps(mem, root, va);
      for level := 0 to 3
        invariant Valid() && Supplied(allocator) && allocator.Available() <= old(allocator.Available())
        invariant forall a: nat :: Translate(mem, hhdm, root, a) == Translate(old(mem), hhdm, root, a)
        invariant TableAt(mem, root, va, level) == Some(table) && Passable(mem, hhdm, root, va, level)
        invariant old(tables).Keys <= tables.Keys && (level > 0 ==> !HugeRoot(mem, root, va))
        invariant !made ==>
          && TableAt(old(mem), root, va, level) == Some(table) && Untouched(old(mem), mem, root, va, level)
          && Obstacle(old(mem), hhdm, root, va, 0) == Obstacle(old(mem), hhdm, root, va, level)
        invariant made ==>
          table in mem && mem[table] == EMPTY_TABLE && TableAt(old(mem), root, va, level).None? && Obstacle(old(mem), hhdm, root, va, 0).None?
        invariant Gaps(old(mem), root, va, level) <= |line| && allocator.Queue() == line[Gaps(old(mem), root, va, level)..]
        invariant !made ==> Gaps(old(mem), root, va, level) == 0
        invariant made ==> Lack(old(mem), hhdm, root, va, line) == Onward(hhdm, va, level, table, allocator.Queue())
        invariant Widened(old(mem), mem, root, User(flags)) && Opened(old(mem), mem, root, va, level, User(flags))
      {
        ghost var rest := allocator.Queue();
        ghost var before := mem;
        GapsStep(old(mem), root, va, level);
        LackStep(old(mem), hhdm, root, va, level, line);
        OnwardStep(hhdm, va, level, table, rest);
        TableIn(mem, root, tables, va, level);
        RootIn(mem, root, tables);
        TableTop(mem, root, va);
        var next := EnterTable(table, level, va, flags, allocator);
        WidenedTwice(old(mem), before, mem, root, User(flags));
        ObstacleStep(old(mem), hhdm, root, old(tables), va, level);
        if next.Err? {
          return Err(next.error);
        }
        if !made {
          UntouchedDeeper(old(mem), before, mem, root, old(tables), va, level);
          EntryUntouched(old(mem), before, root, va, level);
        } else {
          EntryEmpty(old(mem), before, root, va, level);
        }
        OpenedStep(old(mem), before, mem, root, va, level, User(flags));
        made := made || !Present(before[table][Index(va, level)]);
        table := next.value;
      }
      LastObstacle(old(mem), root, old(tables), va);
      NoLack(old(mem), hhdm, root, va, line);
      OnwardStep(hhdm, va, 3, table, allocator.Queue());
      r := Ok(table);
    }

    /** Maps one page: its addresses translate to the frame, all others as before. */
    method MapPage(va: u64, physical: u64, flags: u64, allocator: FrameAllocator) returns (r: Result<()>)
      requires Valid() && Supplied(allocator)
      modifies this`mem, this`tables, allocator
      ensures Valid() && Supplied(allocator) && allocator.Available() <= old(allocator.Available())
      ensures r.Ok? ==> forall a: nat ::
        Translate(mem, hhdm, root, a) == if SamePage(a, va) then Mapped(physical, flags, a) else Translate(old(mem), hhdm, root, a)
      ensures r.Ok? ==> !HugeRoot(mem, root, va) && forall a: nat :: SamePage(a, va) ==> Translate(old(mem), hhdm, root, a).None?
      ensures r.Err? ==> forall a: nat :: Translate(mem, hhdm, root, a) == Translate(old(mem), hhdm, root, a)
      ensures r.Ok? <==> MapError(old(mem), hhdm, root, va, physical, old(allocator.Queue())).None?
      ensures r.Err? ==> MapError(old(mem), hhdm, root, va, physical, old(allocator.Queue())) == Some(r.error)
      ensures r.Ok? ==> Gaps(old(mem), root, va, 3) <= |old(allocator.Queue())|
      ensures r.Ok? ==> allocator.Queue() == old(allocator.Queue())[Gaps(old(mem), root, va, 3)..]
      ensures r == Err(OutOfFrames) && Obstacle(old(mem), hhdm, root, va, 0).None? ==> allocator.Queue() == []
      ensures r.Ok? ==> PageOpen(old(mem), mem, root, va, physical, flags) && PageShut(old(mem), root, va)
      ensures r.Ok? ==> WidenedOutside(old(mem), mem, root, va, User(flags))
      ensures r.Err? ==> Widened(old(mem), mem, root, User(flags))
    {
      hide Frame, Huge, Index, Translate, Tree, Pool, TableAt, Obstacle, SamePage, Leaf, Present, Aligned, Gaps, Line, Lack, Addressable,
           Widened, Opened, User, PageOpen, PageShut, WidenedOutside;
      WidenedSelf(mem, root, User(flags));
      ObstacleKinds(mem, hhdm, root, va, 0);
      if !Aligned(va) || !Aligned(physical) {
        return Err(Unaligned);
      }
      var table := WalkDown(va, flags, allocator);
      if table.Err? {
        return Err(table.error);
      }
      var t, i := table.value, Index(va, 3);
      ghost var middle := mem;
      ObstacleLast(old(mem), hhdm, root, va);
      EmptyEntry(i);
      if !Addressable(hhdm, t, i) {
        return Err(AddressOverflow);
      }
      if Present(mem[t][i]) {
        return Err(AlreadyMapped);
      }
      var leaf := Leaf(physical, flags);
      TableIn(mem, root, tables, va, 3);
      RootIn(mem, root, tables);
      LeafEntry(mem, hhdm, root, tables, t, i, leaf);
      mem := WithEntry(mem, t, i, leaf);
      LeafInstalled(old(mem), middle, mem, root, tables, va, t, physical, flags);
      Unobstructed(old(mem), hhdm, root, old(tables), va);
      forall a: nat
        ensures Translate(mem, hhdm, root, a) == if SamePage(a, va) then Mapped(physical, flags, a) else Translate(middle, hhdm, root, a)
        ensures SamePage(a, va) ==> Translate(middle, hhdm, root, a).None?
      {
        ReadersOfPage(middle, hhdm, root, tables, va, a);
        AbsentLeaf(middle, hhdm, root, tables, va, a);
      }
      r := Ok(());
    }

    /** Unmaps one page and returns its frame; all other addresses translate as before. */
    method UnmapPage(va: u64) returns (r: Result<nat>)
      requires Valid()
      modifies this`mem
      ensures Valid() && mem.Keys == old(mem.Keys)
      ensures r.Ok? ==> forall a: nat :: Translate(mem, hhdm, root, a) == if SamePage(a, va) then None else Translate(old(mem), hhdm, root, a)
      ensures r.Err? ==> mem == old(mem)
      ensures !Aligned(va) ==> r == Err(Unaligned)
      ensures Aligned(va) ==> (r.Ok? <==> Hindrance(old(mem), hhdm, root, va, 0).None?)
      ensures Aligned(va) && r.Err? ==> Hindrance(old(mem), hhdm, root, va, 0) == Some(r.error)
      ensures r.Ok? <==>
        && Aligned(va) && Translate(old(mem), hhdm, root, va).Some? && Translate(old(mem), hhdm, root, va).value.pageSize == 4096
        && !HugeRoot(old(mem), root, va)
      ensures r.Ok? ==> forall a: nat :: SamePage(a, va) ==>
        Translate(old(mem), hhdm, root, a).Some? && Translate(old(mem), hhdm, root, a).value.physical == r.value + a % 4096
      ensures r.Ok? ==> forall a: nat, right: Right :: Access(mem, root, a, right) <==> !SamePage(a, va) && Access(old(mem), root, a, right)
    {
      hide Frame, Huge, Index, Tree, SamePage, Aligned, Hindrance, Access;
      if !Aligned(va) {
        return Err(Unaligned);
      }
      var table := root;
      for level := 0 to 3
        invariant TableAt(mem, root, va, level) == Some(table) && Passable(mem, hhdm, root, va, level) && mem == old(mem)
        invariant level > 0 ==> !HugeRoot(mem, root, va)
        invariant Hindrance(mem, hhdm, root, va, 0) == Hindrance(mem, hhdm, root, va, level)
      {
        TableIn(mem, root, tables, va, level);
        HindranceStep(mem, hhdm, root, va, level);
        WalkFrom(mem, hhdm, root, va, level);
        var i := Index(va, level);
        if !Addressable(hhdm, table, i) {
          return Err(NotMapped);
        }
        var entry := mem[table][i];
        if !Present(entry) {
          return Err(NotMapped);
        }
        if Huge(entry) {
          return Err(HugePageConflict);
        }
        table := Frame(entry);
      }
      var i := Index(va, 3);
      TableIn(mem, root, tables, va, 3);
      HindranceStep(mem, hhdm, root, va, 3);
      WalkFrom(mem, hhdm, root, va, 3);
      if !Addressable(hhdm, table, i) {
        return Err(AddressOverflow);
      }
      var entry := mem[table][i];
      if !Present(entry) {
        return Err(NotMapped);
      }
      LeafEntry(mem, hhdm, root, tables, table, i, 0);
      LeafEntry(mem, hhdm, root, tables, table, i, entry);
      assert mem[table][i := entry] == mem[table] && WithEntry(mem, table, i, entry) == mem;
      forall a: nat
        ensures Reads(mem, root, tables, a, table, i) <==> SamePage(a, va)
        ensures SamePage(a, va) ==> Passable(mem, hhdm, root, a, 3)
      {
        ReadersOfPage(mem, hhdm, root, tables, va, a);
      }
      ghost var before := mem;
      mem := WithEntry(mem, table, i, 0);
      forall a: nat, right: Right ensures Access(mem, root, a, right) <==> !SamePage(a, va) && Access(before, root, a, right) {
        LeafCleared(before, mem, root, tables, va, table, a, right);
      }
      r := Ok(Frame(entry));
    }
  }

  lemma NoGaps(mem: Memory, root: nat, va: nat)
    ensures Gaps(mem, root, va, 0) == 0
  {
  }

  lemma GapsStep(mem: Memory, root: nat, va: nat, level: nat)
    requires level < 3
    ensures Gaps(mem, root, va, level + 1) == Gaps(mem, root, va, level) + if TableAt(mem, root, va, level + 1).None? then 1 else 0
    ensures Gaps(mem, root, va, level + 1) <= Gaps(mem, root, va, 3)
  {
    hide TableAt;
    assert Gaps(mem, root, va, 2) <= Gaps(mem, root, va, 3);
    assert Gaps(mem, root, va, 1) <= Gaps(mem, root, va, 2);
  }

  /** The first table that is missing. */
  lemma {:induction false} LackStep(mem: Memory, hhdm: u64, root: nat, va: nat, level: nat, line: seq<nat>)
    requires level < 3
    ensures TableAt(mem, root, va, level).Some? && TableAt(mem, root, va, level + 1).None? ==>
      Lack(mem, hhdm, root, va, line) == Supply(hhdm, va, level + 1, line)
  {
    hide Supply, Index, Frame, Leads;
    assert TableAt(mem, root, va, 2).None? ==> TableAt(mem, root, va, 3).None?;
    assert TableAt(mem, root, va, 1).None? ==> TableAt(mem, root, va, 2).None?;
    assert Gaps(mem, root, va, 1) == if TableAt(mem, root, va, 1).None? then 1 else 0;
    assert Gaps(mem, root, va, 2) == Gaps(mem, root, va, 1) + if TableAt(mem, root, va, 2).None? then 1 else 0;
  }

  lemma OnwardStep(hhdm: u64, va: nat, level: nat, table: nat, line: seq<nat>)
    requires level <= 3
    ensures Onward(hhdm, va, level, table, line) ==
      if !Addressable(hhdm, table, Index(va, level)) then Some(AddressOverflow)
      else if level == 3 then None
      else if line == [] then Some(OutOfFrames)
      else if hhdm + line[0] >= MAX_ADDRESS then Some(AddressOverflow)
      else Onward(hhdm, va, level + 1, line[0], line[1..])
    ensures Supply(hhdm, va, level + 1, line) ==
      if line == [] then Some(OutOfFrames)
      else if hhdm + line[0] >= MAX_ADDRESS then Some(AddressOverflow)
      else Onward(hhdm, va, level + 1, line[0], line[1..])
  {
    hide Index, Addressable;
  }

  lemma NoLack(mem: Memory, hhdm: u64, root: nat, va: nat, line: seq<nat>)
    ensures Gaps(mem, root, va, 3) == 0 ==> Lack(mem, hhdm, root, va, line).None?
  {
  }

  lemma TableIn(mem: Memory, root: nat, tables: Tables, va: nat, level: nat)
    requires Tree(mem, root, tables) && level <= 3 && TableAt(mem, root, va, level).Some?
    ensures var t := TableAt(mem, root, va, level).value; t in mem && t in tables && tables[t] == level
  {
    TableLevel(mem, root, tables, va, level);
  }

  lemma {:induction false} NewTableReached(mem: Memory, hhdm: u64, root: nat, tables: Tables, va: nat, level: nat, t: nat, n: nat, e: u64)
    requires Tree(mem, root, tables) && level < 3 && TableAt(mem, root, va, level) == Some(t) && t in mem && t in tables
    requires n in mem && n !in tables && Present(e) && !Huge(e) && Frame(e) == n
    ensures var after := WithEntry(mem[n := EMPTY_TABLE], t, Index(va, level), e);
      && TableAt(after, root, va, level) == Some(t) && TableAt(after, root, va, level + 1) == Some(n) && after[n] == EMPTY_TABLE
      && Passable(after, hhdm, root, va, level) == Passable(mem, hhdm, root, va, level)
  {
    hide Frame, Index, Tree;
    TableIn(mem, root, tables, va, level);
    var after := WithEntry(mem[n := EMPTY_TABLE], t, Index(va, level), e);
    SameApproach(mem, after, hhdm, root, tables, t, Index(va, level), va);
  }

  lemma {:induction false} UserEntryReached(mem: Memory, hhdm: u64, root: nat, tables: Tables, va: nat, level: nat, t: nat, e: u64)
    requires Tree(mem, root, tables) && level < 3 && TableAt(mem, root, va, level) == Some(t) && t in mem && t in tables
    requires Present(e) && !Huge(e)
    ensures var after := WithEntry(mem, t, Index(va, level), e);
      && TableAt(after, root, va, level) == Some(t) && TableAt(after, root, va, level + 1) == Some(Frame(e))
      && Passable(after, hhdm, root, va, level) == Passable(mem, hhdm, root, va, level)
  {
    hide Frame, Index, Tree;
    TableIn(mem, root, tables, va, level);
    var after := WithEntry(mem, t, Index(va, level), e);
    SameApproach(mem, after, hhdm, root, tables, t, Index(va, level), va);
  }

  /** The entry at `level` has become one that lets pass whatever it admitted; the ones above are as they were. */
  ghost predicate Entered(before: Memory, mem: Memory, root: nat, va: nat, level: nat, user: bool) {
    && (forall right: Right :: Passes(EntryAt(mem, root, va, level), right) <==> Admits(EntryAt(before, root, va, level), user, right))
    && forall k: nat :: k < level ==> EntryAt(mem, root, va, k) == EntryAt(before, root, va, k)
  }

  /** Down to `level`, the entries let pass whatever those of `before` admit. */
  ghost predicate Opened(before: Memory, mem: Memory, root: nat, va: nat, level: nat, user: bool) {
    forall right: Right :: Upper(mem, root, va, level, right) <==> Admitted(before, root, va, level, user, right)
  }

  lemma OpenedNone(before: Memory, mem: Memory, root: nat, va: nat, user: bool)
    ensures Opened(before, mem, root, va, 0, user)
  {
  }

  lemma {:induction false} OpenedStep(before: Memory, mid: Memory, mem: Memory, root: nat, va: nat, level: nat, user: bool)
    requires Opened(before, mid, root, va, level, user) && Entered(mid, mem, root, va, level, user)
    requires forall right: Right :: Admits(EntryAt(mid, root, va, level), user, right) == Admits(EntryAt(before, root, va, level), user, right)
    ensures Opened(before, mem, root, va, level + 1, user)
  {
    hide EntryAt, Passes, Admits;
    var next := level + 1;
    forall right: Right ensures Upper(mem, root, va, next, right) <==> Admitted(before, root, va, next, user, right) {
      assert Upper(mem, root, va, next, right) <==> Upper(mem, root, va, level, right) && Passes(EntryAt(mem, root, va, level), right);
      assert Upper(mem, root, va, level, right) <==> Upper(mid, root, va, level, right);
      assert Admitted(before, root, va, next, user, right) <==>
        Admitted(before, root, va, level, user, right) && Admits(EntryAt(before, root, va, level), user, right);
    }
  }

  lemma EntryUntouched(before: Memory, mem: Memory, root: nat, va: nat, level: nat)
    requires level <= 3 && Untouched(before, mem, root, va, level) && TableAt(before, root, va, level).Some?
    requires TableAt(mem, root, va, level) == TableAt(before, root, va, level)
    ensures EntryAt(mem, root, va, level) == EntryAt(before, root, va, level)
  {
    hide TableAt, Index;
  }

  /** A table that is not there yet and one that is empty admit the same. */
  lemma EntryEmpty(before: Memory, mem: Memory, root: nat, va: nat, level: nat)
    requires TableAt(before, root, va, level).None?
    requires TableAt(mem, root, va, level).Some? && TableAt(mem, root, va, level).value in mem && mem[TableAt(mem, root, va, level).value] == EMPTY_TABLE
    ensures forall user: bool, right: Right :: Admits(EntryAt(mem, root, va, level), user, right) == Admits(EntryAt(before, root, va, level), user, right)
  {
    hide TableAt, Index;
  }

  lemma {:induction false} EntryOpens(mem: Memory, root: nat, tables: Tables, va: nat, level: nat, t: nat, user: bool)
    requires Tree(mem, root, tables) && level < 3 && TableAt(mem, root, va, level) == Some(t) && t in mem && Present(mem[t][Index(va, level)])
    requires user ==> User(mem[t][Index(va, level)])
    ensures Entered(mem, mem, root, va, level, user)
  {
    hide Index, TableAt, Tree;
  }

  lemma {:induction false} NewTableOpens(mem: Memory, root: nat, tables: Tables, va: nat, level: nat, t: nat, n: nat, flags: u64)
    requires Tree(mem, root, tables) && level < 3 && TableAt(mem, root, va, level) == Some(t) && t in mem && t in tables && tables[t] == level
    requires !Present(mem[t][Index(va, level)]) && n in mem && n !in tables && Aligned(n) && n < PHYSICAL_END
    ensures ChildEntry(n, flags) < MAX_ADDRESS
    ensures var after := WithEntry(mem[n := EMPTY_TABLE], t, Index(va, level), ChildEntry(n, flags));
      Widened(mem, after, root, User(flags)) && Entered(mem, after, root, va, level, User(flags))
  {
    hide Index, Tree, Frame, Huge, Grants, User, ChildEntry, Widened, Aligned;
    ChildEntryLeads(n, flags);
    var i, e := Index(va, level), ChildEntry(n, flags);
    var after := WithEntry(mem[n := EMPTY_TABLE], t, i, e);
    NewTableAccess(mem, after, root, tables, t, i, n, User(flags));
    forall k: nat | k <= level
      ensures TableAt(after, root, va, k) == TableAt(mem, root, va, k)
      ensures k < level ==> EntryAt(after, root, va, k) == EntryAt(mem, root, va, k)
    {
      OtherEntries(mem, after, root, tables, t, i, va, k);
    }
    assert EntryAt(after, root, va, level) == Some(e);
    forall right: Right ensures Grants(e, right) <==> right != ByUser || User(flags) { ChildEntryGrants(n, flags, right); }
  }

  lemma {:induction false} UserEntryOpens(mem: Memory, root: nat, tables: Tables, va: nat, level: nat, t: nat)
    requires Tree(mem, root, tables) && level < 3 && TableAt(mem, root, va, level) == Some(t) && t in mem && t in tables && tables[t] == level
    requires var e := mem[t][Index(va, level)]; Present(e) && !Huge(e) && !User(e)
    ensures var e := mem[t][Index(va, level)] + USER_BIT;
      && e < MAX_ADDRESS
      && var after := WithEntry(mem, t, Index(va, level), e);
      Widened(mem, after, root, true) && Entered(mem, after, root, va, level, true)
  {
    hide Index, Tree, Frame, Huge, Grants, User, Widened, Present;
    var i := Index(va, level);
    var e := mem[t][i];
    UserEntryLeads(e);
    UserEntryGains(e);
    var after := WithEntry(mem, t, i, e + USER_BIT);
    UserBitAccess(mem, after, root, tables, t, i);
    forall k: nat | k <= level
      ensures TableAt(after, root, va, k) == TableAt(mem, root, va, k)
      ensures k < level ==> EntryAt(after, root, va, k) == EntryAt(mem, root, va, k)
    {
      OtherEntries(mem, after, root, tables, t, i, va, k);
    }
    assert EntryAt(after, root, va, level) == Some(after[t][i]) && EntryAt(mem, root, va, level) == Some(e);
  }

  lemma RootIn(mem: Memory, root: nat, tables: Tables)
    requires Tree(mem, root, tables)
    ensures root in mem && root in tables && tables[root] == 0
  {
  }

  lemma TableTop(mem: Memory, root: nat, va: nat)
    ensures TableAt(mem, root, va, 0) == Some(root)
  {
  }

  lemma {:induction false} UntouchedSelf(mem: Memory, root: nat, tables: Tables, va: nat)
    requires Tree(mem, root, tables)
    ensures Untouched(mem, mem, root, va, 0)
  {
    forall k: nat | k <= 3 && TableAt(mem, root, va, k).Some? ensures TableAt(mem, root, va, k).value in mem {
      TableLevel(mem, root, tables, va, k);
    }
  }

  /** What the entry at `level` says about the obstacles from there on. */
  lemma {:induction false} ObstacleStep(mem: Memory, hhdm: u64, root: nat, tables: Tables, va: nat, level: nat)
    requires Tree(mem, root, tables) && level < 3
    ensures TableAt(mem, root, va, level).None? ==> TableAt(mem, root, va, level + 1).None?
    ensures TableAt(mem, root, va, level).Some? ==>
      var t, i := TableAt(mem, root, va, level).value, Index(va, level);
      && t in mem
      && Obstacle(mem, hhdm, root, va, level) ==
           (if !Addressable(hhdm, t, i) then Some(AddressOverflow) else if !Present(mem[t][i]) then None
            else if Huge(mem[t][i]) then Some(HugePageConflict) else Obstacle(mem, hhdm, root, va, level + 1))
      && (!Present(mem[t][i]) ==> TableAt(mem, root, va, level + 1).None?)
      && (Present(mem[t][i]) && !Huge(mem[t][i]) ==> TableAt(mem, root, va, level + 1) == Some(Frame(mem[t][i])))
  {
    hide Frame, Huge, Present, Index;
    if TableAt(mem, root, va, level).Some? {
      TableLevel(mem, root, tables, va, level);
    }
  }

  lemma HindranceStep(mem: Memory, hhdm: u64, root: nat, va: nat, level: nat)
    requires level <= 3 && TableAt(mem, root, va, level).Some? && TableAt(mem, root, va, level).value in mem
    ensures var t, i := TableAt(mem, root, va, level).value, Index(va, level);
      Hindrance(mem, hhdm, root, va, level) ==
        if !Addressable(hhdm, t, i) then Some(if level == 3 then AddressOverflow else NotMapped)
        else if !Present(mem[t][i]) then Some(NotMapped)
        else if level == 3 then None
        else if Huge(mem[t][i]) then Some(HugePageConflict)
        else Hindrance(mem, hhdm, root, va, level + 1)
  {
    hide TableAt, Index;
  }

  lemma LastObstacle(mem: Memory, root: nat, tables: Tables, va: nat)
    requires Tree(mem, root, tables)
    ensures TableAt(mem, root, va, 3).Some? ==> TableAt(mem, root, va, 3).value in mem
  {
    if TableAt(mem, root, va, 3).Some? {
      TableLevel(mem, root, tables, va, 3);
    }
  }

  lemma ObstacleLast(mem: Memory, hhdm: u64, root: nat, va: nat)
    ensures match TableAt(mem, root, va, 3)
      case None => Obstacle(mem, hhdm, root, va, 3).None?
      case Some(t) => t in mem ==>
        Obstacle(mem, hhdm, root, va, 3) ==
          (if !Addressable(hhdm, t, Index(va, 3)) then Some(AddressOverflow) else if Present(mem[t][Index(va, 3)]) then Some(AlreadyMapped) else None)
  {
    hide Index, TableAt;
  }

  lemma {:induction false} ObstacleKinds(mem: Memory, hhdm: u64, root: nat, va: nat, level: nat)
    ensures Obstacle(mem, hhdm, root, va, level).Some? ==> Obstacle(mem, hhdm, root, va, level).value != Unaligned
    decreases 4 - level
  {
    hide Index, TableAt;
    if level <= 3 {
      ObstacleKinds(mem, hhdm, root, va, level + 1);
    }
  }

  lemma EmptyEntry(i: nat)
    requires i < 512
    ensures !Present(EMPTY_TABLE[i])
  {
  }

  /** A page whose leaf entry is not present does not translate. */
  lemma {:induction false} AbsentLeaf(mem: Memory, hhdm: u64, root: nat, tables: Tables, va: nat, a: nat)
    requires Tree(mem, root, tables) && TableAt(mem, root, va, 3).Some? && TableAt(mem, root, va, 3).value in mem
    requires !Present(mem[TableAt(mem, root, va, 3).value][Index(va, 3)])
    ensures SamePage(a, va) ==> Translate(mem, hhdm, root, a).None?
  {
    hide SamePage, Index, Tree, Translate, Frame, Huge;
    SamePageIndices(a, va);
    if SamePage(a, va) {
      SamePath(mem, hhdm, root, va, a, 3);
      WalkFrom(mem, hhdm, root, a, 3);
    }
  }

  /** The top-level entry has the bit that `unmap_page`, but not the walk, takes for a huge page. */
  predicate HugeRoot(mem: Memory, root: nat, va: nat) {
    root in mem && Huge(mem[root][Index(va, 0)])
  }

  /** A page that was mapped can be unmapped, which gives back its frame and restores every translation. */
  method MapThenUnmap(t: PageTables, va: u64, physical: u64, flags: u64, allocator: FrameAllocator)
    returns (mapped: Result<()>, unmapped: Option<Result<nat>>)
    requires t.Valid() && t.Supplied(allocator)
    modifies t`mem, t`tables, allocator
    ensures t.Valid() && t.Supplied(allocator)
    ensures forall a: nat :: Translate(t.mem, t.hhdm, t.root, a) == Translate(old(t.mem), t.hhdm, t.root, a)
    ensures mapped.Ok? <==> MapError(old(t.mem), t.hhdm, t.root, va, physical, old(allocator.Queue())).None?
    ensures mapped.Err? ==> MapError(old(t.mem), t.hhdm, t.root, va, physical, old(allocator.Queue())) == Some(mapped.error)
    ensures unmapped == if mapped.Ok? then Some(Ok(Frame(Leaf(physical, flags)))) else None
    ensures Widened(old(t.mem), t.mem, t.root, User(flags))
  {
    hide Frame, Huge, Index, Translate, Tree, Pool, Obstacle, SamePage, Leaf, Aligned, HugeRoot, Lack, Gaps, Hindrance, Line, Access, User,
         PageOpen;
    mapped := t.MapPage(va, physical, flags, allocator);
    unmapped := None;
    if mapped.Err? {
      return;
    }
    SamePageSelf(va);
    var r := t.UnmapPage(va);
    unmapped := Some(r);
  }

  /** A mapped page leads to the frame asked for exactly when the frame is one and the flags leave it alone. */
  lemma {:induction false} MappedExactly(physical: u64, flags: u64, a: nat)
    requires Aligned(physical)
    ensures Mapped(physical, flags, a).value.physical == physical + a % 4096 <==>
            physical < PHYSICAL_END && Or(physical / PAGE_SIZE, Frame(flags) / PAGE_SIZE) == physical / PAGE_SIZE
  {
    hide Frame, Leaf, Or;
    LeafFrame(physical, flags);
  }

  const WRITABLE := 2
  const CACHE_DISABLE := 16
  const NO_EXECUTE := 0x8000_0000_0000_0000

  /** The flags of `map_mmio_page`, `map_writable_page` and `map_user_page` leave every frame alone. */
  lemma {:induction false} OwnFlags(low: nat, high: nat)
    requires low <= WRITABLE + CACHE_DISABLE + USER_BIT && (high == 0 || high == NO_EXECUTE)
    ensures Frame(low + high) == 0
  {
    DivModUnique(low + high, PAGE_SIZE, high / PAGE_SIZE, low);
    assert NO_EXECUTE / PAGE_SIZE == 0x800 * 0x100_0000_0000;
    ModZero(0x800, 0x100_0000_0000);
  }

  // ---------- a huge bit at the top ----------

  function OneEntryTable(e: u64): (t: Table)
    ensures t[0] == e && forall i :: 0 < i < 512 ==> t[i] == 0
  {
    seq(512, i => if i == 0 then e else 0)
  }

  /** Four tables that map page 0 to frame 0x5000; the top-level entry has the huge bit. */
  function OddMemory(): Memory {
    map[0x1000 := OneEntryTable(0x2083), 0x2000 := OneEntryTable(0x3003), 0x3000 := OneEntryTable(0x4003), 0x4000 := OneEntryTable(0x5003)]
  }

  ghost function OddTables(): Tables {
    map[0x1000 := 0, 0x2000 := 1, 0x3000 := 2, 0x4000 := 3]
  }

  lemma OddEntries()
    ensures Present(0x2083) && Huge(0x2083) && Frame(0x2083) == 0x2000
    ensures Present(0x3003) && !Huge(0x3003) && Frame(0x3003) == 0x3000
    ensures Present(0x4003) && !Huge(0x4003) && Frame(0x4003) == 0x4000
    ensures Present(0x5003) && !Huge(0x5003) && Frame(0x5003) == 0x5000
    ensures !Present(0) && forall level :: Index(0, level) == 0
  {
  }

  lemma {:induction false} OddLeads(t: nat, i: nat, child: nat)
    ensures LeadsFrom(OddMemory(), OddTables(), t, i, child) ==> i == 0 && child == t + 0x1000 && child in OddTables()
    ensures t in OddTables() ==> OddTables()[t] + 1 == t / 0x1000 && (t == 0x1000 || t == 0x2000 || t == 0x3000 || t == 0x4000)
  {
    hide Present, Huge, Frame;
    OddEntries();
  }

  /** Page 0 translates, and still `unmap_page` refuses it. */
  lemma {:induction false} HugeRootRefused()
    ensures Tree(OddMemory(), 0x1000, OddTables()) && HugeRoot(OddMemory(), 0x1000, 0)
    ensures Translate(OddMemory(), 0, 0x1000, 0) == Some(Mapping(0x5000, 4096, 0x5003))
    ensures Hindrance(OddMemory(), 0, 0x1000, 0, 0) == Some(HugePageConflict)
  {
    hide Present, Huge, Frame, Index, LeadsFrom;
    OddEntries();
    var mem := OddMemory();
    assert Tree(mem, 0x1000, OddTables()) by {
      forall t: nat, i: nat, child: nat | LeadsFrom(mem, OddTables(), t, i, child)
        ensures t in OddTables() && i == 0 && child == t + 0x1000 && child in OddTables() && OddTables()[child] == OddTables()[t] + 1
      {
        OddLeads(t, i, child);
        OddLeads(child, i, child);
        LeadsIn(mem, OddTables(), t, i, child);
      }
    }
    assert Descend(mem, 0, 0x4000, 3, 0) == Some(Mapping(0x5000, 4096, 0x5003));
    assert Descend(mem, 0, 0x3000, 2, 0) == Descend(mem, 0, 0x4000, 3, 0);
    assert Descend(mem, 0, 0x2000, 1, 0) == Descend(mem, 0, 0x3000, 2, 0);
    TableTop(mem, 0x1000, 0);
  }

  lemma LeadsIn(mem: Memory, tables: Tables, t: nat, i: nat, child: nat)
    requires LeadsFrom(mem, tables, t, i, child)
    ensures t in tables
  {
  }

  lemma SamePageSelf(va: nat)
    ensures SamePage(va, va)
  {
  }
}
