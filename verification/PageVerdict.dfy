/**
  When a page can be mapped, said of the entries the walk reads and of what the page
  translates to.
 */
module PageVerdict {
  import opened Bytes
  import opened PageTable
  import opened PageAccess
  import opened Paging

  /** The pointer to the entry at level `k` of the walk can be formed. */
  predicate Reached(mem: Memory, hhdm: u64, root: nat, va: nat, k: nat) {
    EntryAt(mem, root, va, k).Some? ==> Addressable(hhdm, TableAt(mem, root, va, k).value, Index(va, k))
  }

  /** The entry at level `k` is that of a large page, or at the top has the bit of one. */
  predicate Large(mem: Memory, root: nat, va: nat, k: nat) {
    EntryAt(mem, root, va, k).Some? && Present(EntryAt(mem, root, va, k).value) && Huge(EntryAt(mem, root, va, k).value)
  }

  ghost predicate ClearFrom(mem: Memory, hhdm: u64, root: nat, va: nat, level: nat) {
    && (forall k: nat :: level <= k <= 3 ==> Reached(mem, hhdm, root, va, k))
    && (forall k: nat :: level <= k < 3 ==> !Large(mem, root, va, k))
    && (TableAt(mem, root, va, level).Some? ==> Descend(mem, hhdm, TableAt(mem, root, va, level).value, level, va).None?)
  }

  lemma {:induction false} ObstacleFrom(mem: Memory, hhdm: u64, root: nat, tables: Tables, va: nat, level: nat)
    requires Tree(mem, root, tables) && level <= 3 && TableAt(mem, root, va, level).Some?
    ensures Obstacle(mem, hhdm, root, va, level).None? <==> ClearFrom(mem, hhdm, root, va, level)
    ensures Obstacle(mem, hhdm, root, va, level) == Some(AlreadyMapped) ==>
      var m := Descend(mem, hhdm, TableAt(mem, root, va, level).value, level, va); m.Some? && m.value.pageSize == 4096
    ensures Obstacle(mem, hhdm, root, va, level) == Some(HugePageConflict) ==> exists k: nat :: level <= k < 3 && Large(mem, root, va, k)
    ensures Obstacle(mem, hhdm, root, va, level) == Some(AddressOverflow) ==> exists k: nat :: level <= k <= 3 && !Reached(mem, hhdm, root, va, k)
    decreases 3 - level
  {
    hide Frame, Huge, Present, Index, Addressable, Tree;
    TableIn(mem, root, tables, va, level);
    var t := TableAt(mem, root, va, level).value;
    var e := mem[t][Index(va, level)];
    if level < 3 && Present(e) && !Huge(e) {
      assert TableAt(mem, root, va, level + 1) == Some(Frame(e));
      ObstacleFrom(mem, hhdm, root, tables, va, level + 1);
      ClearStep(mem, hhdm, root, va, level);
    } else if level < 3 && !Present(e) {
      NothingBelow(mem, root, va, level);
      ClearBelow(mem, hhdm, root, va, level);
    } else {
      ClearHere(mem, hhdm, root, va, level);
      assert level < 3 && Present(e) ==> Large(mem, root, va, level);
    }
    assert !Addressable(hhdm, t, Index(va, level)) ==> !Reached(mem, hhdm, root, va, level);
  }

  lemma NothingBelow(mem: Memory, root: nat, va: nat, level: nat)
    requires level < 3 && TableAt(mem, root, va, level).Some? && TableAt(mem, root, va, level).value in mem
    requires !Present(mem[TableAt(mem, root, va, level).value][Index(va, level)])
    ensures forall k: nat :: level < k <= 3 ==> TableAt(mem, root, va, k).None?
  {
    hide Frame, Huge, Present, Index;
    assert TableAt(mem, root, va, level + 1).None?;
    assert level < 2 ==> TableAt(mem, root, va, level + 2).None?;
    assert level < 1 ==> TableAt(mem, root, va, level + 3).None?;
  }

  lemma ClearStep(mem: Memory, hhdm: u64, root: nat, va: nat, level: nat)
    requires level < 3 && TableAt(mem, root, va, level).Some? && TableAt(mem, root, va, level).value in mem
    requires var e := mem[TableAt(mem, root, va, level).value][Index(va, level)];
      Present(e) && !Huge(e) && TableAt(mem, root, va, level + 1) == Some(Frame(e))
    ensures ClearFrom(mem, hhdm, root, va, level) <==> Reached(mem, hhdm, root, va, level) && ClearFrom(mem, hhdm, root, va, level + 1)
  {
    hide Frame, Huge, Present, Index, Addressable, TableAt;
  }

  lemma ClearBelow(mem: Memory, hhdm: u64, root: nat, va: nat, level: nat)
    requires level < 3 && TableAt(mem, root, va, level).Some? && TableAt(mem, root, va, level).value in mem
    requires !Present(mem[TableAt(mem, root, va, level).value][Index(va, level)])
    requires forall k: nat :: level < k <= 3 ==> TableAt(mem, root, va, k).None?
    ensures ClearFrom(mem, hhdm, root, va, level) <==> Reached(mem, hhdm, root, va, level)
  {
    hide Frame, Huge, Present, Index, Addressable, TableAt;
  }

  lemma ClearHere(mem: Memory, hhdm: u64, root: nat, va: nat, level: nat)
    requires level <= 3 && TableAt(mem, root, va, level).Some? && TableAt(mem, root, va, level).value in mem
    ensures var t := TableAt(mem, root, va, level).value;
      var e := mem[t][Index(va, level)];
      && (level < 3 && Present(e) && Huge(e) ==> !ClearFrom(mem, hhdm, root, va, level))
      && (level == 3 ==> (ClearFrom(mem, hhdm, root, va, level) <==> Addressable(hhdm, t, Index(va, level)) && !Present(e)))
  {
    hide Frame, Huge, Present, Index, Addressable, TableAt;
    var e := mem[TableAt(mem, root, va, level).value][Index(va, level)];
    assert level < 3 && Present(e) && Huge(e) ==> Large(mem, root, va, level);
    assert level == 3 ==> (Reached(mem, hhdm, root, va, 3) <==> Addressable(hhdm, TableAt(mem, root, va, 3).value, Index(va, 3)));
  }

  /**
    Nothing is in the way of a page exactly when it does not translate, no large page
    lies on the walk, and every entry of the walk can be addressed; and each error
    names what is.
   */
  lemma {:induction false} ObstacleExactly(mem: Memory, hhdm: u64, root: nat, tables: Tables, va: nat)
    requires Tree(mem, root, tables)
    ensures Obstacle(mem, hhdm, root, va, 0).None? <==>
      && (forall k: nat :: k <= 3 ==> Reached(mem, hhdm, root, va, k)) && (forall k: nat :: k < 3 ==> !Large(mem, root, va, k))
      && Translate(mem, hhdm, root, va).None?
    ensures Obstacle(mem, hhdm, root, va, 0) == Some(AlreadyMapped) ==>
      Translate(mem, hhdm, root, va).Some? && Translate(mem, hhdm, root, va).value.pageSize == 4096
    ensures Obstacle(mem, hhdm, root, va, 0) == Some(HugePageConflict) ==> exists k: nat :: k < 3 && Large(mem, root, va, k)
    ensures Obstacle(mem, hhdm, root, va, 0) == Some(AddressOverflow) ==> exists k: nat :: k <= 3 && !Reached(mem, hhdm, root, va, k)
  {
    hide Obstacle, Descend, Tree, Reached, Large;
    TableTop(mem, root, va);
    ObstacleFrom(mem, hhdm, root, tables, va, 0);
  }
}
