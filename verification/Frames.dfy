/**
  The physical frame allocator: a bump pointer over the usable ranges.
 */
module Frames {
  import opened Bytes

  datatype Range = Range(next: nat, end: nat)
  datatype MapEntry = MapEntry(base: u64, length: u64, usable: bool)

  const PAGE_SIZE := 4096
  const LOW_MEMORY_END := 0x10_0000
  const MAX_RANGES := 64
  const PHYSICAL_END := 0x10_0000_0000_0000
  const MAX_ADDRESS := 0x1_0000_0000_0000_0000

  predicate Aligned(f: nat) {
    f % PAGE_SIZE == 0
  }

  predicate RangeOk(r: Range) {
    Aligned(r.next) && Aligned(r.end) && r.next <= r.end <= PHYSICAL_END
  }

  function FramesOf(r: Range): set<nat> {
    set f: nat | r.next <= f < r.end && Aligned(f)
  }

  /** Every frame of a list of ranges. */
  function Pool(rs: seq<Range>): set<nat> {
    if rs == [] then {} else FramesOf(rs[0]) + Pool(rs[1..])
  }

  ghost predicate Apart(rs: seq<Range>) {
    forall i, j :: 0 <= i < j < |rs| ==> FramesOf(rs[i]) !! FramesOf(rs[j])
  }

  lemma {:induction false} PoolHas(rs: seq<Range>, f: nat)
    ensures f in Pool(rs) <==> exists i :: 0 <= i < |rs| && f in FramesOf(rs[i])
  {
    hide FramesOf;
    if rs != [] {
      PoolHas(rs[1..], f);
      if f in Pool(rs[1..]) {
        var i :| 0 <= i < |rs[1..]| && f in FramesOf(rs[1..][i]);
        assert f in FramesOf(rs[i + 1]);
      }
      if i :| 0 < i < |rs| && f in FramesOf(rs[i]) {
        assert f in FramesOf(rs[1..][i - 1]);
      }
    }
  }

  /** Taking `n` frames off the front of a range. */
  lemma {:induction false} Taken(r: Range, n: nat)
    requires RangeOk(r) && r.next + PAGE_SIZE * n <= r.end
    ensures var s := r.(next := r.next + PAGE_SIZE * n);
      && RangeOk(s) && FramesOf(s) == FramesOf(r) - FramesOf(Range(r.next, s.next))
      && FramesOf(Range(r.next, s.next)) <= FramesOf(r) && FramesOf(s) <= FramesOf(r)
  {
  }

  lemma OneFrame(f: nat)
    requires Aligned(f)
    ensures FramesOf(Range(f, f + PAGE_SIZE)) == {f}
  {
  }

  /** Ranges that no longer hold anything do not count. */
  lemma PoolSkips(rs: seq<Range>)
    requires rs != [] && rs[0].next >= rs[0].end
    ensures Pool(rs) == Pool(rs[1..])
  {
    assert FramesOf(rs[0]) == {};
  }

  /** The pool after the first range has shrunk. */
  lemma {:induction false} PoolShrinks(rs: seq<Range>, s: Range)
    requires rs != [] && Apart(rs) && FramesOf(s) <= FramesOf(rs[0])
    ensures Pool(rs[0 := s]) == Pool(rs) - (FramesOf(rs[0]) - FramesOf(s)) && Apart(rs[0 := s])
  {
    hide FramesOf;
    var after := rs[0 := s];
    assert after[1..] == rs[1..];
    forall f | f in Pool(rs[1..]) ensures f !in FramesOf(rs[0]) {
      PoolHas(rs[1..], f);
      var i :| 0 <= i < |rs[1..]| && f in FramesOf(rs[1..][i]);
      assert f in FramesOf(rs[i + 1]) && FramesOf(rs[0]) !! FramesOf(rs[i + 1]);
    }
  }

  // ---------- in which order ----------

  function FrameList(r: Range): seq<nat>
    decreases if r.next < r.end then r.end - r.next else 0
  {
    if r.next < r.end then [r.next] + FrameList(r.(next := r.next + PAGE_SIZE)) else []
  }

  /** The frames of a list of ranges, one after the other. */
  function Line(rs: seq<Range>): seq<nat> {
    if rs == [] then [] else FrameList(rs[0]) + Line(rs[1..])
  }

  lemma {:induction false} FrameListIs(r: Range)
    requires RangeOk(r)
    ensures forall f: nat :: f in FrameList(r) <==> f in FramesOf(r)
    decreases r.end - r.next
  {
    if r.next < r.end {
      var s := r.(next := r.next + PAGE_SIZE);
      FrameListIs(s);
      assert FrameList(r) == [r.next] + FrameList(s);
      assert forall f: nat :: f in FramesOf(r) <==> f == r.next || f in FramesOf(s);
    }
  }

  /** The line holds exactly the frames of the pool. */
  lemma {:induction false} LineIs(rs: seq<Range>)
    requires forall i :: 0 <= i < |rs| ==> RangeOk(rs[i])
    ensures forall f: nat :: f in Line(rs) <==> f in Pool(rs)
  {
    hide FrameList, FramesOf, RangeOk;
    if rs != [] {
      FrameListIs(rs[0]);
      LineIs(rs[1..]);
    }
  }

  lemma LineSkips(rs: seq<Range>)
    requires rs != [] && rs[0].next >= rs[0].end
    ensures Line(rs) == Line(rs[1..])
  {
  }

  lemma LineTakes(rs: seq<Range>, k: nat)
    requires k < |rs| && rs[k].next < rs[k].end
    ensures var after := rs[k := rs[k].(next := rs[k].next + PAGE_SIZE)];
      Line(rs[k..]) == [rs[k].next] + Line(after[k..])
  {
    var after := rs[k := rs[k].(next := rs[k].next + PAGE_SIZE)];
    assert rs[k..][1..] == rs[k + 1..] == after[k + 1..] == after[k..][1..];
    assert Line(rs[k..]) == FrameList(rs[k]) + Line(rs[k + 1..]);
    assert FrameList(rs[k]) == [rs[k].next] + FrameList(after[k]);
  }

  class FrameAllocator {
    var ranges: seq<Range>
    var current: nat
    var allocated': nat

    ghost predicate Valid()
      reads this
    {
      && current <= |ranges| <= MAX_RANGES
      && (forall i :: 0 <= i < |ranges| ==> RangeOk(ranges[i])) && Apart(ranges)
    }

    /** The usable ranges above the first MiB, cut to whole frames. */
    constructor FromMemoryMap(entries: seq<MapEntry>)
      requires EntriesOk(entries)
      ensures Valid()
      ensures forall f <- Available() :: Usable(entries, f)
      ensures |ranges| < MAX_RANGES ==> forall f: nat :: Usable(entries, f) ==> f in Available()
    {
      ranges, current, allocated' := [], 0, 0;
      new;
      hide FramesOf;
      for k := 0 to |entries|
        invariant Valid() && current == 0 && |ranges| <= MAX_RANGES
        invariant Collected(entries, k, ranges) && (|ranges| < MAX_RANGES ==> Complete(entries, k, ranges))
      {
        var entry := entries[k];
        var start := AlignUp(Max(entry.base, LOW_MEMORY_END));
        var end := AlignDown(Min(entry.base + entry.length, MAX_ADDRESS - 1));
        EntryFrames(entries, k);
        CollectStep(entries, k, ranges, Range(start, end));
        if entry.usable && |ranges| != MAX_RANGES && start < end {
          ranges := ranges + [Range(start, end)];
        }
      }
      CollectedUsable(entries, ranges);
    }

    /** The frames still to be handed out. */
    ghost function Available(): set<nat>
      reads this
      requires Valid()
    {
      Pool(ranges[current..])
    }

    /** The same frames in the order in which they will be handed out. */
    ghost function Queue(): seq<nat>
      reads this
      requires Valid()
    {
      Line(ranges[current..])
    }

    /** Hands out the next frame, which was available and never will be again. */
    method Allocate() returns (r: Option<nat>)
      requires Valid()
      modifies this
      ensures Valid()
      ensures r.Some? <==> old(Available()) != {}
      ensures r.Some? ==> r.value in old(Available()) && Aligned(r.value) && r.value < PHYSICAL_END && Available() == old(Available()) - {r.value}
      ensures r.None? ==> Available() == {}
      ensures old(Queue()) == if r.Some? then [r.value] + Queue() else []
      ensures r.None? ==> Queue() == []
      ensures allocated' == old(allocated') + if r.Some? then 1 else 0
    {
      hide FramesOf, FrameList;
      while current < |ranges|
        invariant Valid() && ranges == old(ranges) && allocated' == old(allocated') && Available() == old(Available()) && Queue() == old(Queue())
      {
        var range := ranges[current];
        assert ranges[current..][1..] == ranges[current + 1..];
        if range.next < range.end {
          TakeOne(ranges, current);
          LineTakes(ranges, current);
          ranges := ranges[current := range.(next := range.next + PAGE_SIZE)];
          allocated' := allocated' + 1;
          return Some(range.next);
        }
        PoolSkips(ranges[current..]);
        LineSkips(ranges[current..]);
        current := current + 1;
      }
      r := None;
    }

    /**
      Hands out a run of frames from the first remaining range that holds one, and gives
      up the ranges before it; when no range does, every frame is given up.
     */
    method AllocateContiguous(count: nat) returns (r: Option<nat>)
      requires Valid() && count < MAX_ADDRESS
      modifies this
      ensures Valid()
      ensures r.Some? <==> count > 0 && exists i :: old(current) <= i < |old(ranges)| && old(ranges)[i].next + PAGE_SIZE * count <= old(ranges)[i].end
      ensures r.Some? ==>
        var run := FramesOf(Range(r.value, r.value + PAGE_SIZE * count));
        && Aligned(r.value) && run <= old(Available())
        && old(current) <= current < |old(ranges)| && r.value == old(ranges)[current].next
        && (forall i :: old(current) <= i < current ==> old(ranges)[i].next + PAGE_SIZE * count > old(ranges)[i].end)
        && Available() == Pool(old(ranges)[current..]) - run && Available() <= old(Available()) - run
      ensures r.None? ==> Available() <= old(Available())
      ensures count == 0 ==> Available() == old(Available())
      ensures r.None? && 0 < count && PAGE_SIZE * count + PHYSICAL_END < MAX_ADDRESS ==> Available() == {}
      ensures allocated' == old(allocated') + if r.Some? then count else 0
    {
      hide FramesOf;
      if count == 0 {
        return None;
      }
      while current < |ranges|
        invariant Valid() && ranges == old(ranges) && allocated' == old(allocated') && old(current) <= current
        invariant Available() <= old(Available())
        invariant forall i :: old(current) <= i < current ==> ranges[i].next + PAGE_SIZE * count > ranges[i].end
      {
        var range := ranges[current];
        assert ranges[current..][1..] == ranges[current + 1..];
        if PAGE_SIZE * count >= MAX_ADDRESS || range.next + PAGE_SIZE * count >= MAX_ADDRESS {
          return None;
        }
        if range.next + PAGE_SIZE * count <= range.end {
          TakeRun(ranges, current, count);
          ranges := ranges[current := range.(next := range.next + PAGE_SIZE * count)];
          allocated' := allocated' + count;
          return Some(range.next);
        }
        current := current + 1;
      }
      r := None;
    }
  }

  lemma {:induction false} TakeRun(rs: seq<Range>, k: nat, n: nat)
    requires k < |rs| && Apart(rs) && RangeOk(rs[k]) && rs[k].next + PAGE_SIZE * n <= rs[k].end
    ensures var s := rs[k].(next := rs[k].next + PAGE_SIZE * n);
      var run := FramesOf(Range(rs[k].next, s.next));
      && RangeOk(s) && Apart(rs[k := s]) && run <= Pool(rs[k..]) && Pool(rs[k := s][k..]) == Pool(rs[k..]) - run
  {
    hide FramesOf;
    var s := rs[k].(next := rs[k].next + PAGE_SIZE * n);
    Taken(rs[k], n);
    ApartTail(rs, k);
    PoolShrinks(rs[k..], s);
    assert rs[k := s][k..] == rs[k..][0 := s];
    var after := rs[k := s];
    forall i, j | 0 <= i < j < |rs| ensures FramesOf(after[i]) !! FramesOf(after[j]) {
      assert FramesOf(rs[i]) !! FramesOf(rs[j]);
    }
  }

  lemma ApartTail(rs: seq<Range>, k: nat)
    requires Apart(rs) && k <= |rs|
    ensures Apart(rs[k..])
  {
  }

  lemma {:induction false} TakeOne(rs: seq<Range>, k: nat)
    requires k < |rs| && Apart(rs) && RangeOk(rs[k]) && rs[k].next < rs[k].end
    ensures var s := rs[k].(next := rs[k].next + PAGE_SIZE);
      && RangeOk(s) && Apart(rs[k := s]) && rs[k].next in Pool(rs[k..]) && Pool(rs[k := s][k..]) == Pool(rs[k..]) - {rs[k].next}
  {
    hide FramesOf, Apart, Pool;
    TakeRun(rs, k, 1);
    OneFrame(rs[k].next);
  }

  // ---------- the memory map ----------

  function AlignUp(x: nat): nat {
    Min(x + PAGE_SIZE - 1, MAX_ADDRESS - 1) / PAGE_SIZE * PAGE_SIZE
  }

  function AlignDown(x: nat): nat {
    x / PAGE_SIZE * PAGE_SIZE
  }

  /** A whole frame of entry `k` above the first MiB. */
  ghost predicate InEntry(entries: seq<MapEntry>, k: nat, f: nat) {
    && k < |entries| && entries[k].usable && Aligned(f) && LOW_MEMORY_END <= f
    && entries[k].base <= f && f + PAGE_SIZE <= entries[k].base + entries[k].length
  }

  ghost predicate Usable(entries: seq<MapEntry>, f: nat) {
    exists k: nat :: InEntry(entries, k, f)
  }

  /** What the boot protocol promises of usable entries: physical addresses, and no two overlap. */
  ghost predicate EntriesOk(entries: seq<MapEntry>) {
    && (forall k :: 0 <= k < |entries| && entries[k].usable ==> entries[k].base + entries[k].length <= PHYSICAL_END)
    && forall j: nat, k: nat, f: nat :: j < k && InEntry(entries, j, f) ==> !InEntry(entries, k, f)
  }

  /** Each range holds the frames of one of the first `n` entries, in order. */
  ghost predicate Collected(entries: seq<MapEntry>, n: nat, rs: seq<Range>) {
    forall i: nat, f: nat :: i < |rs| && f in FramesOf(rs[i]) ==> exists k: nat :: k < n && InEntry(entries, k, f)
  }

  ghost predicate Complete(entries: seq<MapEntry>, n: nat, rs: seq<Range>) {
    forall k: nat, f: nat :: k < n && InEntry(entries, k, f) ==> exists i :: 0 <= i < |rs| && f in FramesOf(rs[i])
  }

  lemma {:induction false} EntryFrames(entries: seq<MapEntry>, k: nat)
    requires EntriesOk(entries) && k < |entries|
    ensures var start, end := AlignUp(Max(entries[k].base, LOW_MEMORY_END)), AlignDown(Min(entries[k].base + entries[k].length, MAX_ADDRESS - 1));
      && (entries[k].usable && start < end ==> RangeOk(Range(start, end)))
      && (entries[k].usable ==> forall f: nat :: f in FramesOf(Range(start, end)) <==> InEntry(entries, k, f))
  {
  }

  lemma {:induction false} CollectStep(entries: seq<MapEntry>, k: nat, rs: seq<Range>, r: Range)
    requires EntriesOk(entries) && k < |entries| && Collected(entries, k, rs) && Apart(rs)
    requires entries[k].usable ==> forall f: nat :: f in FramesOf(r) <==> InEntry(entries, k, f)
    ensures Collected(entries, k + 1, rs)
    ensures entries[k].usable ==> Collected(entries, k + 1, rs + [r]) && Apart(rs + [r])
    ensures Complete(entries, k, rs) ==>
      if entries[k].usable && r.next < r.end then Complete(entries, k + 1, rs + [r]) else Complete(entries, k + 1, rs)
  {
    hide InEntry;
    var more := rs + [r];
    if entries[k].usable {
      forall i: nat | i < |rs| ensures FramesOf(rs[i]) !! FramesOf(r) {
        forall f | f in FramesOf(rs[i]) ensures f !in FramesOf(r) {
          var j: nat :| j < k && InEntry(entries, j, f);
        }
      }
    }
    if Complete(entries, k, rs) && entries[k].usable && r.next < r.end {
      forall j: nat, f: nat | j < k + 1 && InEntry(entries, j, f) ensures exists i :: 0 <= i < |more| && f in FramesOf(more[i]) {
        if j < k {
          var i :| 0 <= i < |rs| && f in FramesOf(rs[i]);
          assert f in FramesOf(more[i]);
        } else {
          assert f in FramesOf(more[|rs|]);
        }
      }
    } else if Complete(entries, k, rs) {
      NotUsable(entries, k, r);
    }
  }

  lemma NotUsable(entries: seq<MapEntry>, k: nat, r: Range)
    requires k < |entries| && (entries[k].usable ==> r.next >= r.end && forall f: nat :: f in FramesOf(r) <==> InEntry(entries, k, f))
    ensures forall f: nat :: !InEntry(entries, k, f)
  {
  }

  lemma {:induction false} CollectedUsable(entries: seq<MapEntry>, rs: seq<Range>)
    requires Collected(entries, |entries|, rs)
    ensures rs[0..] == rs && forall f <- Pool(rs) :: Usable(entries, f)
    ensures Complete(entries, |entries|, rs) ==> forall f: nat :: Usable(entries, f) ==> f in Pool(rs)
  {
    hide InEntry, FramesOf;
    forall f | f in Pool(rs) ensures Usable(entries, f) {
      PoolHas(rs, f);
      var i :| 0 <= i < |rs| && f in FramesOf(rs[i]);
      var k: nat :| k < |entries| && InEntry(entries, k, f);
    }
    if Complete(entries, |entries|, rs) {
      forall f: nat | Usable(entries, f) ensures f in Pool(rs) {
        PoolHas(rs, f);
        var k: nat :| InEntry(entries, k, f);
        EntryIndex(entries, k, f);
      }
    }
  }

  lemma EntryIndex(entries: seq<MapEntry>, k: nat, f: nat)
    requires InEntry(entries, k, f)
    ensures k < |entries|
  {
  }
}
