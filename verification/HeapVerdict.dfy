/**
  When the heap can serve a request, and where, said of the live blocks alone.
 */
module HeapVerdict {
  import opened Arithmetic
  import opened Bytes
  import opened Heap
  import opened HeapBlocks
  import opened KernelHeapTable

  /** A block of that size could be at `a`: inside the heap, aligned, and apart from every live block. */
  ghost predicate Vacant(live: Blocks, base: nat, end: nat, size: nat, align: nat, a: nat) {
    && base <= a && a + size <= base + end && Multiple(a, align)
    && forall b: nat :: b in live ==> a + size <= b || b + live[b].size <= a
  }

  /** Every offset lies in a segment. */
  lemma {:induction false} SegmentAt(s: seq<Segment>, start: nat, end: nat, x: nat) returns (k: nat)
    requires Tiling(s, start, end) && start <= x < end
    ensures k < |s| && s[k].offset <= x < s[k].End()
  {
    if x < s[0].End() {
      k := 0;
    } else {
      k := SegmentAt(s[1..], s[0].End(), end, x);
      k := k + 1;
    }
  }

  lemma {:induction false} NextSegment(s: seq<Segment>, start: nat, end: nat, k: nat)
    requires Tiling(s, start, end) && k < |s|
    ensures s[k].End() < end ==> k + 1 < |s| && s[k + 1].offset == s[k].End() && s[k + 1].size > 0
  {
    hide Tiling;
    TilingSplit(s, start, end, k);
    assert Tiling(s[k + 1..], s[k].End(), end);
    Starts(s[k + 1..], s[k].End(), end);
    assert k + 1 < |s| ==> s[k + 1..][0] == s[k + 1];
  }

  lemma Starts(s: seq<Segment>, start: nat, end: nat)
    requires Tiling(s, start, end)
    ensures start < end ==> s != [] && s[0].offset == start && s[0].size > 0
  {
  }

  /** A segment that meets a vacant place is free. */
  lemma {:induction false} VacantIsFree(s: seq<Segment>, base: nat, end: nat, live: Blocks, size: nat, align: nat, a: nat, k: nat)
    requires Tracks(s, base, live) && Vacant(live, base, end, size, align, a) && k < |s|
    requires s[k].offset < a - base + size && a - base < s[k].End()
    ensures s[k].free
  {
    hide Multiple;
    assert !s[k].free ==> Listed(base, live, s[k]);
  }

  /** A vacant place lies in one free segment, no lower than where that would put the block. */
  lemma {:induction false} VacantFits(s: seq<Segment>, base: nat, end: nat, live: Blocks, size: nat, align: nat, a: nat) returns (k: nat)
    requires Tiling(s, 0, end) && Merged(s) && Tracks(s, base, live) && size > 0 && align > 0
    requires Vacant(live, base, end, size, align, a)
    ensures k < |s| && Fits(base, s[k], size, align) && base + Placement(base, s[k], align) <= a
  {
    hide Tiling, Tracks, AlignUp;
    k := SegmentAt(s, 0, end, a - base);
    VacantIsFree(s, base, end, live, size, align, a, k);
    NextSegment(s, 0, end, k);
    if a - base + size > s[k].End() {
      VacantIsFree(s, base, end, live, size, align, a, k + 1);
    }
    AlignUpLowest(base + s[k].offset, align, a);
  }

  /** Rounding up gives the lowest multiple. */
  lemma {:induction false} AlignUpLowest(address: nat, align: nat, a: nat)
    requires align > 0 && address <= a && Multiple(a, align)
    ensures AlignUp(address, align) <= a
  {
    var q := a / align;
    DivMod(a, align);
    DivMonotone(address + align - 1, a + align - 1, align);
    DivModUnique(a + align - 1, align, q, align - 1);
    MulMono((address + align - 1) / align, q, align);
  }

  /** The place of a segment that fits is vacant. */
  lemma {:induction false} FitIsVacant(s: seq<Segment>, base: nat, end: nat, live: Blocks, size: nat, align: nat, i: nat)
    requires Tiling(s, 0, end) && Tracks(s, base, live) && size > 0 && align > 0 && i < |s| && Fits(base, s[i], size, align)
    ensures Vacant(live, base, end, size, align, base + Placement(base, s[i], align))
  {
    hide Tiling, AlignUp, Multiple, Listed;
    PlacementInside(base, s[i], size, align);
    TilingSplit(s, 0, end, i);
    forall b: nat | b in live
      ensures base + Placement(base, s[i], align) + size <= b || b + live[b].size <= base + Placement(base, s[i], align)
    {
      assert OneOf(s, base, b, live[b]);
      var j :| 0 <= j < |s| && s[j] == Segment(b - base, live[b].size, false);
      OffsetsDiffer(s, end, i, j);
    }
  }

  /** No segment fits exactly when no place is vacant. */
  lemma {:induction false} NoFitIff(s: seq<Segment>, base: nat, end: nat, live: Blocks, size: nat, align: nat)
    requires Tiling(s, 0, end) && Merged(s) && Tracks(s, base, live) && size > 0 && align > 0
    ensures NoFit(s, base, size, align) <==> forall a: nat :: !Vacant(live, base, end, size, align, a)
  {
    hide Tiling, Tracks, Vacant, Fits, Merged;
    if a: nat :| Vacant(live, base, end, size, align, a) {
      var k := VacantFits(s, base, end, live, size, align, a);
    }
    if i: nat :| i < |s| && Fits(base, s[i], size, align) {
      FitIsVacant(s, base, end, live, size, align, i);
    }
  }

  /** The first segment that fits gives the lowest vacant place. */
  lemma {:induction false} FirstFitLowest(s: seq<Segment>, base: nat, end: nat, live: Blocks, size: nat, align: nat, i: nat, a: nat)
    requires Tiling(s, 0, end) && Merged(s) && Tracks(s, base, live) && size > 0 && align > 0
    requires FirstFit(s, base, size, align, i) && Vacant(live, base, end, size, align, a)
    ensures base + Placement(base, s[i], align) <= a
  {
    hide Tiling, Tracks, Vacant, AlignUp, Merged;
    var k := VacantFits(s, base, end, live, size, align, a);
    if i < k {
      TilingOrdered(s, 0, end, i, k);
      AlignUpMonotone(base + s[i].offset, base + s[k].offset, align);
    }
  }

  /** What a caller of the heap needs to know. */
  ghost predicate Served(live: Blocks, base: nat, end: nat, size: nat, align: nat, r: Option<nat>) {
    match r
    case Some(a) => size > 0 && Vacant(live, base, end, size, align, a) && forall b: nat :: Vacant(live, base, end, size, align, b) ==> a <= b
    case None => true
  }

  /**
    Allocates.  The block is at the lowest address where it can be; and with at most 62
    live blocks the request is refused exactly when it is empty, its alignment is no
    power of two, or there is no such place.
   */
  method AllocateLowest(heap: KernelHeap, size: nat, align: nat) returns (r: Option<nat>)
    requires heap.Valid() && size < MAX_ADDRESS && align < MAX_ADDRESS
    modifies heap, heap.segments
    ensures heap.Valid() && Served(old(heap.live), heap.virtualStart, heap.size, size, align, r)
    ensures r.Some? ==> heap.live == old(heap.live)[r.value := Block(size, align)]
    ensures r.None? ==> heap.live == old(heap.live)
    ensures |old(heap.live)| <= 62 ==>
      (r.Some? <==> size > 0 && PowerOfTwo(align) && exists a: nat :: Vacant(old(heap.live), heap.virtualStart, heap.size, size, align, a))
  {
    hide Tiling, Tracks, Vacant, Merged, Fits, Placement, PowerOfTwo, Granted;
    ghost var s, base, live := heap.List(), heap.virtualStart, heap.live;
    LiveCount(heap);
    ghost var i;
    r, i := heap.Allocate(size, align);
    if size > 0 && align > 0 {
      NoFitIff(s, base, heap.size, live, size, align);
      if r.Some? {
        FitIsVacant(s, base, heap.size, live, size, align, i);
        forall b: nat | Vacant(live, base, heap.size, size, align, b) ensures r.value <= b {
          FirstFitLowest(s, base, heap.size, live, size, align, i, b);
        }
      }
    }
    NoPower(align);
  }

  /** As many blocks are live as segments are used. */
  lemma {:induction false} LiveCount(heap: KernelHeap)
    requires heap.Valid()
    ensures heap.activeAllocations == |heap.live|
  {
    hide Tiling, Multiple, Merged, Live;
    UsedCount(heap.List(), heap.virtualStart, 0, heap.size);
    var addresses := UsedAt(heap.List(), heap.virtualStart);
    forall a: nat ensures a in addresses <==> a in heap.live {
      UsedAtIs(heap.List(), heap.virtualStart, a);
      if a in heap.live {
        assert OneOf(heap.List(), heap.virtualStart, a, heap.live[a]);
      }
    }
    assert addresses == heap.live.Keys;
  }

  /** The addresses of the used segments. */
  ghost function UsedAt(s: seq<Segment>, base: nat): set<nat> {
    if s == [] then {} else (if s[0].free then {} else {base + s[0].offset}) + UsedAt(s[1..], base)
  }

  lemma {:induction false} UsedAtIs(s: seq<Segment>, base: nat, a: nat)
    ensures a in UsedAt(s, base) <==> exists k :: 0 <= k < |s| && !s[k].free && base + s[k].offset == a
  {
    if s != [] {
      UsedAtIs(s[1..], base, a);
      assert forall k :: 0 < k < |s| ==> s[k] == s[1..][k - 1];
    }
  }

  lemma {:induction false} UsedCount(s: seq<Segment>, base: nat, start: nat, end: nat)
    requires Tiling(s, start, end)
    ensures |UsedAt(s, base)| == Live(s) && forall a: nat :: a in UsedAt(s, base) ==> a >= base + start
  {
    if s != [] {
      UsedCount(s[1..], base, s[0].End(), end);
      assert base + s[0].offset !in UsedAt(s[1..], base);
    }
  }

  lemma NoPower(align: nat)
    ensures PowerOfTwo(align) ==> align > 0
  {
  }
}
