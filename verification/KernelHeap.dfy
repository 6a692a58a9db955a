/**
  The kernel heap over its in-place segment table.
 */
module KernelHeapTable {
  import opened Arithmetic
  import opened Bytes
  import opened Heap
  import opened HeapBlocks

  /** Segment `i` is the first that can hold the block. */
  ghost predicate FirstFit(s: seq<Segment>, base: nat, size: nat, align: nat, i: nat)
    requires align > 0
  {
    i < |s| && Fits(base, s[i], size, align) && forall j :: 0 <= j < i ==> !Fits(base, s[j], size, align)
  }

  ghost predicate NoFit(s: seq<Segment>, base: nat, size: nat, align: nat)
    requires align > 0
  {
    forall j :: 0 <= j < |s| ==> !Fits(base, s[j], size, align)
  }

  lemma PlacementInside(base: nat, segment: Segment, size: nat, align: nat)
    requires align > 0 && Fits(base, segment, size, align)
    ensures segment.offset <= Placement(base, segment, align) && Placement(base, segment, align) + size <= segment.End()
    ensures Multiple(base + Placement(base, segment, align), align)
  {
    hide AlignUp;
    AlignUpMeans(base + segment.offset, align);
  }

  /** The list after the block has gone into segment `i`. */
  ghost function Granted(s: seq<Segment>, base: nat, size: nat, align: nat, i: nat): seq<Segment>
    requires align > 0 && FirstFit(s, base, size, align, i)
  {
    PlacementInside(base, s[i], size, align);
    Allocated(s, i, Placement(base, s[i], align), size)
  }

  predicate Malformed(size: nat, align: nat) {
    size == 0 || !PowerOfTwo(align)
  }

  /**
    First fit: the request fails exactly when it is malformed, when no free segment fits,
    or when the table would overflow; otherwise the block goes into segment `i`.
   */
  ghost predicate Answered(s: seq<Segment>, base: nat, size: nat, align: nat, r: Option<nat>, i: nat, after: seq<Segment>) {
    if Malformed(size, align) || align == 0 || NoFit(s, base, size, align) then r.None? && after == s
    else
      && FirstFit(s, base, size, align, i)
      && if |Granted(s, base, size, align, i)| <= MAX_SEGMENTS
         then r == Some(base + Placement(base, s[i], align)) && after == Granted(s, base, size, align, i)
         else r.None? && after == s
  }

  // ---------- address arithmetic that overflows ----------

  lemma {:induction false} PowerDivides(n: nat, k: nat)
    requires PowerOfTwo(n) && n <= Pow2(k)
    ensures Pow2(k) % n == 0
    decreases k
  {
    if n > 1 {
      PowerDivides(n / 2, k - 1);
      var q := Pow2(k - 1) / (n / 2);
      DivMod(Pow2(k - 1), n / 2);
      assert Pow2(k) == q * n by { assert 2 * (q * (n / 2)) == q * n; }
      ModZero(q, n);
    }
  }

  /** Rounding up overflows only when the rounded address would. */
  lemma {:induction false} OverflowIsReal(address: nat, align: nat)
    requires PowerOfTwo(align) && align < MAX_ADDRESS && address + align - 1 >= MAX_ADDRESS
    ensures align > 0 && AlignUp(address, align) >= MAX_ADDRESS
  {
    hide PowerOfTwo, Pow2;
    BigPowersOfTwo();
    PowerPositive(align);
    PowerDivides(align, 64);
    var q := MAX_ADDRESS / align;
    DivMod(MAX_ADDRESS, align);
    DivMonotone(MAX_ADDRESS, address + align - 1, align);
    MulMono(q, (address + align - 1) / align, align);
  }

  /** Once a placement is out of reach, so is every later one. */
  lemma {:induction false} LaterTooHigh(s: seq<Segment>, base: nat, size: nat, align: nat, end: nat, i: nat)
    requires Tiling(s, 0, end) && i < |s| && align > 0
    requires AlignUp(base + s[i].offset, align) + size > base + end
    ensures forall j :: i <= j < |s| ==> !Fits(base, s[j], size, align)
  {
    hide AlignUp;
    forall j | i <= j < |s| ensures !Fits(base, s[j], size, align) {
      TilingSplit(s, 0, end, j);
      if j > i {
        TilingOrdered(s, 0, end, i, j);
      }
      AlignUpMeans(base + s[j].offset, align);
      AlignUpMonotone(base + s[i].offset, base + s[j].offset, align);
    }
  }

  class KernelHeap {
    const virtualStart: nat
    const size: nat
    const segments: array<Segment>
    var count: nat
    var used: nat
    var peakUsed: nat
    var activeAllocations: nat
    var totalAllocations: nat
    var deallocations: nat
    ghost var live: Blocks         // the blocks handed out and not yet returned, by address

    ghost function List(): seq<Segment>
      reads this, segments
      requires count <= segments.Length
    {
      segments[..count]
    }

    ghost predicate Valid()
      reads this, segments
    {
      && segments.Length == MAX_SEGMENTS && count <= MAX_SEGMENTS
      && 0 < virtualStart && virtualStart + size <= MAX_ADDRESS
      && Tiling(List(), 0, size) && Merged(List())
      && used == UsedBytes(List()) <= peakUsed && activeAllocations == Live(List())
      && Tracks(List(), virtualStart, live)
    }

    /** One free segment over the whole heap. */
    constructor (start: nat, bytes: nat)
      requires 0 < start && start + bytes <= MAX_ADDRESS && bytes > 0
      ensures Valid() && fresh(segments) && virtualStart == start && size == bytes && List() == [Segment(0, bytes, true)] && live == map[]
    {
      virtualStart := start;
      size := bytes;
      segments := new Segment[MAX_SEGMENTS](i => if i == 0 then Segment(0, bytes, true) else Segment(0, 0, false));
      count := 1;
      used, peakUsed, activeAllocations, totalAllocations, deallocations := 0, 0, 0, 0, 0;
      live := map[];
      new;
      assert List() == [Segment(0, bytes, true)];
    }

    /** Puts one to three pieces in the place of a segment, if the table has room. */
    method ReplaceSegment(index: nat, replacement: seq<Segment>) returns (ok: bool)
      requires count <= segments.Length == MAX_SEGMENTS && index < count && 1 <= |replacement| <= 3
      modifies segments, this`count
      ensures ok <==> old(count) + |replacement| - 1 <= MAX_SEGMENTS
      ensures !ok ==> count == old(count) && List() == old(List())
      ensures ok ==> count <= segments.Length && List() == old(List())[..index] + replacement + old(List())[index + 1..]
    {
      var additional := |replacement| - 1;
      if count + additional > MAX_SEGMENTS {
        return false;
      }
      ghost var before := segments[..];
      ShiftUp(index + 1, additional);
      ghost var shifted := segments[..];
      CopyIn(index, replacement);
      ShiftedAndFilled(before, shifted, segments[..], count, index, replacement);
      count := count + additional;
      ok := true;
    }

    /** Moves the entries from `index` on up. */
    method ShiftUp(index: nat, gap: nat)
      requires index <= count && count + gap <= segments.Length
      modifies segments
      ensures segments[..index] == old(segments[..index]) && segments[index + gap..count + gap] == old(segments[index..count])
    {
      ghost var before := segments[..];
      var position := count;
      while position > index
        invariant index <= position <= count
        invariant segments[..position] == before[..position]
        invariant segments[position + gap..count + gap] == before[position..count]
      {
        position := position - 1;
        segments[position + gap] := segments[position];
        assert segments[position + gap..count + gap] == [before[position]] + before[position + 1..count];
      }
    }

    /** `copy_from_slice` at `index`. */
    method CopyIn(index: nat, replacement: seq<Segment>)
      requires index + |replacement| <= segments.Length
      modifies segments
      ensures segments[..index] == old(segments[..index]) && segments[index..index + |replacement|] == replacement
      ensures segments[index + |replacement|..] == old(segments[index + |replacement|..])
    {
      ghost var before := segments[..];
      var n := 0;
      while n < |replacement|
        invariant n <= |replacement| && segments[..index] == before[..index]
        invariant segments[index..index + n] == replacement[..n] && segments[index + n..] == before[index + n..]
      {
        segments[index + n] := replacement[n];
        n := n + 1;
        assert segments[index..index + n] == replacement[..n - 1] + [replacement[n - 1]];
      }
    }

    method RemoveSegment(index: nat)
      requires 0 < count <= segments.Length == MAX_SEGMENTS && index < count
      modifies segments, this`count
      ensures count == old(count) - 1 && List() == old(List())[..index] + old(List())[index + 1..]
    {
      ghost var before := List();
      var position := index;
      while position < count - 1
        invariant count == old(count) && index <= position <= count - 1
        invariant forall k :: 0 <= k < index ==> segments[k] == before[k]
        invariant forall k :: index <= k < position ==> segments[k] == before[k + 1]
        invariant forall k :: position <= k < count ==> segments[k] == before[k]
      {
        segments[position] := segments[position + 1];
        position := position + 1;
      }
      count := count - 1;
      segments[count] := Segment(0, 0, false);
    }

    /** First fit; the new block joins the live ones, and no other block moves. */
    method Allocate(bytes: nat, align: nat) returns (r: Option<nat>, ghost i: nat)
      requires Valid() && bytes < MAX_ADDRESS && align < MAX_ADDRESS
      modifies this, segments
      ensures Valid() && Answered(old(List()), virtualStart, bytes, align, r, i, List())
      ensures r.Some? ==> r.value !in old(live) && live == old(live)[r.value := Block(bytes, align)]
      ensures r.Some? ==> used == old(used) + bytes && activeAllocations == old(activeAllocations) + 1
      ensures r.None? ==> live == old(live) && used == old(used) && activeAllocations == old(activeAllocations)
      ensures old(activeAllocations) <= 62 ==>
        (r.Some? <==> !Malformed(bytes, align) && align > 0 && !NoFit(old(List()), virtualStart, bytes, align))
    {
      hide PowerOfTwo, AlignUp, Merged, UsedBytes, FreeBytes, Live, Tiling, Allocated, Split, Gap, Tracks, Multiple;
      i := 0;
      MergedBound(List());
      if bytes == 0 || !PowerOfTwo(align) {
        return None, 0;
      }
      PowerPositive(align);
      var index := 0;
      while index < count
        invariant index <= count && unchanged(this) && unchanged(segments)
        invariant forall j :: 0 <= j < index ==> !Fits(virtualStart, List()[j], bytes, align)
      {
        var segment := segments[index];
        if segment.free {
          TilingSplit(List(), 0, size, index);
          var address := virtualStart + segment.offset;
          if address + align - 1 >= MAX_ADDRESS {
            OverflowIsReal(address, align);
            LaterTooHigh(List(), virtualStart, bytes, align, size, index);
            return None, 0;
          }
          AlignUpMeans(address, align);
          var aligned := AlignUp(address, align);
          var at := aligned - virtualStart;
          if at + bytes >= MAX_ADDRESS {
            LaterTooHigh(List(), virtualStart, bytes, align, size, index);
            return None, 0;
          }
          if at + bytes <= segment.End() {
            i := index;
            PlacementInside(virtualStart, List()[i], bytes, align);
            r := Take(index, at, bytes, align);
            return;
          }
        }
        index := index + 1;
      }
      r := None;
    }

    /** Splits the chosen segment. */
    method Take(index: nat, at: nat, bytes: nat, ghost align: nat) returns (r: Option<nat>)
      requires Valid() && index < count && List()[index].free && List()[index].offset <= at && at + bytes <= List()[index].End() && bytes > 0
      requires Multiple(virtualStart + at, align)
      modifies this, segments
      ensures Valid()
      ensures r.Some? ==>
        && r.value == virtualStart + at && List() == Allocated(old(List()), index, at, bytes)
        && used == old(used) + bytes && activeAllocations == old(activeAllocations) + 1
        && r.value !in old(live) && live == old(live)[r.value := Block(bytes, align)]
      ensures r.None? ==> List() == old(List()) && live == old(live) && used == old(used) && activeAllocations == old(activeAllocations)
      ensures r.Some? <==> |Allocated(old(List()), index, at, bytes)| <= MAX_SEGMENTS
      ensures |Allocated(old(List()), index, at, bytes)| <= old(count) + 2
    {
      hide Merged, UsedBytes, FreeBytes, Live, Tiling, Tracks, Multiple;
      ghost var before := List();
      var segment := segments[index];
      var pieces := Gap(segment.offset, at) + [Segment(at, bytes, false)] + Gap(at + bytes, segment.End());
      SplitTiles(segment, at, bytes);
      Replaced(before, index, pieces, size);
      AllocatedMerged(before, index, at, bytes);
      TracksAllocated(before, virtualStart, size, live, index, at, bytes, align);
      FreeSegmentSums(segment);
      var ok := ReplaceSegment(index, pieces);
      if !ok {
        return None;
      }
      used := used + bytes;
      peakUsed := Max(peakUsed, used);
      activeAllocations := activeAllocations + 1;
      totalAllocations := totalAllocations + 1;
      live := live[virtualStart + at := Block(bytes, align)];
      r := Some(virtualStart + at);
    }

    /** Releases the block at `address`; anything else is refused. */
    method Deallocate(address: nat) returns (ok: bool, ghost i: nat)
      requires Valid()
      modifies this, segments
      ensures Valid()
      ensures ok <==> address in old(live)
      ensures !ok ==> List() == old(List()) && live == old(live) && used == old(used) && activeAllocations == old(activeAllocations)
      ensures ok ==>
        && i < |old(List())| && !old(List())[i].free && virtualStart + old(List())[i].offset == address
        && List() == Released(old(List()), i) && live == old(live) - {address}
        && used == old(used) - old(live)[address].size && activeAllocations == old(activeAllocations) - 1
    {
      hide Merged, UsedBytes, FreeBytes, Live, Tiling, Tracks;
      i := 0;
      if address < virtualStart {
        TrackedAt(List(), virtualStart, live, address);
        return false, 0;
      }
      var offset := address - virtualStart;
      var index := 0;
      while index < count && (segments[index].free || segments[index].offset != offset)
        invariant index <= count && unchanged(this) && unchanged(segments)
        invariant forall j :: 0 <= j < index ==> List()[j].free || List()[j].offset != offset
      {
        index := index + 1;
      }
      if index == count {
        TrackedAt(List(), virtualStart, live, address);
        return false, 0;
      }
      i := index;
      TrackedSegment(List(), virtualStart, live, index);
      ghost var before := List();
      ReleasedOk(before, index, size);
      TracksReleased(before, virtualStart, size, live, index);
      var bytes := segments[index].size;
      Merge(index);
      used := used - bytes;
      activeAllocations := activeAllocations - 1;
      deallocations := deallocations + 1;
      live := live - {address};
      ok := true;
    }

    /** Marks a segment free and joins it with its free neighbours. */
    method Merge(start: nat)
      requires count <= segments.Length == MAX_SEGMENTS && start < count
      modifies segments, this`count
      ensures count <= segments.Length && List() == Released(old(List()), start)
    {
      ghost var before := List();
      segments[start] := segments[start].(free := true);
      assert List() == MarkedFree(before, start);
      var index := MergeLeft(start);
      MergeRight(index);
      JoinsAre(before, start);
    }

    method MergeLeft(index: nat) returns (next: nat)
      requires count <= segments.Length == MAX_SEGMENTS && index < count
      modifies segments, this`count
      ensures count <= segments.Length && List() == LeftJoined(old(List()), index) && next == Lower(old(List()), index)
    {
      ghost var before := List();
      next := index;
      if index > 0 && segments[index - 1].free {
        segments[index - 1] := segments[index - 1].(size := segments[index - 1].size + segments[index].size);
        ghost var joined := List();
        RemoveSegment(index);
        assert joined[..index] == before[..index - 1] + [joined[index - 1]] && joined[index + 1..] == before[index + 1..];
        next := index - 1;
      }
    }

    method MergeRight(index: nat)
      requires count <= segments.Length == MAX_SEGMENTS && index < count
      modifies segments, this`count
      ensures count <= segments.Length && List() == RightJoined(old(List()), index)
    {
      ghost var before := List();
      if index + 1 < count && segments[index + 1].free {
        segments[index] := segments[index].(size := segments[index].size + segments[index + 1].size);
        ghost var joined := List();
        RemoveSegment(index + 1);
        assert joined[..index + 1] == before[..index] + [joined[index]] && joined[index + 2..] == before[index + 2..];
      }
    }

    /** Sums the free segments. */
    method CountFree() returns (bytes: nat)
      requires Valid()
      ensures bytes == FreeBytes(List()) && used + bytes == size
    {
      bytes := 0;
      for n := 0 to count
        invariant bytes == FreeBytes(List()[..n])
      {
        assert List()[..n + 1] == List()[..n] + [List()[n]];
        SumsConcat(List()[..n], [List()[n]]);
        if segments[n].free {
          bytes := bytes + segments[n].size;
        }
      }
      assert List()[..count] == List();
      TilingTotal(List(), 0, size);
    }
  }

  /** Freeing the block just allocated restores the heap exactly. */
  method AllocateThenDeallocate(heap: KernelHeap, bytes: nat, align: nat) returns (r: Option<nat>, ok: bool)
    requires heap.Valid() && bytes < MAX_ADDRESS && align < MAX_ADDRESS
    modifies heap, heap.segments
    ensures heap.Valid() && heap.List() == old(heap.List()) && heap.live == old(heap.live)
    ensures heap.used == old(heap.used) && heap.activeAllocations == old(heap.activeAllocations)
    ensures ok == r.Some?
  {
    hide PowerOfTwo, AlignUp, Merged, UsedBytes, FreeBytes, Live, Tiling, Allocated, Split, Gap, Tracks, Multiple, Released;
    ghost var s, live := heap.List(), heap.live;
    ghost var i, k;
    r, i := heap.Allocate(bytes, align);
    if r.None? {
      return r, false;
    }
    ghost var t := heap.List();
    ok, k := heap.Deallocate(r.value);
    Undone(s, heap.virtualStart, heap.size, bytes, align, r, i, t, k);
    assert live[r.value := Block(bytes, align)] - {r.value} == live;
  }

  lemma {:induction false} Undone(s: seq<Segment>, base: nat, end: nat, size: nat, align: nat, r: Option<nat>, i: nat, t: seq<Segment>, k: nat)
    requires Merged(s) && Tiling(t, 0, end) && Answered(s, base, size, align, r, i, t) && r.Some?
    requires k < |t| && !t[k].free && base + t[k].offset == r.value
    ensures Released(t, k) == s
  {
    hide PowerOfTwo, AlignUp, Tiling, Released, Merged;
    PlacementInside(base, s[i], size, align);
    var at := Placement(base, s[i], align);
    var j := i + |Gap(s[i].offset, at)|;
    ReleaseUndoesAllocate(s, i, at, size);
    if j != k {
      OffsetsDiffer(t, end, j, k);
    }
  }

  lemma TrackedAt(s: seq<Segment>, base: nat, live: Blocks, a: nat)
    requires Tracks(s, base, live)
    ensures a in live ==> base <= a && exists k :: 0 <= k < |s| && !s[k].free && s[k].offset == a - base
  {
    if a in live {
      assert OneOf(s, base, a, live[a]);
      var k :| 0 <= k < |s| && s[k] == Segment(a - base, live[a].size, false);
    }
  }

  lemma TrackedSegment(s: seq<Segment>, base: nat, live: Blocks, k: nat)
    requires Tracks(s, base, live) && k < |s| && !s[k].free
    ensures base + s[k].offset in live && live[base + s[k].offset].size == s[k].size
  {
    assert Listed(base, live, s[k]);
  }

  lemma PowerPositive(n: nat)
    requires PowerOfTwo(n)
    ensures n > 0
  {
  }

  lemma {:induction false} ShiftedAndFilled(a: seq<Segment>, b: seq<Segment>, c: seq<Segment>, count: nat, index: nat, pieces: seq<Segment>)
    requires |a| == |b| == |c| && index < count && 1 <= |pieces| && count + |pieces| - 1 <= |a|
    requires b[..index + 1] == a[..index + 1] && b[index + |pieces|..count + |pieces| - 1] == a[index + 1..count]
    requires c[..index] == b[..index] && c[index..index + |pieces|] == pieces && c[index + |pieces|..] == b[index + |pieces|..]
    ensures c[..count + |pieces| - 1] == a[..count][..index] + pieces + a[..count][index + 1..]
  {
    var next, end := index + |pieces|, count + |pieces| - 1;
    assert a[..count][..index] == a[..index + 1][..index] == b[..index + 1][..index] == b[..index];
    assert a[..count][index + 1..] == a[index + 1..count];
    assert c[next..end] == c[next..][..end - next] == b[next..][..end - next] == b[next..end];
    assert c[..end] == c[..index] + c[index..next] + c[next..end];
  }

  lemma FreeSegmentSums(segment: Segment)
    requires segment.free
    ensures UsedBytes([segment]) == 0 && Live([segment]) == 0
  {
  }

  ghost function MarkedFree(s: seq<Segment>, i: nat): seq<Segment>
    requires i < |s|
  {
    s[i := s[i].(free := true)]
  }

  ghost function LeftJoined(s: seq<Segment>, i: nat): seq<Segment>
    requires i < |s|
  {
    if i > 0 && s[i - 1].free then s[..i - 1] + [s[i - 1].(size := s[i - 1].size + s[i].size)] + s[i + 1..] else s
  }

  ghost function RightJoined(s: seq<Segment>, i: nat): seq<Segment>
    requires i < |s|
  {
    if i + 1 < |s| && s[i + 1].free then s[..i] + [s[i].(size := s[i].size + s[i + 1].size)] + s[i + 2..] else s
  }

  /** Marking free, joining left, then right, is releasing. */
  lemma {:induction false} JoinsAre(s: seq<Segment>, i: nat)
    requires i < |s|
    ensures Lower(MarkedFree(s, i), i) == Lower(s, i)
    ensures RightJoined(LeftJoined(MarkedFree(s, i), i), Lower(s, i)) == Released(s, i)
  {
    hide RightJoined, LeftJoined;
    var lo := Lower(s, i);
    var joined := if lo < i then Segment(s[lo].offset, s[lo].size + s[i].size, true) else s[i].(free := true);
    JoinsLeft(s, i, joined);
    JoinsRight(s[..lo], joined, s[i + 1..]);
    if i + 1 < |s| {
      assert s[i + 1..][0] == s[i + 1] && s[i + 1..][1..] == s[i + 2..];
    }
  }

  lemma {:induction false} JoinsLeft(s: seq<Segment>, i: nat, joined: Segment)
    requires i < |s|
    requires var lo := Lower(s, i); joined == if lo < i then Segment(s[lo].offset, s[lo].size + s[i].size, true) else s[i].(free := true)
    ensures LeftJoined(MarkedFree(s, i), i) == s[..Lower(s, i)] + [joined] + s[i + 1..]
  {
    var m := MarkedFree(s, i);
    assert m[i + 1..] == s[i + 1..] && m[..i] == s[..i];
    if i > 0 {
      assert m[..i - 1] == s[..i - 1] && m[i - 1] == s[i - 1];
    }
    assert m == s[..i] + [m[i]] + s[i + 1..];
  }

  lemma {:induction false} JoinsRight(a: seq<Segment>, m: Segment, b: seq<Segment>)
    ensures RightJoined(a + [m] + b, |a|)
         == if b != [] && b[0].free then a + [m.(size := m.size + b[0].size)] + b[1..] else a + [m] + b
  {
    var t := a + [m] + b;
    assert t[..|a|] == a && t[|a|] == m;
    if b != [] {
      assert t[|a| + 1] == b[0] && t[|a| + 2..] == b[1..];
    }
  }
}
