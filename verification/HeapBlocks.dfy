/**
  The live blocks of the heap by address: where they are, that they are aligned and
  apart, and how the segment list keeps track of them.
 */
module HeapBlocks {
  import opened Heap

  datatype Block = Block(size: nat, align: nat)
  type Blocks = map<nat, Block>

  /** The used segments are the live blocks, each at a multiple of its alignment. */
  ghost predicate Tracks(s: seq<Segment>, base: nat, live: Blocks) {
    && (forall a: nat :: a in live ==> OneOf(s, base, a, live[a]))
    && (forall k :: 0 <= k < |s| && !s[k].free ==> Listed(base, live, s[k]))
  }

  predicate Listed(base: nat, live: Blocks, u: Segment) {
    base + u.offset in live && live[base + u.offset].size == u.size
  }

  ghost predicate OneOf(s: seq<Segment>, base: nat, a: nat, b: Block) {
    base <= a && Multiple(a, b.align) && Segment(a - base, b.size, false) in s
  }

  predicate Multiple(a: nat, n: nat) {
    n > 0 && a % n == 0
  }

  /** Live blocks are aligned, inside the heap and apart from each other. */
  lemma {:induction false} BlocksApart(s: seq<Segment>, base: nat, end: nat, live: Blocks, a: nat, b: nat)
    requires Tiling(s, 0, end) && Tracks(s, base, live) && a in live && b in live
    ensures base <= a && a + live[a].size <= base + end && Multiple(a, live[a].align)
    ensures a != b ==> a + live[a].size <= b || b + live[b].size <= a
  {
    hide Tiling, Multiple, Listed;
    assert OneOf(s, base, a, live[a]) && OneOf(s, base, b, live[b]);
    var i :| 0 <= i < |s| && s[i] == Segment(a - base, live[a].size, false);
    var j :| 0 <= j < |s| && s[j] == Segment(b - base, live[b].size, false);
    TilingSplit(s, 0, end, i);
    TilingEnd(s[i + 1..], s[i].End(), end);
    if i < j {
      TilingOrdered(s, 0, end, i, j);
    } else if j < i {
      TilingOrdered(s, 0, end, j, i);
    }
  }

  lemma {:induction false} OffsetsDiffer(s: seq<Segment>, end: nat, i: nat, j: nat)
    requires Tiling(s, 0, end) && i < |s| && j < |s| && i != j
    ensures s[i].End() <= s[j].offset || s[j].End() <= s[i].offset
    ensures s[i].size > 0 && s[j].size > 0
  {
    hide Tiling;
    TilingSplit(s, 0, end, i);
    TilingSplit(s, 0, end, j);
    if i < j {
      TilingOrdered(s, 0, end, i, j);
    } else {
      TilingOrdered(s, 0, end, j, i);
    }
  }

  /** Used segments of the list after allocation. */
  lemma {:induction false} AllocatedUsed(s: seq<Segment>, i: nat, at: nat, size: nat, u: Segment)
    requires i < |s| && s[i].free && s[i].offset <= at && at + size <= s[i].End() && !u.free
    ensures u in Allocated(s, i, at, size) <==> u in s || u == Segment(at, size, false)
  {
    assert s == s[..i] + [s[i]] + s[i + 1..];
  }

  lemma {:induction false} NewAddress(s: seq<Segment>, base: nat, end: nat, live: Blocks, i: nat, at: nat)
    requires Tracks(s, base, live) && Tiling(s, 0, end) && i < |s| && s[i].free && s[i].offset <= at < s[i].End()
    ensures base + at !in live
  {
    hide Tiling, Multiple, Listed;
    if base + at in live {
      assert OneOf(s, base, base + at, live[base + at]);
      var k :| 0 <= k < |s| && s[k] == Segment(at, live[base + at].size, false);
      OffsetsDiffer(s, end, i, k);
      assert false;
    }
  }

  lemma {:induction false} TracksAllocated(s: seq<Segment>, base: nat, end: nat, live: Blocks, i: nat, at: nat, size: nat, align: nat)
    requires Tracks(s, base, live) && Tiling(s, 0, end) && i < |s| && s[i].free
    requires s[i].offset <= at && at + size <= s[i].End() && size > 0 && Multiple(base + at, align)
    ensures base + at !in live
    ensures Tracks(Allocated(s, i, at, size), base, live[base + at := Block(size, align)])
  {
    hide Tiling, Allocated, Multiple;
    NewAddress(s, base, end, live, i, at);
    var r, after := Allocated(s, i, at, size), live[base + at := Block(size, align)];
    forall a: nat | a in after ensures OneOf(r, base, a, after[a]) {
      if a != base + at {
        assert OneOf(s, base, a, live[a]);
        AllocatedUsed(s, i, at, size, Segment(a - base, live[a].size, false));
      } else {
        AllocatedUsed(s, i, at, size, Segment(at, size, false));
      }
    }
    forall k | 0 <= k < |r| && !r[k].free ensures Listed(base, after, r[k]) {
      AllocatedUsed(s, i, at, size, r[k]);
      assert r[k] in r;
      if r[k] != Segment(at, size, false) {
        var m :| 0 <= m < |s| && s[m] == r[k];
        assert Listed(base, live, s[m]);
        OffsetsDiffer(s, end, i, m);
      }
    }
  }

  lemma {:induction false} ReleasedUsed(s: seq<Segment>, i: nat, end: nat, u: Segment)
    requires Tiling(s, 0, end) && i < |s| && !s[i].free && !u.free
    ensures u in Released(s, i) <==> u in s && u.offset != s[i].offset
  {
    hide Tiling;
    var lo, hi := Lower(s, i), Upper(s, i);
    var r := Released(s, i);
    assert r == s[..lo] + [r[lo]] + s[hi..] && r[lo].free;
    if u in r {
      var k :| 0 <= k < |s| && (k < lo || hi <= k) && s[k] == u;
      OffsetsDiffer(s, end, i, k);
    }
    if u in s && u.offset != s[i].offset {
      var k :| 0 <= k < |s| && s[k] == u;
      assert k < lo || hi <= k;
      assert k < lo ==> s[..lo][k] == u;
      assert hi <= k ==> s[hi..][k - hi] == u;
    }
  }

  lemma {:induction false} TracksReleased(s: seq<Segment>, base: nat, end: nat, live: Blocks, i: nat)
    requires Tracks(s, base, live) && Tiling(s, 0, end) && i < |s| && !s[i].free
    ensures Tracks(Released(s, i), base, live - {base + s[i].offset})
  {
    hide Tiling, Released, Multiple;
    var r, after := Released(s, i), live - {base + s[i].offset};
    forall a: nat | a in after ensures OneOf(r, base, a, after[a]) {
      assert OneOf(s, base, a, live[a]);
      ReleasedUsed(s, i, end, Segment(a - base, live[a].size, false));
    }
    forall k | 0 <= k < |r| && !r[k].free ensures Listed(base, after, r[k]) {
      assert r[k] in r;
      ReleasedUsed(s, i, end, r[k]);
      var m :| 0 <= m < |s| && s[m] == r[k];
      assert Listed(base, live, s[m]);
    }
  }
}
