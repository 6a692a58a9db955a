/**
  The kernel heap: first fit over a bounded table of segments, splitting on
  allocation and merging on release.
 */
module Heap {
  import opened Arithmetic

  const MAX_SEGMENTS := 128
  const MAX_ADDRESS := 0x1_0000_0000_0000_0000

  datatype Segment = Segment(offset: nat, size: nat, free: bool) {
    function End(): nat {
      offset + size
    }
  }

  // ---------- the segment list ----------

  /** Segments from `start` to `end` without gaps, none of them empty. */
  predicate Tiling(s: seq<Segment>, start: nat, end: nat) {
    if s == [] then start == end
    else s[0].offset == start && s[0].size > 0 && Tiling(s[1..], s[0].End(), end)
  }

  /** No two neighbours are free. */
  predicate Merged(s: seq<Segment>) {
    forall i :: 0 <= i < |s| - 1 ==> !(s[i].free && s[i + 1].free)
  }

  function UsedBytes(s: seq<Segment>): nat {
    if s == [] then 0 else (if s[0].free then 0 else s[0].size) + UsedBytes(s[1..])
  }

  function FreeBytes(s: seq<Segment>): nat {
    if s == [] then 0 else (if s[0].free then s[0].size else 0) + FreeBytes(s[1..])
  }

  function Live(s: seq<Segment>): nat {
    if s == [] then 0 else (if s[0].free then 0 else 1) + Live(s[1..])
  }

  lemma {:induction false} SumsConcat(a: seq<Segment>, b: seq<Segment>)
    ensures UsedBytes(a + b) == UsedBytes(a) + UsedBytes(b)
    ensures FreeBytes(a + b) == FreeBytes(a) + FreeBytes(b)
    ensures Live(a + b) == Live(a) + Live(b)
  {
    if a == [] {
      assert a + b == b;
    } else {
      assert (a + b)[0] == a[0] && (a + b)[1..] == a[1..] + b;
      SumsConcat(a[1..], b);
    }
  }

  lemma {:induction false} TilingConcat(a: seq<Segment>, b: seq<Segment>, start: nat, middle: nat, end: nat)
    requires Tiling(a, start, middle) && Tiling(b, middle, end)
    ensures Tiling(a + b, start, end)
  {
    if a == [] {
      assert a + b == b;
    } else {
      assert (a + b)[0] == a[0] && (a + b)[1..] == a[1..] + b;
      TilingConcat(a[1..], b, a[0].End(), middle, end);
    }
  }

  /** Where segment `k` of a tiling lies, and that the rest tiles what is left. */
  lemma {:induction false} TilingSplit(s: seq<Segment>, start: nat, end: nat, k: nat)
    requires Tiling(s, start, end) && k < |s|
    ensures start <= s[k].offset && s[k].size > 0 && s[k].End() <= end
    ensures Tiling(s[..k], start, s[k].offset) && Tiling(s[k + 1..], s[k].End(), end)
  {
    if k == 0 {
      TilingEnd(s[1..], s[0].End(), end);
    } else {
      TilingSplit(s[1..], s[0].End(), end, k - 1);
      assert s[..k] == [s[0]] + s[1..][..k - 1] && s[k + 1..] == s[1..][k..];
      assert s[..k][1..] == s[1..][..k - 1];
    }
  }

  lemma {:induction false} TilingEnd(s: seq<Segment>, start: nat, end: nat)
    requires Tiling(s, start, end)
    ensures start <= end
  {
    if s != [] {
      TilingEnd(s[1..], s[0].End(), end);
    }
  }

  /** Earlier segments end before later ones begin: live blocks are disjoint. */
  lemma {:induction false} TilingOrdered(s: seq<Segment>, start: nat, end: nat, i: nat, j: nat)
    requires Tiling(s, start, end) && i < j < |s|
    ensures s[i].End() <= s[j].offset
  {
    TilingSplit(s, start, end, i);
    assert s[j] == s[i + 1..][j - i - 1];
    TilingSplit(s[i + 1..], s[i].End(), end, j - i - 1);
  }

  /** Conservation: every byte is used or free. */
  lemma {:induction false} TilingTotal(s: seq<Segment>, start: nat, end: nat)
    requires Tiling(s, start, end)
    ensures UsedBytes(s) + FreeBytes(s) == end - start
  {
    if s != [] {
      TilingTotal(s[1..], s[0].End(), end);
    }
  }

  /** Merging keeps the list short. */
  lemma {:induction false} MergedBound(s: seq<Segment>)
    requires Merged(s)
    ensures |s| <= 2 * Live(s) + 1
    decreases |s|
  {
    if |s| >= 2 {
      var rest := s[2..];
      forall i | 0 <= i < |rest| - 1 ensures !(rest[i].free && rest[i + 1].free) {
        assert rest[i] == s[i + 2] && rest[i + 1] == s[i + 2 + 1];
      }
      MergedBound(rest);
      assert s[1..][0] == s[1] && s[1..][1..] == rest;
    }
  }

  // ---------- allocation ----------

  /** `(address + align - 1) & !(align - 1)`. */
  function AlignUp(address: nat, align: nat): nat
    requires align > 0
  {
    (address + align - 1) / align * align
  }

  lemma {:induction false} AlignUpMeans(address: nat, align: nat)
    requires align > 0
    ensures address <= AlignUp(address, align) < address + align && AlignUp(address, align) % align == 0
  {
    var q := (address + align - 1) / align;
    assert address + align - 1 == align * q + (address + align - 1) % align;
    assert q * align == align * q;
    assert (q * align) % align == 0 by { ModZero(q, align); }
  }

  /** Higher addresses align no lower. */
  lemma {:induction false} AlignUpMonotone(a: nat, b: nat, align: nat)
    requires align > 0 && a <= b
    ensures AlignUp(a, align) <= AlignUp(b, align)
  {
    var p, q := (a + align - 1) / align, (b + align - 1) / align;
    DivMonotone(a + align - 1, b + align - 1, align);
    MulMono(p, q, align);
  }

  /** Where in the segment a block would go. */
  function Placement(base: nat, segment: Segment, align: nat): nat
    requires align > 0
  {
    AlignUpMeans(base + segment.offset, align);
    AlignUp(base + segment.offset, align) - base
  }

  predicate Fits(base: nat, segment: Segment, size: nat, align: nat)
    requires align > 0
  {
    segment.free && Placement(base, segment, align) + size <= segment.End()
  }

  function Gap(offset: nat, end: nat): seq<Segment>
    requires offset <= end
  {
    if offset == end then [] else [Segment(offset, end - offset, true)]
  }

  /** The pieces a free segment is split into. */
  function Split(segment: Segment, at: nat, size: nat): seq<Segment>
    requires segment.offset <= at && at + size <= segment.End()
  {
    Gap(segment.offset, at) + [Segment(at, size, false)] + Gap(at + size, segment.End())
  }

  function Allocated(s: seq<Segment>, i: nat, at: nat, size: nat): seq<Segment>
    requires i < |s| && s[i].offset <= at && at + size <= s[i].End()
  {
    s[..i] + Split(s[i], at, size) + s[i + 1..]
  }

  lemma {:induction false} SplitTiles(segment: Segment, at: nat, size: nat)
    requires segment.offset <= at && at + size <= segment.End() && size > 0 && segment.free
    ensures Tiling(Split(segment, at, size), segment.offset, segment.End()) && Merged(Split(segment, at, size))
    ensures UsedBytes(Split(segment, at, size)) == size && Live(Split(segment, at, size)) == 1
    ensures 1 <= |Split(segment, at, size)| <= 3
  {
    var a, b, c := Gap(segment.offset, at), [Segment(at, size, false)], Gap(at + size, segment.End());
    SumsConcat(a, b);
    SumsConcat(a + b, c);
    assert Tiling(a, segment.offset, at) && Tiling(b, at, at + size) && Tiling(c, at + size, segment.End());
    TilingConcat(a, b, segment.offset, at, at + size);
    TilingConcat(a + b, c, segment.offset, at + size, segment.End());
  }

  /** Replacing one segment by pieces that tile it. */
  lemma {:induction false} Replaced(s: seq<Segment>, i: nat, pieces: seq<Segment>, end: nat)
    requires Tiling(s, 0, end) && i < |s| && Tiling(pieces, s[i].offset, s[i].End())
    ensures Tiling(s[..i] + pieces + s[i + 1..], 0, end)
    ensures UsedBytes(s[..i] + pieces + s[i + 1..]) == UsedBytes(s) - UsedBytes([s[i]]) + UsedBytes(pieces)
    ensures Live(s[..i] + pieces + s[i + 1..]) == Live(s) - Live([s[i]]) + Live(pieces)
  {
    TilingSplit(s, 0, end, i);
    TilingConcat(s[..i], pieces, 0, s[i].offset, s[i].End());
    TilingConcat(s[..i] + pieces, s[i + 1..], 0, s[i].End(), end);
    SumsConcat(s[..i], pieces);
    SumsConcat(s[..i] + pieces, s[i + 1..]);
    assert s == s[..i] + [s[i]] + s[i + 1..];
    SumsConcat(s[..i], [s[i]]);
    SumsConcat(s[..i] + [s[i]], s[i + 1..]);
  }

  lemma {:induction false} AllocatedMerged(s: seq<Segment>, i: nat, at: nat, size: nat)
    requires i < |s| && s[i].free && s[i].offset <= at && at + size <= s[i].End() && size > 0 && Merged(s)
    ensures Merged(Allocated(s, i, at, size))
  {
    var pieces := Split(s[i], at, size);
    var r := s[..i] + pieces + s[i + 1..];
    SplitTiles(s[i], at, size);
    forall k | 0 <= k < |r| - 1 ensures !(r[k].free && r[k + 1].free) {
      if k + 1 < i {
        assert r[k] == s[k] && r[k + 1] == s[k + 1];
      } else if k + 1 == i {
        assert r[k] == s[k] && s[k + 1].free && !s[k].free;
      } else if k + 1 < i + |pieces| {
        assert r[k] == pieces[k - i] && r[k + 1] == pieces[k - i + 1];
      } else {
        var m := k + 1 - |pieces| + 1;
        assert r[k + 1] == s[i + 1..][k + 1 - i - |pieces|] == s[m];
        assert !(s[m - 1].free && s[m - 1 + 1].free);
        assert k >= i + |pieces| ==> r[k] == s[i + 1..][k - i - |pieces|] == s[m - 1];
      }
    }
  }

  // ---------- release ----------

  /** Free runs on either side of index `i` join it. */
  function Released(s: seq<Segment>, i: nat): seq<Segment>
    requires i < |s|
  {
    var left := i > 0 && s[i - 1].free;
    var right := i + 1 < |s| && s[i + 1].free;
    var offset := if left then s[i - 1].offset else s[i].offset;
    var size := (if left then s[i - 1].size else 0) + s[i].size + (if right then s[i + 1].size else 0);
    s[..if left then i - 1 else i] + [Segment(offset, size, true)] + s[if right then i + 2 else i + 1..]
  }

  lemma {:induction false} ReplacedRun(s: seq<Segment>, lo: nat, hi: nat, piece: Segment, end: nat)
    requires Tiling(s, 0, end) && lo < hi <= |s| && piece.free && piece.offset == s[lo].offset && piece.End() == s[hi - 1].End()
    ensures Tiling(s[..lo] + [piece] + s[hi..], 0, end)
    ensures UsedBytes(s[..lo] + [piece] + s[hi..]) == UsedBytes(s) - UsedBytes(s[lo..hi])
    ensures Live(s[..lo] + [piece] + s[hi..]) == Live(s) - Live(s[lo..hi])
  {
    TilingSplit(s, 0, end, lo);
    TilingSplit(s, 0, end, hi - 1);
    if lo < hi - 1 {
      TilingOrdered(s, 0, end, lo, hi - 1);
    }
    assert Tiling([piece], s[lo].offset, s[hi - 1].End());
    TilingConcat(s[..lo], [piece], 0, s[lo].offset, s[hi - 1].End());
    TilingConcat(s[..lo] + [piece], s[hi..], 0, s[hi - 1].End(), end);
    assert s == s[..lo] + s[lo..hi] + s[hi..];
    SumsConcat(s[..lo], s[lo..hi]);
    SumsConcat(s[..lo] + s[lo..hi], s[hi..]);
    SumsConcat(s[..lo], [piece]);
    SumsConcat(s[..lo] + [piece], s[hi..]);
  }

  /** Neighbours in a tiling touch. */
  lemma {:induction false} TilingTouches(s: seq<Segment>, start: nat, end: nat, i: nat)
    requires Tiling(s, start, end) && i + 1 < |s|
    ensures s[i].End() == s[i + 1].offset
  {
    TilingSplit(s, start, end, i);
    assert s[i + 1..][0] == s[i + 1];
  }

  function Lower(s: seq<Segment>, i: nat): nat
    requires i < |s|
  {
    if i > 0 && s[i - 1].free then i - 1 else i
  }

  function Upper(s: seq<Segment>, i: nat): nat
    requires i < |s|
  {
    if i + 1 < |s| && s[i + 1].free then i + 2 else i + 1
  }

  /** Releasing a block keeps the tiling and merges what becomes free. */
  lemma {:induction false} ReleasedOk(s: seq<Segment>, i: nat, end: nat)
    requires Tiling(s, 0, end) && Merged(s) && i < |s| && !s[i].free
    ensures Tiling(Released(s, i), 0, end) && Merged(Released(s, i))
    ensures UsedBytes(Released(s, i)) == UsedBytes(s) - s[i].size && Live(Released(s, i)) == Live(s) - 1
  {
    var lo, hi := Lower(s, i), Upper(s, i);
    if i > 0 {
      TilingTouches(s, 0, end, i - 1);
    }
    if i + 1 < |s| {
      TilingTouches(s, 0, end, i);
    }
    var piece := Released(s, i)[lo];
    ReplacedRun(s, lo, hi, piece, end);
    RunSums(s, i);
    ReleasedMerged(s, i);
  }

  lemma {:induction false} RunSums(s: seq<Segment>, i: nat)
    requires i < |s| && !s[i].free
    ensures UsedBytes(s[Lower(s, i)..Upper(s, i)]) == s[i].size && Live(s[Lower(s, i)..Upper(s, i)]) == 1
  {
    var lo, hi := Lower(s, i), Upper(s, i);
    var a, b := s[lo..i], s[i + 1..hi];
    assert s[lo..hi] == a + [s[i]] + b;
    SumsConcat(a, [s[i]]);
    SumsConcat(a + [s[i]], b);
    assert UsedBytes([s[i]]) == s[i].size && Live([s[i]]) == 1;
    assert a == [] || a == [s[i - 1]];
    assert b == [] || b == [s[i + 1]];
  }

  lemma {:induction false} ReleasedMerged(s: seq<Segment>, i: nat)
    requires Merged(s) && i < |s| && !s[i].free
    ensures Merged(Released(s, i))
  {
    var lo, hi := Lower(s, i), Upper(s, i);
    var r := Released(s, i);
    assert r == s[..lo] + [r[lo]] + s[hi..];
    forall k | 0 <= k < |r| - 1 ensures !(r[k].free && r[k + 1].free) {
      if k + 1 < lo {
        assert r[k] == s[k] && r[k + 1] == s[k + 1];
      } else if k + 1 == lo {
        assert r[k] == s[k] && s[k + 1] == s[lo];
      } else if k == lo {
        assert r[k + 1] == s[hi] && s[hi - 1 + 1] == s[hi];
      } else {
        var m := hi + (k - lo - 1);
        assert r[k] == s[m] && r[k + 1] == s[m + 1];
      }
    }
  }

  /** Release, with the list taken apart around the block. */
  lemma {:induction false} ReleasedParts(a: seq<Segment>, before: seq<Segment>, u: Segment, after: seq<Segment>, b: seq<Segment>)
    requires |before| <= 1 && |after| <= 1 && (before != [] ==> before[0].free) && (after != [] ==> after[0].free)
    requires before == [] && a != [] ==> !a[|a| - 1].free
    requires after == [] && b != [] ==> !b[0].free
    ensures var r := a + before + [u] + after + b;
      var offset := if before != [] then before[0].offset else u.offset;
      var size := (if before != [] then before[0].size else 0) + u.size + (if after != [] then after[0].size else 0);
      Released(r, |a| + |before|) == a + [Segment(offset, size, true)] + b
  {
    var r := a + before + [u] + after + b;
    var j := |a| + |before|;
    assert r[j] == u && r[..|a|] == a && r[j + 1 + |after|..] == b;
    assert j > 0 ==> r[j - 1] == if before != [] then before[0] else a[|a| - 1];
    assert j + 1 < |r| ==> r[j + 1] == if after != [] then after[0] else b[0];
  }

  /** Releasing the block just allocated restores the list exactly. */
  lemma {:induction false} ReleaseUndoesAllocate(s: seq<Segment>, i: nat, at: nat, size: nat)
    requires Merged(s) && i < |s| && s[i].free && s[i].offset <= at && at + size <= s[i].End() && size > 0
    ensures var j := i + |Gap(s[i].offset, at)|;
      var r := Allocated(s, i, at, size);
      j < |r| && r[j] == Segment(at, size, false) && Released(r, j) == s
  {
    hide Released;
    var before, after := Gap(s[i].offset, at), Gap(at + size, s[i].End());
    var a, b, u := s[..i], s[i + 1..], Segment(at, size, false);
    assert Allocated(s, i, at, size) == a + before + [u] + after + b;
    if i > 0 {
      assert a[|a| - 1] == s[i - 1] && s[i - 1 + 1].free && !s[i - 1].free;
    }
    if i + 1 < |s| {
      assert b[0] == s[i + 1] && s[i].free && !s[i + 1].free;
    }
    ReleasedParts(a, before, u, after, b);
    assert s == a + [s[i]] + b;
  }
}
