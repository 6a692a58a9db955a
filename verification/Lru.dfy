/**
  Least recently used replacement over an access history, independent of how the
  cache keeps its books: what is cached, what misses, and that a larger cache never
  misses more.
 */
module Lru {
  /** `s` without `x`. */
  function Without(s: seq<nat>, x: nat): seq<nat> {
    if s == [] then [] else Without(s[..|s| - 1], x) + (if s[|s| - 1] == x then [] else [s[|s| - 1]])
  }

  function ToFront(s: seq<nat>, x: nat): seq<nat> {
    [x] + Without(s, x)
  }

  /** The sectors accessed, most recent first, each once. */
  function Recent(history: seq<nat>): seq<nat> {
    if history == [] then []
    else ToFront(Recent(history[..|history| - 1]), history[|history| - 1])
  }

  predicate Distinct(s: seq<nat>) {
    forall i, j :: 0 <= i < j < |s| ==> s[i] != s[j]
  }

  function Take(s: seq<nat>, n: nat): (r: seq<nat>) {
    if n < |s| then s[..n] else s
  }

  /** What a cache of `capacity` sectors holds after the history. */
  function Kept(history: seq<nat>, capacity: nat): seq<nat> {
    Take(Recent(history), capacity)
  }

  function Misses(history: seq<nat>, capacity: nat): nat {
    if history == [] then 0
    else
      var before, x := history[..|history| - 1], history[|history| - 1];
      Misses(before, capacity) + if x in Kept(before, capacity) then 0 else 1
  }

  /** A larger cache holds everything a smaller one does. */
  lemma Inclusion(history: seq<nat>, small: nat, large: nat)
    requires small <= large
    ensures Kept(history, small) <= Kept(history, large)
  {
  }

  /** So it never misses more on the same accesses. */
  lemma {:induction false} LargerMissesLess(history: seq<nat>, small: nat, large: nat)
    requires small <= large
    ensures Misses(history, large) <= Misses(history, small)
  {
    if history != [] {
      var before, x := history[..|history| - 1], history[|history| - 1];
      LargerMissesLess(before, small, large);
      Inclusion(before, small, large);
      var a, b := Kept(before, small), Kept(before, large);
      if x in a {
        var i :| 0 <= i < |a| && a[i] == x;
        assert b[i] == x;
      }
    }
  }

  // ---------- moving to the front ----------

  lemma {:induction false} WithoutAbsent(s: seq<nat>, x: nat)
    requires x !in s
    ensures Without(s, x) == s
  {
    if s != [] {
      assert s == s[..|s| - 1] + [s[|s| - 1]];
      WithoutAbsent(s[..|s| - 1], x);
    }
  }

  /** In a list of distinct elements the one at `k` is cut out. */
  lemma {:induction false} WithoutAt(s: seq<nat>, k: nat)
    requires Distinct(s) && k < |s|
    ensures Without(s, s[k]) == s[..k] + s[k + 1..]
  {
    var front, last := s[..|s| - 1], s[|s| - 1];
    if k == |s| - 1 {
      forall i | 0 <= i < |front| ensures front[i] != last {}
      WithoutAbsent(front, last);
    } else {
      WithoutAt(front, k);
      assert front[..k] == s[..k] && front[k + 1..] + [last] == s[k + 1..];
    }
  }

  lemma {:induction false} RecentDistinct(history: seq<nat>)
    ensures Distinct(Recent(history))
  {
    if history != [] {
      var before, x := Recent(history[..|history| - 1]), history[|history| - 1];
      RecentDistinct(history[..|history| - 1]);
      FrontDistinct(before, x);
    }
  }

  lemma {:induction false} FrontDistinct(s: seq<nat>, x: nat)
    requires Distinct(s)
    ensures Distinct(ToFront(s, x))
  {
    hide Without;
    if x in s {
      var k :| 0 <= k < |s| && s[k] == x;
      WithoutAt(s, k);
    } else {
      WithoutAbsent(s, x);
    }
  }

  lemma RecentStep(history: seq<nat>, x: nat)
    ensures Recent(history + [x]) == ToFront(Recent(history), x)
  {
    assert (history + [x])[..|history|] == history;
  }

  lemma MissesStep(history: seq<nat>, x: nat, capacity: nat)
    ensures Misses(history + [x], capacity) == Misses(history, capacity) + if x in Kept(history, capacity) then 0 else 1
  {
    assert (history + [x])[..|history|] == history;
  }

  lemma TakeHas(s: seq<nat>, n: nat, k: nat)
    requires k < |s|
    ensures k < n ==> s[k] in Take(s, n)
  {
    assert k < n ==> Take(s, n)[k] == s[k];
  }

  /** A hit at position `k` moves that sector to the front and keeps the rest. */
  lemma {:induction false} KeptHit(history: seq<nat>, x: nat, capacity: nat, k: nat)
    requires k < |Kept(history, capacity)| && Kept(history, capacity)[k] == x
    ensures var kept := Kept(history, capacity); Kept(history + [x], capacity) == [x] + kept[..k] + kept[k + 1..]
  {
    var all := Recent(history);
    RecentDistinct(history);
    RecentStep(history, x);
    WithoutAt(all, k);
  }

  /** A miss puts the sector in front and pushes the oldest out if the cache is full. */
  lemma {:induction false} KeptMiss(history: seq<nat>, x: nat, capacity: nat)
    requires capacity > 0 && x !in Kept(history, capacity)
    ensures var kept := Kept(history, capacity);
      Kept(history + [x], capacity) == [x] + if |kept| < capacity then kept else kept[..capacity - 1]
  {
    hide Recent, Without;
    var all, kept := Recent(history), Kept(history, capacity);
    RecentStep(history, x);
    RecentDistinct(history);
    if x in all {
      var k :| 0 <= k < |all| && all[k] == x;
      TakeHas(all, capacity, k);
      WithoutAt(all, k);
      assert (all[..k] + all[k + 1..])[..capacity - 1] == all[..capacity - 1];
    } else {
      WithoutAbsent(all, x);
    }
  }
}
