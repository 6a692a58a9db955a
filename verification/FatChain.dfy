/**
  Cluster chains in a file allocation table: what a chain is, that it never visits a
  cluster twice, and what changes to the table leave it alone.
 */
module FatChain {
  import opened Arithmetic

  const FREE := 0
  const END_MIN := 0x0fff_fff8
  const END := 0x0fff_ffff
  const MAX_CLUSTERS := 0x0fff_fff5

  /** The table: one entry for each cluster number from 2 on. */
  type Fat = f: seq<nat> | |f| <= MAX_CLUSTERS

  predicate ValidCluster(f: Fat, c: nat) {
    2 <= c < |f| + 2
  }

  function Next(f: Fat, c: nat): nat
    requires ValidCluster(f, c)
  {
    f[c - 2]
  }

  function WithNext(f: Fat, c: nat, value: nat): Fat
    requires ValidCluster(f, c)
  {
    f[c - 2 := value]
  }

  predicate Clusters(f: Fat, cs: seq<nat>) {
    forall i :: 0 <= i < |cs| ==> ValidCluster(f, cs[i])
  }

  /** Each entry leads to the next cluster. */
  predicate Linked(f: Fat, cs: seq<nat>) {
    Clusters(f, cs) && forall i :: 0 <= i < |cs| - 1 ==> Next(f, cs[i]) == cs[i + 1]
  }

  /** Valid clusters linked one to the next, the last one to an end mark. */
  predicate IsChain(f: Fat, cs: seq<nat>) {
    cs != [] && Linked(f, cs) && Next(f, cs[|cs| - 1]) >= END_MIN
  }

  ghost predicate HasChain(f: Fat, c: nat) {
    exists cs :: IsChain(f, cs) && cs[0] == c
  }

  ghost function Chain(f: Fat, c: nat): (cs: seq<nat>)
    requires HasChain(f, c)
    ensures IsChain(f, cs) && cs[0] == c
  {
    var cs :| IsChain(f, cs) && cs[0] == c;
    cs
  }

  predicate Distinct(cs: seq<nat>) {
    forall i, j :: 0 <= i < j < |cs| ==> cs[i] != cs[j]
  }

  /** A link never looks like an end mark. */
  lemma LinkIsNoEnd(f: Fat, cs: seq<nat>, i: nat)
    requires Linked(f, cs) && i < |cs| - 1
    ensures Next(f, cs[i]) < END_MIN
  {
    assert ValidCluster(f, cs[i + 1]);
  }

  lemma ChainStep(f: Fat, cs: seq<nat>, i: nat)
    requires IsChain(f, cs) && i < |cs|
    ensures Next(f, cs[i]) >= END_MIN || ValidCluster(f, Next(f, cs[i]))
  {
    assert i < |cs| - 1 ==> Next(f, cs[i]) == cs[i + 1];
  }

  /** From the same cluster on, two runs of links agree. */
  lemma {:induction false} LinksAgree(f: Fat, a: seq<nat>, i: nat, b: seq<nat>, j: nat, k: nat)
    requires Linked(f, a) && Linked(f, b) && i + k < |a| && j + k < |b| && a[i] == b[j]
    ensures a[i + k] == b[j + k]
  {
    if k > 0 {
      LinksAgree(f, a, i, b, j, k - 1);
    }
  }

  /** There is one chain from a cluster, and a run of links from it is no longer. */
  lemma {:induction false} ChainIsLongest(f: Fat, a: seq<nat>, i: nat, b: seq<nat>, j: nat)
    requires IsChain(f, a) && Linked(f, b) && i < |a| && j < |b| && a[i] == b[j]
    ensures |b| - j <= |a| - i
  {
    if |b| - j > |a| - i {
      var k := |a| - 1 - i;
      LinksAgree(f, a, i, b, j, k);
      LinkIsNoEnd(f, b, j + k);
    }
  }

  lemma {:induction false} ChainUnique(f: Fat, a: seq<nat>, b: seq<nat>)
    requires IsChain(f, a) && IsChain(f, b) && a[0] == b[0]
    ensures a == b
  {
    ChainIsLongest(f, a, 0, b, 0);
    ChainIsLongest(f, b, 0, a, 0);
    forall k | 0 <= k < |a| ensures a[k] == b[k] {
      LinksAgree(f, a, 0, b, 0, k);
    }
  }

  /** Meeting a cluster again would mean never meeting an end mark. */
  lemma {:induction false} ChainDistinct(f: Fat, cs: seq<nat>)
    requires IsChain(f, cs)
    ensures Distinct(cs)
  {
    forall i, j | 0 <= i < j < |cs| ensures cs[i] != cs[j] {
      if cs[i] == cs[j] {
        ChainIsLongest(f, cs, j, cs, i);
      }
    }
  }

  function Interval(n: nat): (s: set<nat>)
    ensures |s| == n && forall c :: c in s <==> 2 <= c < n + 2
  {
    if n == 0 then {} else Interval(n - 1) + {n + 1}
  }

  function Elements(cs: seq<nat>): (s: set<nat>)
    ensures forall c: nat :: c in s <==> c in cs
    ensures Distinct(cs) ==> |s| == |cs|
  {
    if cs == [] then {} else
      var front, last := cs[..|cs| - 1], cs[|cs| - 1];
      assert cs == front + [last];
      Elements(front) + {last}
  }

  /** Pigeonhole. */
  lemma {:induction false} DistinctBound(f: Fat, cs: seq<nat>)
    requires Distinct(cs) && Clusters(f, cs)
    ensures |cs| <= |f|
  {
    SubsetSize(Elements(cs), Interval(|f|));
  }

  /** A run of links longer than the table has a repeated cluster, so it never ends. */
  lemma {:induction false} LongRunHasNoChain(f: Fat, run: seq<nat>)
    requires Linked(f, run) && |run| > |f|
    ensures !HasChain(f, run[0])
  {
    if HasChain(f, run[0]) {
      var cs := Chain(f, run[0]);
      ChainIsLongest(f, cs, 0, run, 0);
      ChainDistinct(f, cs);
      DistinctBound(f, cs);
    }
  }

  /** A run that meets an invalid entry never ends either. */
  lemma {:induction false} BrokenRunHasNoChain(f: Fat, run: seq<nat>)
    requires run != [] && Linked(f, run)
    requires var next := Next(f, run[|run| - 1]); next < END_MIN && !ValidCluster(f, next)
    ensures !HasChain(f, run[0])
  {
    if HasChain(f, run[0]) {
      var cs := Chain(f, run[0]);
      ChainIsLongest(f, cs, 0, run, 0);
      LinksAgree(f, cs, 0, run, 0, |run| - 1);
      ChainStep(f, cs, |run| - 1);
    }
  }

  // ---------- frames ----------

  /** A chain does not notice changes elsewhere in the table. */
  lemma {:induction false} ChainFrame(f: Fat, g: Fat, cs: seq<nat>)
    requires IsChain(f, cs) && |g| == |f| && forall i :: 0 <= i < |cs| ==> g[cs[i] - 2] == f[cs[i] - 2]
    ensures IsChain(g, cs) && HasChain(g, cs[0]) && Chain(g, cs[0]) == cs
  {
    assert IsChain(g, cs);
    ChainUnique(g, Chain(g, cs[0]), cs);
  }

  lemma {:induction false} ChainIs(f: Fat, cs: seq<nat>)
    requires IsChain(f, cs)
    ensures HasChain(f, cs[0]) && Chain(f, cs[0]) == cs
  {
    ChainUnique(f, Chain(f, cs[0]), cs);
  }

  /** The table after `cs` has been linked into a chain. */
  ghost predicate LinkedUp(f: Fat, g: Fat, cs: seq<nat>) {
    && |g| == |f| && Clusters(f, cs)
    && (forall c: nat :: ValidCluster(f, c) && c !in cs ==> Next(g, c) == Next(f, c))
    && (cs != [] ==> IsChain(g, cs) && Next(g, cs[|cs| - 1]) == END)
  }

  /** The table after the clusters of `cs` have been freed. */
  ghost predicate Released(f: Fat, g: Fat, cs: seq<nat>) {
    && |g| == |f| && Clusters(f, cs)
    && forall c: nat :: ValidCluster(f, c) ==> Next(g, c) == if c in cs then FREE else Next(f, c)
  }

  predicate IsFree(f: Fat, c: nat) {
    ValidCluster(f, c) && Next(f, c) == FREE
  }

  function FreeSet(f: Fat): set<nat> {
    set c: nat | 2 <= c < |f| + 2 && IsFree(f, c)
  }

  /** Linking free clusters up and freeing them again restores the table. */
  lemma {:induction false} ReleaseUndoesLink(f: Fat, g: Fat, h: Fat, cs: seq<nat>)
    requires LinkedUp(f, g, cs) && Released(g, h, cs) && forall i :: 0 <= i < |cs| ==> IsFree(f, cs[i])
    ensures h == f
  {
    forall k | 0 <= k < |f| ensures h[k] == f[k] {
      assert Next(h, k + 2) == Next(f, k + 2);
    }
  }
}
