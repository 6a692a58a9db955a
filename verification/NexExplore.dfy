/**
  The checker's walk over the directory graph.  `seen` says how many entries of each
  directory have been looked at, `reached` which inodes they led to; the walk ends
  with everything reached exactly when the graph is a tree.
 */
module NexExplore {
  import opened NexLayout
  import opened NexTree

  type Progress = map<nat, nat>

  ghost predicate Seen(fs: Fs, seen: Progress, d: nat, i: nat) {
    d in seen && i < seen[d] && i < |Entries(fs, d)|
  }

  ghost predicate SeenNames(fs: Fs, seen: Progress) {
    forall d <- seen :: seen[d] <= |Entries(fs, d)| && DistinctNames(Entries(fs, d)[..seen[d]])
  }

  ghost predicate SeenOk(fs: Fs, reached: set<nat>, seen: Progress) {
    forall d: nat, i: nat :: Seen(fs, seen, d, i) ==>
      EntryOk(fs, Entries(fs, d)[i]) && Entries(fs, d)[i].inode in reached
  }

  ghost predicate SeenOnce(fs: Fs, seen: Progress) {
    forall d: nat, i: nat, e: nat, j: nat ::
      (&& Seen(fs, seen, d, i) && Seen(fs, seen, e, j)
       && Entries(fs, d)[i].inode == Entries(fs, e)[j].inode) ==> d == e && i == j
  }

  ghost predicate Referred(fs: Fs, seen: Progress, x: nat) {
    exists d: nat, i: nat :: SeenAt(fs, seen, d, i, x)
  }

  ghost predicate SeenAt(fs: Fs, seen: Progress, d: nat, i: nat, x: nat) {
    Seen(fs, seen, d, i) && i < |Entries(fs, d)| && Entries(fs, d)[i].inode == x
  }

  ghost predicate AllReferred(fs: Fs, reached: set<nat>, seen: Progress) {
    forall x <- reached :: x != ROOT ==> Referred(fs, seen, x)
  }

  ghost predicate Least(fs: Fs, reached: set<nat>) {
    forall s: set<nat> :: Closed(fs, s) && ROOT in s ==> reached <= s
  }

  /** Every entry seen so far is in order and was the first to lead where it leads. */
  ghost predicate Explored(fs: Fs, reached: set<nat>, seen: Progress) {
    && ROOT in reached && reached <= fs.Keys && seen.Keys <= reached
    && SeenNames(fs, seen) && SeenOk(fs, reached, seen) && SeenOnce(fs, seen)
    && AllReferred(fs, reached, seen) && Least(fs, reached)
  }

  /** Every directory reached has been looked through. */
  ghost predicate Complete(fs: Fs, reached: set<nat>, seen: Progress) {
    forall d <- reached :: Entries(fs, d) != [] ==> d in seen && seen[d] == |Entries(fs, d)|
  }

  lemma ExploreStart(fs: Fs)
    requires ROOT in fs
    ensures Explored(fs, {ROOT}, map[])
  {
  }

  /** Opening a directory that has been reached. */
  lemma {:induction false} ExploreOpen(fs: Fs, reached: set<nat>, seen: Progress, c: nat)
    requires Explored(fs, reached, seen) && c in reached && c !in seen
    ensures Explored(fs, reached, seen[c := 0])
  {
    hide Entries, EntryOk, Least, DistinctNames, AllReferred;
    var seen' := seen[c := 0];
    forall d: nat, i: nat ensures Seen(fs, seen', d, i) == Seen(fs, seen, d, i) {}
    assert SeenNames(fs, seen') by { NoNames(Entries(fs, c)); }
    SameReferred(fs, reached, seen, seen');
  }

  lemma NoNames(es: seq<DirEntry>)
    ensures DistinctNames(es[..0])
  {
  }

  lemma {:induction false} SameReferred(fs: Fs, reached: set<nat>, seen: Progress, seen': Progress)
    requires AllReferred(fs, reached, seen)
    requires forall d: nat, i: nat :: Seen(fs, seen, d, i) ==> Seen(fs, seen', d, i)
    ensures AllReferred(fs, reached, seen')
  {
    hide Entries, Seen;
    forall x <- reached | x != ROOT ensures Referred(fs, seen', x) {
      var d: nat, i: nat :| SeenAt(fs, seen, d, i, x);
      assert SeenAt(fs, seen', d, i, x);
    }
  }

  /** One more entry: in order, with a new name, leading somewhere new. */
  lemma {:induction false} ExploreStep(fs: Fs, reached: set<nat>, seen: Progress, c: nat)
    requires Explored(fs, reached, seen) && c in seen && seen[c] < |Entries(fs, c)|
    requires var e := Entries(fs, c)[seen[c]];
      EntryOk(fs, e) && e.inode !in reached && !Named(Entries(fs, c)[..seen[c]], e.name)
    ensures Explored(fs, reached + {Entries(fs, c)[seen[c]].inode}, seen[c := seen[c] + 1])
  {
    hide Entries, SeenOnce, Least, AllReferred, DistinctNames, Named;
    var k := seen[c];
    var e := Entries(fs, c)[k];
    var seen', reached' := seen[c := k + 1], reached + {e.inode};
    forall d: nat, i: nat ensures Seen(fs, seen', d, i) <==> Seen(fs, seen, d, i) || (d == c && i == k) {}
    assert SeenNames(fs, seen') by { StepNames(Entries(fs, c), k); }
    StepOnce(fs, reached, seen, c);
    StepReferred(fs, reached, seen, c);
    StepLeast(fs, reached, c, k);
  }

  lemma StepNames(es: seq<DirEntry>, k: nat)
    requires k < |es| && DistinctNames(es[..k]) && !Named(es[..k], es[k].name)
    ensures DistinctNames(es[..k + 1])
  {
    assert forall i :: 0 <= i < k ==> es[..k][i] == es[i];
  }

  lemma {:induction false} StepOnce(fs: Fs, reached: set<nat>, seen: Progress, c: nat)
    requires SeenOnce(fs, seen) && SeenOk(fs, reached, seen) && c in seen && seen[c] < |Entries(fs, c)|
    requires Entries(fs, c)[seen[c]].inode !in reached
    ensures SeenOnce(fs, seen[c := seen[c] + 1])
  {
    hide Entries, EntryOk;
    var k := seen[c];
    var seen' := seen[c := k + 1];
    forall d: nat, i: nat ensures Seen(fs, seen', d, i) <==> Seen(fs, seen, d, i) || (d == c && i == k) {}
  }

  lemma {:induction false} StepReferred(fs: Fs, reached: set<nat>, seen: Progress, c: nat)
    requires AllReferred(fs, reached, seen) && c in seen && seen[c] < |Entries(fs, c)|
    ensures AllReferred(fs, reached + {Entries(fs, c)[seen[c]].inode}, seen[c := seen[c] + 1])
  {
    hide Entries;
    var k := seen[c];
    var seen' := seen[c := k + 1];
    forall d: nat, i: nat | Seen(fs, seen, d, i) ensures Seen(fs, seen', d, i) {}
    SameReferred(fs, reached, seen, seen');
    assert SeenAt(fs, seen', c, k, Entries(fs, c)[k].inode);
  }

  lemma {:induction false} StepLeast(fs: Fs, reached: set<nat>, c: nat, k: nat)
    requires Least(fs, reached) && c in reached && k < |Entries(fs, c)|
    ensures Least(fs, reached + {Entries(fs, c)[k].inode})
  {
  }

  /** All of it reached and looked through: the graph is a tree. */
  lemma {:induction false} ExploredTree(fs: Fs, reached: set<nat>, seen: Progress)
    requires Explored(fs, reached, seen) && Complete(fs, reached, seen) && fs.Keys <= reached && fs[ROOT].Dir?
    ensures Tree(fs)
  {
    forall d: nat, i: nat | d in fs && 0 <= i < |Entries(fs, d)| ensures Seen(fs, seen, d, i) {}
    ExploredEntries(fs, reached, seen);
    forall d, i, e, j | 0 <= i < |Entries(fs, d)| && 0 <= j < |Entries(fs, e)|
      && Entries(fs, d)[i].inode == Entries(fs, e)[j].inode
      ensures d == e && i == j
    {
      assert Seen(fs, seen, d, i) && Seen(fs, seen, e, j);
    }
    forall n <- fs ensures Reach(fs, ROOT, n) {}
  }

  lemma {:induction false} ExploredEntries(fs: Fs, reached: set<nat>, seen: Progress)
    requires Explored(fs, reached, seen)
    requires forall d: nat, i: nat :: d in fs && 0 <= i < |Entries(fs, d)| ==> Seen(fs, seen, d, i)
    ensures EntriesOk(fs) && NamesOk(fs)
  {
    forall d, i | d in fs && 0 <= i < |Entries(fs, d)| ensures EntryOk(fs, Entries(fs, d)[i]) {
      assert Seen(fs, seen, d, i);
    }
    forall d <- fs ensures DistinctNames(Entries(fs, d)) {
      if Entries(fs, d) != [] {
        assert Seen(fs, seen, d, |Entries(fs, d)| - 1);
        assert Entries(fs, d)[..seen[d]] == Entries(fs, d);
      }
    }
  }

  // ---------- why a failed check means there is no tree ----------

  /** A bad entry, a name used twice, or an inode reached twice. */
  lemma {:induction false} StepRefutes(fs: Fs, reached: set<nat>, seen: Progress, c: nat)
    requires Explored(fs, reached, seen) && c in seen && seen[c] < |Entries(fs, c)|
    requires var e := Entries(fs, c)[seen[c]];
      !EntryOk(fs, e) || e.inode in reached || Named(Entries(fs, c)[..seen[c]], e.name)
    ensures !Tree(fs)
  {
    var es, k := Entries(fs, c), seen[c];
    var e := es[k];
    if !EntryOk(fs, e) {
      assert !EntriesOk(fs);
    } else if e.inode in reached {
      assert Referred(fs, seen, e.inode);
      var d: nat, i: nat :| SeenAt(fs, seen, d, i, e.inode);
      assert !(d == c && i == k);
      assert !SingleRefs(fs);
    } else {
      var i :| 0 <= i < |es[..k]| && es[..k][i].name == e.name;
      assert es[i].name == es[k].name;
      assert !NamesOk(fs);
    }
  }

  /** Everything reachable has been reached, yet something is left over. */
  lemma {:induction false} LeftoverRefutes(fs: Fs, reached: set<nat>, seen: Progress, n: nat)
    requires Explored(fs, reached, seen) && Complete(fs, reached, seen) && n in fs && n !in reached
    ensures !Tree(fs)
  {
    forall d, i | d in reached && 0 <= i < |Entries(fs, d)| ensures Entries(fs, d)[i].inode in reached {
      assert Seen(fs, seen, d, i);
    }
    assert Closed(fs, reached);
    assert !Reach(fs, ROOT, n);
  }
}
