/**
  The directory graph of a NexFS volume, as a map from inode number to node, and
  what the five mutations do to it: the graph stays a tree, and at the level of
  paths each mutation changes exactly what its name says.
 */
module NexTree {
  import opened Bytes
  import opened NexLayout

  datatype Node = File(bytes: seq<byte>) | Dir(entries: seq<DirEntry>) {
    function Kind(): FileType {
      if File? then Regular else Directory
    }
  }

  type Fs = map<nat, Node>

  function Entries(fs: Fs, d: nat): seq<DirEntry> {
    if d in fs && fs[d].Dir? then fs[d].entries else []
  }

  predicate Named(entries: seq<DirEntry>, name: Name) {
    exists i :: 0 <= i < |entries| && entries[i].name == name
  }

  predicate DistinctNames(entries: seq<DirEntry>) {
    forall i, j :: 0 <= i < j < |entries| ==> entries[i].name != entries[j].name
  }

  /** A set of inodes that no directory entry leads out of. */
  ghost predicate Closed(fs: Fs, s: set<nat>) {
    forall d, i :: d in s && 0 <= i < |Entries(fs, d)| ==> Entries(fs, d)[i].inode in s
  }

  /** Some chain of directory entries leads from `a` to `b`. */
  ghost predicate Reach(fs: Fs, a: nat, b: nat) {
    forall s: set<nat> :: Closed(fs, s) && a in s ==> b in s
  }

  predicate EntryOk(fs: Fs, e: DirEntry) {
    e.inode != ROOT && e.inode in fs && fs[e.inode].Kind() == e.kind
  }

  predicate EntriesOk(fs: Fs) {
    forall d <- fs :: forall i :: 0 <= i < |Entries(fs, d)| ==> EntryOk(fs, Entries(fs, d)[i])
  }

  predicate NamesOk(fs: Fs) {
    forall d <- fs :: DistinctNames(Entries(fs, d))
  }

  /** No inode is referred to by two directory entries. */
  ghost predicate SingleRefs(fs: Fs) {
    forall d, i, e, j ::
      (&& 0 <= i < |Entries(fs, d)| && 0 <= j < |Entries(fs, e)|
       && Entries(fs, d)[i].inode == Entries(fs, e)[j].inode) ==> d == e && i == j
  }

  ghost predicate Connected(fs: Fs) {
    forall n <- fs :: Reach(fs, ROOT, n)
  }

  /** What `check_detailed` demands of the directory graph. */
  ghost predicate Tree(fs: Fs) {
    && ROOT in fs && fs[ROOT].Dir?
    && EntriesOk(fs) && NamesOk(fs) && SingleRefs(fs) && Connected(fs)
  }

  // ---------- the mutations ----------

  /** `Vec::swap_remove`. */
  function SwapRemove(es: seq<DirEntry>, i: nat): (r: seq<DirEntry>)
    requires i < |es|
    ensures |r| == |es| - 1
    ensures forall k :: 0 <= k < |r| ==> r[k] == if k == i then es[|es| - 1] else es[k]
  {
    var last := |es| - 1;
    es[i := es[last]][..last]
  }

  function SetFile(fs: Fs, n: nat, bytes: seq<byte>): Fs {
    fs[n := File(bytes)]
  }

  function EmptyNode(kind: FileType): Node {
    if kind.Regular? then File([]) else Dir([])
  }

  function Create(fs: Fs, d: nat, name: Name, kind: FileType, n: u64): Fs {
    fs[n := EmptyNode(kind)][d := Dir(Entries(fs, d) + [DirEntry(n, kind, name)])]
  }

  function Remove(fs: Fs, d: nat, i: nat): Fs
    requires i < |Entries(fs, d)|
  {
    fs[d := Dir(SwapRemove(Entries(fs, d), i))] - {Entries(fs, d)[i].inode}
  }

  function Rename(fs: Fs, a: nat, i: nat, b: nat, name: Name): Fs
    requires i < |Entries(fs, a)|
  {
    var e := Entries(fs, a)[i].(name := name);
    if a == b then fs[a := Dir(Entries(fs, a)[i := e])]
    else fs[b := Dir(Entries(fs, b) + [e])][a := Dir(SwapRemove(Entries(fs, a), i))]
  }

  // ---------- every mutation keeps the tree ----------

  lemma {:induction false} SetFileKeepsTree(fs: Fs, n: nat, bytes: seq<byte>)
    requires Tree(fs) && n in fs && fs[n].File?
    ensures Tree(SetFile(fs, n, bytes))
  {
    var fs' := SetFile(fs, n, bytes);
    assert forall d :: Entries(fs', d) == Entries(fs, d);
    SameEntries(fs, fs');
  }

  lemma {:induction false} SameEntries(fs: Fs, fs': Fs)
    requires Tree(fs) && fs'.Keys == fs.Keys && (forall d :: Entries(fs', d) == Entries(fs, d))
    requires forall n <- fs :: fs'[n].Kind() == fs[n].Kind()
    ensures Tree(fs')
  {
    hide Entries;
    forall d, i | d in fs' && 0 <= i < |Entries(fs', d)| ensures EntryOk(fs', Entries(fs', d)[i]) {
      assert EntryOk(fs, Entries(fs, d)[i]);
    }
    forall m, s | m in fs' && Closed(fs', s) && ROOT in s ensures m in s {
      assert Closed(fs, s) && Reach(fs, ROOT, m);
    }
  }

  lemma {:induction false} CreateKeepsTree(fs: Fs, d: nat, name: Name, kind: FileType, n: u64)
    requires Tree(fs) && d in fs && fs[d].Dir? && !Named(Entries(fs, d), name) && n !in fs
    ensures Tree(Create(fs, d, name, kind, n))
  {
    CreateEntriesOk(fs, d, name, kind, n);
    CreateSingleRefs(fs, d, name, kind, n);
    CreateConnected(fs, d, name, kind, n);
  }

  lemma {:induction false} CreateEntriesOk(fs: Fs, d: nat, name: Name, kind: FileType, n: u64)
    requires EntriesOk(fs) && NamesOk(fs) && d in fs && fs[d].Dir? && n !in fs && ROOT in fs
    requires !Named(Entries(fs, d), name)
    ensures EntriesOk(Create(fs, d, name, kind, n)) && NamesOk(Create(fs, d, name, kind, n))
  {
    var fs' := Create(fs, d, name, kind, n);
    forall e, k | e in fs' && 0 <= k < |Entries(fs', e)| ensures EntryOk(fs', Entries(fs', e)[k]) {
      if !(e == d && k == |Entries(fs, d)|) {
        assert Entries(fs', e)[k] == Entries(fs, e)[k];
        assert EntryOk(fs, Entries(fs, e)[k]);
      }
    }
    forall e <- fs' ensures DistinctNames(Entries(fs', e)) {
      if e in fs {
        assert DistinctNames(Entries(fs, e));
      }
    }
  }

  lemma {:induction false} CreateSingleRefs(fs: Fs, d: nat, name: Name, kind: FileType, n: u64)
    requires EntriesOk(fs) && SingleRefs(fs) && d in fs && fs[d].Dir? && n !in fs
    ensures SingleRefs(Create(fs, d, name, kind, n))
  {
    var fs' := Create(fs, d, name, kind, n);
    forall e, k | 0 <= k < |Entries(fs', e)|
      ensures if e == d && k == |Entries(fs, d)| then Entries(fs', e)[k].inode == n
        else k < |Entries(fs, e)| && Entries(fs', e)[k] == Entries(fs, e)[k] && Entries(fs', e)[k].inode != n
    {
      if !(e == d && k == |Entries(fs, d)|) {
        assert EntryOk(fs, Entries(fs, e)[k]);
      }
    }
  }

  lemma {:induction false} CreateConnected(fs: Fs, d: nat, name: Name, kind: FileType, n: u64)
    requires Connected(fs) && d in fs && fs[d].Dir? && n !in fs
    ensures Connected(Create(fs, d, name, kind, n))
  {
    var fs' := Create(fs, d, name, kind, n);
    forall m, s | m in fs' && Closed(fs', s) && ROOT in s ensures m in s {
      forall e, i | e in s && 0 <= i < |Entries(fs, e)| ensures Entries(fs, e)[i].inode in s {
        assert Entries(fs', e)[i] == Entries(fs, e)[i];
      }
      assert Reach(fs, ROOT, d) && (m in fs ==> Reach(fs, ROOT, m));
      assert Entries(fs', d)[|Entries(fs, d)|].inode == n;
    }
  }

  lemma {:induction false} RemoveKeepsTree(fs: Fs, d: nat, i: nat)
    requires Tree(fs) && i < |Entries(fs, d)| && Entries(fs, Entries(fs, d)[i].inode) == []
    ensures Tree(Remove(fs, d, i))
  {
    var t := Entries(fs, d)[i].inode;
    assert EntryOk(fs, Entries(fs, d)[i]);
    RemoveEntriesOk(fs, d, i);
    RemoveNames(fs, d, i);
    RemoveSingleRefs(fs, d, i);
    forall m, s | m in Remove(fs, d, i) && Closed(Remove(fs, d, i), s) && ROOT in s ensures m in s {
      RemovedClosed(fs, d, i, s);
      assert Reach(fs, ROOT, m);
    }
  }

  /** Which entry of the old directory the `k`-th entry of `e` is after the removal. */
  function RemovedFrom(fs: Fs, d: nat, i: nat, e: nat, k: nat): (k': nat)
    requires i < |Entries(fs, d)| && k < |Entries(Remove(fs, d, i), e)|
    ensures k' < |Entries(fs, e)| && Entries(Remove(fs, d, i), e)[k] == Entries(fs, e)[k']
    ensures e == d ==> k' != i
  {
    if e == d && k == i then |Entries(fs, d)| - 1 else k
  }

  lemma {:induction false} RemoveEntriesOk(fs: Fs, d: nat, i: nat)
    requires EntriesOk(fs) && SingleRefs(fs) && i < |Entries(fs, d)|
    ensures EntriesOk(Remove(fs, d, i))
  {
    var fs', t := Remove(fs, d, i), Entries(fs, d)[i].inode;
    forall e, k | e in fs' && 0 <= k < |Entries(fs', e)| ensures EntryOk(fs', Entries(fs', e)[k]) {
      var k' := RemovedFrom(fs, d, i, e, k);
      assert EntryOk(fs, Entries(fs, e)[k']);
      assert Entries(fs, e)[k'].inode != t;
    }
  }

  lemma {:induction false} RemoveNames(fs: Fs, d: nat, i: nat)
    requires NamesOk(fs) && i < |Entries(fs, d)|
    ensures NamesOk(Remove(fs, d, i))
  {
    var fs' := Remove(fs, d, i);
    forall e <- fs' ensures DistinctNames(Entries(fs', e)) {
      assert DistinctNames(Entries(fs, e));
    }
  }

  lemma {:induction false} RemoveSingleRefs(fs: Fs, d: nat, i: nat)
    requires SingleRefs(fs) && i < |Entries(fs, d)|
    ensures SingleRefs(Remove(fs, d, i))
  {
    var fs' := Remove(fs, d, i);
    forall e, k, f, j | 0 <= k < |Entries(fs', e)| && 0 <= j < |Entries(fs', f)|
      && Entries(fs', e)[k].inode == Entries(fs', f)[j].inode
      ensures e == f && k == j
    {
      var k', j' := RemovedFrom(fs, d, i, e, k), RemovedFrom(fs, d, i, f, j);
      assert Entries(fs, e)[k'].inode == Entries(fs, f)[j'].inode;
    }
  }

  lemma {:induction false} RemovedClosed(fs: Fs, d: nat, i: nat, s: set<nat>)
    requires i < |Entries(fs, d)| && Entries(fs, Entries(fs, d)[i].inode) == []
    requires Closed(Remove(fs, d, i), s)
    ensures Closed(fs, s + {Entries(fs, d)[i].inode})
  {
    var fs' := Remove(fs, d, i);
    var es, t := Entries(fs, d), Entries(fs, d)[i].inode;
    forall e, k | e in s + {t} && 0 <= k < |Entries(fs, e)| ensures Entries(fs, e)[k].inode in s + {t} {
      if e == d {
        if k == |es| - 1 && k != i {
          assert Entries(fs', d)[i] == es[k];
        } else if k != i {
          assert Entries(fs', d)[k] == es[k];
        }
      } else {
        assert Entries(fs', e) == Entries(fs, e);
      }
    }
  }

  /** Everything below `x`: the smallest closed set that holds it. */
  ghost function Subtree(fs: Fs, x: nat): set<nat> {
    set m <- fs | Reach(fs, x, m)
  }

  lemma SubtreeClosed(fs: Fs, x: nat)
    requires EntriesOk(fs)
    ensures Closed(fs, Subtree(fs, x))
  {
  }

  lemma {:induction false} RenameKeepsTree(fs: Fs, a: nat, i: nat, b: nat, name: Name)
    requires Tree(fs) && i < |Entries(fs, a)| && b in fs && fs[b].Dir?
    requires !Named(Entries(fs, b), name)
    requires !Reach(fs, Entries(fs, a)[i].inode, b)
    ensures Tree(Rename(fs, a, i, b, name))
  {
    RenameSingleRefs(fs, a, i, b, name);
    RenameEntriesOk(fs, a, i, b, name);
    RenameNames(fs, a, i, b, name);
    forall m, s | m in Rename(fs, a, i, b, name) && Closed(Rename(fs, a, i, b, name), s) && ROOT in s ensures m in s {
      RenameConnected(fs, a, i, b, name, s);
    }
  }

  lemma {:induction false} RenameEntriesOk(fs: Fs, a: nat, i: nat, b: nat, name: Name)
    requires EntriesOk(fs) && i < |Entries(fs, a)| && b in fs && fs[b].Dir?
    ensures EntriesOk(Rename(fs, a, i, b, name))
  {
    var fs' := Rename(fs, a, i, b, name);
    forall e, k | e in fs' && 0 <= k < |Entries(fs', e)| ensures EntryOk(fs', Entries(fs', e)[k]) {
      var (e', k') := RenamedFrom(fs, a, i, b, name, e, k);
      assert EntryOk(fs, Entries(fs, e')[k']);
    }
  }

  lemma {:induction false} RenameNames(fs: Fs, a: nat, i: nat, b: nat, name: Name)
    requires NamesOk(fs) && i < |Entries(fs, a)| && b in fs && fs[b].Dir? && !Named(Entries(fs, b), name)
    ensures NamesOk(Rename(fs, a, i, b, name))
  {
    var fs' := Rename(fs, a, i, b, name);
    forall e <- fs' ensures DistinctNames(Entries(fs', e)) {
      assert DistinctNames(Entries(fs, e));
    }
  }

  /** Which entry of the old graph the `k`-th entry of `e` in the new one was. */
  function RenamedFrom(fs: Fs, a: nat, i: nat, b: nat, name: Name, e: nat, k: nat): (r: (nat, nat))
    requires i < |Entries(fs, a)| && b in fs && fs[b].Dir?
    requires k < |Entries(Rename(fs, a, i, b, name), e)|
    ensures r.1 < |Entries(fs, r.0)|
    ensures Entries(Rename(fs, a, i, b, name), e)[k].inode == Entries(fs, r.0)[r.1].inode
    ensures Entries(Rename(fs, a, i, b, name), e)[k].kind == Entries(fs, r.0)[r.1].kind
  {
    if a == b then (e, k)
    else if e == a && k == i then (a, |Entries(fs, a)| - 1)
    else if e == b && k == |Entries(fs, b)| then (a, i)
    else (e, k)
  }

  lemma {:induction false} RenameSingleRefs(fs: Fs, a: nat, i: nat, b: nat, name: Name)
    requires SingleRefs(fs) && i < |Entries(fs, a)| && b in fs && fs[b].Dir?
    ensures SingleRefs(Rename(fs, a, i, b, name))
  {
    var fs' := Rename(fs, a, i, b, name);
    forall d, k, e, j | 0 <= k < |Entries(fs', d)| && 0 <= j < |Entries(fs', e)|
      && Entries(fs', d)[k].inode == Entries(fs', e)[j].inode
      ensures d == e && k == j
    {
      assert RenamedFrom(fs, a, i, b, name, d, k) == RenamedFrom(fs, a, i, b, name, e, j);
    }
  }

  lemma {:induction false} RenameConnected(fs: Fs, a: nat, i: nat, b: nat, name: Name, s: set<nat>)
    requires Tree(fs) && i < |Entries(fs, a)| && b in fs && fs[b].Dir?
    requires !Reach(fs, Entries(fs, a)[i].inode, b)
    requires Closed(Rename(fs, a, i, b, name), s) && ROOT in s
    ensures fs.Keys <= s
  {
    var fs' := Rename(fs, a, i, b, name);
    var x := Entries(fs, a)[i].inode;
    var sub := Subtree(fs, x);
    SubtreeClosed(fs, x);
    assert x in sub;
    assert forall d, k :: d in s && 0 <= k < |Entries(fs, d)| ==> Entries(fs, d)[k].inode in s + {x} by {
      forall d, k | d in s && 0 <= k < |Entries(fs, d)| ensures Entries(fs, d)[k].inode in s + {x} {
        RenameKeepsOtherEdges(fs, a, i, b, name, d, k);
      }
    }
    assert Closed(fs, s + sub);
    assert Reach(fs, ROOT, b);
    assert b in s;
    assert x in s by {
      var k := if a == b then i else |Entries(fs, b)|;
      assert Entries(fs', b)[k].inode == x;
    }
    assert Closed(fs, s);
    forall m <- fs ensures m in s {
      assert Reach(fs, ROOT, m);
    }
  }

  lemma {:induction false} RenameKeepsOtherEdges(fs: Fs, a: nat, i: nat, b: nat, name: Name, d: nat, k: nat)
    requires i < |Entries(fs, a)| && b in fs && fs[b].Dir? && k < |Entries(fs, d)|
    ensures Entries(fs, d)[k].inode == Entries(fs, a)[i].inode
      || exists j :: 0 <= j < |Entries(Rename(fs, a, i, b, name), d)|
           && Entries(Rename(fs, a, i, b, name), d)[j].inode == Entries(fs, d)[k].inode
  {
    var fs' := Rename(fs, a, i, b, name);
    if a != b && d == a && k == |Entries(fs, a)| - 1 && k != i {
      assert Entries(fs', a)[i].inode == Entries(fs, a)[k].inode;
    } else if !(d == a && k == i) {
      assert Entries(fs', d)[k].inode == Entries(fs, d)[k].inode;
    }
  }

  // ---------- paths ----------

  type Path = seq<Name>

  /** The inode an entry of that name leads to. */
  function Step(entries: seq<DirEntry>, name: Name): Option<nat> {
    if entries == [] then None
    else if entries[0].name == name then Some(entries[0].inode)
    else Step(entries[1..], name)
  }

  lemma {:induction false} StepFinds(entries: seq<DirEntry>, i: nat)
    requires i < |entries| && DistinctNames(entries)
    ensures Step(entries, entries[i].name) == Some(entries[i].inode)
  {
    if i > 0 {
      StepFinds(entries[1..], i - 1);
    }
  }

  lemma {:induction false} StepFrom(entries: seq<DirEntry>, name: Name) returns (i: nat)
    ensures Step(entries, name).None? ==> !Named(entries, name)
    ensures Step(entries, name).Some? ==>
      i < |entries| && entries[i].name == name && entries[i].inode == Step(entries, name).value
  {
    i := 0;
    if entries != [] && entries[0].name != name {
      i := StepFrom(entries[1..], name);
      i := i + 1;
      assert forall k :: 1 <= k < |entries| ==> entries[k] == entries[1..][k - 1];
    }
  }

  /** Equal sets of (name, inode) pairs step alike. */
  lemma {:induction false} StepSame(es: seq<DirEntry>, fs: seq<DirEntry>, name: Name)
    requires DistinctNames(es) && DistinctNames(fs)
    requires forall i :: 0 <= i < |es| && es[i].name == name ==>
      exists j :: 0 <= j < |fs| && fs[j].name == name && fs[j].inode == es[i].inode
    requires forall i :: 0 <= i < |fs| && fs[i].name == name ==> Named(es, name)
    ensures Step(es, name) == Step(fs, name)
  {
    var i := StepFrom(es, name);
    var k := StepFrom(fs, name);
    if Step(es, name).Some? {
      var j :| 0 <= j < |fs| && fs[j].name == name && fs[j].inode == es[i].inode;
      StepFinds(fs, j);
    }
  }

  lemma TreeStep(fs: Fs, d: nat, i: nat)
    requires Tree(fs) && i < |Entries(fs, d)|
    ensures Step(Entries(fs, d), Entries(fs, d)[i].name) == Some(Entries(fs, d)[i].inode)
    ensures DistinctNames(Entries(fs, d))
  {
    StepFinds(Entries(fs, d), i);
  }

  lemma TreeSingleRef(fs: Fs, d: nat, i: nat, e: nat, j: nat)
    requires Tree(fs) && i < |Entries(fs, d)| && j < |Entries(fs, e)|
    requires Entries(fs, d)[i].inode == Entries(fs, e)[j].inode
    ensures d == e && i == j
  {
  }

  function Lookup(fs: Fs, p: Path): Option<nat> {
    if p == [] then Some(ROOT)
    else
      match Lookup(fs, p[..|p| - 1])
      case None => None
      case Some(d) => Step(Entries(fs, d), p[|p| - 1])
  }

  /** What a path names, without inode numbers. */
  datatype Object = FileObject(bytes: seq<byte>) | DirObject

  function At(fs: Fs, p: Path): Option<Object> {
    match Lookup(fs, p)
    case None => None
    case Some(n) => if n !in fs then None else if fs[n].File? then Some(FileObject(fs[n].bytes)) else Some(DirObject)
  }

  lemma {:induction false} LookupInFs(fs: Fs, p: Path)
    requires Tree(fs)
    ensures Lookup(fs, p).Some? ==> Lookup(fs, p).value in fs
    ensures p != [] && Lookup(fs, p).Some? ==> Lookup(fs, p).value != ROOT
  {
    if p != [] && Lookup(fs, p).Some? {
      var d := Lookup(fs, p[..|p| - 1]).value;
      var i := StepFrom(Entries(fs, d), p[|p| - 1]);
      assert EntryOk(fs, Entries(fs, d)[i]);
    }
  }

  /** In a tree, two paths never name the same inode. */
  lemma {:induction false} LookupInjective(fs: Fs, p: Path, q: Path)
    requires Tree(fs) && Lookup(fs, p).Some? && Lookup(fs, p) == Lookup(fs, q)
    ensures p == q
  {
    hide Tree;
    LookupInFs(fs, p);
    LookupInFs(fs, q);
    if p != [] && q != [] {
      var d, e := Lookup(fs, p[..|p| - 1]).value, Lookup(fs, q[..|q| - 1]).value;
      var i := StepFrom(Entries(fs, d), p[|p| - 1]);
      var j := StepFrom(Entries(fs, e), q[|q| - 1]);
      TreeSingleRef(fs, d, i, e, j);
      LookupInjective(fs, p[..|p| - 1], q[..|q| - 1]);
      assert p == p[..|p| - 1] + [p[|p| - 1]] && q == q[..|q| - 1] + [q[|q| - 1]];
    }
  }

  lemma {:induction false} LookupSnoc(fs: Fs, p: Path, name: Name)
    ensures Lookup(fs, p + [name]) ==
      match Lookup(fs, p) case None => None case Some(d) => Step(Entries(fs, d), name)
  {
    assert (p + [name])[..|p|] == p;
  }

  ghost predicate HasPath(fs: Fs, n: nat) {
    exists p :: Lookup(fs, p) == Some(n)
  }

  /** In a tree every inode has a path (exactly one, by `LookupInjective`). */
  lemma {:induction false} EveryInodeHasPath(fs: Fs, n: nat)
    requires Tree(fs) && n in fs
    ensures HasPath(fs, n)
  {
    var s := set m <- fs | HasPath(fs, m);
    assert Lookup(fs, []) == Some(ROOT);
    forall d, i | d in s && 0 <= i < |Entries(fs, d)| ensures Entries(fs, d)[i].inode in s {
      var p :| Lookup(fs, p) == Some(d);
      var e := Entries(fs, d)[i];
      LookupSnoc(fs, p, e.name);
      StepFinds(Entries(fs, d), i);
      assert EntryOk(fs, e);
    }
    assert Closed(fs, s) && Reach(fs, ROOT, n);
  }

  lemma {:induction false} LookupPrefix(fs: Fs, p: Path, q: Path)
    requires p <= q && Lookup(fs, q).Some?
    ensures Lookup(fs, p).Some?
  {
    if p != q {
      LookupPrefix(fs, p, q[..|q| - 1]);
    }
  }

  /** Whatever a longer path names lies below what the shorter one names. */
  lemma {:induction false} LookupReach(fs: Fs, p: Path, q: Path)
    requires p <= q && Lookup(fs, q).Some?
    ensures Lookup(fs, p).Some? && Reach(fs, Lookup(fs, p).value, Lookup(fs, q).value)
  {
    LookupPrefix(fs, p, q);
    if p != q {
      var q' := q[..|q| - 1];
      LookupReach(fs, p, q');
      var d := Lookup(fs, q').value;
      var i := StepFrom(Entries(fs, d), q[|q| - 1]);
    }
  }

  // ---------- what each mutation does to the paths ----------

  /** Rewriting a file changes that path and no other. */
  lemma {:induction false} SetFileAtPath(fs: Fs, target: Path, bytes: seq<byte>, p: Path)
    requires Tree(fs) && Lookup(fs, target).Some?
    requires var n := Lookup(fs, target).value; n in fs && fs[n].File?
    ensures var n := Lookup(fs, target).value;
      At(SetFile(fs, n, bytes), p) == if p == target then Some(FileObject(bytes)) else At(fs, p)
  {
    hide Tree, Lookup;
    var n := Lookup(fs, target).value;
    SameLookup(fs, SetFile(fs, n, bytes), p);
    if p != target && Lookup(fs, p) == Some(n) {
      LookupInjective(fs, p, target);
    }
  }

  lemma {:induction false} SameLookup(fs: Fs, fs': Fs, p: Path)
    requires forall d :: Entries(fs', d) == Entries(fs, d)
    ensures Lookup(fs', p) == Lookup(fs, p)
  {
    if p != [] {
      SameLookup(fs, fs', p[..|p| - 1]);
    }
  }

  lemma {:induction false} CreateLookup(fs: Fs, parent: Path, name: Name, kind: FileType, n: u64, p: Path)
    requires Tree(fs) && Lookup(fs, parent).Some? && n !in fs
    requires var d := Lookup(fs, parent).value; d in fs && fs[d].Dir? && !Named(Entries(fs, d), name)
    ensures Lookup(Create(fs, Lookup(fs, parent).value, name, kind, n), p)
      == if p == parent + [name] then Some(n) else Lookup(fs, p)
  {
    hide Tree;
    var d := Lookup(fs, parent).value;
    var fs' := Create(fs, d, name, kind, n);
    var i := StepFrom(Entries(fs, d), name);
    LookupSnoc(fs, parent, name);
    CreateKeepsTree(fs, d, name, kind, n);
    if p != [] {
      var q, x := p[..|p| - 1], p[|p| - 1];
      assert p == q + [x];
      CreateLookup(fs, parent, name, kind, n, q);
      if q == parent + [name] {
        assert Entries(fs', n) == [];
      } else if Lookup(fs, q).Some? {
        var e := Lookup(fs, q).value;
        LookupInFs(fs, q);
        if e == d {
          LookupInjective(fs, q, parent);
          StepAppend(Entries(fs, d), DirEntry(n, kind, name), x);
        } else {
          assert Entries(fs', e) == Entries(fs, e);
        }
      }
    }
  }

  lemma {:induction false} StepAppend(es: seq<DirEntry>, e: DirEntry, name: Name)
    ensures Step(es + [e], name) ==
      if Step(es, name).Some? then Step(es, name) else if e.name == name then Some(e.inode) else None
  {
    if es != [] {
      StepAppend(es[1..], e, name);
      assert (es + [e])[1..] == es[1..] + [e];
    } else {
      assert (es + [e])[1..] == [];
    }
  }

  /** Creating makes the new path an empty object and leaves every other path alone. */
  lemma {:induction false} CreateAtPath(fs: Fs, parent: Path, name: Name, kind: FileType, n: u64, p: Path)
    requires Tree(fs) && Lookup(fs, parent).Some? && n !in fs
    requires var d := Lookup(fs, parent).value; d in fs && fs[d].Dir? && !Named(Entries(fs, d), name)
    ensures At(Create(fs, Lookup(fs, parent).value, name, kind, n), p)
      == if p == parent + [name] then Some(if kind.Regular? then FileObject([]) else DirObject) else At(fs, p)
  {
    hide Tree, Lookup;
    CreateLookup(fs, parent, name, kind, n, p);
    LookupInFs(fs, p);
  }

  lemma {:induction false} StepSwapRemove(es: seq<DirEntry>, i: nat, name: Name)
    requires i < |es| && DistinctNames(es)
    ensures Step(SwapRemove(es, i), name) == if name == es[i].name then None else Step(es, name)
  {
    var r := SwapRemove(es, i);
    var k := StepFrom(r, name);
    if name != es[i].name {
      forall j | 0 <= j < |es| && es[j].name == name
        ensures exists j' :: 0 <= j' < |r| && r[j'].name == name && r[j'].inode == es[j].inode
      {
        assert r[if j == |es| - 1 then i else j] == es[j];
      }
      StepSame(es, r, name);
    }
  }

  /** One directory step after the removal. */
  lemma {:induction false} RemoveStep(fs: Fs, d: nat, i: nat, e: nat, x: Name)
    requires Tree(fs) && i < |Entries(fs, d)| && Entries(fs, Entries(fs, d)[i].inode) == []
    ensures Step(Entries(Remove(fs, d, i), e), x) ==
      if e == d && x == Entries(fs, d)[i].name then None else Step(Entries(fs, e), x)
  {
    hide Tree, Step;
    var es := Entries(fs, d);
    TreeStep(fs, d, i);
    if e == d {
      StepSwapRemove(es, i, x);
    } else if e == es[i].inode {
      assert Entries(Remove(fs, d, i), e) == [];
    } else {
      assert Entries(Remove(fs, d, i), e) == Entries(fs, e);
    }
  }

  lemma {:induction false} RemoveLookup(fs: Fs, parent: Path, i: nat, p: Path)
    requires Tree(fs) && Lookup(fs, parent).Some?
    requires var d := Lookup(fs, parent).value; i < |Entries(fs, d)| && Entries(fs, Entries(fs, d)[i].inode) == []
    ensures var d := Lookup(fs, parent).value;
      Lookup(Remove(fs, d, i), p) == if p == parent + [Entries(fs, d)[i].name] then None else Lookup(fs, p)
  {
    hide Tree, Lookup, Remove, Step, Entries;
    var d := Lookup(fs, parent).value;
    var name := Entries(fs, d)[i].name;
    var fs' := Remove(fs, d, i);
    if p == [] {
      LookupNothing(fs);
      LookupNothing(fs');
    } else {
      var q, x := p[..|p| - 1], p[|p| - 1];
      assert p == q + [x];
      RemoveLookup(fs, parent, i, q);
      LookupSnoc(fs, q, x);
      LookupSnoc(fs', q, x);
      if Lookup(fs', q).Some? {
        var e := Lookup(fs, q).value;
        RemoveStep(fs, d, i, e, x);
        if e == d {
          LookupInjective(fs, q, parent);
        }
      } else if Lookup(fs, q).Some? {
        RemovedBelow(fs, parent, i, x);
      }
    }
  }

  lemma LookupNothing(fs: Fs)
    ensures Lookup(fs, []) == Some(ROOT)
  {
  }

  /** Nothing lies below what is removed. */
  lemma RemovedBelow(fs: Fs, parent: Path, i: nat, x: Name)
    requires Tree(fs) && Lookup(fs, parent).Some?
    requires var d := Lookup(fs, parent).value; i < |Entries(fs, d)| && Entries(fs, Entries(fs, d)[i].inode) == []
    ensures Lookup(fs, parent + [Entries(fs, Lookup(fs, parent).value)[i].name] + [x]).None?
  {
    hide Tree, Lookup;
    var d := Lookup(fs, parent).value;
    var name := Entries(fs, d)[i].name;
    TreeStep(fs, d, i);
    LookupSnoc(fs, parent, name);
    LookupSnoc(fs, parent + [name], x);
  }

  /** Removing makes that path vanish and leaves every other path alone. */
  lemma {:induction false} RemoveAtPath(fs: Fs, parent: Path, i: nat, p: Path)
    requires Tree(fs) && Lookup(fs, parent).Some?
    requires var d := Lookup(fs, parent).value; i < |Entries(fs, d)| && Entries(fs, Entries(fs, d)[i].inode) == []
    ensures var d := Lookup(fs, parent).value;
      At(Remove(fs, d, i), p) == if p == parent + [Entries(fs, d)[i].name] then None else At(fs, p)
  {
    hide Tree;
    var d := Lookup(fs, parent).value;
    var name := Entries(fs, d)[i].name;
    RemoveLookup(fs, parent, i, p);
    LookupInFs(fs, p);
    LookupSnoc(fs, parent, name);
    TreeStep(fs, d, i);
    if p != parent + [name] && Lookup(fs, p) == Lookup(fs, parent + [name]) && Lookup(fs, p).Some? {
      LookupInjective(fs, p, parent + [name]);
    }
  }

  /** Where a path leads after a rename, in terms of where paths led before. */
  function Moved(fs: Fs, src: Path, dst: Path, p: Path): Option<nat> {
    if dst <= p then Lookup(fs, src + p[|dst|..])
    else if src <= p then None
    else Lookup(fs, p)
  }

  ghost predicate RenameAllowed(fs: Fs, from: Path, i: nat, to: Path, name: Name) {
    && Tree(fs) && Lookup(fs, from).Some? && Lookup(fs, to).Some?
    && var a, b := Lookup(fs, from).value, Lookup(fs, to).value;
    && i < |Entries(fs, a)| && b in fs && fs[b].Dir?
    && !Named(Entries(fs, b), name) && !Reach(fs, Entries(fs, a)[i].inode, b)
  }

  lemma {:induction false} StepReplaced(es: seq<DirEntry>, i: nat, name: Name, x: Name)
    requires i < |es| && DistinctNames(es) && !Named(es, name)
    ensures Step(es[i := es[i].(name := name)], x)
      == if x == name then Some(es[i].inode) else if x == es[i].name then None else Step(es, x)
  {
    var r := es[i := es[i].(name := name)];
    var k := StepFrom(r, x);
    if x == name {
      StepFinds(r, i);
    } else if x != es[i].name {
      assert forall j :: 0 <= j < |es| && es[j].name == x ==> r[j] == es[j];
      StepSame(es, r, x);
    }
  }

  /** One directory step after the rename. */
  lemma {:induction false} RenameStep(fs: Fs, a: nat, i: nat, b: nat, name: Name, d: nat, x: Name)
    requires Tree(fs) && i < |Entries(fs, a)| && b in fs && fs[b].Dir? && !Named(Entries(fs, b), name)
    ensures Step(Entries(Rename(fs, a, i, b, name), d), x)
      == if d == b && x == name then Some(Entries(fs, a)[i].inode)
         else if d == a && x == Entries(fs, a)[i].name then None
         else Step(Entries(fs, d), x)
  {
    hide Tree;
    var es := Entries(fs, a);
    TreeStep(fs, a, i);
    if a == b {
      StepReplaced(es, i, name, x);
    } else if d == b {
      StepAppend(Entries(fs, b), es[i].(name := name), x);
      var k := StepFrom(Entries(fs, b), name);
    } else if d == a {
      StepSwapRemove(es, i, x);
    }
  }

  lemma RenameRoot(fs: Fs, fs': Fs, src: Path, dst: Path)
    requires src != [] && dst != []
    ensures Lookup(fs', []) == Moved(fs, src, dst, [])
  {
  }

  /** A rename carries the whole subtree from the old path to the new one. */
  lemma {:induction false} RenameLookup(fs: Fs, from: Path, i: nat, to: Path, name: Name, p: Path)
    requires RenameAllowed(fs, from, i, to, name)
    ensures var a, b := Lookup(fs, from).value, Lookup(fs, to).value;
      Lookup(Rename(fs, a, i, b, name), p) == Moved(fs, from + [Entries(fs, a)[i].name], to + [name], p)
  {
    hide Tree, Lookup, Rename, Moved;
    var a, b := Lookup(fs, from).value, Lookup(fs, to).value;
    var src, dst := from + [Entries(fs, a)[i].name], to + [name];
    var fs' := Rename(fs, a, i, b, name);
    if p == [] {
      RenameRoot(fs, fs', src, dst);
    } else {
      var q, x := p[..|p| - 1], p[|p| - 1];
      assert p == q + [x];
      RenameLookup(fs, from, i, to, name, q);
      LookupSnoc(fs', q, x);
      var m := Moved(fs, src, dst, q);
      if m.Some? {
        RenameStep(fs, a, i, b, name, m.value, x);
      }
      RenameLookupStep(fs, from, i, to, name, q, x);
    }
  }

  /** The paths of the old graph agree with one renamed step. */
  lemma {:induction false} RenameLookupStep(fs: Fs, from: Path, i: nat, to: Path, name: Name, q: Path, x: Name)
    requires RenameAllowed(fs, from, i, to, name)
    ensures var a, b := Lookup(fs, from).value, Lookup(fs, to).value;
      var e := Entries(fs, a)[i];
      var src, dst := from + [e.name], to + [name];
      Moved(fs, src, dst, q + [x]) ==
        match Moved(fs, src, dst, q)
        case None => None
        case Some(d) => if d == b && x == name then Some(e.inode) else if d == a && x == e.name then None
                        else Step(Entries(fs, d), x)
  {
    hide Tree, Lookup, Step;
    var a, b := Lookup(fs, from).value, Lookup(fs, to).value;
    var e := Entries(fs, a)[i];
    var src, dst := from + [e.name], to + [name];
    var p := q + [x];
    LookupSnoc(fs, from, e.name);
    TreeStep(fs, a, i);
    DestinationIsNew(fs, from, i, to, name);
    assert p[..|q|] == q && p[|q|] == x;
    assert dst[..|to|] == to && dst[|to|] == name && src[..|from|] == from && src[|from|] == e.name;
    if dst <= q {
      var r := src + q[|dst|..];
      assert src + p[|dst|..] == r + [x];
      LookupSnoc(fs, r, x);
      if Lookup(fs, r) == Some(b) {
        LookupReach(fs, src, r);
      }
      if Lookup(fs, r) == Some(a) {
        LookupInjective(fs, r, from);
      }
    } else if p == dst {
      assert q == to && x == name;
      assert src + p[|dst|..] == src;
      if src <= to {
        LookupReach(fs, src, to);
      }
    } else {
      assert dst <= p <==> dst <= q || dst == p;
      LookupSnoc(fs, q, x);
      if src <= p && !(src <= q) {
        assert src == p && q == from && x == e.name;
        assert !(a == b && x == name);
      } else if !(src <= p) && Lookup(fs, q).Some? {
        if Lookup(fs, q) == Some(a) {
          LookupInjective(fs, q, from);
        }
        if Lookup(fs, q) == Some(b) {
          LookupInjective(fs, q, to);
        }
      }
    }
  }

  lemma {:induction false} DestinationIsNew(fs: Fs, from: Path, i: nat, to: Path, name: Name)
    requires RenameAllowed(fs, from, i, to, name)
    ensures Lookup(fs, to + [name]).None?
    ensures Lookup(fs, from) == Lookup(fs, to) ==> Entries(fs, Lookup(fs, from).value)[i].name != name
  {
    LookupSnoc(fs, to, name);
    var k := StepFrom(Entries(fs, Lookup(fs, to).value), name);
  }

  /** `RenameLookup` with inode numbers taken away. */
  lemma {:induction false} RenameAtPath(fs: Fs, from: Path, i: nat, to: Path, name: Name, p: Path)
    requires RenameAllowed(fs, from, i, to, name)
    ensures var a, b := Lookup(fs, from).value, Lookup(fs, to).value;
      var src, dst := from + [Entries(fs, a)[i].name], to + [name];
      At(Rename(fs, a, i, b, name), p)
        == if dst <= p then At(fs, src + p[|dst|..]) else if src <= p then None else At(fs, p)
  {
    hide Tree;
    RenameLookup(fs, from, i, to, name, p);
  }

  // ---------- searching a subtree ----------

  /** What `directory_contains` knows between two rounds. */
  ghost predicate Searching(fs: Fs, top: nat, target: nat, visited: set<nat>, pending: seq<nat>) {
    && (top in visited || top in pending) && target !in visited && target !in pending
    && (forall x <- pending :: x in fs && fs[x].Dir? && Reach(fs, top, x))
    && visited <= fs.Keys && (forall x <- visited :: Reach(fs, top, x))
    && (forall d <- visited :: ListedBefore(Entries(fs, d), |Entries(fs, d)|, target, visited, pending))
  }

  /** The first `k` entries are not the target, and those that are directories are noted. */
  ghost predicate ListedBefore(es: seq<DirEntry>, k: nat, target: nat, visited: set<nat>, pending: seq<nat>)
    requires k <= |es|
  {
    forall i :: 0 <= i < k ==>
      es[i].inode != target && (es[i].kind.Directory? ==> es[i].inode in visited || es[i].inode in pending)
  }

  lemma {:induction false} ReachEntry(fs: Fs, a: nat, d: nat, i: nat)
    requires Reach(fs, a, d) && i < |Entries(fs, d)|
    ensures Reach(fs, a, Entries(fs, d)[i].inode)
  {
  }

  lemma ReachSelf(fs: Fs, a: nat)
    ensures Reach(fs, a, a)
  {
  }

  /** With nothing pending, what is listed but not visited is a file. */
  lemma {:induction false} LeafBelow(fs: Fs, top: nat, target: nat, visited: set<nat>, d: nat)
    requires EntriesOk(fs) && Searching(fs, top, target, visited, []) && Below(fs, visited, d) && d !in visited
    ensures Entries(fs, d) == []
  {
    var c, k :| c in visited && 0 <= k < |Entries(fs, c)| && Entries(fs, c)[k].inode == d;
    assert EntryOk(fs, Entries(fs, c)[k]);
    assert ListedBefore(Entries(fs, c), |Entries(fs, c)|, target, visited, []);
  }

  /** Nothing left to look at: the target is not below. */
  lemma {:induction false} SearchExhausted(fs: Fs, top: nat, target: nat, visited: set<nat>)
    requires EntriesOk(fs) && top in fs && Searching(fs, top, target, visited, [])
    ensures !Reach(fs, top, target)
  {
    var s := set m <- fs | m in visited || Below(fs, visited, m);
    forall d, i | d in s && 0 <= i < |Entries(fs, d)| ensures Entries(fs, d)[i].inode in s {
      var e := Entries(fs, d)[i];
      assert EntryOk(fs, e);
      if d !in visited {
        LeafBelow(fs, top, target, visited, d);
      }
      assert Below(fs, visited, e.inode);
    }
    assert Closed(fs, s) && top in s;
    forall c <- visited ensures ListedBefore(Entries(fs, c), |Entries(fs, c)|, target, visited, []) {}
    assert target !in s;
  }

  ghost predicate Below(fs: Fs, visited: set<nat>, m: nat) {
    exists c, k :: c in visited && 0 <= k < |Entries(fs, c)| && Entries(fs, c)[k].inode == m
  }

  /** Below a file there is only the file. */
  lemma {:induction false} FileReach(fs: Fs, x: nat, b: nat)
    requires Entries(fs, x) == [] && x != b
    ensures !Reach(fs, x, b)
  {
    assert Closed(fs, {x});
  }
}
