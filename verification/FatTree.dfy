/**
  The files of a FAT32 volume by path, and what replacing one of them means for all
  the others.
 */
module FatTree {
  import opened Bytes
  import opened FatChain
  import opened FatVolume
  import opened FatDir

  type Path = seq<ShortName>

  /** The contents of the clusters, one after the other. */
  function Joined(v: Volume, cs: seq<nat>): (s: seq<byte>)
    decreases |cs|
  {
    if cs == [] then [] else Joined(v, cs[..|cs| - 1]) + Contents(v, cs[|cs| - 1])
  }

  ghost function DirBytes(v: Volume, d: nat): seq<byte>
    requires HasChain(v.fat, d)
  {
    Joined(v, Chain(v.fat, d))
  }

  /** One step of `resolve_directory`. */
  ghost function Enter(v: Volume, d: nat, name: ShortName): Result<nat> {
    if !HasChain(v.fat, d) then Err(CorruptFilesystem)
    else
      var bytes := DirBytes(v, d);
      match Find(bytes, name, 0)
      case None => Err(NotFound)
      case Some(k) =>
        var slot := SlotAt(bytes, k);
        if !IsDirectory(slot) then Err(NotFound)
        else if !ValidCluster(v.fat, ClusterOf(slot)) then Err(CorruptFilesystem)
        else Ok(ClusterOf(slot))
  }

  ghost function Resolve(v: Volume, root: nat, path: Path): Result<nat>
    decreases |path|
  {
    if path == [] then Ok(root)
    else
      match Resolve(v, root, path[..|path| - 1])
      case Err(e) => Err(e)
      case Ok(d) => Enter(v, d, path[|path| - 1])
  }

  /** What reading the file behind a slot gives. */
  ghost function ReadSlot(v: Volume, slot: Slot): Result<seq<byte>> {
    if IsDirectory(slot) then Err(NotFound)
    else if SizeOf(slot) == 0 then Ok([])
    else if !HasChain(v.fat, ClusterOf(slot)) then Err(CorruptFilesystem)
    else
      var bytes := DirBytes(v, ClusterOf(slot));
      if SizeOf(slot) > |bytes| then Err(CorruptFilesystem) else Ok(bytes[..SizeOf(slot)])
  }

  ghost function ReadIn(v: Volume, d: nat, name: ShortName): Result<seq<byte>> {
    if !HasChain(v.fat, d) then Err(CorruptFilesystem)
    else
      var bytes := DirBytes(v, d);
      match Find(bytes, name, 0)
      case None => Err(NotFound)
      case Some(k) => ReadSlot(v, SlotAt(bytes, k))
  }

  /** `read_file` on a list of components. */
  ghost function ReadAt(v: Volume, root: nat, path: Path): Result<seq<byte>> {
    if path == [] then Err(NotFound)
    else
      match Resolve(v, root, path[..|path| - 1])
      case Err(e) => Err(e)
      case Ok(d) => ReadIn(v, d, path[|path| - 1])
  }

  // ---------- well-formed volumes ----------

  /** First clusters of files (false) and directories (true). */
  type Heads = map<nat, bool>

  /** A name `short_name` can produce. */
  predicate Plain(name: ShortName) {
    name[0] != 0 && name[0] != DELETED && name[0] != 0x2e
  }

  predicate PlainPath(path: Path) {
    forall i :: 0 <= i < |path| ==> Plain(path[i])
  }

  /** `.` and `..`, which no path component names. */
  predicate IsDot(slot: Slot) {
    slot[0] == 0x2e
  }

  ghost predicate EntryOk(v: Volume, root: nat, heads: Heads, slot: Slot) {
    var c := ClusterOf(slot);
    if IsDirectory(slot) then c in heads && heads[c] && c != root
    else ValidCluster(v.fat, c) ==> c in heads && !heads[c]
  }

  ghost predicate IsDir(v: Volume, heads: Heads, d: nat) {
    d in heads && heads[d] && HasChain(v.fat, d)
  }

  /** Slot `k` of directory `d` names an object that starts at cluster `c`. */
  ghost predicate Refers(v: Volume, heads: Heads, d: nat, k: nat, c: nat) {
    && IsDir(v, heads, d) && Visible(DirBytes(v, d), k) && !IsDot(SlotAt(DirBytes(v, d), k))
    && ClusterOf(SlotAt(DirBytes(v, d), k)) == c && ValidCluster(v.fat, c)
  }

  ghost predicate Names(v: Volume, heads: Heads, d: nat, k: nat, name: ShortName, c: nat) {
    Refers(v, heads, d, k, c) && NameOf(SlotAt(DirBytes(v, d), k)) == name
  }

  ghost predicate ChainsApart(v: Volume, heads: Heads) {
    forall a <- heads, b <- heads, c: nat ::
      HasChain(v.fat, a) && HasChain(v.fat, b) && c in Chain(v.fat, a) && c in Chain(v.fat, b) ==> a == b
  }

  ghost predicate DirOk(v: Volume, root: nat, heads: Heads, d: nat)
    requires HasChain(v.fat, d)
  {
    && ZeroTail(DirBytes(v, d))
    && forall k: nat :: Visible(DirBytes(v, d), k) && !IsDot(SlotAt(DirBytes(v, d), k)) ==> EntryOk(v, root, heads, SlotAt(DirBytes(v, d), k))
  }

  ghost predicate SingleRefs(v: Volume, heads: Heads) {
    forall d: nat, k: nat, e: nat, j: nat, c: nat :: Refers(v, heads, d, k, c) && Refers(v, heads, e, j, c) ==> d == e && k == j
  }

  /** Disjoint chains, each object named once, nothing beyond a directory's end. */
  ghost predicate Tidy(v: Volume, root: nat, heads: Heads) {
    && VolumeOk(v) && root in heads && heads[root]
    && (forall h <- heads :: HasChain(v.fat, h)) && ChainsApart(v, heads)
    && (forall d <- heads :: heads[d] ==> DirOk(v, root, heads, d))
    && SingleRefs(v, heads)
  }

  // ---------- lookups stay among the objects ----------

  lemma {:induction false} VisibleFound(v: Volume, d: nat, name: ShortName)
    requires HasChain(v.fat, d) && Plain(name)
    ensures var bytes := DirBytes(v, d);
      var k := Find(bytes, name, 0);
      k.Some? ==> Visible(bytes, k.value) && !IsDot(SlotAt(bytes, k.value)) && NameOf(SlotAt(bytes, k.value)) == name
  {
    FindIsVisible(DirBytes(v, d), name, 0);
  }

  lemma {:induction false} EnterStays(v: Volume, root: nat, heads: Heads, d: nat, name: ShortName)
    requires Tidy(v, root, heads) && d in heads && heads[d] && Plain(name)
    ensures var r := Enter(v, d, name);
      && (r.Ok? ==> r.value in heads && heads[r.value] && r.value != root)
      && (r.Err? ==> r.error == NotFound)
      && (r.Ok? ==> exists k: nat :: Names(v, heads, d, k, name, r.value))
  {
    hide Find, Visible, ChainsApart, SingleRefs;
    VisibleFound(v, d, name);
    var bytes := DirBytes(v, d);
    var k := Find(bytes, name, 0);
    if k.Some? {
      assert EntryOk(v, root, heads, SlotAt(bytes, k.value));
      if IsDirectory(SlotAt(bytes, k.value)) {
        HeadIsValid(v, ClusterOf(SlotAt(bytes, k.value)));
        assert Names(v, heads, d, k.value, name, ClusterOf(SlotAt(bytes, k.value)));
      }
    }
  }

  lemma HeadIsValid(v: Volume, h: nat)
    requires HasChain(v.fat, h)
    ensures ValidCluster(v.fat, h)
  {
    assert Chain(v.fat, h)[0] == h;
  }

  lemma {:induction false} ResolveStays(v: Volume, root: nat, heads: Heads, path: Path)
    requires Tidy(v, root, heads) && PlainPath(path)
    ensures Resolve(v, root, path).Ok? ==> Resolve(v, root, path).value in heads && heads[Resolve(v, root, path).value]
    ensures Resolve(v, root, path).Err? ==> Resolve(v, root, path).error == NotFound
    decreases |path|
  {
    hide Tidy, Enter;
    assert root in heads && heads[root] by { TidyRoot(v, root, heads); }
    if path != [] {
      var front := path[..|path| - 1];
      ResolveStays(v, root, heads, front);
      if Resolve(v, root, front).Ok? {
        EnterStays(v, root, heads, Resolve(v, root, front).value, path[|path| - 1]);
      }
    }
  }

  lemma TidyRoot(v: Volume, root: nat, heads: Heads)
    requires Tidy(v, root, heads)
    ensures root in heads && heads[root]
  {
  }

  /** A directory has one path. */
  lemma {:induction false} PathsUnique(v: Volume, root: nat, heads: Heads, p: Path, q: Path)
    requires Tidy(v, root, heads) && PlainPath(p) && PlainPath(q)
    requires Resolve(v, root, p).Ok? && Resolve(v, root, q) == Resolve(v, root, p)
    ensures p == q
    decreases |p|
  {
    hide Tidy, Enter, Names;
    if p != [] {
      var a := ResolveLast(v, root, heads, p);
      if q != [] {
        var b := ResolveLast(v, root, heads, q);
        SameReference(v, root, heads, p, a, q, b);
        PathsUnique(v, root, heads, p[..|p| - 1], q[..|q| - 1]);
        assert p == p[..|p| - 1] + [p[|p| - 1]] && q == q[..|q| - 1] + [q[|q| - 1]];
      }
    } else if q != [] {
      var b := ResolveLast(v, root, heads, q);
    }
  }

  /** The slot that the last step of a path goes through. */
  lemma {:induction false} ResolveLast(v: Volume, root: nat, heads: Heads, p: Path) returns (k: nat)
    requires Tidy(v, root, heads) && PlainPath(p) && p != [] && Resolve(v, root, p).Ok?
    ensures var d := Resolve(v, root, p[..|p| - 1]);
      && d.Ok? && Resolve(v, root, p).value != root
      && Names(v, heads, d.value, k, p[|p| - 1], Resolve(v, root, p).value)
  {
    hide Tidy, Enter, Names;
    var front := p[..|p| - 1];
    ResolveStays(v, root, heads, front);
    var d := Resolve(v, root, front).value;
    EnterStays(v, root, heads, d, p[|p| - 1]);
    k :| Names(v, heads, d, k, p[|p| - 1], Resolve(v, root, p).value);
  }

  lemma {:induction false} SameReference(v: Volume, root: nat, heads: Heads, p: Path, a: nat, q: Path, b: nat)
    requires Tidy(v, root, heads) && p != [] && q != [] && Resolve(v, root, p).Ok? && Resolve(v, root, q) == Resolve(v, root, p)
    requires var d := Resolve(v, root, p[..|p| - 1]);
      d.Ok? && Names(v, heads, d.value, a, p[|p| - 1], Resolve(v, root, p).value)
    requires var d := Resolve(v, root, q[..|q| - 1]);
      d.Ok? && Names(v, heads, d.value, b, q[|q| - 1], Resolve(v, root, q).value)
    ensures Resolve(v, root, p[..|p| - 1]) == Resolve(v, root, q[..|q| - 1]) && p[|p| - 1] == q[|q| - 1]
  {
    hide Enter, Refers, DirOk, ChainsApart, Resolve;
  }
}
