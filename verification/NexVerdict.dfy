/**
  When the operations on files succeed, said of paths, of the number of entries of a
  directory and of the number of free blocks and inodes alone.
 */
module NexVerdict {
  import opened Bytes
  import opened Slashes
  import opened NexLayout
  import opened NexTree
  import opened NexPath
  import opened NexVolume
  import opened NexBlocks
  import opened NexSpace
  import opened NexState
  import opened NexCommit
  import opened NexFull
  import opened NexFsVolume

  /** The blocks that hold `size` bytes: one for every 4096, and a table beyond twelve. */
  function Cost(size: nat): nat {
    (size + 4095) / 4096 + if size > 49152 then 1 else 0
  }

  /** Something of `size` bytes may have `larger`, with its own blocks and the free ones. */
  ghost predicate Affordable(v: Vol, size: nat, larger: nat) {
    Cost(larger) <= Cost(size) + |FreeBlocks(v)|
  }

  /** The names in the directory at a path. */
  ghost function Children(fs: Fs, p: Path): set<Name> {
    match Lookup(fs, p)
    case None => {}
    case Some(d) => set e <- Entries(fs, d) :: e.name
  }

  lemma {:induction false} ChildrenNamed(fs: Fs, p: Path, name: Name)
    requires Tree(fs)
    ensures name in Children(fs, p) <==> At(fs, p + [name]).Some?
  {
    hide Tree;
    LookupSnoc(fs, p, name);
    LookupInFs(fs, p + [name]);
    if Lookup(fs, p).Some? {
      var es := Entries(fs, Lookup(fs, p).value);
      var i := StepFrom(es, name);
      assert name in Children(fs, p) <==> Named(es, name);
      if Named(es, name) {
        StepNamed(es, name);
      }
    }
  }

  lemma {:induction false} StepNamed(es: seq<DirEntry>, name: Name)
    requires Named(es, name)
    ensures Step(es, name).Some?
  {
    if es[0].name != name {
      var i :| 0 <= i < |es| && es[i].name == name;
      assert es[1..][i - 1].name == name;
      StepNamed(es[1..], name);
    }
  }

  lemma {:induction false} NamesCount(es: seq<DirEntry>)
    requires DistinctNames(es)
    ensures |set e <- es :: e.name| == |es|
  {
    var names := set e <- es :: e.name;
    if es == [] {
      assert names == {};
    } else {
      var front, last := es[..|es| - 1], es[|es| - 1];
      NamesCount(front);
      var others := set e <- front :: e.name;
      assert names == others + {last.name};
      assert last.name !in others;
    }
  }

  lemma {:induction false} ChildrenCount(fs: Fs, p: Path, d: nat)
    requires Tree(fs) && Lookup(fs, p) == Some(d)
    ensures |Children(fs, p)| == |Entries(fs, d)|
  {
    hide Lookup;
    LookupInFs(fs, p);
    assert DistinctNames(Entries(fs, d));
    NamesCount(Entries(fs, d));
  }

  // ---------- space ----------

  /** What an object of the tree has, in blocks, is what its size costs. */
  lemma {:induction false} OwnedCost(v: Vol, n: nat, size: nat)
    requires WellFormed(v) && n in FsAt(v)
    requires size == if FsAt(v)[n].File? then |FsAt(v)[n].bytes| else 256 * |FsAt(v)[n].entries|
    ensures n in Inodes(v) && Inodes(v)[n].blockCount == DataBlocksForSize(size) <= MAX_FILE_BLOCKS
    ensures |Available(v, Inodes(v)[n])| == Cost(size) + |FreeBlocks(v)|
    ensures Footprint(Inodes(v)[n].blockCount, Inodes(v)[n].indirect != 0) == Cost(size)
  {
    hide WellFormed, FsAt, Inodes, Ownership, Owned, BlocksOk;
    NodeBlocks(v, n);
    WellFormedOwns(v);
    var t := Inodes(v);
    var ino := t[n];
    OwnershipBlocks(v, t, n);
    OwnedSize(v, ino);
    TableIff(v, ino);
    forall b | b in Owned(v, ino) ensures b !in FreeBlocks(v) {
      assert Owner(v, t, n, b);
      OwnerMarked(v, t, n, b);
    }
    assert Available(v, ino) == FreeBlocks(v) + Owned(v, ino);
    assert |FreeBlocks(v) + Owned(v, ino)| == |FreeBlocks(v)| + |Owned(v, ino)|;
  }

  lemma OwnershipBlocks(v: Vol, t: InodeTable, n: nat)
    requires Ownership(v, t) && n in t
    ensures BlocksOk(v, t[n])
  {
  }

  lemma OwnerMarked(v: Vol, t: InodeTable, n: nat, b: nat)
    requires Ownership(v, t) && Owner(v, t, n, b)
    ensures b in v.bbits
  {
  }

  lemma TableIff(v: Vol, ino: Inode)
    requires BlocksOk(v, ino) && Tight(ino)
    ensures ino.indirect != 0 <==> ino.blockCount > DIRECT_BLOCKS
  {
  }

  lemma {:induction false} FileRoom(v: Vol, n: nat, end: nat)
    requires WellFormed(v) && n in FsAt(v) && FsAt(v)[n].File?
    ensures var size := |FsAt(v)[n].bytes|; RoomFor(v, n, end) <==> Affordable(v, size, if end > size then end else size)
  {
    hide WellFormed, FsAt, Inodes, Available, FreeBlocks;
    var size := |FsAt(v)[n].bytes|;
    OwnedCost(v, n, size);
    SizeOfFile(v, n);
  }

  lemma SizeOfFile(v: Vol, n: nat)
    requires WellFormed(v) && n in FsAt(v) && FsAt(v)[n].File?
    ensures n in Inodes(v) && Inodes(v)[n].size == |FsAt(v)[n].bytes|
  {
    hide Ownership, Tree, Raw;
    assert InodeOk(v, Inodes(v)[n]);
  }

  lemma {:induction false} DirectoryRoom(v: Vol, d: nat, count: nat)
    requires WellFormed(v) && d in FsAt(v) && FsAt(v)[d].Dir?
    ensures EntriesFit(v, d, count) <==> count <= 8384 && Affordable(v, 256 * |FsAt(v)[d].entries|, 256 * count)
  {
    hide WellFormed, FsAt, Inodes, Available, FreeBlocks;
    OwnedCost(v, d, 256 * |FsAt(v)[d].entries|);
  }

  /** An inode is free exactly when there are fewer objects than inodes; number 0 is not used. */
  lemma {:induction false} InodesLeft(v: Vol)
    requires WellFormed(v)
    ensures NoFreeInode(v) <==> |FsAt(v)| == v.g.InodeCount() - 1
  {
    hide Ownership, Tree, InodeOk;
    var all := Range(1, v.g.InodeCount());
    assert FsAt(v).Keys == Inodes(v).Keys;
    assert forall n: nat :: n in Inodes(v) <==> n in v.ibits && n != 0;
    assert Inodes(v).Keys <= all;
    assert |all - Inodes(v).Keys| == |all| - |Inodes(v).Keys|;
    if NoFreeInode(v) {
      assert all == Inodes(v).Keys;
    }
    if |FsAt(v)| == v.g.InodeCount() - 1 {
      assert all - Inodes(v).Keys == {};
      forall n: nat | 2 <= n < v.g.InodeCount() ensures n in v.ibits {
        assert n in all && n !in all - Inodes(v).Keys;
      }
    }
  }

  // ---------- paths ----------

  /** Every component is a name or is skipped, and the last is a name. */
  predicate Spelled(path: seq<byte>) {
    SplitParent(path).Ok? && Acceptable(Components(SplitParent(path).value.0))
  }

  function Folder(p: Path): Path
    requires p != []
  {
    p[..|p| - 1]
  }

  /** The path is well spelled and what it is to be in is there. */
  predicate Placed(fs: Fs, path: seq<byte>) {
    Spelled(path) && PathOf(path) != [] && At(fs, Folder(PathOf(path))).Some?
  }

  lemma {:induction false} AcceptableNames(cs: seq<Name>)
    ensures Acceptable(cs) <==> forall name <- Clean(cs) :: ValidName(name)
  {
    hide ValidName;
    if cs != [] {
      var front, c := cs[..|cs| - 1], cs[|cs| - 1];
      AcceptableNames(front);
      NotEntered(c);
      assert cs == front + [c];
      assert Acceptable(cs) <==> Acceptable(front) && (Skipped(c) || ValidName(c));
    }
  }

  lemma NotEntered(c: Name)
    ensures Skipped(c) ==> !ValidName(c)
  {
  }

  /** A path that has a last component is well spelled exactly when all its names are valid. */
  lemma {:induction false} SpelledNames(path: seq<byte>)
    requires SplitParent(path).Ok?
    ensures Spelled(path) <==> forall name <- PathOf(path) :: ValidName(name)
  {
    hide ValidName, Acceptable, Clean, Components, SplitParent;
    SplitParentIsLast(path);
    AcceptableNames(Components(SplitParent(path).value.0));
  }

  /** Only the root has no last component; otherwise it is what follows the last slash but those at the end. */
  lemma {:induction false} SplitParentFails(path: seq<byte>, front: seq<byte>, name: Name, n: nat)
    ensures SplitParent(path) == Err(Busy) <==> forall k :: 0 <= k < |path| ==> path[k] == SLASH
    ensures name != [] && SLASH !in name && (front == [] || front[|front| - 1] == SLASH) && path == front + name + seq(n, _ => SLASH) ==>
      if ValidName(name) then SplitParent(path).Ok? && SplitParent(path).value.1 == name else SplitParent(path) == Err(InvalidName)
  {
    hide ValidName;
    TrimsAll(path);
    if name != [] && SLASH !in name && (front == [] || front[|front| - 1] == SLASH) && path == front + name + seq(n, _ => SLASH) {
      TrimsSlashes(front + name, n);
      LastSlashAt(front, name);
      assert (front + name)[|front|..] == name;
    }
  }

  lemma {:induction false} TrimsAll(path: seq<byte>)
    ensures TrimEnd(path) == [] <==> forall k :: 0 <= k < |path| ==> path[k] == SLASH
  {
    if path != [] && path[|path| - 1] == SLASH {
      TrimsAll(path[..|path| - 1]);
    }
  }

  lemma {:induction false} TrimsSlashes(s: seq<byte>, n: nat)
    requires s != [] && s[|s| - 1] != SLASH
    ensures TrimEnd(s + seq(n, _ => SLASH)) == s
  {
    if n > 0 {
      var t := s + seq(n, _ => SLASH);
      assert t[..|t| - 1] == s + seq(n - 1, _ => SLASH);
      TrimsSlashes(s, n - 1);
    } else {
      assert s + seq(n, _ => SLASH) == s;
    }
  }

  lemma {:induction false} LastSlashAt(front: seq<byte>, name: Name)
    requires SLASH !in name && (front == [] || front[|front| - 1] == SLASH)
    ensures LastSlash(front + name) == |front| - 1
  {
    if name != [] {
      assert (front + name)[..|front + name| - 1] == front + name[..|name| - 1];
      LastSlashAt(front, name[..|name| - 1]);
    } else {
      assert front + name == front;
    }
  }

  lemma {:induction false} AtLookup(fs: Fs, p: Path)
    requires Tree(fs)
    ensures At(fs, p).Some? <==> Lookup(fs, p).Some?
    ensures Lookup(fs, p).Some? ==>
      var n := Lookup(fs, p).value; n in fs && At(fs, p) == Some(if fs[n].File? then FileObject(fs[n].bytes) else DirObject)
  {
    hide Tree, Lookup;
    LookupInFs(fs, p);
  }

  lemma {:induction false} ResolvedAt(fs: Fs, path: seq<byte>)
    requires Tree(fs)
    ensures Resolved(fs, Components(path)).Ok? <==> Acceptable(Components(path)) && At(fs, PathOf(path)).Some?
    ensures Resolved(fs, Components(path)).Ok? ==> Lookup(fs, PathOf(path)) == Some(Resolved(fs, Components(path)).value)
  {
    hide Tree, Lookup, Resolved, Acceptable, Components;
    AtLookup(fs, PathOf(path));
    if Resolved(fs, Components(path)).Ok? {
      ResolvedIsLookup(fs, Components(path), Resolved(fs, Components(path)).value);
    } else if Lookup(fs, PathOf(path)).Some? {
      ResolvedIsLookup(fs, Components(path), Lookup(fs, PathOf(path)).value);
    }
  }

  /** The first component that is wrong, and what the path up to it names, decide the error. */
  ghost predicate StopsAt(fs: Fs, cs: seq<Name>, k: int, e: FsError) {
    && 0 <= k < |cs| && Acceptable(cs[..k]) && !Skipped(cs[k])
    && match At(fs, Clean(cs[..k]))
       case None => false
       case Some(o) =>
         if cs[k] == [DOT, DOT] then e == InvalidPath
         else if !ValidName(cs[k]) then e == InvalidName
         else if o.FileObject? then e == NotDirectory
         else e == NotFound && At(fs, Clean(cs[..k]) + [cs[k]]).None?
  }

  lemma {:induction false} ResolvedFails(fs: Fs, cs: seq<Name>, e: FsError)
    requires Tree(fs) && Resolved(fs, cs) == Err(e)
    ensures exists k :: StopsAt(fs, cs, k, e)
  {
    hide Tree, Lookup, Acceptable, Clean, At, ValidName;
    var front, c := cs[..|cs| - 1], cs[|cs| - 1];
    match Resolved(fs, front) {
      case Err(_) =>
        ResolvedFails(fs, front, e);
        var k :| StopsAt(fs, front, k, e);
        assert front[..k] == cs[..k] && front[k] == cs[k];
        assert StopsAt(fs, cs, k, e);
      case Ok(d) =>
        ResolvedIsLookup(fs, front, d);
        AtLookup(fs, Clean(front));
        LookupSnoc(fs, Clean(front), c);
        AtLookup(fs, Clean(front) + [c]);
        assert StopsAt(fs, cs, |cs| - 1, e);
    }
  }

  /** What the entry that `path` is to be tells about the path. */
  lemma {:induction false} EntryAt(fs: Fs, path: seq<byte>)
    requires Tree(fs) && SplitParent(path).Ok?
    ensures var (parent, name) := SplitParent(path).value;
      && PathOf(path) != [] && Folder(PathOf(path)) == PathOf(parent) && PathOf(path)[|PathOf(path)| - 1] == name
      && match Resolved(fs, Components(parent))
         case Err(_) => !Spelled(path) || At(fs, PathOf(parent)).None?
         case Ok(d) =>
           && Spelled(path) && Lookup(fs, PathOf(parent)) == Some(d) && d in fs
           && At(fs, PathOf(parent)) == Some(if fs[d].File? then FileObject(fs[d].bytes) else DirObject)
           && Step(Entries(fs, d), name) == Lookup(fs, PathOf(path))
           && (Named(Entries(fs, d), name) <==> At(fs, PathOf(path)).Some?)
  {
    hide Tree, Lookup, Resolved, Acceptable, Components, SplitParent, PathOf, At, Step;
    var (parent, name) := SplitParent(path).value;
    SplitParentIsLast(path);
    ResolvedAt(fs, parent);
    if Resolved(fs, Components(parent)).Ok? {
      var d := Resolved(fs, Components(parent)).value;
      AtLookup(fs, PathOf(parent));
      AtLookup(fs, PathOf(path));
      LookupSnoc(fs, PathOf(parent), name);
      var i := StepFrom(Entries(fs, d), name);
      if Named(Entries(fs, d), name) {
        StepNamed(Entries(fs, d), name);
      }
    }
  }

  // ---------- writing and truncating ----------

  ghost function ResizeVerdict(v: Vol, p: Path, end: nat): Option<FsError> {
    match At(FsAt(v), p)
    case Some(FileObject(bytes)) =>
      if end > 2146304 then Some(FileTooLarge)
      else if Affordable(v, |bytes|, if end > |bytes| then end else |bytes|) then None
      else Some(NoSpace)
    case _ => Some(IsDirectory)
  }

  /** A file may be written up to `end` exactly when that is within 524 blocks and the free blocks suffice. */
  lemma {:induction false} ResizeExactly(v: Vol, path: seq<byte>, end: nat)
    requires WellFormed(v)
    ensures Acceptable(Components(path)) && At(FsAt(v), PathOf(path)).Some? ==>
      ResizeError(v, path, end) == ResizeVerdict(v, PathOf(path), end)
    ensures !Acceptable(Components(path)) || At(FsAt(v), PathOf(path)).None? ==> ResizeError(v, path, end).Some?
  {
    hide WellFormed, FsAt, Tree, Lookup, Resolved, Acceptable, Components, PathOf, RoomFor, Affordable;
    var fs := FsAt(v);
    WellFormedTree(v);
    ResolvedAt(fs, path);
    if Resolved(fs, Components(path)).Ok? {
      var n := Resolved(fs, Components(path)).value;
      AtLookup(fs, PathOf(path));
      if fs[n].File? {
        FileRoom(v, n, end);
      }
    }
  }

  // ---------- creating ----------

  ghost function CreateVerdict(v: Vol, p: Path): Option<FsError>
    requires p != []
  {
    var k := |Children(FsAt(v), Folder(p))|;
    if At(FsAt(v), Folder(p)) != Some(DirObject) then Some(NotDirectory)
    else if At(FsAt(v), p).Some? then Some(AlreadyExists)
    else if |FsAt(v)| == v.g.InodeCount() - 1 then Some(NoSpace)
    else if k + 1 > 8384 then Some(FileTooLarge)
    else if Affordable(v, 256 * k, 256 * (k + 1)) then None
    else Some(NoSpace)
  }

  /** A path may be created exactly when it is new, its directory is there, and an inode and the blocks for one more entry are free. */
  lemma {:induction false} CreateExactly(v: Vol, path: seq<byte>)
    requires WellFormed(v)
    ensures Placed(FsAt(v), path) ==> CreateError(v, path) == CreateVerdict(v, PathOf(path))
    ensures !Placed(FsAt(v), path) ==> CreateError(v, path).Some?
  {
    hide WellFormed, FsAt, Tree, Lookup, Resolved, Acceptable, Components, PathOf, EntriesFit, Affordable, SplitParent, NoFreeInode, Children, Named;
    var fs := FsAt(v);
    WellFormedTree(v);
    if SplitParent(path).Ok? {
      EntryAt(fs, path);
      var parent := SplitParent(path).value.0;
      if Resolved(fs, Components(parent)).Ok? {
        var d := Resolved(fs, Components(parent)).value;
        if fs[d].Dir? {
          ChildrenCount(fs, PathOf(parent), d);
          DirectoryRoom(v, d, |fs[d].entries| + 1);
          InodesLeft(v);
        }
      }
    }
  }

  // ---------- removing ----------

  ghost function RemoveVerdict(fs: Fs, p: Path): Option<FsError>
    requires p != []
  {
    if At(fs, Folder(p)) != Some(DirObject) then Some(NotDirectory)
    else if At(fs, p).None? then Some(NotFound)
    else if exists name :: At(fs, p + [name]).Some? then Some(DirectoryNotEmpty)
    else None
  }

  /** A path may be removed exactly when it names something and no path goes on from it. */
  lemma {:induction false} RemoveExactly(v: Vol, path: seq<byte>)
    requires WellFormed(v)
    ensures Placed(FsAt(v), path) ==> RemoveError(v, path) == RemoveVerdict(FsAt(v), PathOf(path))
    ensures !Placed(FsAt(v), path) ==> RemoveError(v, path).Some?
  {
    hide WellFormed, FsAt, Tree, Lookup, Resolved, Acceptable, Components, PathOf, SplitParent, Named;
    var fs := FsAt(v);
    WellFormedTree(v);
    if SplitParent(path).Ok? {
      EntryAt(fs, path);
      AtLookup(fs, PathOf(path));
      if Lookup(fs, PathOf(path)).Some? {
        GoesOn(fs, PathOf(path));
      }
    }
  }

  lemma {:induction false} GoesOn(fs: Fs, p: Path)
    requires Tree(fs) && Lookup(fs, p).Some?
    ensures Entries(fs, Lookup(fs, p).value) != [] <==> exists name :: At(fs, p + [name]).Some?
  {
    hide Tree, Lookup;
    var es := Entries(fs, Lookup(fs, p).value);
    if es != [] {
      ChildrenNamed(fs, p, es[0].name);
      assert es[0].name in Children(fs, p);
    }
    forall name | At(fs, p + [name]).Some? ensures es != [] {
      ChildrenNamed(fs, p, name);
    }
  }

  // ---------- renaming ----------

  /** One thing lies below another exactly when its path goes on from the other's. */
  lemma {:induction false} ReachIsPrefix(fs: Fs, p: Path, q: Path)
    requires Tree(fs) && Lookup(fs, p).Some? && Lookup(fs, q).Some?
    ensures Reach(fs, Lookup(fs, p).value, Lookup(fs, q).value) <==> p <= q
  {
    hide Tree;
    if p <= q {
      LookupReach(fs, p, q);
    }
    if Reach(fs, Lookup(fs, p).value, Lookup(fs, q).value) {
      var s := set n <- fs | Below(fs, p, n);
      LookupInFs(fs, p);
      assert Below(fs, p, Lookup(fs, p).value);
      forall d, i | d in s && 0 <= i < |Entries(fs, d)| ensures Entries(fs, d)[i].inode in s {
        var r :| p <= r && Lookup(fs, r) == Some(d);
        var name := Entries(fs, d)[i].name;
        LookupSnoc(fs, r, name);
        TreeStep(fs, d, i);
        LookupInFs(fs, r + [name]);
        assert p <= r + [name];
      }
      assert Closed(fs, s);
      var r :| p <= r && Lookup(fs, r) == Lookup(fs, q);
      LookupInjective(fs, r, q);
    }
  }

  ghost predicate Below(fs: Fs, p: Path, n: nat) {
    exists q :: p <= q && Lookup(fs, q) == Some(n)
  }

  ghost function RenameVerdict(v: Vol, src: Path, dst: Path): Option<FsError>
    requires src != [] && dst != []
  {
    var fs := FsAt(v);
    var k := |Children(fs, Folder(dst))|;
    if At(fs, Folder(src)) != Some(DirObject) then Some(NotDirectory)
    else if At(fs, src).None? then Some(NotFound)
    else if At(fs, Folder(dst)) != Some(DirObject) then Some(NotDirectory)
    else if At(fs, dst).Some? then Some(AlreadyExists)
    else if src <= dst then Some(InvalidPath)
    else if Folder(src) == Folder(dst) then None
    else if k + 1 > 8384 then Some(FileTooLarge)
    else if Affordable(v, 256 * k, 256 * (k + 1)) then None
    else Some(NoSpace)
  }

  /**
    A rename succeeds exactly when the source is there, the destination is new in a
    directory that is there and not below the source, and that directory is the one
    the source is in or can have one more entry.
   */
  lemma {:induction false} RenameExactly(v: Vol, source: seq<byte>, destination: seq<byte>)
    requires WellFormed(v)
    ensures Placed(FsAt(v), source) && Placed(FsAt(v), destination) ==>
      RenameError(v, source, destination) == RenameVerdict(v, PathOf(source), PathOf(destination))
    ensures !Placed(FsAt(v), source) || !Placed(FsAt(v), destination) ==> RenameError(v, source, destination).Some?
  {
    hide WellFormed, FsAt, Tree, Lookup, Resolved, Acceptable, Components, PathOf, SplitParent, Named, Reach, RenameInError, RenameVerdict;
    var fs := FsAt(v);
    WellFormedTree(v);
    if SplitParent(source).Ok? && SplitParent(destination).Ok? {
      EntryAt(fs, source);
      EntryAt(fs, destination);
      var (from, name) := SplitParent(source).value;
      var (into, name') := SplitParent(destination).value;
      if Resolved(fs, Components(from)).Ok? && Resolved(fs, Components(into)).Ok? {
        var a, b := Resolved(fs, Components(from)).value, Resolved(fs, Components(into)).value;
        RenameInExactly(v, a, PathOf(source), b, PathOf(destination), name, name');
      }
    }
  }

  lemma {:induction false} RenameInExactly(v: Vol, a: nat, src: Path, b: nat, dst: Path, name: Name, name': Name)
    requires WellFormed(v) && src != [] && dst != []
    requires Lookup(FsAt(v), Folder(src)) == Some(a) && src[|src| - 1] == name
    requires Lookup(FsAt(v), Folder(dst)) == Some(b) && dst[|dst| - 1] == name'
    ensures RenameInError(v, a, name, b, name') == RenameVerdict(v, src, dst)
  {
    hide WellFormed, FsAt, Tree, Lookup, Reach, Children, Affordable, EntriesFit, Named, At;
    var fs := FsAt(v);
    WellFormedTree(v);
    AtEntry(fs, src, a, name);
    AtEntry(fs, dst, b, name');
    if fs[a].Dir? && Lookup(fs, src).Some? && fs[b].Dir? && At(fs, dst).None? {
      ReachIsPrefix(fs, src, Folder(dst));
      assert src <= Folder(dst) <==> src <= dst && src != dst;
      SameFolder(fs, Folder(src), Folder(dst));
      ChildrenCount(fs, Folder(dst), b);
      DirectoryRoom(v, b, |fs[b].entries| + 1);
    }
  }

  lemma {:induction false} AtEntry(fs: Fs, p: Path, d: nat, name: Name)
    requires Tree(fs) && p != [] && Lookup(fs, Folder(p)) == Some(d) && p[|p| - 1] == name
    ensures d in fs && (At(fs, Folder(p)) == Some(DirObject) <==> fs[d].Dir?)
    ensures At(fs, p).Some? <==> Lookup(fs, p).Some?
    ensures Step(Entries(fs, d), name) == Lookup(fs, p) && (Named(Entries(fs, d), name) <==> Lookup(fs, p).Some?)
  {
    hide Tree, Lookup, Step;
    AtLookup(fs, Folder(p));
    AtLookup(fs, p);
    assert p == Folder(p) + [name];
    LookupSnoc(fs, Folder(p), name);
    var i := StepFrom(Entries(fs, d), name);
    if Named(Entries(fs, d), name) {
      StepNamed(Entries(fs, d), name);
    }
  }

  lemma SameFolder(fs: Fs, p: Path, q: Path)
    requires Tree(fs) && Lookup(fs, p).Some?
    ensures Lookup(fs, p) == Lookup(fs, q) <==> p == q
  {
    hide Tree, Lookup;
    if Lookup(fs, p) == Lookup(fs, q) {
      LookupInjective(fs, p, q);
    }
  }
}
