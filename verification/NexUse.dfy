/**
  Operations one after the other: what was written is read, what was created can be
  removed, and a move can be undone.
 */
module NexUse {
  import opened Bytes
  import opened NexLayout
  import opened NexTree
  import opened NexPath
  import opened NexVolume
  import opened NexState
  import opened NexSteps
  import opened NexCommit
  import opened NexSpare
  import opened NexFull
  import opened NexFsVolume
  import opened NexVerdict

  /** Byte by byte: the input where it was written, zeros in a gap before it, the old bytes elsewhere. */
  lemma SplicedBytes(s: seq<byte>, at: nat, input: seq<byte>, k: nat)
    ensures k < |Spliced(s, at, input)| <==> k < |s| || k < at + |input|
    ensures k < |Spliced(s, at, input)| ==>
      Spliced(s, at, input)[k] == if at <= k < at + |input| then input[k - at] else if k < |s| then s[k] else 0
  {
  }

  lemma ResizedBytes(s: seq<byte>, n: nat, k: nat)
    requires k < n
    ensures |Resized(s, n)| == n && Resized(s, n)[k] == if k < |s| then s[k] else 0
  {
  }

  /** A path that names something can be walked, if it is spelled right. */
  lemma {:induction false} NamedResolves(fs: Fs, path: seq<byte>, bytes: seq<byte>)
    requires Tree(fs) && Acceptable(Components(path)) && At(fs, PathOf(path)) == Some(FileObject(bytes))
    ensures var r := Resolved(fs, Components(path)); r.Ok? && r.value in fs && fs[r.value] == File(bytes)
  {
    hide Tree, Resolved, Lookup, Acceptable, Components, PathOf;
    ResolvedAt(fs, path);
    AtLookup(fs, PathOf(path));
  }

  /** What was written is what is read there, and a file that shrank or grew reads as such. */
  method WriteThenRead(fs: NexFs, path: seq<byte>, offset: nat, input: seq<byte>) returns (a: Result<nat>, b: Result<seq<byte>>)
    requires fs.Ready()
    modifies fs`disk, fs`sb, fs`log
    ensures fs.Mounted()
    ensures a.Ok? ==> a.value == |input| && b == Ok(input)
  {
    hide View, WellFormed, FsAt, NexFs.Mounted, Tree, Resolved, Components, PathOf, At, Acceptable, ResizeError, Spliced, Slice;
    ghost var v := fs.V();
    ResizeExactly(v, path, offset + |input|);
    a := fs.WriteFile(path, offset, input);
    b := Err(NoSpace);
    if a.Ok? {
      WellFormedTree(fs.V());
      ghost var bytes := Spliced(BytesAt(FsAt(v), PathOf(path)), offset, input);
      assert At(fs.Files(), PathOf(path)) == Some(FileObject(bytes));
      NamedResolves(fs.Files(), path, bytes);
      SliceOfSpliced(BytesAt(FsAt(v), PathOf(path)), offset, input);
      b := fs.ReadFile(path, offset, |input|);
    }
  }

  lemma SliceOfSpliced(s: seq<byte>, at: nat, input: seq<byte>)
    ensures Slice(Spliced(s, at, input), at, |input|) == input
  {
  }

  /** Creating something new and removing it again restores every path and all permissions. */
  method CreateThenRemove(fs: NexFs, path: seq<byte>, kind: FileType, permissions: u16) returns (a: Result<u64>, b: Result<()>)
    requires fs.Ready() && Utf8(path)
    modifies fs`disk, fs`sb, fs`log
    ensures fs.Mounted()
    ensures a.Ok? ==> b.Ok? && forall p :: At(fs.Files(), p) == At(old(fs.Files()), p)
    ensures a.Ok? ==> Modes(fs.V()) == Modes(old(fs.V()))
  {
    hide View, WellFormed, FsAt, NexFs.Mounted, Tree, Resolved, Components, PathOf, At, Acceptable, CreateError, RemoveError, Utf8, Lookup,
         Created, KeepsOutside, KeepsContents, Modes, RemoveVerdict;
    ghost var v := fs.V();
    CreateExactly(v, path);
    a := fs.Create(path, kind, permissions);
    b := Ok(());
    if a.Ok? {
      WellFormedTree(v);
      RemoveExactly(fs.V(), path);
      NewIsRemovable(FsAt(v), fs.Files(), path, kind);
      b := fs.Remove(path);
    }
  }

  lemma {:induction false} NewIsRemovable(before: Fs, after: Fs, path: seq<byte>, kind: FileType)
    requires Tree(before) && Placed(before, path) && At(before, PathOf(path)).None? && At(before, Folder(PathOf(path))) == Some(DirObject)
    requires forall p :: At(after, p) == if p == PathOf(path) then Some(EmptyObject(kind)) else At(before, p)
    ensures Placed(after, path) && RemoveVerdict(after, PathOf(path)).None?
  {
    hide Tree, At, PathOf, Spelled, EmptyObject;
    var q := PathOf(path);
    assert Folder(q) != q;
    forall name ensures At(after, q + [name]).None? {
      assert q + [name] != q;
      NothingBelow(before, q, name);
    }
  }

  lemma {:induction false} NothingBelow(fs: Fs, p: Path, name: Name)
    requires Tree(fs) && At(fs, p).None?
    ensures At(fs, p + [name]).None?
  {
    hide Tree, Lookup;
    AtLookup(fs, p);
    AtLookup(fs, p + [name]);
    LookupSnoc(fs, p, name);
  }

  /** A move that is moved back leaves every path as it was. */
  method RenameAndBack(fs: NexFs, source: seq<byte>, destination: seq<byte>) returns (a: Result<()>, b: Result<()>)
    requires fs.Ready() && Utf8(source) && Utf8(destination)
    modifies fs`disk, fs`sb, fs`log
    ensures fs.Mounted()
    ensures a.Ok? && b.Ok? ==> forall p :: At(fs.Files(), p) == At(old(fs.Files()), p)
    ensures a.Ok? && b.Ok? ==> Modes(fs.V()) == Modes(old(fs.V()))
    ensures a.Ok? && b.Err? ==> b.error == NoSpace || b.error == FileTooLarge
  {
    hide View, WellFormed, FsAt, NexFs.Mounted, Tree, PathOf, At, RenameError, Utf8, MovedAt, KeepsOutside, KeepsContents, Modes, RenameVerdict, Placed;
    ghost var v := fs.V();
    WellFormedTree(v);
    RenameExactly(v, source, destination);
    a := fs.Rename(source, destination);
    b := Ok(());
    if a.Ok? {
      ghost var mid := fs.Files();
      RenameExactly(fs.V(), destination, source);
      MovesBack(v, fs.V(), source, destination);
      b := fs.Rename(destination, source);
      if b.Ok? {
        forall p ensures At(fs.Files(), p) == At(FsAt(v), p) {
          MovedTwice(FsAt(v), mid, PathOf(source), PathOf(destination), p);
        }
      }
    }
  }

  lemma {:induction false} MovedTwice(fs: Fs, mid: Fs, src: Path, dst: Path, p: Path)
    requires Tree(fs) && At(fs, dst).None? && !(src <= dst) && forall q :: At(mid, q) == MovedAt(fs, src, dst, q)
    ensures MovedAt(mid, dst, src, p) == At(fs, p)
  {
    hide Tree, At;
    if src <= p {
      var rest := p[|src|..];
      assert p == src + rest && dst <= dst + rest && (dst + rest)[|dst|..] == rest;
      assert At(mid, dst + rest) == At(fs, src + rest);
    } else if dst <= p {
      BelowNothing(fs, dst, p);
    } else {
      assert At(mid, p) == At(fs, p);
    }
  }

  lemma {:induction false} BelowNothing(fs: Fs, p: Path, q: Path)
    requires Tree(fs) && At(fs, p).None? && p <= q
    ensures At(fs, q).None?
  {
    hide Tree, Lookup;
    AtLookup(fs, p);
    AtLookup(fs, q);
    if Lookup(fs, q).Some? {
      LookupPrefix(fs, p, q);
    }
  }

  /** Nothing but space can keep a move from being undone. */
  lemma {:induction false} MovesBack(v: Vol, w: Vol, source: seq<byte>, destination: seq<byte>)
    requires WellFormed(v) && WellFormed(w) && Placed(FsAt(v), source) && Placed(FsAt(v), destination)
    requires RenameVerdict(v, PathOf(source), PathOf(destination)).None?
    requires forall p :: At(FsAt(w), p) == MovedAt(FsAt(v), PathOf(source), PathOf(destination), p)
    ensures Placed(FsAt(w), source) && Placed(FsAt(w), destination)
    ensures var e := RenameVerdict(w, PathOf(destination), PathOf(source)); e.None? || e.value == NoSpace || e.value == FileTooLarge
    ensures At(FsAt(v), PathOf(destination)).None? && !(PathOf(source) <= PathOf(destination))
  {
    hide WellFormed, FsAt, PathOf, At, Spelled, Children, Affordable;
    var src, dst := PathOf(source), PathOf(destination);
    WellFormedTree(v);
    FolderStays(FsAt(v), FsAt(w), src, dst);
    assert (dst)[|dst|..] == [] && src + [] == src;
    if dst <= src {
      BelowNothing(FsAt(v), dst, src);
    }
  }

  lemma {:induction false} FolderStays(fs: Fs, after: Fs, src: Path, dst: Path)
    requires Tree(fs) && src != [] && dst != [] && !(src <= dst) && At(fs, dst).None? && At(fs, src).Some?
    requires forall p :: At(after, p) == MovedAt(fs, src, dst, p)
    ensures At(after, Folder(src)) == At(fs, Folder(src)) && At(after, Folder(dst)) == At(fs, Folder(dst))
    ensures At(after, dst) == At(fs, src) && At(after, src).None?
  {
    hide Tree, At;
    assert !(src <= Folder(src)) && !(dst <= Folder(dst));
    assert src <= Folder(dst) ==> src <= dst;
    if dst <= Folder(src) {
      assert dst <= src;
    }
    if dst <= src {
      BelowNothing(fs, dst, src);
    }
    assert dst[|dst|..] == [] && src + [] == src;
  }
}
