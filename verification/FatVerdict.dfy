/**
  When `write_file` succeeds, said of what paths read and of the number of free
  clusters alone, and what writing twice to one path does.
 */
module FatVerdict {
  import opened Arithmetic
  import opened Bytes
  import opened FatChain
  import opened FatVolume
  import opened FatDir
  import opened FatTree
  import opened FatStore
  import opened FatPath
  import opened FatDriver

  /** Every slot of the directory has been used and none given back. */
  ghost predicate Full(v: Volume, d: nat) {
    HasChain(v.fat, d) && forall k: nat :: HasSlot(DirBytes(v, d), k) ==> SlotAt(DirBytes(v, d), k)[0] != 0 && SlotAt(DirBytes(v, d), k)[0] != 0xe5
  }

  ghost predicate Missing(v: Volume, root: nat, p: Path) {
    ReadAt(v, root, p) == Err(NotFound) && Resolve(v, root, p).Err?
  }

  ghost function WriteVerdict(v: Volume, root: nat, p: Path, length: nat): Option<FatError> {
    if p == [] then Some(InvalidName)
    else
      var free := |FreeSet(v.fat)|;
      match Resolve(v, root, p[..|p| - 1])
      case Err(_) => Some(NotFound)
      case Ok(d) =>
        if Resolve(v, root, p).Ok? then Some(AlreadyExists)
        else if length > free * v.size then Some(NoSpace)
        else if Missing(v, root, p) && Full(v, d) && length > (free - 1) * v.size then Some(NoSpace)
        else None
  }

  lemma {:induction false} NeededMore(length: nat, size: nat, n: int)
    requires size > 0
    ensures n >= 0 ==> (Needed(length, size) > n <==> length > n * size)
    ensures Needed(length, size) > -1
  {
    var q, r := (length + size - 1) / size, (length + size - 1) % size;
    DivMod(length + size - 1, size);
    assert q * size + r == length + size - 1;
    if n >= 0 {
      if q > n {
        MulMono(n + 1, q, size);
        assert (n + 1) * size == n * size + size;
      } else {
        MulMono(q, n, size);
      }
    }
  }

  /** What a name of a directory says about the path. */
  lemma {:induction false} NameAt(v: Volume, root: nat, heads: Heads, p: Path, d: nat)
    requires Tidy(v, root, heads) && PlainPath(p) && p != [] && Resolve(v, root, p[..|p| - 1]) == Ok(d)
    ensures d in heads && heads[d] && HasChain(v.fat, d) && v.size > 0
    ensures var bytes := DirBytes(v, d);
      var found := Find(bytes, p[|p| - 1], 0);
      && (found.None? <==> Missing(v, root, p))
      && (found.Some? && IsDirectory(SlotAt(bytes, found.value)) <==> Resolve(v, root, p).Ok?)
  {
    hide Find, Visible, ChainsApart, SingleRefs, IsDirectory, ClusterOf, SizeOf, DirBytes, SlotAt;
    ResolveStays(v, root, heads, p[..|p| - 1]);
    var bytes, name := DirBytes(v, d), p[|p| - 1];
    VisibleFound(v, d, name);
    EnterStays(v, root, heads, d, name);
    assert DirOk(v, root, heads, d);
    var found := Find(bytes, name, 0);
    if found.Some? {
      assert EntryOk(v, root, heads, SlotAt(bytes, found.value));
    }
  }

  lemma {:induction false} FullIff(v: Volume, d: nat)
    requires HasChain(v.fat, d)
    ensures FirstVacant(DirBytes(v, d), 0).None? <==> Full(v, d)
  {
    hide DirBytes, FirstVacant, SlotAt;
    FirstVacantMeans(DirBytes(v, d), 0);
  }

  lemma {:induction false} StoreExactly(v: Volume, root: nat, heads: Heads, p: Path, d: nat, length: nat)
    requires Tidy(v, root, heads) && PlainPath(p) && p != [] && Resolve(v, root, p[..|p| - 1]) == Ok(d)
    ensures StoreError(v, d, p[|p| - 1], length) == WriteVerdict(v, root, p, length)
  {
    hide Tidy, Find, DirBytes, FirstVacant, SlotAt, IsDirectory, FreeSet, Missing, Full, Resolve, Needed;
    NameAt(v, root, heads, p, d);
    FullIff(v, d);
    NeededMore(length, v.size, |FreeSet(v.fat)|);
    NeededMore(length, v.size, |FreeSet(v.fat)| - 1);
  }

  /** Whether a file can be written, and the error otherwise. */
  lemma {:induction false} WriteExactly(fs: Fat32, path: seq<byte>, length: nat)
    requires fs.Ready()
    ensures fs.WriteError(path, length) ==
      if length >= 0x1_0000_0000 then Some(TooLarge)
      else match PathComponents(path) case Err(_) => Some(InvalidName) case Ok(p) => WriteVerdict(fs.V(), fs.g.root, p, length)
  {
    hide Tidy, View, WriteVerdict, StoreError, Resolve, PathComponents;
    if length < 0x1_0000_0000 && PathComponents(path).Ok? {
      var p := PathComponents(path).value;
      if p != [] {
        ResolveStays(fs.V(), fs.g.root, fs.heads, p[..|p| - 1]);
        if Resolve(fs.V(), fs.g.root, p[..|p| - 1]).Ok? {
          StoreExactly(fs.V(), fs.g.root, fs.heads, p, Resolve(fs.V(), fs.g.root, p[..|p| - 1]).value, length);
        } else {
          NoParent(fs.V(), fs.g.root, p, length);
        }
      } else {
        NoName(fs.V(), fs.g.root, length);
      }
    }
  }

  lemma NoParent(v: Volume, root: nat, p: Path, length: nat)
    requires p != [] && Resolve(v, root, p[..|p| - 1]).Err?
    ensures WriteVerdict(v, root, p, length) == Some(NotFound)
  {
    hide Resolve;
  }

  lemma NoName(v: Volume, root: nat, length: nat)
    ensures WriteVerdict(v, root, [], length) == Some(InvalidName)
  {
  }

  /** The free clusters afterwards: less those of the contents and one for a full directory, plus those of the replaced file. */
  lemma {:induction false} FreeExactly(fs: Fat32, path: seq<byte>, length: nat)
    requires fs.Ready() && fs.WriteError(path, length).None?
    ensures var v, p := fs.V(), PathComponents(path).value;
      && p != [] && Resolve(v, fs.g.root, p[..|p| - 1]).Ok? && v.size > 0
      && fs.FreeAfter(path, length) == |FreeSet(v.fat)| - Needed(length, v.size) + |ClustersAt(v, fs.g.root, p)|
         - if Missing(v, fs.g.root, p) && Full(v, Resolve(v, fs.g.root, p[..|p| - 1]).value) then 1 else 0
  {
    hide Tidy, View, StoreError, Resolve, PathComponents, Find, FirstVacant, DirBytes, SlotAt, ClusterOf, IsDirectory, FreeSet, Needed, Missing, Full;
    var v, p := fs.V(), PathComponents(path).value;
    var d := Resolve(v, fs.g.root, p[..|p| - 1]).value;
    NameAt(v, fs.g.root, fs.heads, p, d);
    FullIff(v, d);
  }

  /** The path is in a directory, is none, and there are clusters for both contents and one more. */
  ghost predicate Receptive(v: Volume, root: nat, path: seq<byte>, first: nat, second: nat) {
    && v.size > 0 && first < 0x1_0000_0000 && second < 0x1_0000_0000
    && Needed(first, v.size) + Needed(second, v.size) < |FreeSet(v.fat)|
    && match PathComponents(path)
       case Err(_) => false
       case Ok(p) => p != [] && Resolve(v, root, p[..|p| - 1]).Ok? && Resolve(v, root, p).Err?
  }

  /** The clusters of the first contents are all free again. */
  ghost predicate Recycled(v: Volume, w: Volume, root: nat, path: seq<byte>, first: nat, second: nat) {
    && v.size > 0 && PathComponents(path).Ok?
    && var cs := ClustersAt(v, root, PathComponents(path).value);
    && |cs| == Needed(first, v.size) && (forall c :: c in cs ==> IsFree(w.fat, c))
    && |FreeSet(w.fat)| == |FreeSet(v.fat)| + Needed(first, v.size) - Needed(second, v.size)
  }

  /**
    Writes twice to one path.  If the directory is there, the path is no directory and the
    free clusters suffice for both contents and one more, both writes succeed; then the
    second contents are read, and the clusters of the first are free again.
   */
  method WriteTwice(fs: Fat32, path: seq<byte>, first: seq<byte>, second: seq<byte>)
    returns (a: Result<()>, b: Result<()>, read: Result<seq<byte>>, ghost between: Volume)
    requires fs.Ready()
    modifies fs`device, fs`heads
    ensures fs.Ready() && between.size == fs.V().size > 0
    ensures Receptive(old(fs.V()), fs.g.root, path, |first|, |second|) ==> a.Ok? && b.Ok?
    ensures a.Ok? && b.Ok? ==> PathComponents(path).Ok? && read == Ok(second) && ReadAt(between, fs.g.root, PathComponents(path).value) == Ok(first)
    ensures a.Ok? && b.Ok? ==> Recycled(between, fs.V(), fs.g.root, path, |first|, |second|)
  {
    hide Tidy, View, PathComponents, Resolve, ReadAt, ClustersAt, FreeSet, Needed, IsFree, Full, WriteVerdict, Fat32.WriteError, Fat32.FreeAfter;
    ghost var v, root, p := fs.V(), fs.g.root, PathComponents(path);
    WriteExactly(fs, path, |first|);
    if fs.WriteError(path, |first|).None? {
      FreeExactly(fs, path, |first|);
    }
    a := fs.WriteFile(path, first);
    between := fs.V();
    ReadySize(fs);
    WriteExactly(fs, path, |second|);
    if fs.WriteError(path, |second|).None? {
      FreeExactly(fs, path, |second|);
    }
    if p.Ok? && p.value != [] {
      Allowed(v, root, p.value, |first|, |second|);
      if a.Ok? {
        Allowed(between, root, p.value, |second|, 0);
        ThereNow(between, root, p.value);
      }
    }
    b := fs.WriteFile(path, second);
    ReadySize(fs);
    read := fs.ReadFile(path);
  }

  lemma ReadySize(fs: Fat32)
    requires fs.Ready()
    ensures fs.V().size > 0
  {
    hide View;
  }

  lemma ThereNow(v: Volume, root: nat, p: Path)
    requires ReadAt(v, root, p).Ok?
    ensures !Missing(v, root, p)
  {
    hide ReadAt;
  }

  /** Enough room for a file, whatever its directory looks like. */
  lemma {:induction false} Allowed(v: Volume, root: nat, p: Path, length: nat, more: nat)
    requires v.size > 0 && p != []
    ensures Resolve(v, root, p[..|p| - 1]).Ok? && Resolve(v, root, p).Err? && Needed(length, v.size) + Needed(more, v.size) < |FreeSet(v.fat)| ==>
      WriteVerdict(v, root, p, length).None?
    ensures Resolve(v, root, p[..|p| - 1]).Ok? && Resolve(v, root, p).Err? && !Missing(v, root, p) && Needed(length, v.size) <= |FreeSet(v.fat)| ==>
      WriteVerdict(v, root, p, length).None?
  {
    hide Resolve, FreeSet, Needed, Missing, Full;
    NeededMore(length, v.size, |FreeSet(v.fat)|);
    NeededMore(length, v.size, |FreeSet(v.fat)| - 1);
  }
}
