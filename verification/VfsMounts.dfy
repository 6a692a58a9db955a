/**
  The mount table: which mount a path belongs to, what mounting and unmounting
  change, and what a lookup finds.
 */
module VfsMounts {
  import opened Bytes
  import opened Slashes
  import opened VfsPath
  import opened VfsBuffer
  import opened VirtualFs

  datatype NodeKind = RegularFile | Directory | BlockDevice | CharacterDevice
  datatype Node = Node(id: nat, kind: NodeKind, size: nat, permissions: nat)

  /** A file system as lookups see it. */
  datatype FileSystem = FileSystem(root: Node, find: (nat, Name) -> Result<Node>)
  datatype MountPoint = MountPoint(path: Stored, fs: FileSystem)
  datatype Resolved = Resolved(fs: FileSystem, node: Node)

  type Table = seq<Option<MountPoint>>

  /** The names a stored path stands for. */
  function NamesOf(p: Stored): seq<Name> {
    if p.Valid() then Names(Split(p.Text())) else []
  }

  ghost predicate Good(p: Stored) {
    p.Valid() && Legal(NamesOf(p)) && p.Text() == Joined(NamesOf(p))
  }

  ghost predicate TableOk(t: Table) {
    forall i :: 0 <= i < |t| && t[i].Some? ==> Good(t[i].value.path)
  }

  predicate Covers(t: Table, q: seq<Name>, i: nat) {
    i < |t| && t[i].Some? && NamesOf(t[i].value.path) <= q
  }

  function Depth(t: Table, i: nat): nat {
    if i < |t| && t[i].Some? then |NamesOf(t[i].value.path)| else 0
  }

  ghost predicate NotAbove(t: Table, j: nat, i: nat) {
    Depth(t, j) < Depth(t, i) || (Depth(t, j) == Depth(t, i) && j <= i)
  }

  /** Mount `i` is the deepest that covers `q`, the last of them if several are. */
  ghost predicate Governs(t: Table, q: seq<Name>, i: nat) {
    Covers(t, q, i) && forall j: nat :: Covers(t, q, j) ==> NotAbove(t, j, i)
  }

  lemma {:induction false} GovernsOnce(t: Table, q: seq<Name>, i: nat, j: nat)
    requires Governs(t, q, i) && Governs(t, q, j)
    ensures i == j
  {
    assert Covers(t, q, i) && Covers(t, q, j);
  }

  lemma {:induction false} NamesOfText(p: Stored, s: seq<Name>)
    requires p.Valid() && Legal(s) && p.Text() == Joined(s)
    ensures NamesOf(p) == s && Good(p)
  {
    hide Split, Slashed, Legal, Names, Good;
    assert NamesOf(p) == s by {
      LegalSlashless(s);
      SplitJoined(s);
      EmptySplits();
      var t := Joined(s);
      assert t == [] + [SLASH] + t[1..];
      SplitAtSlash([], t[1..]);
      if s == [] {
        NoNames();
      } else {
        NamesAll(s);
        NamesBehind(s);
      }
    }
    GoodIf(p);
  }

  lemma GoodIf(p: Stored)
    ensures p.Valid() && Legal(NamesOf(p)) && p.Text() == Joined(NamesOf(p)) ==> Good(p)
  {
  }

  lemma NoNames()
    ensures Names([[]] + [[]]) == []
  {
    var e: seq<Name> := [[]] + [[]];
    assert e[..1] == [[]];
    EmptyNames();
  }

  lemma {:induction false} NamesBehind(s: seq<Name>)
    ensures Names([[]] + s) == Names(s)
  {
    if s == [] {
      assert [[]] + s == [[]];
      EmptyNames();
    } else {
      NamesBehind(s[..|s| - 1]);
      assert ([[]] + s)[..|s|] == [[]] + s[..|s| - 1];
    }
  }

  /** Every value `normalize` returns stands for the names it was normalised to. */
  lemma {:induction false} NormalizedGood(path: seq<byte>, cwd: seq<byte>)
    requires Normalized(path, cwd).Ok?
    ensures Normal(path, cwd).Ok? && Good(Normalized(path, cwd).value)
    ensures NamesOf(Normalized(path, cwd).value) == Normal(path, cwd).value
  {
    hide Normal, Normalized, Joined, Legal, NamesOf, Good;
    NormalizedText(path, cwd);
    NormalLegal(path, cwd);
    NamesOfText(Normalized(path, cwd).value, Normal(path, cwd).value);
  }

  /** Among prefixes of one path, the longer text is the deeper mount. */
  lemma {:induction false} LengthIsDepth(q: seq<Name>, a: seq<Name>, b: seq<Name>)
    requires Legal(q) && a <= q && b <= q
    ensures |Joined(a)| < |Joined(b)| <==> |a| < |b|
    ensures |Joined(a)| == |Joined(b)| <==> |a| == |b|
  {
    if |a| < |b| {
      Longer(q, a, b);
    } else if |b| < |a| {
      Longer(q, b, a);
    } else {
      assert a == q[..|a|] == b;
    }
  }

  lemma {:induction false} Longer(q: seq<Name>, a: seq<Name>, b: seq<Name>)
    requires Legal(q) && a <= q && b <= q && |a| < |b|
    ensures |Joined(a)| < |Joined(b)|
  {
    hide Slashed, Plain;
    var i, c := b[..|b| - 1], b[|b| - 1];
    assert i + [c] == b && a + i[|a|..] == i;
    ShorterPrefix(a, i[|a|..]);
    JoinedNext(i, c);
    assert c == q[|b| - 1] && c in q;
    LegalSlashless(q);
  }

  /** Where the names lead in a file system, or the first thing wrong. */
  function Found(fs: FileSystem, names: seq<Name>): Result<Node> {
    if names == [] then Ok(fs.root)
    else
      match Found(fs, names[..|names| - 1])
      case Err(e) => Err(e)
      case Ok(n) => if n.kind != Directory then Err(NotDirectory) else fs.find(n.id, names[|names| - 1])
  }

  lemma {:induction false} FoundPrefix(fs: FileSystem, names: seq<Name>, k: nat)
    requires k <= |names| && Found(fs, names[..k]).Err?
    ensures Found(fs, names) == Found(fs, names[..k])
    decreases |names| - k
  {
    if k == |names| {
      assert names[..k] == names;
    } else {
      assert names[..k + 1][..k] == names[..k];
      FoundPrefix(fs, names, k + 1);
    }
  }

  predicate At(t: Table, i: nat, p: Stored)
    requires i < |t|
  {
    t[i].Some? && t[i].value.path == p
  }

  /** The first free slot. */
  function FirstFree(t: Table): (i: nat)
    ensures i <= |t|
    ensures i < |t| ==> t[i].None?
    ensures forall j :: 0 <= j < i ==> t[j].Some?
  {
    if t == [] || t[0].None? then 0 else 1 + FirstFree(t[1..])
  }

  /** The first slot that holds `p`. */
  function FirstAt(t: Table, p: Stored): (i: nat)
    ensures i <= |t|
    ensures i < |t| ==> At(t, i, p)
    ensures forall j :: 0 <= j < i ==> !At(t, j, p)
  {
    if t == [] || At(t, 0, p) then 0
    else
      assert forall j :: 1 <= j < |t| ==> At(t, j, p) == At(t[1..], j - 1, p);
      1 + FirstAt(t[1..], p)
  }

  const ROOT: seq<byte> := [SLASH]

  /** What `mount` makes of the table. */
  function Mounted(t: Table, path: seq<byte>, fs: FileSystem): Result<Table> {
    match Normalized(path, ROOT)
    case Err(e) => Err(e)
    case Ok(p) =>
      if FirstAt(t, p) < |t| then Err(AlreadyExists)
      else if FirstFree(t) == |t| then Err(MountLimit)
      else Ok(t[FirstFree(t) := Some(MountPoint(p, fs))])
  }

  /** What `unmount` makes of the table. */
  function Unmounted(t: Table, path: seq<byte>): Result<Table> {
    match Normalized(path, ROOT)
    case Err(e) => Err(e)
    case Ok(p) => if FirstAt(t, p) == |t| then Err(NotFound) else Ok(t[FirstAt(t, p) := None])
  }

  /** Unmounting takes back exactly what mounting added. */
  lemma {:induction false} UnmountUndoesMount(t: Table, path: seq<byte>, fs: FileSystem)
    requires Mounted(t, path, fs).Ok?
    ensures Unmounted(Mounted(t, path, fs).value, path) == Ok(t)
  {
    hide Normalized;
    var p, k := Normalized(path, ROOT).value, FirstFree(t);
    var u := t[k := Some(MountPoint(p, fs))];
    assert At(u, k, p);
    assert forall j :: 0 <= j < |t| && j != k ==> At(u, j, p) == At(t, j, p);
    assert FirstAt(u, p) == k;
    assert u[k := None] == t;
  }

  /** A mount takes over the paths below it that no deeper mount has, and no others. */
  lemma {:induction false} MountTakesOver(t: Table, path: seq<byte>, fs: FileSystem, q: seq<Name>, i: nat)
    requires Mounted(t, path, fs).Ok? && Governs(t, q, i)
    ensures Normal(path, ROOT).Ok?
    ensures var u, p, k := Mounted(t, path, fs).value, Normal(path, ROOT).value, FirstFree(t);
            if p <= q && (Depth(t, i) < |p| || (Depth(t, i) == |p| && i < k)) then Governs(u, q, k)
            else Governs(u, q, i)
  {
    hide Normalized, Normal, NamesOf, Stored.Valid;
    NormalizedGood(path, ROOT);
    var u, k := Mounted(t, path, fs).value, FirstFree(t);
    assert NamesOf(u[k].value.path) == Normal(path, ROOT).value;
    assert forall j: nat :: j != k ==> Covers(u, q, j) == Covers(t, q, j) && Depth(u, j) == Depth(t, j);
    assert !Covers(t, q, k) && Covers(t, q, i);
  }

  lemma {:induction false} TableKept(t: Table, path: seq<byte>, fs: FileSystem)
    requires TableOk(t)
    ensures Mounted(t, path, fs).Ok? ==> TableOk(Mounted(t, path, fs).value)
    ensures Unmounted(t, path).Ok? ==> TableOk(Unmounted(t, path).value)
  {
    hide Normalized, Good;
    if Normalized(path, ROOT).Ok? {
      NormalizedGood(path, ROOT);
    }
  }

  /**
    Mounting a path whose normalised text is mounted already is refused exactly
    when the path went down to its end without passing a longer one.
   */
  lemma {:induction false} RemountRefused(t: Table, path: seq<byte>, a: FileSystem, b: FileSystem)
    requires Normal(path, ROOT).Ok? && Mounted(t, Joined(Normal(path, ROOT).value), a).Ok?
    requires !Direct(path, ROOT) ==> FirstAt(t, Normalized(path, ROOT).value) == |t|
    ensures Mounted(Mounted(t, Joined(Normal(path, ROOT).value), a).value, path, b) == Err(AlreadyExists)
            <==> Direct(path, ROOT)
  {
    hide Normalized, Normal, Direct, Joined;
    NormalizedText(path, ROOT);
    StoredCanonically(path, ROOT, ROOT);
    var text := Joined(Normal(path, ROOT).value);
    var p, c, k := Normalized(path, ROOT).value, Normalized(text, ROOT).value, FirstFree(t);
    var u := Mounted(t, text, a).value;
    assert At(u, k, p) <==> p == c;
    assert forall j :: 0 <= j < |t| && j != k ==> At(u, j, p) == At(t, j, p);
  }

  class Vfs {
    var mounts: Table

    ghost predicate Valid()
      reads this
    {
      TableOk(mounts)
    }

    constructor (capacity: nat)
      ensures Valid() && |mounts| == capacity && forall i :: 0 <= i < capacity ==> mounts[i].None?
    {
      mounts := seq(capacity, i => None);
    }

    method Mount(path: seq<byte>, fs: FileSystem) returns (r: Result<()>)
      requires Valid()
      modifies this
      ensures Valid() && mounts == (match Mounted(old(mounts), path, fs) case Err(_) => old(mounts) case Ok(t) => t)
      ensures r == match Mounted(old(mounts), path, fs) case Err(e) => Err(e) case Ok(_) => Ok(())
    {
      hide TableOk, Normalized;
      TableKept(mounts, path, fs);
      var n := Normalize(path, ROOT);
      if n.Err? {
        return Err(n.error);
      }
      var i := FindMount(n.value);
      if i < |mounts| {
        return Err(AlreadyExists);
      }
      i := 0;
      while i < |mounts| && mounts[i].Some?
        invariant i <= |mounts| && mounts == old(mounts)
        invariant forall j :: 0 <= j < i ==> mounts[j].Some?
      {
        i := i + 1;
      }
      assert i == FirstFree(mounts);
      if i == |mounts| {
        return Err(MountLimit);
      }
      mounts := mounts[i := Some(MountPoint(n.value, fs))];
      r := Ok(());
    }

    method FindMount(p: Stored) returns (i: nat)
      ensures i == FirstAt(mounts, p)
    {
      i := 0;
      while i < |mounts| && !(mounts[i].Some? && mounts[i].value.path == p)
        invariant i <= |mounts|
        invariant forall j :: 0 <= j < i ==> !At(mounts, j, p)
      {
        i := i + 1;
      }
      assert i < |mounts| ==> At(mounts, i, p);
    }

    method Unmount(path: seq<byte>) returns (r: Result<()>)
      requires Valid()
      modifies this
      ensures Valid() && mounts == (match Unmounted(old(mounts), path) case Err(_) => old(mounts) case Ok(t) => t)
      ensures r == match Unmounted(old(mounts), path) case Err(e) => Err(e) case Ok(_) => Ok(())
    {
      hide TableOk, Normalized;
      TableKept(mounts, path, FileSystem(Node(0, Directory, 0, 0), (_, _) => Err(NotFound)));
      var n := Normalize(path, ROOT);
      if n.Err? {
        return Err(n.error);
      }
      var i := FindMount(n.value);
      if i == |mounts| {
        return Err(NotFound);
      }
      mounts := mounts[i := None];
      r := Ok(());
    }

    /** The mount a path belongs to. */
    method SelectMount(path: Stored) returns (r: Option<MountPoint>)
      requires Valid() && Good(path)
      ensures r.None? <==> forall j: nat :: !Covers(mounts, NamesOf(path), j)
      ensures r.Some? ==> exists i: nat :: Governs(mounts, NamesOf(path), i) && mounts[i] == r
    {
      hide Good, NamesOf;
      ghost var q := NamesOf(path);
      ghost var at: nat := 0;
      r := None;
      for i := 0 to |mounts|
        invariant r.None? ==> forall j: nat :: j < i ==> !Covers(mounts, q, j)
        invariant r.Some? ==> at < i && mounts[at] == r && Covers(mounts, q, at)
        invariant r.Some? ==> forall j: nat :: j < i && Covers(mounts, q, j) ==> NotAbove(mounts, j, at)
      {
        if mounts[i].Some? {
          var m := mounts[i].value;
          GoodText(path);
          GoodText(m.path);
          PrefixIff(q, NamesOf(m.path));
          if HasPrefix(path.Text(), m.path.Text()) {
            assert Covers(mounts, q, i);
            if r.Some? {
              GoodText(r.value.path);
              LengthIsDepth(q, NamesOf(r.value.path), NamesOf(m.path));
            }
            if r.None? || r.value.path.length <= m.path.length {
              r, at := mounts[i], i;
            }
          }
        }
      }
      if r.Some? {
        assert Governs(mounts, q, at);
      }
    }

    method Lookup(path: seq<byte>, cwd: seq<byte>) returns (r: Result<Resolved>)
      requires Valid()
      ensures Normal(path, cwd).Err? ==> r == Err(Normal(path, cwd).error)
      ensures Normal(path, cwd).Ok? && (forall i: nat :: !Covers(mounts, Normal(path, cwd).value, i)) ==> r == Err(NotFound)
      ensures Normal(path, cwd).Ok? ==> forall i: nat :: Governs(mounts, Normal(path, cwd).value, i) ==>
                var m := mounts[i].value;
                r == match Found(m.fs, Normal(path, cwd).value[Depth(mounts, i)..])
                     case Err(e) => Err(e)
                     case Ok(n) => Ok(Resolved(m.fs, n))
    {
      hide Normal, Normalized, NamesOf, Good, TableOk, Found;
      var p := Normalize(path, cwd);
      NormalizedText(path, cwd);
      if p.Err? {
        return Err(p.error);
      }
      NormalizedGood(path, cwd);
      ghost var q := Normal(path, cwd).value;
      var m := SelectMount(p.value);
      if m.None? {
        return Err(NotFound);
      }
      ghost var i: nat :| Governs(mounts, q, i) && mounts[i] == m;
      forall j: nat | Governs(mounts, q, j) ensures j == i { GovernsOnce(mounts, q, i, j); }
      TableGood(mounts, i);
      GoodText(p.value);
      GoodText(m.value.path);
      var rest := Relative(p.value.Text(), m.value.path.Text());
      RelativeNames(q, NamesOf(m.value.path));
      var n := Descend(m.value.fs, Split(rest));
      r := match n case Err(e) => Err(e) case Ok(node) => Ok(Resolved(m.value.fs, node));
    }
  }

  /** The loop of `lookup` over the components of the remaining path. */
  method Descend(fs: FileSystem, parts: seq<Name>) returns (r: Result<Node>)
    ensures r == Found(fs, Names(parts))
  {
    hide Found, Names;
    var node := fs.root;
    FoundNothing(fs);
    assert parts[..0] == [];
    for i := 0 to |parts|
      invariant Found(fs, Names(parts[..i])) == Ok(node)
    {
      NamesStep(parts, i);
      if parts[i] != [] {
        FoundStep(fs, Names(parts[..i]), parts[i], node);
        r := if node.kind != Directory then Err(NotDirectory) else fs.find(node.id, parts[i]);
        if r.Err? {
          NamesPrefix(parts, i + 1);
          ghost var n := Names(parts[..i + 1]);
          assert Names(parts)[..|n|] == n;
          FoundPrefix(fs, Names(parts), |n|);
          return;
        }
        node := r.value;
      }
    }
    assert parts[..|parts|] == parts;
    r := Ok(node);
  }

  lemma {:induction false} NamesStep(cs: seq<Name>, k: nat)
    requires k < |cs|
    ensures Names(cs[..k + 1]) == if cs[k] == [] then Names(cs[..k]) else Names(cs[..k]) + [cs[k]]
  {
    assert cs[..k + 1][..k] == cs[..k];
  }

  lemma {:induction false} FoundStep(fs: FileSystem, names: seq<Name>, c: Name, node: Node)
    requires Found(fs, names) == Ok(node)
    ensures Found(fs, names + [c]) == if node.kind != Directory then Err(NotDirectory) else fs.find(node.id, c)
  {
    assert (names + [c])[..|names|] == names;
  }

  lemma FoundNothing(fs: FileSystem)
    ensures Names([]) == [] && Found(fs, []) == Ok(fs.root)
  {
  }

  lemma {:induction false} NamesPrefix(cs: seq<Name>, k: nat)
    requires k <= |cs|
    ensures Names(cs[..k]) <= Names(cs)
  {
    if k < |cs| {
      NamesPrefix(cs[..|cs| - 1], k);
      assert cs[..|cs| - 1][..k] == cs[..k];
    } else {
      assert cs[..k] == cs;
    }
  }

  lemma GoodText(p: Stored)
    ensures Good(p) ==> p.Valid() && Legal(NamesOf(p)) && p.Text() == Joined(NamesOf(p)) && p.length == |Joined(NamesOf(p))|
  {
  }

  lemma TableGood(t: Table, i: nat)
    requires TableOk(t) && i < |t| && t[i].Some?
    ensures Good(t[i].value.path)
  {
  }
}
