/**
  When mounting and unmounting succeed, said of the slots of the table, and
  what a lookup finds behind a fresh mount.
 */
module VfsVerdict {
  import opened Bytes
  import opened VfsPath
  import opened VfsBuffer
  import opened VfsMounts

  /** Some slot of the table holds the path. */
  predicate Holds(t: Table, p: Stored) {
    exists i :: 0 <= i < |t| && At(t, i, p)
  }

  predicate Crowded(t: Table) {
    forall i :: 0 <= i < |t| ==> t[i].Some?
  }

  /** The two tables differ in slot `k` and nowhere else. */
  ghost predicate OneSlot(t: Table, u: Table, k: nat) {
    |t| == |u| && k < |t| && forall i :: 0 <= i < |t| && i != k ==> u[i] == t[i]
  }

  /** The first free slot takes the mount. */
  ghost predicate TakenBy(t: Table, u: Table, m: MountPoint, k: nat) {
    OneSlot(t, u, k) && t[k].None? && u[k] == Some(m) && Crowded(t[..k])
  }

  /** The first slot that held the path is free again. */
  ghost predicate GivenUp(t: Table, u: Table, p: Stored, k: nat) {
    OneSlot(t, u, k) && At(t, k, p) && u[k].None? && !Holds(t[..k], p)
  }

  lemma {:induction false} MountExactly(t: Table, path: seq<byte>, fs: FileSystem)
    ensures Normal(path, ROOT).Err? ==> Mounted(t, path, fs) == Err(Normal(path, ROOT).error)
    ensures Normal(path, ROOT).Ok? ==> Normalized(path, ROOT).Ok?
    ensures Normal(path, ROOT).Ok? ==>
              var r, p := Mounted(t, path, fs), Normalized(path, ROOT).value;
              && (r == Err(AlreadyExists) <==> Holds(t, p))
              && (r == Err(MountLimit) <==> !Holds(t, p) && Crowded(t))
              && (r.Ok? <==> !Holds(t, p) && !Crowded(t))
              && (r.Ok? ==> exists k: nat :: TakenBy(t, r.value, MountPoint(p, fs), k))
  {
    hide Normal, Normalized;
    NormalizedText(path, ROOT);
    if Normal(path, ROOT).Ok? {
      var p, k := Normalized(path, ROOT).value, FirstFree(t);
      assert FirstAt(t, p) < |t| <==> Holds(t, p);
      assert k < |t| <==> !Crowded(t);
      if Mounted(t, path, fs).Ok? {
        assert TakenBy(t, Mounted(t, path, fs).value, MountPoint(p, fs), k);
      }
    }
  }

  lemma {:induction false} UnmountExactly(t: Table, path: seq<byte>)
    ensures Normal(path, ROOT).Err? ==> Unmounted(t, path) == Err(Normal(path, ROOT).error)
    ensures Normal(path, ROOT).Ok? ==> Normalized(path, ROOT).Ok?
    ensures Normal(path, ROOT).Ok? ==>
              var r, p := Unmounted(t, path), Normalized(path, ROOT).value;
              && (r == Err(NotFound) <==> !Holds(t, p))
              && (r.Ok? <==> Holds(t, p))
              && (r.Ok? ==> exists k: nat :: GivenUp(t, r.value, p, k))
  {
    hide Normal, Normalized;
    NormalizedText(path, ROOT);
    if Normal(path, ROOT).Ok? {
      var p := Normalized(path, ROOT).value;
      var k := FirstAt(t, p);
      assert k < |t| <==> Holds(t, p);
      if k < |t| {
        assert forall i :: 0 <= i < k ==> At(t[..k], i, p) == At(t, i, p);
        assert GivenUp(t, Unmounted(t, path).value, p, k);
      }
    }
  }

  /** Every mount that covers `q` lies above depth `n`. */
  ghost predicate OnlyAbove(t: Table, q: seq<Name>, n: nat) {
    forall i: nat :: Covers(t, q, i) ==> Depth(t, i) < n
  }

  lemma {:induction false} NewMountGoverns(t: Table, path: seq<byte>, fs: FileSystem, q: seq<Name>)
    requires Mounted(t, path, fs).Ok? && Normal(path, ROOT).Ok? && Normal(path, ROOT).value <= q
    requires OnlyAbove(t, q, |Normal(path, ROOT).value|)
    ensures var u, k := Mounted(t, path, fs).value, FirstFree(t);
            Governs(u, q, k) && u[k].value.fs == fs && Depth(u, k) == |Normal(path, ROOT).value|
  {
    hide Normalized, Normal, NamesOf, Stored.Valid;
    NormalizedGood(path, ROOT);
    var u, k := Mounted(t, path, fs).value, FirstFree(t);
    assert NamesOf(u[k].value.path) == Normal(path, ROOT).value;
    assert forall j: nat :: j != k ==> Covers(u, q, j) == Covers(t, q, j) && Depth(u, j) == Depth(t, j);
  }

  /** A path below a new mount is looked up in the mounted file system, from its root. */
  method MountThenLookup(vfs: Vfs, path: seq<byte>, fs: FileSystem, below: seq<byte>, cwd: seq<byte>)
    returns (m: Result<()>, r: Result<Resolved>)
    requires vfs.Valid()
    requires Normal(path, ROOT).Ok? && Normal(below, cwd).Ok? && Normal(path, ROOT).value <= Normal(below, cwd).value
    requires OnlyAbove(vfs.mounts, Normal(below, cwd).value, |Normal(path, ROOT).value|)
    modifies vfs
    ensures m.Ok? ==> r == match Found(fs, Normal(below, cwd).value[|Normal(path, ROOT).value|..])
                           case Err(e) => Err(e)
                           case Ok(n) => Ok(Resolved(fs, n))
    ensures m.Ok? && Normal(below, cwd) == Normal(path, ROOT) ==> r == Ok(Resolved(fs, fs.root))
  {
    hide Normalized, Normal, NamesOf, TableOk;
    ghost var was := vfs.mounts;
    m := vfs.Mount(path, fs);
    r := vfs.Lookup(below, cwd);
    if m.Ok? {
      NewMountGoverns(was, path, fs, Normal(below, cwd).value);
      assert Governs(vfs.mounts, Normal(below, cwd).value, FirstFree(was));
      assert Normal(path, ROOT).value[|Normal(path, ROOT).value|..] == [];
    }
  }
}
