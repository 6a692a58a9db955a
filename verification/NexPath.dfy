/**
  How NexFS reads a path: trimming, splitting at slashes, skipping `.` and empty
  components, refusing `..`; and that splitting off the parent leaves exactly the
  last component.
 */
module NexPath {
  import opened Bytes
  import opened Slashes
  import opened NexLayout
  import opened NexTree

  predicate Skipped(c: Name) {
    c == [] || c == [DOT]
  }

  /** The components that count. */
  function Clean(cs: seq<Name>): Path {
    if cs == [] then []
    else Clean(cs[..|cs| - 1]) + (if Skipped(cs[|cs| - 1]) then [] else [cs[|cs| - 1]])
  }

  /** The components `resolve` walks through. */
  function Components(path: seq<byte>): seq<Name> {
    var trimmed := TrimEnd(TrimStart(path));
    if trimmed == [] then [] else Split(trimmed)
  }

  /** The path as a list of names. */
  function PathOf(path: seq<byte>): Path {
    Clean(Components(path))
  }

  /** `resolve` on components: the inode they lead to, or the first thing wrong. */
  function Resolved(fs: Fs, cs: seq<Name>): Result<nat> {
    if cs == [] then Ok(ROOT)
    else
      var c := cs[|cs| - 1];
      match Resolved(fs, cs[..|cs| - 1])
      case Err(e) => Err(e)
      case Ok(d) =>
        if Skipped(c) then Ok(d)
        else if c == [DOT, DOT] then Err(InvalidPath)
        else if !ValidName(c) then Err(InvalidName)
        else if d !in fs then Err(NotFound)
        else if fs[d].File? then Err(NotDirectory)
        else match Step(fs[d].entries, c) case None => Err(NotFound) case Some(n) => Ok(n)
  }

  /** A walk is never short of space. */
  lemma {:induction false} ResolvedHasSpace(fs: Fs, cs: seq<Name>)
    ensures Resolved(fs, cs) != Err(NoSpace)
  {
    if cs != [] {
      ResolvedHasSpace(fs, cs[..|cs| - 1]);
    }
  }

  /** The first thing wrong decides. */
  lemma {:induction false} ResolvedPrefix(fs: Fs, cs: seq<Name>, k: nat)
    requires k <= |cs| && Resolved(fs, cs[..k]).Err?
    ensures Resolved(fs, cs) == Resolved(fs, cs[..k])
    decreases |cs| - k
  {
    if k == |cs| {
      assert cs[..k] == cs;
    } else {
      assert cs[..k + 1][..k] == cs[..k];
      ResolvedPrefix(fs, cs, k + 1);
    }
  }

  lemma {:induction false} ResolvedInFs(fs: Fs, cs: seq<Name>)
    requires Tree(fs)
    ensures Resolved(fs, cs).Ok? ==> Resolved(fs, cs).value in fs
  {
    hide Tree;
    if Resolved(fs, cs).Ok? {
      ResolvedIsLookup(fs, cs, Resolved(fs, cs).value);
      LookupInFs(fs, Clean(cs));
    } else {
    }
  }

  predicate Acceptable(cs: seq<Name>) {
    forall i :: 0 <= i < |cs| ==> Skipped(cs[i]) || ValidName(cs[i])
  }

  lemma NeverEntered(c: Name)
    ensures Step([], c).None? && !ValidName([DOT, DOT])
  {
  }

  /** `resolve` succeeds exactly on acceptable components that lead somewhere. */
  lemma {:induction false} ResolvedIsLookup(fs: Fs, cs: seq<Name>, n: nat)
    requires Tree(fs)
    ensures Resolved(fs, cs) == Ok(n) <==> Acceptable(cs) && Lookup(fs, Clean(cs)) == Some(n)
  {
    hide Tree, Step, ValidName, Skipped;
    if cs != [] {
      NeverEntered(cs[|cs| - 1]);
      var front, c := cs[..|cs| - 1], cs[|cs| - 1];
      assert cs == front + [c];
      assert Acceptable(cs) <==> Acceptable(front) && (Skipped(c) || ValidName(c));
      LookupInFs(fs, Clean(front));
      LookupSnoc(fs, Clean(front), c);
      if Resolved(fs, front).Ok? {
        ResolvedIsLookup(fs, front, Resolved(fs, front).value);
      } else if Lookup(fs, Clean(front)).Some? {
        ResolvedIsLookup(fs, front, Lookup(fs, Clean(front)).value);
      }
      assert Clean(cs) == if Skipped(c) then Clean(front) else Clean(front) + [c];
    } else {
      assert Clean(cs) == [] && Lookup(fs, []) == Some(ROOT);
    }
  }

  lemma {:induction false} CleanConcat(a: seq<Name>, b: seq<Name>)
    ensures Clean(a + b) == Clean(a) + Clean(b)
  {
    if b == [] {
      assert a + b == a;
    } else {
      var c, x := b[..|b| - 1], b[|b| - 1];
      CleanConcat(a, c);
      assert (a + b)[..|a + b| - 1] == a + c && (a + b)[|a + b| - 1] == x;
      assert Clean(a + b) == Clean(a + c) + (if Skipped(x) then [] else [x]);
    }
  }

  lemma {:induction false} OuterSlashes(s: seq<byte>)
    ensures Clean(Split([SLASH] + s)) == Clean(Split(s)) && Clean(Split(s + [SLASH])) == Clean(Split(s))
  {
    hide FirstSlash, Clean, Split;
    EmptySplit();
    assert [SLASH] + s == [] + [SLASH] + s && s + [SLASH] == s + [SLASH] + [];
    SplitAtSlash([], s);
    SplitAtSlash(s, []);
    CleanConcat([[]], Split(s));
    CleanConcat(Split(s), [[]]);
  }

  lemma EmptySplit()
    ensures Split([]) == [[]] && Clean([[]]) == []
  {
  }

  lemma {:induction false} TrimStartClean(s: seq<byte>)
    ensures Clean(Split(TrimStart(s))) == Clean(Split(s))
  {
    hide Split, Clean;
    if s != [] && s[0] == SLASH {
      TrimStartClean(s[1..]);
      assert s == [SLASH] + s[1..];
      OuterSlashes(s[1..]);
    }
  }

  lemma {:induction false} TrimEndClean(s: seq<byte>)
    ensures Clean(Split(TrimEnd(s))) == Clean(Split(s))
  {
    hide Split, Clean;
    if s != [] && s[|s| - 1] == SLASH {
      var t := s[..|s| - 1];
      TrimEndClean(t);
      assert s == t + [SLASH];
      OuterSlashes(t);
    }
  }

  /** Trimming is invisible once empty components are skipped. */
  lemma {:induction false} PathOfSplit(path: seq<byte>)
    ensures PathOf(path) == Clean(Split(path))
  {
    TrimStartClean(path);
    TrimEndClean(TrimStart(path));
    assert Split([]) == [[]];
  }

  // ---------- split_parent ----------

  function LastSlash(s: seq<byte>): (i: int)
    ensures -1 <= i < |s|
    ensures i >= 0 ==> s[i] == SLASH
    ensures forall k :: i < k < |s| ==> s[k] != SLASH
  {
    if s == [] then -1 else if s[|s| - 1] == SLASH then |s| - 1 else LastSlash(s[..|s| - 1])
  }

  function SplitParent(path: seq<byte>): (r: Result<(seq<byte>, Name)>)
    ensures r.Ok? ==> ValidName(r.value.1)
  {
    var trimmed := TrimEnd(path);
    if trimmed == [] then Err(Busy)
    else
      var i := LastSlash(trimmed);
      var name := trimmed[i + 1..];
      if !ValidName(name) then Err(InvalidName)
      else Ok((if i <= 0 then [SLASH] else trimmed[..i], name))
  }

  lemma {:induction false} SingleComponent(name: Name)
    requires ValidName(name)
    ensures Clean(Split(name)) == [name]
  {
    assert FirstSlash(name) == |name|;
    assert Clean([name]) == Clean([]) + [name];
  }

  /** The parent's path and the name together are the path. */
  lemma {:induction false} SplitParentIsLast(path: seq<byte>)
    requires SplitParent(path).Ok?
    ensures PathOf(path) == PathOf(SplitParent(path).value.0) + [SplitParent(path).value.1]
  {
    hide TrimEnd, LastSlash, FirstSlash, PathOf, Clean, Split;
    var trimmed := TrimEnd(path);
    var i := LastSlash(trimmed);
    var (parent, name) := SplitParent(path).value;
    PathOfSplit(path);
    PathOfSplit(parent);
    TrimEndClean(path);
    SingleComponent(name);
    RootIsEmpty();
    if i < 0 {
      assert trimmed == name;
    } else {
      assert trimmed == trimmed[..i] + [SLASH] + name;
      SplitAtSlash(trimmed[..i], name);
      CleanConcat(Split(trimmed[..i]), Split(name));
      if i == 0 {
        assert trimmed[..i] == [];
      }
    }
  }

  lemma RootIsEmpty()
    ensures Clean(Split([SLASH])) == [] && Clean(Split([])) == []
  {
    assert Split([]) == [[]];
    assert [SLASH] == [] + [SLASH] + [];
    SplitAtSlash([], []);
    assert Clean([[], []]) == Clean([[]]);
  }

  // ---------- names of a UTF-8 path are UTF-8 ----------

  lemma {:induction false} CharLengthPrefix(a: seq<byte>, b: seq<byte>)
    requires a != []
    ensures CharLength(a + [SLASH] + b) == CharLength(a)
  {
    var s := a + [SLASH] + b;
    assert forall k :: 0 <= k < |a| ==> s[k] == a[k];
    assert s[|a|] == SLASH;
  }

  lemma {:induction false} Utf8Split(a: seq<byte>, b: seq<byte>)
    ensures Utf8(a + [SLASH] + b) ==> Utf8(a) && Utf8(b)
  {
    var s := a + [SLASH] + b;
    if a == [] {
      assert CharLength(s) == 1 && s[1..] == b;
    } else if Utf8(s) {
      CharLengthPrefix(a, b);
      var n := CharLength(a);
      assert s[n..] == a[n..] + [SLASH] + b;
      Utf8Split(a[n..], b);
    }
  }

  lemma {:induction false} Utf8TrimEnd(s: seq<byte>)
    requires Utf8(s)
    ensures Utf8(TrimEnd(s))
  {
    hide Utf8;
    if s != [] && s[|s| - 1] == SLASH {
      var t := s[..|s| - 1];
      assert s == t + [SLASH] + [];
      Utf8Split(t, []);
      Utf8TrimEnd(t);
    }
  }

  lemma SplitParentName(path: seq<byte>)
    requires SplitParent(path).Ok?
    ensures SplitParent(path).value.1 == TrimEnd(path)[LastSlash(TrimEnd(path)) + 1..]
  {
    hide LastSlash, TrimEnd;
  }

  lemma {:induction false} SplitParentUtf8(path: seq<byte>)
    requires Utf8(path) && SplitParent(path).Ok?
    ensures Utf8(SplitParent(path).value.1)
  {
    hide SplitParent, LastSlash, Utf8, TrimEnd;
    var trimmed := TrimEnd(path);
    SplitParentName(path);
    Utf8TrimEnd(path);
    var i := LastSlash(trimmed);
    if i >= 0 {
      assert trimmed == trimmed[..i] + [SLASH] + trimmed[i + 1..];
      Utf8Split(trimmed[..i], trimmed[i + 1..]);
    } else {
      assert trimmed[i + 1..] == trimmed;
    }
  }
}
