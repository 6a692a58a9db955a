/**
  The virtual file system: paths normalised into a buffer, a table of mounts, and
  lookups that go to the mount with the longest prefix.
 */
module VirtualFs {
  import opened Bytes
  import opened Slashes
  import opened VfsPath
  import opened VfsBuffer

  /** A path under construction, and where each of its components starts. */
  class PathBuffer {
    const bytes: array<byte>
    const starts: array<nat>
    var length: nat
    var count: nat

    ghost predicate Valid()
      reads this
    {
      bytes.Length == PATH_CAPACITY && starts.Length == DEPTH && length <= PATH_CAPACITY
    }

    /** The buffer is where the components so far lead. */
    ghost predicate At(cs: seq<Name>)
      reads this, bytes, starts
    {
      && Valid() && Fine(cs)
      && bytes[..] == Ink(cs) && length == |Joined(Place(cs))|
      && count == |Place(cs)| <= DEPTH
      && forall k :: 0 <= k < count ==> starts[k] == |Joined(Place(cs)[..k])|
    }

    constructor ()
      ensures At([]) && fresh(bytes) && fresh(starts)
    {
      bytes := new byte[PATH_CAPACITY](i => 0);
      starts := new nat[DEPTH](i => 0);
      length, count := 1, 0;
      new;
      bytes[0] := SLASH;
      InkStart();
      assert bytes[..] == Inked([SLASH], Blank());
    }

    method PushByte(b: byte) returns (r: Result<()>)
      requires Valid()
      modifies this`length, bytes
      ensures Valid() && r == if old(length) < PATH_CAPACITY then Ok(()) else Err(NameTooLong)
      ensures r.Ok? ==> length == old(length) + 1 && bytes[..] == old(bytes[..])[old(length) := b]
    {
      if length == PATH_CAPACITY {
        return Err(NameTooLong);
      }
      bytes[length] := b;
      length := length + 1;
      r := Ok(());
    }

    method PushBytes(s: seq<byte>) returns (r: Result<()>)
      requires Valid()
      modifies this`length, bytes
      ensures Valid() && r == if old(length) + |s| <= PATH_CAPACITY then Ok(()) else Err(NameTooLong)
      ensures r.Ok? ==> length == old(length) + |s| && bytes[..] == Inked(old(bytes[..length]) + s, old(bytes[..]))
    {
      ghost var b0, n := bytes[..], length;
      for i := 0 to |s|
        invariant Valid() && length == n + i
        invariant bytes[..] == b0[..n] + s[..i] + b0[n + i..]
      {
        r := PushByte(s[i]);
        if r.Err? {
          return;
        }
      }
      r := Ok(());
    }

    /** One component of `append_components`. */
    method AppendComponent(c: Name, ghost cs: seq<Name>) returns (r: Result<()>)
      requires At(cs) && Slashless(c)
      modifies this, bytes, starts
      ensures r == (match Walk([], cs + [c]) case Err(e) => Err(e) case Ok(_) => Ok(()))
      ensures r.Ok? ==> At(cs + [c])
    {
      hide Joined, Fine, Place, Ink, Walk, Legal;
      ghost var s := Place(cs);
      StepWalk(cs, c);
      if c == [] || c == [DOT] {
        return Ok(());
      }
      if c == [DOT, DOT] {
        if count != 0 {
          count := count - 1;
          // The first component starts behind the leading slash, so the length stays positive.
          length := starts[count];
          assert forall k :: 0 <= k < count ==> s[..count][..k] == s[..k];
        }
        PlaceLegal(cs + [c]);
        return Ok(());
      }
      if |c| > NAME_CAPACITY || 0 in c {
        return Err(NameTooLong);
      }
      if count == starts.Length {
        return Err(NameTooLong);
      }
      r := Descend(c, cs);
    }

    method Descend(c: Name, ghost cs: seq<Name>) returns (r: Result<()>)
      requires At(cs) && Slashless(c) && !Stays(c) && !Up(c) && |c| <= NAME_CAPACITY && 0 !in c && count < DEPTH
      modifies this, bytes, starts
      ensures r == if |Joined(Place(cs) + [c])| <= PATH_CAPACITY then Ok(()) else Err(NameTooLong)
      ensures r.Ok? ==> At(cs + [c])
    {
      hide Slashed, Legal, Joined, Fine, Place, Ink;
      ghost var s, ink := Place(cs), bytes[..];
      PlaceLegal(cs);
      InkMeaning(cs);
      RootText(s);
      JoinedNext(s, c);
      var start := length;
      assert bytes[..length] == Joined(s);
      var root := bytes[..length] == [SLASH];
      if !root {
        r := PushByte(SLASH);
        if r.Err? {
          return;
        }
      }
      starts[count] := start;
      count := count + 1;
      ghost var head := bytes[..length];
      assert head == if s == [] then [SLASH] else Joined(s) + [SLASH];
      r := PushBytes(c);
      if r.Ok? {
        assert head + c == Joined(s + [c]);
        assert bytes[..] == Inked(Joined(s + [c]), ink);
        DescendInk(cs, c);
        assert forall k :: 0 <= k < count ==> (s + [c])[..k] == s[..k];
      }
    }

    method AppendComponents(input: seq<byte>, ghost cs: seq<Name>) returns (r: Result<()>)
      requires At(cs)
      modifies this, bytes, starts
      ensures r == (match Walk([], cs + Split(input)) case Err(e) => Err(e) case Ok(_) => Ok(()))
      ensures r.Ok? ==> At(cs + Split(input))
    {
      hide Split, Walk, At, Slashless;
      var parts := Split(input);
      SplitSlashless(input);
      assert cs + parts[..0] == cs;
      for i := 0 to |parts|
        invariant At(cs + parts[..i])
      {
        assert parts[i] in parts;
        r := AppendComponent(parts[i], cs + parts[..i]);
        assert cs + parts[..i] + [parts[i]] == cs + parts[..i + 1];
        if r.Err? {
          WalkConcat([], cs + parts[..i + 1], parts[i + 1..]);
          assert cs + parts == cs + parts[..i + 1] + parts[i + 1..];
          return;
        }
      }
      assert parts[..|parts|] == parts;
      AtValue(cs + parts);
      r := Ok(());
    }

    lemma AtValue(cs: seq<Name>)
      requires At(cs)
      ensures Walk([], cs) == Ok(Place(cs)) && bytes[..] == Ink(cs) && length == |Joined(Place(cs))|
    {
    }
  }

  lemma {:induction false} StepWalk(cs: seq<Name>, c: Name)
    requires Fine(cs) && Slashless(c)
    ensures Walk([], cs + [c]) == Next(Place(cs), c)
    ensures Stays(c) || Up(c) ==> Fine(cs + [c]) && Ink(cs + [c]) == Ink(cs)
    ensures Stays(c) ==> Place(cs + [c]) == Place(cs)
    ensures Up(c) ==> Place(cs + [c]) == if Place(cs) == [] then [] else Place(cs)[..|Place(cs)| - 1]
  {
    hide Joined;
    var all := cs + [c];
    assert all[..|all| - 1] == cs && all[|all| - 1] == c;
  }

  lemma {:induction false} DescendInk(cs: seq<Name>, c: Name)
    requires Fine(cs) && Slashless(c) && !Stays(c) && !Up(c) && |c| <= NAME_CAPACITY && 0 !in c
    requires |Place(cs)| < DEPTH && |Joined(Place(cs) + [c])| <= PATH_CAPACITY
    ensures Fine(cs + [c]) && Place(cs + [c]) == Place(cs) + [c]
    ensures Ink(cs + [c]) == Inked(Joined(Place(cs) + [c]), Ink(cs))
  {
    hide Joined;
    StepWalk(cs, c);
    var all := cs + [c];
    assert all[..|all| - 1] == cs && all[|all| - 1] == c;
  }

  /** `Path::normalize`. */
  method Normalize(path: seq<byte>, cwd: seq<byte>) returns (r: Result<Stored>)
    ensures r == Normalized(path, cwd)
  {
    hide Split, Walk, Ink, PathBuffer.At;
    var output := new PathBuffer();
    ghost var cs: seq<Name> := [];
    if !Absolute(path) {
      if !Absolute(cwd) {
        return Err(InvalidArgument);
      }
      var d := output.AppendComponents(cwd[1..], cs);
      cs := cs + Split(cwd[1..]);
      if d.Err? {
        assert Parts(path, cwd) == cs + Split(path);
        WalkConcat([], cs, Split(path));
        return Err(d.error);
      }
    }
    var rest := if Absolute(path) then path[1..] else path;
    var a := output.AppendComponents(rest, cs);
    cs := cs + Split(rest);
    assert Parts(path, cwd) == cs;
    if a.Err? {
      return Err(a.error);
    }
    assert output.bytes[..] == Ink(cs) && output.length == |Joined(Place(cs))| by { output.AtValue(cs); }
    r := Ok(Stored(output.bytes[..], output.length));
  }
}
