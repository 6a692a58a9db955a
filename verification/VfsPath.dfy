/**
  Absolute paths: what normalising means on component lists, and that the text of a
  normalised path determines its components, its prefixes and its remainder.
 */
module VfsPath {
  import opened Bytes
  import opened Slashes

  const PATH_CAPACITY: nat := 256
  const NAME_CAPACITY: nat := 64
  const DEPTH: nat := 64

  type Name = seq<byte>

  datatype VfsError = InvalidArgument | NameTooLong | AlreadyExists | MountLimit | NotFound | NotDirectory
  datatype Result<+T> = Ok(value: T) | Err(error: VfsError)

  /** Every name behind a slash. */
  function Slashed(s: seq<Name>): seq<byte> {
    if s == [] then [] else Slashed(s[..|s| - 1]) + [SLASH] + s[|s| - 1]
  }

  /** The text of a list of names. */
  function Joined(s: seq<Name>): (r: seq<byte>)
    ensures |r| > 0
  {
    if s == [] then [SLASH] else Slashed(s)
  }

  predicate Stays(c: Name) {
    c == [] || c == [DOT]
  }

  predicate Up(c: Name) {
    c == [DOT, DOT]
  }

  predicate Slashless(c: Name) {
    forall k :: 0 <= k < |c| ==> c[k] != SLASH
  }

  /** One component: stay, go up, or go down while everything fits. */
  function Next(s: seq<Name>, c: Name): Result<seq<Name>> {
    if Stays(c) then Ok(s)
    else if Up(c) then Ok(if s == [] then [] else s[..|s| - 1])
    else if |c| > NAME_CAPACITY || 0 in c || |s| == DEPTH then Err(NameTooLong)
    else if |Joined(s + [c])| > PATH_CAPACITY then Err(NameTooLong)
    else Ok(s + [c])
  }

  function Walk(s: seq<Name>, cs: seq<Name>): Result<seq<Name>> {
    if cs == [] then Ok(s)
    else
      match Walk(s, cs[..|cs| - 1])
      case Err(e) => Err(e)
      case Ok(t) => Next(t, cs[|cs| - 1])
  }

  predicate Absolute(path: seq<byte>) {
    path != [] && path[0] == SLASH
  }

  /** The components a path is made of, those of the current directory first. */
  function Parts(path: seq<byte>, cwd: seq<byte>): seq<Name> {
    if Absolute(path) then Split(path[1..])
    else (if Absolute(cwd) then Split(cwd[1..]) else []) + Split(path)
  }

  /** What `normalize` means: the names the path leads through. */
  function Normal(path: seq<byte>, cwd: seq<byte>): Result<seq<Name>> {
    if !Absolute(path) && !Absolute(cwd) then Err(InvalidArgument) else Walk([], Parts(path, cwd))
  }

  predicate Plain(c: Name) {
    !Stays(c) && !Up(c) && |c| <= NAME_CAPACITY && 0 !in c && Slashless(c)
  }

  predicate Legal(s: seq<Name>) {
    |s| <= DEPTH && |Joined(s)| <= PATH_CAPACITY && forall c <- s :: Plain(c)
  }

  lemma {:induction false} NextLegal(s: seq<Name>, c: Name)
    requires Legal(s) && Slashless(c) && Next(s, c).Ok?
    ensures Legal(Next(s, c).value)
  {
    hide Plain, Slashed;
    if s != [] {
      ShorterPrefix(s[..|s| - 1], [s[|s| - 1]]);
      assert s[..|s| - 1] + [s[|s| - 1]] == s;
    }
    PlainIf(c);
  }

  lemma PlainIf(c: Name)
    ensures !Stays(c) && !Up(c) && |c| <= NAME_CAPACITY && 0 !in c && Slashless(c) ==> Plain(c)
  {
  }

  lemma {:induction false} SlashedConcat(a: seq<Name>, b: seq<Name>)
    ensures Slashed(a + b) == Slashed(a) + Slashed(b)
  {
    if b == [] {
      assert a + b == a;
    } else {
      var i := b[..|b| - 1];
      SlashedConcat(a, i);
      assert (a + b)[..|a + b| - 1] == a + i;
    }
  }

  lemma {:induction false} ShorterPrefix(a: seq<Name>, b: seq<Name>)
    ensures |Joined(a)| <= |Joined(a + b)|
  {
    SlashedConcat(a, b);
    if a == [] {
      assert a + b == b;
    }
  }

  lemma {:induction false} SlashlessSplit(c: Name)
    requires Slashless(c)
    ensures Split(c) == [c]
  {
  }

  lemma {:induction false} SplitSlashless(s: seq<byte>)
    ensures forall c <- Split(s) :: Slashless(c)
  {
    hide FirstSlash;
    var i := FirstSlash(s);
    if i < |s| {
      SplitSlashless(s[i + 1..]);
      assert Slashless(s[..i]);
    } else {
      assert s[..i] == s;
    }
  }

  /** Splitting a text gives back its names. */
  lemma {:induction false} SplitSlashed(s: seq<Name>)
    requires forall c <- s :: Slashless(c)
    ensures Split(Slashed(s)) == [[]] + s
  {
    hide Split, Slashless;
    if s == [] {
      EmptySplits();
    } else {
      var i, c := s[..|s| - 1], s[|s| - 1];
      forall x <- i ensures Slashless(x) { assert x in s; }
      SplitSlashed(i);
      assert c in s;
      SlashlessSplit(c);
      SplitAtSlash(Slashed(i), c);
      assert [[]] + i + [c] == [[]] + s;
    }
  }

  lemma EmptySplits()
    ensures Split([]) == [[]]
  {
  }

  lemma {:induction false} LegalSlashless(s: seq<Name>)
    requires Legal(s)
    ensures forall c <- s :: Slashless(c) && c != []
  {
    hide Slashed, Joined;
    forall c <- s ensures Slashless(c) && c != [] {
      assert Plain(c);
    }
  }

  /** Behind the leading slash of a text are its names; the root has one empty one. */
  lemma {:induction false} SplitJoined(s: seq<Name>)
    requires Legal(s)
    ensures Absolute(Joined(s))
    ensures Split(Joined(s)[1..]) == if s == [] then [[]] else s
  {
    hide Split, Slashed, Legal;
    LegalSlashless(s);
    var t := Joined(s);
    if s == [] {
      EmptySplits();
      assert t[1..] == [];
    } else {
      SlashedStarts(s);
      SplitSlashed(s);
      SplitAtSlash([], t[1..]);
      EmptySplits();
      assert t == [] + [SLASH] + t[1..];
      assert ([[]] + Split(t[1..]))[1..] == Split(t[1..]) && ([[]] + s)[1..] == s;
    }
  }

  lemma {:induction false} SlashedStarts(s: seq<Name>)
    requires s != []
    ensures Absolute(Slashed(s))
  {
    if |s| > 1 {
      SlashedStarts(s[..|s| - 1]);
    }
  }

  lemma {:induction false} WalkConcat(s: seq<Name>, a: seq<Name>, b: seq<Name>)
    ensures Walk(s, a + b) == match Walk(s, a) case Err(e) => Err(e) case Ok(t) => Walk(t, b)
  {
    hide Next;
    if b == [] {
      assert a + b == a;
    } else {
      assert (a + b)[..|a + b| - 1] == a + b[..|b| - 1];
      WalkConcat(s, a, b[..|b| - 1]);
    }
  }

  lemma {:induction false} WalkLegal(s: seq<Name>, cs: seq<Name>)
    requires Legal(s) && forall c <- cs :: Slashless(c)
    ensures Walk(s, cs).Ok? ==> Legal(Walk(s, cs).value)
  {
    hide Legal, Next, Slashless;
    if cs != [] {
      forall x <- cs[..|cs| - 1] ensures Slashless(x) { assert x in cs; }
      WalkLegal(s, cs[..|cs| - 1]);
      assert cs[|cs| - 1] in cs;
      if Walk(s, cs).Ok? {
        NextLegal(Walk(s, cs[..|cs| - 1]).value, cs[|cs| - 1]);
      }
    }
  }

  /** Walking down a legal list arrives at it. */
  lemma {:induction false} WalkDown(cs: seq<Name>)
    requires Legal(cs)
    ensures Walk([], cs) == Ok(cs)
  {
    hide Slashed;
    if cs != [] {
      var i, c := cs[..|cs| - 1], cs[|cs| - 1];
      assert i + [c] == cs;
      ShorterPrefix(i, [c]);
      WalkDown(i);
      assert Plain(c);
    }
  }

  lemma {:induction false} RootLegal()
    ensures Legal([])
  {
  }

  /** Whatever is normalised is legal: every limit holds and nothing is left to skip. */
  lemma {:induction false} NormalLegal(path: seq<byte>, cwd: seq<byte>)
    ensures Normal(path, cwd).Ok? ==> Legal(Normal(path, cwd).value)
  {
    hide Split, Legal, Slashless, Walk, Next;
    SplitSlashless(path);
    if Absolute(path) { SplitSlashless(path[1..]); }
    if Absolute(cwd) { SplitSlashless(cwd[1..]); }
    RootLegal();
    WalkLegal([], Parts(path, cwd));
  }

  /** Normalising the text of a normalised path changes nothing. */
  lemma {:induction false} NormalIdempotent(s: seq<Name>, cwd: seq<byte>)
    requires Legal(s)
    ensures Normal(Joined(s), cwd) == Ok(s)
  {
    hide Split, Legal, Joined;
    SplitJoined(s);
    if s == [] {
      EmptyWalk();
    } else {
      WalkDown(s);
    }
  }

  lemma EmptyWalk()
    ensures Walk([], [[]]) == Ok([])
  {
    assert Walk([], [[]][..0]) == Ok([]);
  }

  /** A relative path means what the current directory, a slash and the path mean, errors included. */
  lemma {:induction false} RelativePath(path: seq<byte>, cwd: seq<byte>, other: seq<byte>)
    requires !Absolute(path) && Absolute(cwd)
    ensures Normal(path, cwd) == Normal(cwd + [SLASH] + path, other)
  {
    hide Split, Walk;
    var whole := cwd + [SLASH] + path;
    assert Absolute(whole);
    assert whole[1..] == cwd[1..] + [SLASH] + path;
    SplitAtSlash(cwd[1..], path);
  }

  /** The current directory may be normalised first. */
  lemma {:induction false} DirectoryFirst(path: seq<byte>, cwd: seq<byte>)
    requires !Absolute(path) && Absolute(cwd)
    ensures Normal(cwd, []).Err? ==> Normal(path, cwd) == Normal(cwd, [])
    ensures Normal(cwd, []).Ok? ==> Normal(path, cwd) == Normal(path, Joined(Normal(cwd, []).value))
  {
    hide Split, Walk, Joined, Legal;
    var a, b := Split(cwd[1..]), Split(path);
    WalkConcat([], a, b);
    if Normal(cwd, []).Ok? {
      NormalLegal(cwd, []);
      var s := Normal(cwd, []).value;
      SplitJoined(s);
      NormalIdempotent(s, []);
      WalkConcat([], Split(Joined(s)[1..]), b);
    }
  }

  /** One component from a directory: `..` is the way up, which ends at the root. */
  lemma {:induction false} OneComponent(s: seq<Name>, c: Name)
    requires Legal(s) && Slashless(c)
    ensures c in {[], [DOT]} ==> Normal(c, Joined(s)) == Ok(s)
    ensures c == [DOT, DOT] && s == [] ==> Normal(c, Joined(s)) == Ok([])
    ensures c == [DOT, DOT] && s != [] ==> Normal(c, Joined(s)) == Ok(s[..|s| - 1])
    ensures c !in {[], [DOT], [DOT, DOT]} ==>
              Normal(c, Joined(s)) == if Legal(s + [c]) then Ok(s + [c]) else Err(NameTooLong)
  {
    hide Split, Legal, Joined, Walk, Slashed;
    SlashlessSplit(c);
    NormalIdempotent(s, []);
    WalkConcat([], Split(Joined(s)[1..]), [c]);
    WalkOne(s, c);
    LegalNext(s, c);
  }

  lemma WalkOne(s: seq<Name>, c: Name)
    ensures Walk(s, [c]) == Next(s, c)
  {
    hide Next;
    assert [c][..0] == [];
  }

  lemma {:induction false} LegalNext(s: seq<Name>, c: Name)
    ensures Legal(s) && Slashless(c) && !Stays(c) && !Up(c) ==> (Legal(s + [c]) <==> Next(s, c).Ok?)
  {
    hide Slashed;
    assert c in s + [c];
    assert forall x <- s + [c] :: x == c || x in s;
  }

  /** `path_has_prefix` on texts. */
  predicate HasPrefix(path: seq<byte>, prefix: seq<byte>) {
    || prefix == [SLASH]
    || path == prefix
    || (|prefix| < |path| && prefix <= path && path[|prefix|] == SLASH)
  }

  lemma {:induction false} JoinedInjective(s: seq<Name>, t: seq<Name>)
    requires Legal(s) && Legal(t) && Joined(s) == Joined(t)
    ensures s == t
  {
    hide Joined, Legal;
    NormalIdempotent(s, []);
    NormalIdempotent(t, []);
  }

  lemma {:induction false} RootText(s: seq<Name>)
    requires Legal(s)
    ensures Joined(s) == [SLASH] <==> s == []
  {
    hide Legal;
    if Joined(s) == [SLASH] {
      RootLegal();
      JoinedInjective(s, []);
    }
  }

  /** The textual test is exactly the prefix test on names. */
  lemma {:induction false} PrefixIff(q: seq<Name>, p: seq<Name>)
    requires Legal(q) && Legal(p)
    ensures HasPrefix(Joined(q), Joined(p)) <==> p <= q
  {
    hide Legal;
    RootText(p);
    if p <= q {
      PrefixText(q, p);
    }
    if HasPrefix(Joined(q), Joined(p)) && p != [] {
      if Joined(q) == Joined(p) {
        JoinedInjective(q, p);
      } else {
        TextPrefix(q, p);
      }
    }
  }

  lemma {:induction false} PrefixText(q: seq<Name>, p: seq<Name>)
    requires p <= q
    ensures HasPrefix(Joined(q), Joined(p))
    ensures p != [] ==> Joined(q) == Joined(p) + Slashed(q[|p|..])
  {
    hide Slashed;
    var r := q[|p|..];
    assert q == p + r;
    SlashedConcat(p, r);
    if r == [] {
      assert q == p && Slashed(r) == [] by { EmptySlashed(); }
    } else if p != [] {
      SlashedStarts(r);
    }
  }

  lemma EmptySlashed()
    ensures Slashed([]) == []
  {
  }

  lemma {:induction false} TextPrefix(q: seq<Name>, p: seq<Name>)
    requires Legal(q) && Legal(p) && p != []
    requires |Joined(p)| < |Joined(q)| && Joined(p) <= Joined(q) && Joined(q)[|Joined(p)|] == SLASH
    ensures p <= q
  {
    hide Legal, Split, Slashed;
    var a, b := Joined(p), Joined(q);
    assert q != [];
    var t := b[|a| + 1..];
    assert b == a + [SLASH] + t;
    SplitAtSlash(a, t);
    LegalSlashless(p);
    LegalSlashless(q);
    SplitSlashed(p);
    SplitSlashed(q);
    assert [[]] + q == [[]] + p + Split(t);
    assert q == ([[]] + q)[1..] == ([[]] + p + Split(t))[1..] == p + Split(t);
  }

  /** `relative_path` on texts. */
  function Relative(path: seq<byte>, mount: seq<byte>): seq<byte> {
    if mount == [SLASH] then (if Absolute(path) then path[1..] else path)
    else if |mount| > |path| then []
    else if Absolute(path[|mount|..]) then path[|mount|..][1..]
    else []
  }

  /** The components a lookup does not skip. */
  function Names(cs: seq<Name>): seq<Name> {
    if cs == [] then []
    else Names(cs[..|cs| - 1]) + (if cs[|cs| - 1] == [] then [] else [cs[|cs| - 1]])
  }

  lemma {:induction false} NamesAll(cs: seq<Name>)
    requires forall c <- cs :: c != []
    ensures Names(cs) == cs
  {
    if cs != [] {
      var i, c := cs[..|cs| - 1], cs[|cs| - 1];
      forall x <- i ensures x != [] { assert x in cs; }
      NamesAll(i);
      assert c in cs && i + [c] == cs;
    }
  }

  lemma EmptyNames()
    ensures Names([[]]) == []
  {
    assert Names([[]][..0]) == [];
  }

  /** What is left of a path below a prefix of it is exactly the remaining names. */
  lemma {:induction false} RelativeNames(q: seq<Name>, p: seq<Name>)
    requires Legal(q) && p <= q
    ensures Names(Split(Relative(Joined(q), Joined(p)))) == q[|p|..]
  {
    hide Legal, Split, Slashed, Names;
    var r := q[|p|..];
    LegalSlashless(q);
    EmptyNames();
    EmptySplits();
    LegalPrefix(q, p);
    RootText(p);
    if p == [] {
      SplitJoined(q);
      NamesAll(q);
    } else {
      PrefixText(q, p);
      var t := Slashed(r);
      assert Joined(q)[|Joined(p)|..] == t;
      if r == [] {
        EmptySlashed();
      } else {
        LegalSuffix(q, |p|);
        SplitJoined(r);
        LegalSlashless(r);
        NamesAll(r);
      }
    }
  }

  lemma {:induction false} LegalPrefix(q: seq<Name>, p: seq<Name>)
    requires Legal(q) && p <= q
    ensures Legal(p)
  {
    hide Slashed, Plain;
    assert q == p + q[|p|..];
    ShorterPrefix(p, q[|p|..]);
  }

  lemma {:induction false} LegalSuffix(q: seq<Name>, k: nat)
    requires Legal(q) && k < |q|
    ensures Legal(q[k..])
  {
    hide Slashed, Plain;
    assert q == q[..k] + q[k..];
    SlashedConcat(q[..k], q[k..]);
  }
}
