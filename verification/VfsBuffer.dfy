/**
  Normalising into a fixed buffer: bytes of a component that `..` took back stay
  behind the end of the path, and decide whether two equal paths compare equal.
 */
module VfsBuffer {
  import opened Bytes
  import opened Slashes
  import opened VfsPath

  /** A `Path` value; comparing two compares all the bytes. */
  datatype Stored = Stored(bytes: seq<byte>, length: nat) {
    predicate Valid() {
      |bytes| == PATH_CAPACITY && 0 < length <= PATH_CAPACITY
    }

    /** `as_bytes`. */
    function Text(): seq<byte>
      requires Valid()
    {
      bytes[..length]
    }
  }

  /** Text written over the start of the buffer. */
  function Inked(text: seq<byte>, ink: seq<byte>): (r: seq<byte>)
    ensures |r| == |ink|
  {
    if |text| <= |ink| then text + ink[|text|..] else ink
  }

  function Blank(): (r: seq<byte>)
    ensures |r| == PATH_CAPACITY && forall i :: 0 <= i < |r| ==> r[i] == 0
  {
    seq(PATH_CAPACITY, i => 0)
  }

  predicate AllSlashless(cs: seq<Name>) {
    forall c <- cs :: Slashless(c)
  }

  predicate Fine(cs: seq<Name>) {
    Walk([], cs).Ok? && AllSlashless(cs)
  }

  function Place(cs: seq<Name>): seq<Name> {
    match Walk([], cs) case Err(_) => [] case Ok(s) => s
  }

  lemma {:induction false} FineInit(cs: seq<Name>)
    requires Fine(cs) && cs != []
    ensures Fine(cs[..|cs| - 1])
    ensures Next(Place(cs[..|cs| - 1]), cs[|cs| - 1]) == Ok(Place(cs))
  {
    forall c <- cs[..|cs| - 1] ensures Slashless(c) { assert c in cs; }
  }

  lemma {:induction false} PlaceLegal(cs: seq<Name>)
    requires Fine(cs)
    ensures Legal(Place(cs)) && 0 < |Joined(Place(cs))| <= PATH_CAPACITY
  {
    RootLegal();
    WalkLegal([], cs);
  }

  /** The buffer after the components: each step down writes over what was there. */
  function Ink(cs: seq<Name>): (r: seq<byte>)
    ensures |r| == PATH_CAPACITY
  {
    if cs == [] then Inked([SLASH], Blank())
    else
      var before := Ink(cs[..|cs| - 1]);
      if |Place(cs)| > |Place(cs[..|cs| - 1])| then Inked(Joined(Place(cs)), before) else before
  }

  /** The longest path passed on the way. */
  function Longest(cs: seq<Name>): nat {
    if cs == [] then 1
    else
      var n, m := Longest(cs[..|cs| - 1]), |Joined(Place(cs))|;
      if n < m then m else n
  }

  lemma {:induction false} SlashedNonzero(s: seq<Name>)
    requires forall c <- s :: Plain(c)
    ensures 0 !in Slashed(s)
  {
    hide Plain;
    if s != [] {
      var i, c := s[..|s| - 1], s[|s| - 1];
      forall x <- i ensures Plain(x) { assert x in s; }
      SlashedNonzero(i);
      assert c in s;
      PlainNonzero(c);
    }
  }

  lemma PlainNonzero(c: Name)
    requires Plain(c)
    ensures 0 !in c && c != []
  {
  }

  lemma {:induction false} JoinedNonzero(s: seq<Name>)
    requires Legal(s)
    ensures 0 !in Joined(s)
  {
    hide Plain, Slashed;
    SlashedNonzero(s);
  }

  lemma {:induction false} JoinedNext(s: seq<Name>, c: Name)
    ensures Joined(s + [c]) == (if s == [] then [] else Joined(s)) + [SLASH] + c
  {
    var t := s + [c];
    assert t[..|t| - 1] == s && t[|t| - 1] == c;
    EmptySlashed();
  }

  /** A step either keeps the text a prefix of the old one or prolongs it. */
  lemma {:induction false} StepText(s: seq<Name>, c: Name, t: seq<Name>)
    requires Next(s, c) == Ok(t)
    ensures |t| > |s| ==> t == s + [c] && Joined(s) <= Joined(t)
    ensures |t| <= |s| ==> Joined(t) <= Joined(s)
  {
    hide Slashed, Joined;
    if |t| > |s| {
      TextPrefixes(s, t);
    } else {
      TextPrefixes(t, s);
    }
  }

  lemma {:induction false} TextPrefixes(p: seq<Name>, q: seq<Name>)
    requires p <= q
    ensures Joined(p) <= Joined(q)
  {
    hide Slashed;
    if p == [] {
      if q != [] { SlashedStarts(q); }
    } else {
      PrefixText(q, p);
    }
  }

  /**
    The buffer starts with the path, and a byte is nonzero exactly below the
    longest path passed on the way.
   */
  lemma {:induction false} InkMeaning(cs: seq<Name>)
    requires Fine(cs)
    ensures |Joined(Place(cs))| <= Longest(cs) <= PATH_CAPACITY && Joined(Place(cs)) <= Ink(cs)
    ensures forall i :: 0 <= i < PATH_CAPACITY ==> (Ink(cs)[i] != 0 <==> i < Longest(cs))
  {
    hide Fine, Place, Joined, Legal, Next;
    if cs == [] {
      InkStart();
    } else {
      var before := cs[..|cs| - 1];
      FineInit(cs);
      InkMeaning(before);
      PlaceLegal(cs);
      JoinedNonzero(Place(cs));
      StepText(Place(before), cs[|cs| - 1], Place(cs));
    }
  }

  lemma InkStart()
    ensures Fine([]) && Place([]) == [] && Longest([]) == 1
    ensures Joined(Place([])) == [SLASH]
    ensures Ink([]) == Inked([SLASH], Blank())
    ensures [SLASH] <= Ink([]) && forall i :: 0 <= i < PATH_CAPACITY ==> (Ink([])[i] != 0 <==> i < 1)
  {
  }

  lemma {:induction false} PartsSlashless(path: seq<byte>, cwd: seq<byte>)
    ensures AllSlashless(Parts(path, cwd))
  {
    hide Split, Slashless;
    SplitSlashless(path);
    if Absolute(path) { SplitSlashless(path[1..]); }
    if Absolute(cwd) { SplitSlashless(cwd[1..]); }
  }

  /** The value `normalize` returns. */
  function Normalized(path: seq<byte>, cwd: seq<byte>): Result<Stored> {
    match Normal(path, cwd)
    case Err(e) => Err(e)
    case Ok(s) => Ok(Stored(Ink(Parts(path, cwd)), |Joined(s)|))
  }

  /** No `..` took back what a longer path had written. */
  predicate Direct(path: seq<byte>, cwd: seq<byte>) {
    Longest(Parts(path, cwd)) == |Joined(Place(Parts(path, cwd)))|
  }

  /** What is stored reads as the text of the names. */
  lemma {:induction false} NormalizedText(path: seq<byte>, cwd: seq<byte>)
    ensures Normalized(path, cwd).Ok? <==> Normal(path, cwd).Ok?
    ensures Normal(path, cwd).Err? ==> Normalized(path, cwd) == Err(Normal(path, cwd).error)
    ensures Normalized(path, cwd).Ok? ==>
              && Normalized(path, cwd).value.Valid()
              && Normalized(path, cwd).value.Text() == Joined(Normal(path, cwd).value)
  {
    hide Parts, Ink, Joined, Walk;
    if Normal(path, cwd).Ok? {
      PartsSlashless(path, cwd);
      InkMeaning(Parts(path, cwd));
    }
  }

  /** Walking straight down leaves nothing behind. */
  lemma {:induction false} DownDirect(cs: seq<Name>)
    requires Legal(cs)
    ensures Fine(cs) && Place(cs) == cs && Longest(cs) == |Joined(cs)|
  {
    hide Joined, Plain;
    WalkDown(cs);
    LegalSlashless(cs);
    if cs != [] {
      var i := cs[..|cs| - 1];
      LegalPrefix(cs, i);
      DownDirect(i);
      TextPrefixes(i, cs);
    } else {
      InkStart();
    }
  }

  lemma {:induction false} CanonicalDirect(s: seq<Name>, cwd: seq<byte>)
    requires Legal(s)
    ensures Normal(Joined(s), cwd) == Ok(s) && Direct(Joined(s), cwd)
  {
    hide Legal, Split, Joined;
    NormalIdempotent(s, cwd);
    SplitJoined(s);
    PartsSlashless(Joined(s), cwd);
    if s == [] {
      RootDirect();
    } else {
      DownDirect(s);
    }
  }

  lemma RootDirect()
    ensures Fine([[]]) && Place([[]]) == [] && Longest([[]]) == 1 == |Joined([])|
  {
    var e: seq<Name> := [[]];
    assert e[..0] == [];
    InkStart();
    EmptyWalk();
  }

  /**
    Storing a path gives the same value as storing its normalised text exactly
    when no longer path was passed on the way.
   */
  lemma {:induction false} StoredCanonically(path: seq<byte>, cwd: seq<byte>, other: seq<byte>)
    requires Normal(path, cwd).Ok?
    ensures Normalized(path, cwd) == Normalized(Joined(Normal(path, cwd).value), other) <==> Direct(path, cwd)
  {
    hide Parts, Ink, Joined, Walk, Longest, Legal;
    var s := Normal(path, cwd).value;
    NormalLegal(path, cwd);
    CanonicalDirect(s, other);
    PartsSlashless(path, cwd);
    PartsSlashless(Joined(s), other);
    var a, b := Parts(path, cwd), Parts(Joined(s), other);
    InkMeaning(a);
    InkMeaning(b);
    if Direct(path, cwd) {
      assert Ink(a) == Ink(b);
    } else {
      assert Ink(a)[|Joined(s)|] != 0;
    }
  }

  /** Equal values are the same names; the same names stored directly are equal values. */
  lemma {:induction false} StoredEqual(p: seq<byte>, q: seq<byte>, cwd: seq<byte>)
    requires Normal(p, cwd).Ok? && Normal(q, cwd).Ok?
    ensures Normalized(p, cwd) == Normalized(q, cwd) ==> Normal(p, cwd) == Normal(q, cwd)
    ensures Direct(p, cwd) && Direct(q, cwd) && Normal(p, cwd) == Normal(q, cwd) ==>
              Normalized(p, cwd) == Normalized(q, cwd)
  {
    hide Normal, Normalized, Joined, Direct, Legal;
    NormalLegal(p, cwd);
    NormalLegal(q, cwd);
    NormalizedText(p, cwd);
    NormalizedText(q, cwd);
    if Normalized(p, cwd) == Normalized(q, cwd) {
      JoinedInjective(Normal(p, cwd).value, Normal(q, cwd).value);
    }
    StoredCanonically(p, cwd, []);
    StoredCanonically(q, cwd, []);
  }

  /** `/a/b/..` is `/a`, and still the two do not compare equal. */
  lemma {:induction false} EqualPathsDiffer()
    ensures var long: seq<byte>, short: seq<byte> := [SLASH, 97, SLASH, 98, SLASH, DOT, DOT], [SLASH, 97];
            && Normal(long, []) == Normal(short, []) == Ok([[97]])
            && Normalized(long, []) != Normalized(short, [])
  {
    hide Split, Slashed, Walk, Ink, Parts;
    var long: seq<byte>, short: seq<byte> := [SLASH, 97, SLASH, 98, SLASH, DOT, DOT], [SLASH, 97];
    var a: Name, b: Name, up: Name := [97], [98], [DOT, DOT];
    assert Split(long[1..]) == [a, b, up] by {
      assert long[1..] == a + [SLASH] + b + [SLASH] + up;
      SplitAtSlash(a + [SLASH] + b, up);
      SplitAtSlash(a, b);
      SlashlessSplit(a);
      SlashlessSplit(b);
      SlashlessSplit(up);
    }
    PartsAbsolute(long);
    JoinedNext([], a);
    JoinedNext([a], b);
    assert [] + [a] == [a] && [a] + [b] == [a, b];
    WalkSteps(a, b, up);
    NormalIdempotent([a], []);
    assert Joined([a]) == short;
    StoredCanonically(long, [], []);
  }

  lemma PartsAbsolute(path: seq<byte>)
    requires Absolute(path)
    ensures Parts(path, []) == Split(path[1..])
  {
  }

  lemma {:induction false} WalkSteps(a: Name, b: Name, up: Name)
    requires Plain(a) && Plain(b) && Up(up) && Slashless(up) && Legal([a]) && Legal([a, b])
    ensures Fine([a, b, up]) && Place([a, b, up]) == [a] && Longest([a, b, up]) >= |Joined([a, b])|
  {
    hide Slashed, Joined, Plain, Legal;
    DownDirect([a, b]);
    var cs := [a, b, up];
    assert cs[..2] == [a, b];
    assert Next([a, b], up) == Ok([a, b][..1]) && [a, b][..1] == [a];
    LegalSlashless([a, b]);
    assert a in [a, b] && b in [a, b];
    assert Fine(cs);
  }
}
