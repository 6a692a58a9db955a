/**
  Path strings: splitting at slashes and trimming them.
 */
module Slashes {
  import opened Bytes

  const SLASH: byte := 0x2f
  const DOT: byte := 0x2e

  function FirstSlash(s: seq<byte>): (i: nat)
    ensures i <= |s|
    ensures i < |s| ==> s[i] == SLASH
    ensures forall k :: 0 <= k < i ==> s[k] != SLASH
  {
    if s == [] || s[0] == SLASH then 0 else 1 + FirstSlash(s[1..])
  }

  /** `str::split('/')`. */
  function Split(s: seq<byte>): (r: seq<seq<byte>>)
    ensures |r| > 0
  {
    var i := FirstSlash(s);
    if i == |s| then [s] else [s[..i]] + Split(s[i + 1..])
  }

  function TrimStart(s: seq<byte>): seq<byte> {
    if s != [] && s[0] == SLASH then TrimStart(s[1..]) else s
  }

  function TrimEnd(s: seq<byte>): (r: seq<byte>)
    ensures r <= s
    ensures r != [] ==> r[|r| - 1] != SLASH
  {
    if s != [] && s[|s| - 1] == SLASH then TrimEnd(s[..|s| - 1]) else s
  }

  lemma {:induction false} FirstSlashUnique(s: seq<byte>, i: nat)
    requires i < |s| && s[i] == SLASH && forall k :: 0 <= k < i ==> s[k] != SLASH
    ensures FirstSlash(s) == i
  {
    hide FirstSlash;
    assert s[FirstSlash(s)..] == [] || s[FirstSlash(s)] == SLASH;
  }

  lemma {:induction false} SplitStep(s: seq<byte>, i: nat)
    requires i < |s| && FirstSlash(s) == i
    ensures Split(s) == [s[..i]] + Split(s[i + 1..])
  {
    hide FirstSlash;
  }

  lemma {:induction false} SplitAtSlash(a: seq<byte>, b: seq<byte>)
    ensures Split(a + [SLASH] + b) == Split(a) + Split(b)
  {
    hide FirstSlash;
    var s, i := a + [SLASH] + b, FirstSlash(a);
    assert s[i] == SLASH && forall k :: 0 <= k < i ==> s[k] == a[k];
    FirstSlashUnique(s, i);
    SplitStep(s, i);
    assert s[..i] == a[..i];
    if i == |a| {
      assert s[i + 1..] == b && a[..i] == a;
      assert Split(a) == [a];
    } else {
      var c := a[i + 1..];
      assert s[i + 1..] == c + [SLASH] + b;
      SplitAtSlash(c, b);
      SplitStep(a, i);
      assert [a[..i]] + (Split(c) + Split(b)) == ([a[..i]] + Split(c)) + Split(b);
    }
  }
}
