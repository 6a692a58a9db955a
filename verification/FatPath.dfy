/**
  FAT32 path strings: split at slashes, each component an 8.3 name.
 */
module FatPath {
  import opened Bytes
  import opened FatVolume
  import opened FatDir
  import opened FatTree
  import opened Slashes

  const SPACE: byte := 0x20

  function Upper(b: byte): byte {
    if 0x61 <= b <= 0x7a then b - 32 else b
  }

  predicate ShortCharacter(b: byte) {
    || 0x30 <= b <= 0x39 || 0x41 <= b <= 0x5a || 0x61 <= b <= 0x7a
    || b in {0x21, 0x23, 0x24, 0x25, 0x26, 0x27, 0x28, 0x29, 0x2d, 0x40, 0x5e, 0x5f, 0x60, 0x7b, 0x7d, 0x7e}
  }

  function FirstDot(s: seq<byte>): (i: nat)
    ensures i <= |s| && (i < |s| ==> s[i] == DOT)
  {
    if s == [] || s[0] == DOT then 0 else 1 + FirstDot(s[1..])
  }

  /** Upper case, padded with spaces. */
  function Field(s: seq<byte>, n: nat): (r: seq<byte>)
    requires |s| <= n
    ensures |r| == n && forall k :: 0 <= k < n ==> r[k] == if k < |s| then Upper(s[k]) else SPACE
  {
    if n == 0 then [] else if s == [] then [SPACE] + Field(s, n - 1) else [Upper(s[0])] + Field(s[1..], n - 1)
  }

  function BaseOf(name: seq<byte>): seq<byte> {
    name[..FirstDot(name)]
  }

  function ExtensionOf(name: seq<byte>): seq<byte> {
    if FirstDot(name) == |name| then [] else name[FirstDot(name) + 1..]
  }

  predicate AllShort(s: seq<byte>, n: nat) {
    |s| <= n && forall k :: 0 <= k < |s| ==> ShortCharacter(s[k])
  }

  /** `short_name`: base and at most one extension. */
  function ShortNameOf(name: seq<byte>): (r: Result<ShortName>)
    ensures r.Ok? ==> Plain(r.value)
    ensures r.Err? ==> r.error == InvalidName
  {
    var base, extension := BaseOf(name), ExtensionOf(name);
    if FirstDot(extension) < |extension| || base == [] || !AllShort(base, 8) || !AllShort(extension, 3) then Err(InvalidName)
    else Ok(Field(base, 8) + Field(extension, 3))
  }

  /** Equal but for case. */
  predicate SameLetters(a: seq<byte>, b: seq<byte>) {
    |a| == |b| && forall k :: 0 <= k < |a| ==> Upper(a[k]) == Upper(b[k])
  }

  lemma {:induction false} FieldsEqual(a: seq<byte>, b: seq<byte>, n: nat)
    requires AllShort(a, n) && AllShort(b, n)
    ensures Field(a, n) == Field(b, n) <==> SameLetters(a, b)
  {
    hide Field;
    LongerDiffers(a, b, n);
    LongerDiffers(b, a, n);
    var x, y := Field(a, n), Field(b, n);
    if x == y {
      forall k | 0 <= k < |a| ensures Upper(a[k]) == Upper(b[k]) {
        assert x[k] == y[k];
      }
    }
  }

  lemma LongerDiffers(a: seq<byte>, b: seq<byte>, n: nat)
    requires AllShort(a, n) && AllShort(b, n)
    ensures |a| < |b| ==> Field(a, n) != Field(b, n)
  {
    hide Field;
    if |a| < |b| {
      assert Field(a, n)[|a|] == SPACE && Field(b, n)[|a|] == Upper(b[|a|]) && ShortCharacter(b[|a|]);
    }
  }

  /** Two names are stored alike exactly when base and extension differ in case at most. */
  lemma {:induction false} SameShortName(a: seq<byte>, b: seq<byte>)
    requires ShortNameOf(a).Ok? && ShortNameOf(b).Ok?
    ensures ShortNameOf(a) == ShortNameOf(b) <==> SameLetters(BaseOf(a), BaseOf(b)) && SameLetters(ExtensionOf(a), ExtensionOf(b))
  {
    hide Field, FirstDot, ShortCharacter, BaseOf, ExtensionOf;
    FieldsEqual(BaseOf(a), BaseOf(b), 8);
    FieldsEqual(ExtensionOf(a), ExtensionOf(b), 3);
    var x, y := ShortNameOf(a).value, ShortNameOf(b).value;
    assert x[..8] == Field(BaseOf(a), 8) && x[8..] == Field(ExtensionOf(a), 3);
    assert y[..8] == Field(BaseOf(b), 8) && y[8..] == Field(ExtensionOf(b), 3);
  }

  function ShortNames(names: seq<seq<byte>>): (r: Result<Path>)
    ensures r.Ok? ==> |r.value| == |names| && PlainPath(r.value)
    ensures r.Err? ==> r.error == InvalidName
  {
    if names == [] then Ok([])
    else
      match ShortNameOf(names[0])
      case Err(e) => Err(e)
      case Ok(n) => match ShortNames(names[1..]) case Err(e) => Err(e) case Ok(rest) => Ok([n] + rest)
  }

  /** `path_components`. */
  function PathComponents(path: seq<byte>): (r: Result<Path>)
    ensures r.Ok? ==> PlainPath(r.value)
    ensures r.Err? ==> r.error == InvalidName
  {
    var trimmed := TrimEnd(TrimStart(path));
    if trimmed == [] then Ok([]) else ShortNames(Split(trimmed))
  }
}
