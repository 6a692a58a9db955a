/**
  Partition names: UTF-16 units in a fixed field, and exactly which names survive it.
 */
module GptName {
  import opened Bytes

  const NAME_BYTES: nat := 72
  const REPLACEMENT: char := '\U{fffd}'

  /** `encode_utf16`. */
  function Units(c: char): seq<u16> {
    var v := c as int;
    if v < 0x1_0000 then [v] else [0xd800 + (v - 0x1_0000) / 0x400, 0xdc00 + (v - 0x1_0000) % 0x400]
  }

  function Utf16(name: string): seq<u16> {
    if name == [] then [] else Units(name[0]) + Utf16(name[1..])
  }

  function UnitBytes(us: seq<u16>): (s: seq<byte>)
    ensures |s| == 2 * |us|
  {
    if us == [] then [] else LittleEndian(us[0], 2) + UnitBytes(us[1..])
  }

  function Kept(name: string): (us: seq<u16>)
    ensures |us| <= NAME_BYTES / 2
  {
    var us := Utf16(name);
    if |us| <= NAME_BYTES / 2 then us else us[..NAME_BYTES / 2]
  }

  /** The name field of a partition entry. */
  function NameBytes(name: string): (s: seq<byte>)
    ensures |s| == NAME_BYTES
  {
    UnitBytes(Kept(name)) + Zeros(NAME_BYTES - 2 * |Kept(name)|)
  }

  function Scalar(v: u16): char {
    if 0xd800 <= v < 0xe000 then REPLACEMENT else v as char
  }

  /** What a name field shows: its units up to the first zero. */
  function Shown(us: seq<u16>): string {
    if us == [] || us[0] == 0 then [] else [Scalar(us[0])] + Shown(us[1..])
  }

  function UnitsOf(bytes: seq<byte>): seq<u16> {
    if |bytes| < 2 then [] else [GetU16(bytes, 0)] + UnitsOf(bytes[2..])
  }

  /** `encode_gpt_name`. */
  method EncodeGptName(name: string, output: array<byte>)
    requires output.Length == NAME_BYTES
    modifies output
    ensures output[..] == NameBytes(name)
  {
    hide Utf16, UnitBytes, LittleEndian;
    for i := 0 to output.Length
      invariant forall k :: 0 <= k < i ==> output[k] == 0
    {
      output[i] := 0;
    }
    var us := Kept(name);
    assert UnitBytes(us[..0]) == [];
    for i := 0 to |us|
      invariant output[..2 * i] == UnitBytes(us[..i])
      invariant forall k :: 2 * i <= k < NAME_BYTES ==> output[k] == 0
    {
      var two := LittleEndian(us[i], 2);
      output[2 * i], output[2 * i + 1] := two[0], two[1];
      UnitBytesStep(us, i);
      assert output[..2 * i + 2] == output[..2 * i] + two;
    }
    assert us[..|us|] == us;
    assert output[..] == output[..2 * |us|] + Zeros(NAME_BYTES - 2 * |us|);
  }

  lemma {:induction false} UnitBytesConcat(a: seq<u16>, b: seq<u16>)
    ensures UnitBytes(a + b) == UnitBytes(a) + UnitBytes(b)
  {
    hide LittleEndian;
    if a == [] {
      assert a + b == b;
    } else {
      UnitBytesConcat(a[1..], b);
      assert (a + b)[1..] == a[1..] + b;
    }
  }

  lemma {:induction false} UnitBytesStep(us: seq<u16>, i: nat)
    requires i < |us|
    ensures UnitBytes(us[..i + 1]) == UnitBytes(us[..i]) + LittleEndian(us[i], 2)
  {
    hide LittleEndian;
    UnitBytesConcat(us[..i], [us[i]]);
    assert us[..i + 1] == us[..i] + [us[i]];
    assert [us[i]][1..] == [];
    assert UnitBytes([us[i]]) == LittleEndian(us[i], 2) + UnitBytes([]);
  }

  /** `decode_gpt_name`. */
  method DecodeGptName(bytes: seq<byte>) returns (r: string)
    ensures r == Shown(UnitsOf(bytes))
  {
    r := [];
    var i := 0;
    while i + 2 <= |bytes|
      invariant i <= |bytes| && r + Shown(UnitsOf(bytes[i..])) == Shown(UnitsOf(bytes))
    {
      assert GetU16(bytes[i..], 0) == GetU16(bytes, i) by { assert bytes[i..][0..2] == bytes[i..i + 2]; }
      assert bytes[i..][2..] == bytes[i + 2..];
      var v := GetU16(bytes, i);
      ShownStep(bytes[i..]);
      if v == 0 {
        return;
      }
      r := r + [Scalar(v)];
      i := i + 2;
    }
  }

  lemma ShownStep(bytes: seq<byte>)
    requires |bytes| >= 2
    ensures Shown(UnitsOf(bytes)) ==
            if GetU16(bytes, 0) == 0 then [] else [Scalar(GetU16(bytes, 0))] + Shown(UnitsOf(bytes[2..]))
  {
    var us := UnitsOf(bytes);
    assert us[0] == GetU16(bytes, 0) && us[1..] == UnitsOf(bytes[2..]);
  }

  lemma {:induction false} UnitRead(v: u16, rest: seq<byte>)
    ensures UnitsOf(LittleEndian(v, 2) + rest) == [v] + UnitsOf(rest)
  {
    hide LittleEndian, FromLittleEndian;
    var s := LittleEndian(v, 2) + rest;
    assert s[2..] == rest && s[0..2] == LittleEndian(v, 2);
    Pow256Values();
    LittleEndianRoundTrip(v, 2);
  }

  lemma {:induction false} UnitsRead(us: seq<u16>, pad: seq<byte>)
    ensures UnitsOf(UnitBytes(us) + pad) == us + UnitsOf(pad)
  {
    hide LittleEndian, UnitsOf;
    if us == [] {
      assert UnitBytes(us) + pad == pad;
    } else {
      var rest := UnitBytes(us[1..]) + pad;
      UnitsRead(us[1..], pad);
      assert UnitBytes(us) + pad == LittleEndian(us[0], 2) + rest;
      UnitRead(us[0], rest);
      assert [us[0]] + us[1..] == us;
    }
  }

  lemma {:induction false} ShownPadded(us: seq<u16>, pad: seq<u16>)
    requires pad == [] || pad[0] == 0
    ensures Shown(us + pad) == Shown(us)
  {
    if us == [] {
      assert us + pad == pad;
    } else {
      ShownPadded(us[1..], pad);
      assert (us + pad)[1..] == us[1..] + pad;
    }
  }

  lemma ZerosRead(n: nat)
    ensures var us := UnitsOf(Zeros(n)); us == [] || us[0] == 0
  {
    if n >= 2 {
      var z := Zeros(n)[0..2];
      assert z == [0, 0] && z[1..] == [0] && [0][1..] == [];
      assert FromLittleEndian([]) == 0;
      assert FromLittleEndian([0]) == 0;
      assert FromLittleEndian(z) == 0;
    }
  }

  /** Reading the field shows the units that were kept. */
  lemma {:induction false} NameRead(name: string)
    ensures Shown(UnitsOf(NameBytes(name))) == Shown(Kept(name))
  {
    hide Shown, UnitsOf, UnitBytes;
    var pad := Zeros(NAME_BYTES - 2 * |Kept(name)|);
    UnitsRead(Kept(name), pad);
    ZerosRead(|pad|);
    ShownPadded(Kept(name), UnitsOf(pad));
  }

  predicate Simple(name: string) {
    forall k :: 0 <= k < |name| ==> 0 < name[k] as int < 0x1_0000
  }

  lemma {:induction false} SimpleShown(name: string)
    requires Simple(name)
    ensures |Utf16(name)| == |name| && Shown(Utf16(name)) == name
  {
    if name != [] {
      SimpleShown(name[1..]);
      assert Utf16(name)[1..] == Utf16(name[1..]);
    }
  }

  lemma {:induction false} ShownSimple(us: seq<u16>)
    ensures |Shown(us)| <= |us| && Simple(Shown(us))
  {
    if us != [] {
      ShownSimple(us[1..]);
    }
  }

  /** A name comes back exactly when it is short, has no NUL and needs no surrogates. */
  lemma {:induction false} NameRoundTrip(name: string)
    ensures Shown(UnitsOf(NameBytes(name))) == name <==> |name| <= NAME_BYTES / 2 && Simple(name)
  {
    hide Shown, UnitsOf, Utf16, NameBytes;
    NameRead(name);
    ShownSimple(Kept(name));
    if Simple(name) {
      SimpleShown(name);
    }
  }
}
