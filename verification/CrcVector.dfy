/**
  The checksum meets its standard vector.
 */
module CrcVector {
  import opened Bytes

  function Eight(x: bv32): bv32 {
    CrcShift(CrcShift(CrcShift(CrcShift(CrcShift(CrcShift(CrcShift(CrcShift(x))))))))
  }

  lemma ShiftsStep(x: bv32, n: nat)
    requires n > 0
    ensures CrcShifts(x, n) == CrcShifts(CrcShift(x), n - 1)
  {
    hide CrcShift;
  }

  lemma EightShifts(x: bv32)
    ensures CrcShifts(x, 8) == Eight(x)
  {
    hide CrcShift;
    var a := CrcShift(x);
    var b := CrcShift(a);
    var c := CrcShift(b);
    var d := CrcShift(c);
    ShiftsStep(x, 8);
    ShiftsStep(a, 7);
    ShiftsStep(b, 6);
    ShiftsStep(c, 5);
    assert CrcShifts(d, 4) == CrcShift(CrcShift(CrcShift(CrcShift(d)))) by {
      ShiftsStep(d, 4);
      ShiftsStep(CrcShift(d), 3);
      ShiftsStep(CrcShift(CrcShift(d)), 2);
    }
  }

  /** One more byte, worked out. */
  lemma {:induction false} NextByte(s: seq<byte>, b: byte, crc: bv32, mixed: bv32, next: bv32)
    requires CrcFold(0xffff_ffff, s) == crc && crc ^ (b as bv32) == mixed && Eight(mixed) == next
    ensures CrcFold(0xffff_ffff, s + [b]) == next
  {
    hide CrcShift, CrcShifts, Eight, CrcFold, CrcByte;
    FoldNext(s, b);
    ByteWorked(crc, b, mixed);
  }

  lemma {:induction false} FoldNext(s: seq<byte>, b: byte)
    ensures CrcFold(0xffff_ffff, s + [b]) == CrcByte(CrcFold(0xffff_ffff, s), b)
  {
    hide CrcByte;
    assert (s + [b])[..|s|] == s;
  }

  lemma {:induction false} ByteWorked(crc: bv32, b: byte, mixed: bv32)
    requires crc ^ (b as bv32) == mixed
    ensures CrcByte(crc, b) == Eight(mixed)
  {
    hide CrcShift, CrcShifts, Eight;
    EightShifts(mixed);
  }

  lemma {:induction false} FirstThree()
    ensures CrcFold(0xffff_ffff, [0x31, 0x32, 0x33]) == 0x77b7_9c2d
  {
    hide CrcFold, CrcShifts;
    NoBytes();
    NextByte([], 0x31, 0xffff_ffff, 0xffff_ffce, 0x7c23_1048);
    assert [] + [0x31] == [0x31];
    NextByte([0x31], 0x32, 0x7c23_1048, 0x7c23_107a, 0xb0ac_bb32);
    assert [0x31] + [0x32] == [0x31, 0x32];
    NextByte([0x31, 0x32], 0x33, 0xb0ac_bb32, 0xb0ac_bb01, 0x77b7_9c2d);
    assert [0x31, 0x32] + [0x33] == [0x31, 0x32, 0x33];
  }

  lemma {:induction false} NextThree()
    ensures CrcFold(0xffff_ffff, [0x31, 0x32, 0x33, 0x34, 0x35, 0x36]) == 0xf68d_2c9e
  {
    hide CrcFold, CrcShifts;
    FirstThree();
    NextByte([0x31, 0x32, 0x33], 0x34, 0x77b7_9c2d, 0x77b7_9c19, 0x641c_1f5c);
    assert [0x31, 0x32, 0x33] + [0x34] == [0x31, 0x32, 0x33, 0x34];
    NextByte([0x31, 0x32, 0x33, 0x34], 0x35, 0x641c_1f5c, 0x641c_1f69, 0x340a_c5e3);
    assert [0x31, 0x32, 0x33, 0x34] + [0x35] == [0x31, 0x32, 0x33, 0x34, 0x35];
    NextByte([0x31, 0x32, 0x33, 0x34, 0x35], 0x36, 0x340a_c5e3, 0x340a_c5d5, 0xf68d_2c9e);
    assert [0x31, 0x32, 0x33, 0x34, 0x35] + [0x36] == [0x31, 0x32, 0x33, 0x34, 0x35, 0x36];
  }

  lemma {:induction false} LastThree()
    ensures CrcFold(0xffff_ffff, [0x31, 0x32, 0x33, 0x34, 0x35, 0x36, 0x37, 0x38, 0x39]) == 0x340b_c6d9
  {
    hide CrcFold, CrcShifts;
    NextThree();
    NextByte([0x31, 0x32, 0x33, 0x34, 0x35, 0x36], 0x37, 0xf68d_2c9e, 0xf68d_2ca9, 0xaffc_9660);
    assert [0x31, 0x32, 0x33, 0x34, 0x35, 0x36] + [0x37] == [0x31, 0x32, 0x33, 0x34, 0x35, 0x36, 0x37];
    NextByte([0x31, 0x32, 0x33, 0x34, 0x35, 0x36, 0x37], 0x38, 0xaffc_9660, 0xaffc_9658, 0x651f_2550);
    assert [0x31, 0x32, 0x33, 0x34, 0x35, 0x36, 0x37] + [0x38] == [0x31, 0x32, 0x33, 0x34, 0x35, 0x36, 0x37, 0x38];
    NextByte([0x31, 0x32, 0x33, 0x34, 0x35, 0x36, 0x37, 0x38], 0x39, 0x651f_2550, 0x651f_2569, 0x340b_c6d9);
    assert [0x31, 0x32, 0x33, 0x34, 0x35, 0x36, 0x37, 0x38] + [0x39] == [0x31, 0x32, 0x33, 0x34, 0x35, 0x36, 0x37, 0x38, 0x39];
  }

  /** "123456789". */
  lemma {:induction false} Crc32Vector()
    ensures Crc32([0x31, 0x32, 0x33, 0x34, 0x35, 0x36, 0x37, 0x38, 0x39]) == 0xcbf4_3926
  {
    hide CrcFold;
    LastThree();
  }

  lemma NoBytes()
    ensures CrcFold(0xffff_ffff, []) == 0xffff_ffff
  {
  }
}
