/**
 * The checksum kept in every metadata record: the bit-at-a-time,
 * reflected CRC-32 that IEEE 802.3 (section 3.2.9) uses as the frame check
 * sequence. Generator 0xEDB88320 (the reflected form of 0x04C11DB7), register
 * preset to all ones, result complemented.
 */
module Crc {
  import opened Types

  const POLYNOMIAL: bv32 := 0xEDB8_8320
  const PRESET: bv32 := 0xFFFF_FFFF

  /** One pass of the inner loop: shift right, folding in the generator when the bit shifted out is 1. */
  function Step(crc: bv32): bv32
  {
    if crc & 1 == 1 then (crc >> 1) ^ POLYNOMIAL else crc >> 1
  }

  /** `k` passes of the inner loop. */
  function Shift(crc: bv32, k: nat): bv32
    decreases k
  {
    if k == 0 then crc else Shift(Step(crc), k - 1)
  }

  /** What the outer loop does with one byte: XOR it into the low bits, then eight passes. */
  function Update(crc: bv32, b: byte): bv32
  {
    Shift(crc ^ (b as bv32), 8)
  }

  /** The register after the outer loop has consumed `data`, byte by byte from the front. */
  function Register(data: seq<byte>): bv32
    decreases |data|
  {
    if data == [] then PRESET else Update(Register(data[..|data| - 1]), data[|data| - 1])
  }

  /** The checksum of `data`: the final register, complemented. */
  function Crc32(data: seq<byte>): bv32
  {
    Register(data) ^ PRESET
  }

  /** The checksum as the `uint32_t` the metadata record stores. */
  function Checksum(data: seq<byte>): (c: uint32)
    ensures c as int == Crc32(data) as int
  {
    Crc32(data) as int as uint32
  }

  /** The computation of `calculate_crc32`: two nested loops updating one register in place. */
  method CalculateCrc32(data: seq<byte>) returns (crc: bv32)
    ensures crc == Crc32(data)
  {
    crc := PRESET;
    var i := 0;
    while i < |data|
      invariant 0 <= i <= |data|
      invariant crc == Register(data[..i])
    {
      crc := crc ^ (data[i] as bv32);
      var j := 0;
      while j < 8
        invariant 0 <= j <= 8
        invariant Shift(crc, 8 - j) == Update(Register(data[..i]), data[i])
      {
        crc := Step(crc);
        j := j + 1;
      }
      assert data[..i + 1] == data[..i] + [data[i]];
      RegisterSnoc(data[..i], data[i]);
      i := i + 1;
    }
    assert data[..|data|] == data;
    crc := crc ^ PRESET;
  }

  /** The checksum of no bytes is 0: the preset and the final XOR cancel. */
  lemma Crc32OfEmpty()
    ensures Crc32([]) == 0
  {
  }

  /** The standard check value of CRC-32: the nine ASCII bytes "123456789" give 0xCBF43926. */
  lemma Crc32CheckValue()
    ensures Crc32([0x31, 0x32, 0x33, 0x34, 0x35, 0x36, 0x37, 0x38, 0x39]) == 0xCBF4_3926
  {
    RegisterOfDigits9();
  }

  // The check value is evaluated one byte at a time (a single obligation over
  // all nine bytes is too large for the solver).

  function EightSteps(c: bv32): bv32
  {
    Step(Step(Step(Step(Step(Step(Step(Step(c))))))))
  }

  lemma ShiftEight(c: bv32)
    ensures Shift(c, 8) == EightSteps(c)
  {
    var c1 := Step(c);
    var c2 := Step(c1);
    var c3 := Step(c2);
    var c4 := Step(c3);
    var c5 := Step(c4);
    var c6 := Step(c5);
    var c7 := Step(c6);
    assert Shift(c7, 1) == Step(c7);
    assert Shift(c6, 2) == Shift(c7, 1);
    assert Shift(c5, 3) == Shift(c6, 2);
    assert Shift(c4, 4) == Shift(c5, 3);
    assert Shift(c3, 5) == Shift(c4, 4);
    assert Shift(c2, 6) == Shift(c3, 5);
    assert Shift(c1, 7) == Shift(c2, 6);
  }

  lemma RegisterSnoc(p: seq<byte>, b: byte)
    ensures Register(p + [b]) == Update(Register(p), b)
  {
    assert (p + [b])[..|p|] == p;
  }

  lemma RegisterOfDigits1()
    ensures Register([0x31]) == 0x7C23_1048
  {
    ShiftEight(0xFFFF_FFFF ^ 0x31);
    var p: seq<byte> := [];
    RegisterSnoc(p, 0x31);
    assert p + [0x31] == [0x31];
  }

  lemma RegisterOfDigits2()
    ensures Register([0x31, 0x32]) == 0xB0AC_BB32
  {
    RegisterOfDigits1();
    ShiftEight(0x7C23_1048 ^ 0x32);
    var p: seq<byte> := [0x31];
    RegisterSnoc(p, 0x32);
    assert p + [0x32] == [0x31, 0x32];
  }

  lemma RegisterOfDigits3()
    ensures Register([0x31, 0x32, 0x33]) == 0x77B7_9C2D
  {
    RegisterOfDigits2();
    ShiftEight(0xB0AC_BB32 ^ 0x33);
    var p: seq<byte> := [0x31, 0x32];
    RegisterSnoc(p, 0x33);
    assert p + [0x33] == [0x31, 0x32, 0x33];
  }

  lemma RegisterOfDigits4()
    ensures Register([0x31, 0x32, 0x33, 0x34]) == 0x641C_1F5C
  {
    RegisterOfDigits3();
    ShiftEight(0x77B7_9C2D ^ 0x34);
    var p: seq<byte> := [0x31, 0x32, 0x33];
    RegisterSnoc(p, 0x34);
    assert p + [0x34] == [0x31, 0x32, 0x33, 0x34];
  }

  lemma RegisterOfDigits5()
    ensures Register([0x31, 0x32, 0x33, 0x34, 0x35]) == 0x340A_C5E3
  {
    RegisterOfDigits4();
    ShiftEight(0x641C_1F5C ^ 0x35);
    var p: seq<byte> := [0x31, 0x32, 0x33, 0x34];
    RegisterSnoc(p, 0x35);
    assert p + [0x35] == [0x31, 0x32, 0x33, 0x34, 0x35];
  }

  lemma RegisterOfDigits6()
    ensures Register([0x31, 0x32, 0x33, 0x34, 0x35, 0x36]) == 0xF68D_2C9E
  {
    RegisterOfDigits5();
    ShiftEight(0x340A_C5E3 ^ 0x36);
    var p: seq<byte> := [0x31, 0x32, 0x33, 0x34, 0x35];
    RegisterSnoc(p, 0x36);
    assert p + [0x36] == [0x31, 0x32, 0x33, 0x34, 0x35, 0x36];
  }

  lemma RegisterOfDigits7()
    ensures Register([0x31, 0x32, 0x33, 0x34, 0x35, 0x36, 0x37]) == 0xAFFC_9660
  {
    RegisterOfDigits6();
    ShiftEight(0xF68D_2C9E ^ 0x37);
    var p: seq<byte> := [0x31, 0x32, 0x33, 0x34, 0x35, 0x36];
    RegisterSnoc(p, 0x37);
    assert p + [0x37] == [0x31, 0x32, 0x33, 0x34, 0x35, 0x36, 0x37];
  }

  lemma RegisterOfDigits8()
    ensures Register([0x31, 0x32, 0x33, 0x34, 0x35, 0x36, 0x37, 0x38]) == 0x651F_2550
  {
    RegisterOfDigits7();
    ShiftEight(0xAFFC_9660 ^ 0x38);
    var p: seq<byte> := [0x31, 0x32, 0x33, 0x34, 0x35, 0x36, 0x37];
    RegisterSnoc(p, 0x38);
    assert p + [0x38] == [0x31, 0x32, 0x33, 0x34, 0x35, 0x36, 0x37, 0x38];
  }

  lemma RegisterOfDigits9()
    ensures Register([0x31, 0x32, 0x33, 0x34, 0x35, 0x36, 0x37, 0x38, 0x39]) == 0x340B_C6D9
  {
    RegisterOfDigits8();
    ShiftEight(0x651F_2550 ^ 0x39);
    var p: seq<byte> := [0x31, 0x32, 0x33, 0x34, 0x35, 0x36, 0x37, 0x38];
    RegisterSnoc(p, 0x39);
    assert p + [0x39] == [0x31, 0x32, 0x33, 0x34, 0x35, 0x36, 0x37, 0x38, 0x39];
  }
}
