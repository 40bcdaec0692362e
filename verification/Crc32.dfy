/** CRC-32 with polynomial 0x04C11DB7, most significant bit first, as the configuration store uses it. */
module Crc32 {
  import opened Arith
  import opened ShiftRegister

  const CRC32: Code := Code(32, 0x04C1_1DB7)
  const ALL_ONES: Word32 := 0xFFFF_FFFF

  lemma WordWidth(code: Code)
    requires code == CRC32
    ensures code.Valid() && Pow2(code.width) == 0x1_0000_0000
  {
    assert Pow2(8) == 0x100;
    assert Pow2(16) == 0x1_0000;
    assert Pow2(24) == 0x100_0000;
  }

  /** The register over some bytes, before the final inversion. */
  function Register(data: seq<Byte>): Word32 {
    WordWidth(CRC32);
    AbsorbAll(CRC32, ALL_ONES, data)
  }

  function Checksum(data: seq<Byte>): Word32 {
    WordWidth(CRC32);
    Xor(Register(data), ALL_ONES, CRC32.width)
  }

  lemma RegisterAppend(data: seq<Byte>, value: Byte)
    ensures CRC32.Valid() && Register(data + [value]) == Absorb(CRC32, Register(data), value)
  {
    WordWidth(CRC32);
    hide Absorb;
    AbsorbAllConcat(CRC32, ALL_ONES, data, [value]);
    assert [value][1..] == [];
  }

  method Compute(data: array<Byte>, length: nat) returns (crc: Word32)
    requires length <= data.Length
    ensures crc == Checksum(data[..length])
  {
    WordWidth(CRC32);
    crc := ALL_ONES;
    for i := 0 to length
      invariant crc == Register(data[..i])
    {
      RegisterAppend(data[..i], data[i]);
      assert data[..i + 1] == data[..i] + [data[i]];
      crc := AbsorbByte(CRC32, crc, data[i]);
    }
    crc := Xor(crc, ALL_ONES, CRC32.width);
  }

  /** Any change confined to one byte changes the checksum. */
  lemma ChecksumDetectsOneByte(data: seq<Byte>, k: nat, x: Byte)
    requires k < |data| && x != data[k]
    ensures Checksum(data[k := x]) != Checksum(data)
  {
    WordWidth(CRC32);
    AbsorbAllDetectsOneByte(CRC32, ALL_ONES, data, k, x);
    XorInjective(Register(data[k := x]), Register(data), ALL_ONES, CRC32.width);
  }
}
