/** CRC-8 with polynomial 0x07 and initial value 0, as the serial link uses it. */
module Crc8 {
  import opened Arith
  import opened ShiftRegister

  const CRC8: Code := Code(8, 0x07)

  lemma ByteWidth(code: Code)
    requires code == CRC8
    ensures code.Valid() && Pow2(code.width) == 0x100
  {
  }

  /** The CRC register after one more byte. */
  function Update(crc: Byte, value: Byte): Byte {
    ByteWidth(CRC8);
    Absorb(CRC8, crc, value)
  }

  function UpdateAll(crc: Byte, data: seq<Byte>): Byte {
    ByteWidth(CRC8);
    AbsorbAll(CRC8, crc, data)
  }

  function Checksum(data: seq<Byte>): Byte {
    UpdateAll(0, data)
  }

  lemma UpdateAllNone(crc: Byte, data: seq<Byte>)
    requires data == []
    ensures UpdateAll(crc, data) == crc
  {
  }

  lemma ChecksumOfNone(data: seq<Byte>)
    ensures data == [] ==> Checksum(data) == 0
  {
    UpdateAllNone(0, []);
  }

  lemma UpdateAllFirst(crc: Byte, data: seq<Byte>)
    requires data != []
    ensures UpdateAll(crc, data) == UpdateAll(Update(crc, data[0]), data[1..])
  {
  }

  method Crc8Update(crc: Byte, value: Byte) returns (next: Byte)
    ensures next == Update(crc, value)
  {
    ByteWidth(CRC8);
    next := AbsorbByte(CRC8, crc, value);
  }

  method SerialCrc8(data: seq<Byte>) returns (crc: Byte)
    ensures crc == Checksum(data)
  {
    hide Update, UpdateAll;
    crc := 0;
    for index := 0 to |data|
      invariant Checksum(data) == UpdateAll(crc, data[index..])
    {
      UpdateAllFirst(crc, data[index..]);
      crc := Crc8Update(crc, data[index]);
    }
    UpdateAllNone(crc, data[|data|..]);
  }

  lemma UpdateAllConcat(c: Byte, a: seq<Byte>, b: seq<Byte>)
    ensures UpdateAll(c, a + b) == UpdateAll(UpdateAll(c, a), b)
  {
    ByteWidth(CRC8);
    AbsorbAllConcat(CRC8, c, a, b);
  }

  /** Any change confined to one byte of a message changes its checksum. */
  lemma ChecksumDetectsOneByte(data: seq<Byte>, k: nat, x: Byte)
    requires k < |data| && x != data[k]
    ensures Checksum(data[k := x]) != Checksum(data)
  {
    ByteWidth(CRC8);
    AbsorbAllDetectsOneByte(CRC8, 0, data, k, x);
  }

  lemma ChecksumAppend(data: seq<Byte>, value: Byte)
    ensures Checksum(data + [value]) == Update(Checksum(data), value)
  {
    hide Update, UpdateAll;
    UpdateAllConcat(0, data, [value]);
    UpdateAllFirst(Checksum(data), [value]);
    UpdateAllNone(Update(Checksum(data), value), [value][1..]);
  }
}
