/**
  The Dallas/Maxim 1-Wire CRC-8 (polynomial x^8 + x^5 + x^4 + 1, bit-reflected
  as 0x8C, initial value 0, no final xor), as described in Maxim Application
  Note 27 and computed bit by bit by `OneWire::crc8`.
 */
module OneWireCrc {
  import opened Common

  /** One shift of the CRC register: the low bit of `crc ^ inbyte` decides whether the polynomial is folded in. */
  function ShiftBit(crc: bv8, inbyte: bv8): bv8 {
    var mix := (crc ^ inbyte) & 1;
    var shifted := crc >> 1;
    if mix != 0 then shifted ^ 0x8C else shifted
  }

  /** `n` shifts of the register, consuming the input byte from its low bit upwards. */
  function ShiftBits(crc: bv8, inbyte: bv8, n: nat): bv8
    requires n <= 8
    decreases n
  {
    if n == 0 then crc else ShiftBits(ShiftBit(crc, inbyte), inbyte >> 1, n - 1)
  }

  /** Feeds one data byte through the register. */
  function UpdateByte(crc: bv8, b: Byte): bv8 {
    ShiftBits(crc, b as bv8, 8)
  }

  /** Feeds `data` through the register, first byte first. */
  function Crc8From(crc: bv8, data: seq<Byte>): bv8
    decreases |data|
  {
    if data == [] then crc else Crc8From(UpdateByte(crc, data[0]), data[1..])
  }

  /** `OneWire::crc8(data, |data|)`. */
  function Crc8(data: seq<Byte>): Byte {
    Crc8From(0, data) as int
  }

  /** Feeding a byte equal to the register content lets every shift skip the polynomial. */
  lemma {:induction false} ShiftBitsOfSelf(x: bv8, n: nat)
    requires n <= 8
    ensures ShiftBits(x, x, n) == x >> n
  {
    if n > 0 {
      assert ShiftBit(x, x) == x >> 1;
      ShiftBitsOfSelf(x >> 1, n - 1);
      assert (x >> 1) >> (n - 1) == x >> n;
    }
  }

  /** The register is a left fold: appending a byte is one more update. */
  lemma {:induction false} Crc8FromAppend(crc: bv8, data: seq<Byte>, b: Byte)
    ensures Crc8From(crc, data + [b]) == UpdateByte(Crc8From(crc, data), b)
    decreases |data|
  {
    if data == [] {
      assert data + [b] == [b];
      assert ([b])[1..] == [];
    } else {
      assert (data + [b])[0] == data[0];
      assert (data + [b])[1..] == data[1..] + [b];
      Crc8FromAppend(UpdateByte(crc, data[0]), data[1..], b);
    }
  }

  /** A block followed by its own CRC checks to zero: the self-check a reader relies on. */
  lemma Crc8SelfCheck(data: seq<Byte>)
    ensures Crc8(data + [Crc8(data)]) == 0
  {
    var c := Crc8From(0, data);
    Crc8FromAppend(0, data, c as int);
    ShiftBitsOfSelf(c, 8);
  }

  /** The worked example of Maxim Application Note 27: ROM 02 1C B8 01 00 00 00 carries CRC A2. */
  lemma Application27Example()
    ensures Crc8([0x02, 0x1C, 0xB8, 0x01, 0x00, 0x00, 0x00]) == 0xA2
  {
    var rom: seq<Byte> := [0x02, 0x1C, 0xB8, 0x01, 0x00, 0x00, 0x00];
    assert UpdateByte(0x00, 0x02) == 0xBC;
    assert UpdateByte(0xBC, 0x1C) == 0xAF;
    assert UpdateByte(0xAF, 0xB8) == 0x1E;
    assert UpdateByte(0x1E, 0x01) == 0xDC;
    assert UpdateByte(0xDC, 0x00) == 0xF4;
    assert UpdateByte(0xF4, 0x00) == 0x15;
    assert UpdateByte(0x15, 0x00) == 0xA2;
    assert rom[1..][1..][1..][1..][1..][1..][1..] == [];
  }
}
