/** 8- and 16-bit machine words: the register operations of lib/crc.c and the bit-level
    facts about them. */
module Word {

  const POLY: bv16 := 0x1021

  /** One turn of the inner loop. */
  function Shift(crc: bv16): bv16 {
    if crc & 0x8000 != 0 then (crc << 1) ^ POLY else crc << 1
  }

  /** A message byte in the upper half of the register. */
  function Upper(b: bv8): bv16 { (b as bv16) << 8 }

  function Hi(c: bv16): bv8 { (c >> 8) as bv8 }

  function Lo(c: bv16): bv8 { (c & 0xFF) as bv8 }

  function Truncate(x: bv32): bv16 { (x & 0xFFFF) as bv16 }

  /** `(uint16_t)*ptr`: the char converted to 16 bits, with sign extension where char is signed. */
  function ToUint16(b: bv8, signedChar: bool): bv16 {
    if signedChar && b & 0x80 != 0 then (b as bv16) | 0xFF00 else b as bv16
  }

  /** What `crc ^ w << 8` stores in crc: the operands are promoted to a 32-bit int, and the
      result is truncated. */
  function LoadChar(crc: bv16, w: bv16): bv16 {
    Truncate((crc as bv32) ^ ((w as bv32) << 8))
  }

  lemma LoadIn32Bits(crc: bv16, w: bv16)
    ensures LoadChar(crc, w) == crc ^ (w << 8)
  {
  }

  lemma SignShiftedOut(b: bv8, signedChar: bool)
    ensures ToUint16(b, signedChar) << 8 == Upper(b)
  {
  }

  lemma LoadWidened(crc: bv16, b: bv8, w: bv16)
    requires w << 8 == Upper(b)
    ensures LoadChar(crc, w) == crc ^ Upper(b)
  {
    LoadIn32Bits(crc, w);
  }

  /** Promotion, sign extension and truncation leave just the byte in the upper half. */
  lemma SignExtensionVanishes(crc: bv16, b: bv8, signedChar: bool)
    ensures LoadChar(crc, ToUint16(b, signedChar)) == crc ^ Upper(b)
  {
    SignShiftedOut(b, signedChar);
    LoadWidened(crc, b, ToUint16(b, signedChar));
  }

  /** The bit i places below the most significant one. */
  function Mask(i: nat): bv16 {
    if i == 0 then 0x8000 else Mask(i - 1) >> 1
  }

  lemma MaskValues()
    ensures Mask(0) == 0x8000 && Mask(1) == 0x4000 && Mask(2) == 0x2000 && Mask(3) == 0x1000
    ensures Mask(4) == 0x0800 && Mask(5) == 0x0400 && Mask(6) == 0x0200 && Mask(7) == 0x0100
    ensures Mask(8) == 0x0080 && Mask(9) == 0x0040 && Mask(10) == 0x0020 && Mask(11) == 0x0010
    ensures Mask(12) == 0x0008 && Mask(13) == 0x0004 && Mask(14) == 0x0002 && Mask(15) == 0x0001
  {
    assert Mask(0) == 0x8000 && Mask(1) == 0x4000 && Mask(2) == 0x2000 && Mask(3) == 0x1000;
    assert Mask(4) == 0x0800 && Mask(5) == 0x0400 && Mask(6) == 0x0200 && Mask(7) == 0x0100;
    assert Mask(8) == 0x0080 && Mask(9) == 0x0040 && Mask(10) == 0x0020 && Mask(11) == 0x0010;
    assert Mask(12) == 0x0008 && Mask(13) == 0x0004 && Mask(14) == 0x0002 && Mask(15) == 0x0001;
  }

  predicate OneBit(m: bv16) { m & (m - 1) == 0 && m != 0 }

  lemma {:induction false} MaskIsOneBit(i: nat)
    requires i < 16
    ensures OneBit(Mask(i)) && (i >= 8 ==> Mask(i) & 0xFF00 == 0)
    ensures (Mask(i) & POLY != 0) == (i == 3 || i == 10 || i == 15)
  {
    MaskValues();
    if i < 8 {
      assert i == 0 || i == 1 || i == 2 || i == 3 || i == 4 || i == 5 || i == 6 || i == 7;
    } else {
      assert i == 8 || i == 9 || i == 10 || i == 11 || i == 12 || i == 13 || i == 14 || i == 15;
    }
  }

  lemma XorBit(c: bv16, d: bv16, m: bv16)
    requires OneBit(m)
    ensures ((c ^ d) & m != 0) == ((c & m != 0) != (d & m != 0))
  {
  }

  lemma DoubleBit(c: bv16, m: bv16)
    requires OneBit(m)
    ensures ((c << 1) & m != 0) == (c & (m >> 1) != 0)
  {
  }

  /** Where a bit of the register comes from in one shift. */
  lemma ShiftBit(c: bv16, m: bv16)
    requires OneBit(m)
    ensures (Shift(c) & m != 0) == ((c & (m >> 1) != 0) != (POLY & m != 0 && c & 0x8000 != 0))
  {
    DoubleBit(c, m);
    XorBit(c << 1, POLY, m);
  }

  lemma UpperHalf(b: bv8, m: bv16)
    requires m & 0xFF00 == 0
    ensures Upper(b) & m == 0
  {
  }

  lemma UpperInjective(a: bv8, b: bv8)
    requires Upper(a) == Upper(b)
    ensures a == b
  {
  }

  lemma UpperHalvesAgree(a: bv16, b: bv16)
    requires (a & 0x8000 != 0) == (b & 0x8000 != 0)
    requires (a & 0x4000 != 0) == (b & 0x4000 != 0)
    requires (a & 0x2000 != 0) == (b & 0x2000 != 0)
    requires (a & 0x1000 != 0) == (b & 0x1000 != 0)
    requires (a & 0x0800 != 0) == (b & 0x0800 != 0)
    requires (a & 0x0400 != 0) == (b & 0x0400 != 0)
    requires (a & 0x0200 != 0) == (b & 0x0200 != 0)
    requires (a & 0x0100 != 0) == (b & 0x0100 != 0)
    ensures a & 0xFF00 == b & 0xFF00
  {
  }

  lemma LowerHalvesAgree(a: bv16, b: bv16)
    requires (a & 0x0080 != 0) == (b & 0x0080 != 0)
    requires (a & 0x0040 != 0) == (b & 0x0040 != 0)
    requires (a & 0x0020 != 0) == (b & 0x0020 != 0)
    requires (a & 0x0010 != 0) == (b & 0x0010 != 0)
    requires (a & 0x0008 != 0) == (b & 0x0008 != 0)
    requires (a & 0x0004 != 0) == (b & 0x0004 != 0)
    requires (a & 0x0002 != 0) == (b & 0x0002 != 0)
    requires (a & 0x0001 != 0) == (b & 0x0001 != 0)
    ensures a & 0x00FF == b & 0x00FF
  {
  }

  lemma HalvesAgree(a: bv16, b: bv16)
    requires a & 0xFF00 == b & 0xFF00 && a & 0x00FF == b & 0x00FF
    ensures a == b
  {
  }

  lemma UpperOfHalves(c: bv16, m: bv16)
    requires m & 0x00FF == 0
    ensures (Upper(Hi(c)) & m != 0) == (c & m != 0)
    ensures (Upper(Lo(c)) & m != 0) == (c & (m >> 8) != 0)
  {
  }

  lemma MaskBelow(i: nat)
    requires i < 8
    ensures Mask(i + 8) == Mask(i) >> 8 && Mask(i) & 0x00FF == 0
  {
    MaskValues();
    assert i == 0 || i == 1 || i == 2 || i == 3 || i == 4 || i == 5 || i == 6 || i == 7;
  }
}
