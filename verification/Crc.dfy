/** The checksum of lib/crc.c, used by the message runtime and by the firmware uploader. */
module Crc {
  import opened Poly
  import opened Word
  import opened BitStream
  import Lfsr

  /** x^16 + x^12 + x^5 + 1, the generator of section 2 of ITU-T Recommendation V.41. */
  const GENERATOR: Poly := [true, false, false, false, true, false, false, false, false,
                            false, false, true, false, false, false, false, true]

  /** A message byte brought into the upper half of the register. */
  function Load(crc: bv16, b: bv8): bv16 { crc ^ Upper(b) }

  function ShiftN(crc: bv16, n: nat): bv16
    decreases n
  {
    if n == 0 then crc else ShiftN(Shift(crc), n - 1)
  }

  /** The register after `msg`, starting from `crc`. */
  function From(crc: bv16, msg: seq<bv8>): bv16
    decreases |msg|
  {
    if msg == [] then crc else From(ShiftN(Load(crc, msg[0]), 8), msg[1..])
  }

  function Crc16(msg: seq<bv8>): bv16 { From(0, msg) }

  /** calcrc, with both of its loops, for either signedness of char. */
  method Calcrc(ptr: seq<bv8>, signedChar: bool) returns (crc: bv16)
    ensures crc == Crc16(ptr)
  {
    crc := 0;
    var k := 0;
    while k < |ptr|
      invariant 0 <= k <= |ptr|
      invariant From(crc, ptr[k..]) == Crc16(ptr)
    {
      assert ptr[k..][1..] == ptr[k + 1..];
      ghost var next := ShiftN(Load(crc, ptr[k]), 8);
      SignExtensionVanishes(crc, ptr[k], signedChar);
      crc := LoadChar(crc, ToUint16(ptr[k], signedChar));
      var i: nat := 8;
      while i > 0
        invariant i <= 8
        invariant ShiftN(crc, i) == next
      {
        if crc & 0x8000 != 0 {
          crc := (crc << 1) ^ POLY;
        } else {
          crc := crc << 1;
        }
        i := i - 1;
      }
      k := k + 1;
    }
  }

  lemma GeneratorAt(i: nat)
    requires i < 16
    ensures GENERATOR[i + 1] == (i == 3 || i == 10 || i == 15)
  {
  }

  lemma ShiftBitAt(c: bv16, i: nat, m: bv16)
    requires i < 16 && m == Mask(i) && m >> 1 == Mask(i + 1) && OneBit(m)
    requires (m & POLY != 0) == (i == 3 || i == 10 || i == 15)
    requires i == 15 ==> m >> 1 == 0
    ensures Bits16(Shift(c))[i] == ((i < 15 && Bits16(c)[i + 1]) != (GENERATOR[i + 1] && Bits16(c)[0]))
  {
    GeneratorAt(i);
    ShiftBit(c, m);
    BitAt(Shift(c), i, m);
    BitAt(c, 0, 0x8000);
    if i < 15 { BitAt(c, i + 1, m >> 1); }
  }

  lemma ShiftBits(c: bv16)
    ensures Bits16(Shift(c)) == Lfsr.Shift(Bits16(c), false, GENERATOR)
  {
    forall i | 0 <= i < 16 ensures Bits16(Shift(c))[i] == Lfsr.Shift(Bits16(c), false, GENERATOR)[i] {
      MaskIsOneBit(i);
      MaskValues();
      ShiftBitAt(c, i, Mask(i));
    }
  }

  lemma {:induction false} ShiftNBits(c: bv16, n: nat)
    ensures Bits16(ShiftN(c, n)) == Lfsr.Run(Bits16(c), Zeros(n), GENERATOR)
    decreases n
  {
    if n > 0 {
      ShiftBits(c);
      assert Zeros(n)[1..] == Zeros(n - 1);
      ShiftNBits(Shift(c), n - 1);
    }
  }

  lemma LoadBits(c: bv16, b: bv8)
    ensures Bits16(Load(c, b)) == Add(Bits16(c), Bits8(b) + Zeros(8))
  {
    Bits16Xor(c, Upper(b));
    UpperBits(b);
  }

  lemma StepBits(c: bv16, b: bv8, x: bv16)
    requires Bits16(x) == Add(Bits16(c), Bits8(b) + Zeros(8))
    ensures Bits16(ShiftN(x, 8)) == Lfsr.Run(Bits16(c), Bits8(b), GENERATOR)
  {
    ShiftNBits(x, 8);
    Lfsr.LoadThenShift(Bits16(c), Bits8(b), GENERATOR);
  }

  /** The byte-at-a-time register is the bit-serial divider. */
  lemma {:induction false} FromBits(c: bv16, msg: seq<bv8>)
    ensures Bits16(From(c, msg)) == Lfsr.Run(Bits16(c), Bits(msg), GENERATOR)
    decreases |msg|
  {
    if msg != [] {
      var x := Load(c, msg[0]);
      LoadBits(c, msg[0]);
      StepBits(c, msg[0], x);
      FromBits(ShiftN(x, 8), msg[1..]);
      Lfsr.RunConcat(Bits16(c), Bits8(msg[0]), Bits(msg[1..]), GENERATOR);
    }
  }

  lemma Crc16Bits(msg: seq<bv8>)
    ensures Bits16(Crc16(msg)) == Lfsr.Run(Zeros(16), Bits(msg), GENERATOR)
  {
    FromBits(0, msg);
    assert Bits16(0) == Zeros(16);
  }

  // ---- What the checksum computes and detects --------------------------------------------

  /** The checksum is the remainder of the message times x^16 by the generator, and nothing
      else is. */
  lemma CrcIsTheRemainder(msg: seq<bv8>, r: Poly)
    ensures IsRemainder(Bits(msg), GENERATOR, r) <==> r == Bits16(Crc16(msg))
  {
    Crc16Bits(msg);
    var q := Lfsr.RunIsRemainder(Bits(msg), GENERATOR);
    if IsRemainder(Bits(msg), GENERATOR, r) {
      RemainderUnique(Bits(msg), GENERATOR, r, Bits16(Crc16(msg)));
    }
  }

  lemma {:induction false} FromLinear(c: bv16, d: bv16, a: seq<bv8>, b: seq<bv8>)
    requires |a| == |b|
    ensures Bits16(From(c ^ d, XorBytes(a, b))) == Add(Bits16(From(c, a)), Bits16(From(d, b)))
  {
    FromBits(c, a);
    FromBits(d, b);
    FromBits(c ^ d, XorBytes(a, b));
    BitsXor(a, b);
    Bits16Xor(c, d);
    Lfsr.RunLinear(Bits16(c), Bits16(d), Bits(a), Bits(b), GENERATOR);
  }

  /** The checksum of a bitwise sum is the bitwise sum of the checksums. */
  lemma Linear(a: seq<bv8>, b: seq<bv8>)
    requires |a| == |b|
    ensures Crc16(XorBytes(a, b)) == Crc16(a) ^ Crc16(b)
  {
    FromLinear(0, 0, a, b);
    XorFromBits(Crc16(XorBytes(a, b)), Crc16(a), Crc16(b));
  }

  /** Every bit in which the two messages differ is among the sixteen from bit `lo` on. */
  ghost predicate BurstWithin16(a: seq<bv8>, b: seq<bv8>, lo: nat)
    requires |a| == |b|
  {
    forall i :: 0 <= i < 8 * |a| && Bits(a)[i] != Bits(b)[i] ==> lo <= i < lo + 16
  }

  lemma BurstIsConfined(a: Poly, b: Poly, lo: nat) returns (from: nat, d: nat)
    requires |a| == |b|
    requires forall i :: 0 <= i < |a| && a[i] != b[i] ==> lo <= i < lo + 16
    ensures d <= 16 && Lfsr.Confined(Add(a, b), from, d)
  {
    from := if lo <= |a| then lo else |a|;
    d := if from + 16 <= |a| then 16 else |a| - from;
    assert Add(a, b) == Zeros(from) + Add(a, b)[from..from + d] + Zeros(|a| - from - d);
  }

  /** Two different messages of one length whose differences fit in sixteen consecutive bits,
      at any bit position, have different checksums. */
  lemma BurstDetected(a: seq<bv8>, b: seq<bv8>, lo: nat)
    requires |a| == |b| && a != b && BurstWithin16(a, b, lo)
    ensures Crc16(a) != Crc16(b)
  {
    if Bits(a) == Bits(b) { BitsInjective(a, b); }
    var from, d := BurstIsConfined(Bits(a), Bits(b), lo);
    Lfsr.BurstChangesRegister(Bits(a), Bits(b), from, d, GENERATOR);
    Crc16Bits(a);
    Crc16Bits(b);
  }

  lemma GeneratorIsEven()
    ensures !Parity(GENERATOR)
  {
    ParityOfConcat([true, false, false, false, true], [false, false, false, false, false, false, true, false, false, false, false, true]);
    ParityOfConcat([false, false, false, false, false, false, true], [false, false, false, false, true]);
    assert [true, false, false, false, true] + [false, false, false, false, false, false, true, false, false, false, false, true]
           == GENERATOR;
    assert [false, false, false, false, false, false, true] + [false, false, false, false, true]
           == [false, false, false, false, false, false, true, false, false, false, false, true];
    LastOfZeros(4);
    LastOfZeros(6);
    assert [true, false, false, false, true] == [true] + (Zeros(3) + [true]);
    LastOfZeros(3);
    ParityOfConcat([true], Zeros(3) + [true]);
    assert Parity([true]) by { assert [true][..0] == []; }
    assert [false, false, false, false, true] == Zeros(4) + [true];
    assert [false, false, false, false, false, false, true] == Zeros(6) + [true];
  }

  lemma LastOfZeros(n: nat)
    ensures Parity(Zeros(n) + [true])
  {
    ParityOfZeros(n);
    assert (Zeros(n) + [true])[..n] == Zeros(n);
  }

  /** The checksum has an odd number of set bits exactly when the message has. */
  lemma ChecksumKeepsParity(msg: seq<bv8>)
    ensures Parity(Bits16(Crc16(msg))) == Parity(Bits(msg))
  {
    CrcIsTheRemainder(msg, Bits16(Crc16(msg)));
    GeneratorIsEven();
    RemainderKeepsParity(Bits(msg), GENERATOR, Bits16(Crc16(msg)));
  }

  /** Two messages of one length that differ in an odd number of bits have different checksums. */
  lemma OddDamageDetected(a: seq<bv8>, b: seq<bv8>)
    requires |a| == |b| && Parity(Bits(XorBytes(a, b)))
    ensures Crc16(a) != Crc16(b)
  {
    BitsXor(a, b);
    ParityOfSum(Bits(a), Bits(b));
    ChecksumKeepsParity(a);
    ChecksumKeepsParity(b);
  }

  /** Sixteen is the most: a burst of seventeen bits, the generator itself, goes unnoticed. */
  lemma SeventeenBitsUndetected()
    ensures Crc16([0x01, 0x10, 0x21]) == Crc16([0x00, 0x00, 0x00])
  {
    assert From(0, [0x01, 0x10, 0x21]) == 0;
  }

  /** Exactly which corruptions of a message of two bytes or more go unnoticed: those whose
      difference is a multiple of the generator. */
  lemma UndetectedIffMultiple(a: seq<bv8>, b: seq<bv8>)
    requires |a| == |b| >= 2
    ensures Crc16(a) == Crc16(b) <==> Lfsr.IsMultiple(Bits(XorBytes(a, b)), GENERATOR)
  {
    Lfsr.CollisionIffMultiple(Bits(a), Bits(b), GENERATOR);
    BitsXor(a, b);
    Crc16Bits(a);
    Crc16Bits(b);
    if Bits16(Crc16(a)) == Bits16(Crc16(b)) { Bits16Injective(Crc16(a), Crc16(b)); }
  }

  /** A message followed by two bytes checks to zero exactly when those bytes are its own
      checksum, high byte first. */
  lemma ResidueIffChecksum(msg: seq<bv8>, hi: bv8, lo: bv8)
    ensures Crc16(msg + [hi, lo]) == 0 <==> hi == Hi(Crc16(msg)) && lo == Lo(Crc16(msg))
  {
    var c := Crc16(msg);
    Crc16Bits(msg);
    Crc16Bits(msg + [hi, lo]);
    BitsConcat(msg, [hi, lo]);
    Lfsr.RunConcat(Zeros(16), Bits(msg), Bits([hi, lo]), GENERATOR);
    Lfsr.ResidueIff(Bits16(c), Bits([hi, lo]), GENERATOR);
    Bits16HiLo(c);
    TwoBytes(Hi(c), Lo(c));
    if Bits([hi, lo]) == Bits16(c) { BitsInjective([hi, lo], [Hi(c), Lo(c)]); }
    assert Bits16(0) == Zeros(16);
    if Bits16(Crc16(msg + [hi, lo])) == Zeros(16) { Bits16Injective(Crc16(msg + [hi, lo]), 0); }
  }
}
