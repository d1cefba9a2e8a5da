/** Machine words and byte strings as bit sequences, most significant bit first. */
module BitStream {
  import opened Poly
  import opened Word

  function Bits16(c: bv16): (s: Poly)
    ensures |s| == 16
  {
    seq(16, i requires 0 <= i < 16 => c & Mask(i) != 0)
  }

  function Bits8(b: bv8): (s: Poly)
    ensures |s| == 8
  {
    Bits16(Upper(b))[..8]
  }

  /** The message as one bit stream. */
  function Bits(msg: seq<bv8>): (s: Poly)
    ensures |s| == 8 * |msg|
  {
    if msg == [] then [] else Bits8(msg[0]) + Bits(msg[1..])
  }

  lemma BitAt(c: bv16, i: nat, m: bv16)
    requires i < 16 && m == Mask(i)
    ensures Bits16(c)[i] == (c & m != 0)
  {
  }

  lemma Bits16Xor(c: bv16, d: bv16)
    ensures Bits16(c ^ d) == Add(Bits16(c), Bits16(d))
  {
    forall i | 0 <= i < 16 ensures Bits16(c ^ d)[i] == Add(Bits16(c), Bits16(d))[i] {
      MaskIsOneBit(i);
      XorBit(c, d, Mask(i));
    }
  }

  lemma UpperBits(b: bv8)
    ensures Bits16(Upper(b)) == Bits8(b) + Zeros(8)
  {
    forall i | 8 <= i < 16 ensures !Bits16(Upper(b))[i] {
      MaskIsOneBit(i);
      UpperHalf(b, Mask(i));
    }
  }

  lemma Bits16Injective(a: bv16, b: bv16)
    requires Bits16(a) == Bits16(b)
    ensures a == b
  {
    MaskValues();
    assert a & 0xFF00 == b & 0xFF00 by {
      BitAt(a, 0, 0x8000); BitAt(b, 0, 0x8000);
      BitAt(a, 1, 0x4000); BitAt(b, 1, 0x4000);
      BitAt(a, 2, 0x2000); BitAt(b, 2, 0x2000);
      BitAt(a, 3, 0x1000); BitAt(b, 3, 0x1000);
      BitAt(a, 4, 0x0800); BitAt(b, 4, 0x0800);
      BitAt(a, 5, 0x0400); BitAt(b, 5, 0x0400);
      BitAt(a, 6, 0x0200); BitAt(b, 6, 0x0200);
      BitAt(a, 7, 0x0100); BitAt(b, 7, 0x0100);
      UpperHalvesAgree(a, b);
    }
    assert a & 0x00FF == b & 0x00FF by {
      BitAt(a, 8, 0x0080); BitAt(b, 8, 0x0080);
      BitAt(a, 9, 0x0040); BitAt(b, 9, 0x0040);
      BitAt(a, 10, 0x0020); BitAt(b, 10, 0x0020);
      BitAt(a, 11, 0x0010); BitAt(b, 11, 0x0010);
      BitAt(a, 12, 0x0008); BitAt(b, 12, 0x0008);
      BitAt(a, 13, 0x0004); BitAt(b, 13, 0x0004);
      BitAt(a, 14, 0x0002); BitAt(b, 14, 0x0002);
      BitAt(a, 15, 0x0001); BitAt(b, 15, 0x0001);
      LowerHalvesAgree(a, b);
    }
    HalvesAgree(a, b);
  }

  lemma Bits8Injective(a: bv8, b: bv8)
    requires Bits8(a) == Bits8(b)
    ensures a == b
  {
    UpperBits(a);
    UpperBits(b);
    Bits16Injective(Upper(a), Upper(b));
    UpperInjective(a, b);
  }

  lemma {:induction false} BitsInjective(a: seq<bv8>, b: seq<bv8>)
    requires |a| == |b| && Bits(a) == Bits(b)
    ensures a == b
  {
    if a != [] {
      assert Bits8(a[0]) == Bits(a)[..8] && Bits(a[1..]) == Bits(a)[8..];
      assert Bits8(b[0]) == Bits(b)[..8] && Bits(b[1..]) == Bits(b)[8..];
      Bits8Injective(a[0], b[0]);
      BitsInjective(a[1..], b[1..]);
    }
  }

  lemma {:induction false} BitsConcat(a: seq<bv8>, b: seq<bv8>)
    ensures Bits(a + b) == Bits(a) + Bits(b)
  {
    if a == [] {
      assert a + b == b;
    } else {
      assert (a + b)[1..] == a[1..] + b;
      BitsConcat(a[1..], b);
    }
  }

  function XorBytes(a: seq<bv8>, b: seq<bv8>): (x: seq<bv8>)
    requires |a| == |b|
  {
    seq(|a|, i requires 0 <= i < |a| => a[i] ^ b[i])
  }

  lemma Bits8Xor(a: bv8, b: bv8)
    ensures Bits8(a ^ b) == Add(Bits8(a), Bits8(b))
  {
    assert Upper(a ^ b) == Upper(a) ^ Upper(b);
    Bits16Xor(Upper(a), Upper(b));
  }

  lemma {:induction false} BitsXor(a: seq<bv8>, b: seq<bv8>)
    requires |a| == |b|
    ensures Bits(XorBytes(a, b)) == Add(Bits(a), Bits(b))
  {
    if a != [] {
      Bits8Xor(a[0], b[0]);
      BitsXor(a[1..], b[1..]);
      assert XorBytes(a, b)[1..] == XorBytes(a[1..], b[1..]);
      AddConcat(Bits8(a[0]), Bits(a[1..]), Bits8(b[0]), Bits(b[1..]));
    }
  }

  lemma XorFromBits(x: bv16, y: bv16, z: bv16)
    requires Bits16(x) == Add(Bits16(y), Bits16(z))
    ensures x == y ^ z
  {
    Bits16Xor(y, z);
    Bits16Injective(x, y ^ z);
  }

  lemma HiBit(c: bv16, i: nat, m: bv16)
    requires i < 8 && m == Mask(i) && m & 0x00FF == 0
    ensures Bits16(c)[i] == Bits8(Hi(c))[i]
  {
    UpperOfHalves(c, m);
    BitAt(c, i, m);
    BitAt(Upper(Hi(c)), i, m);
  }

  lemma LoBit(c: bv16, i: nat, m: bv16, below: bv16)
    requires i < 8 && m == Mask(i) && below == Mask(i + 8) == m >> 8 && m & 0x00FF == 0
    ensures Bits16(c)[i + 8] == Bits8(Lo(c))[i]
  {
    UpperOfHalves(c, m);
    BitAt(c, i + 8, below);
    BitAt(Upper(Lo(c)), i, m);
  }

  lemma Bits16HiLo(c: bv16)
    ensures Bits16(c) == Bits8(Hi(c)) + Bits8(Lo(c))
  {
    var s, t := Bits16(c), Bits8(Hi(c)) + Bits8(Lo(c));
    forall i | 0 <= i < 16 ensures s[i] == t[i] {
      var j := if i < 8 then i else i - 8;
      MaskBelow(j);
      HiBit(c, j, Mask(j));
      LoBit(c, j, Mask(j), Mask(j + 8));
    }
  }

  lemma TwoBytes(hi: bv8, lo: bv8)
    ensures Bits([hi, lo]) == Bits8(hi) + Bits8(lo)
  {
    assert [hi, lo][1..] == [lo];
    assert [lo][1..] == [];
  }

  /** Where the bits of the i-th byte are in the stream. */
  lemma {:induction false} BitsAt(msg: seq<bv8>, i: nat, j: nat)
    requires i < |msg| && j < 8
    ensures Bits(msg)[8 * i + j] == Bits8(msg[i])[j]
    decreases |msg|
  {
    if i > 0 {
      BitsAt(msg[1..], i - 1, j);
      assert Bits(msg)[8 * i + j] == Bits(msg[1..])[8 * (i - 1) + j];
    }
  }
}
