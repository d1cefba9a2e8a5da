/** Bytes of memory as numbers, and their checksum. */
module Octet {
  import opened Word
  import opened BitStream
  import Crc

  type Byte = n: int | 0 <= n < 256

  function FromBv(b: bv8): (n: Byte)
  {
    BvBound(b);
    b as int
  }

  function ToBv(n: Byte): bv8
    decreases n
  {
    if n == 0 then 0 else ToBv(n - 1) + 1
  }

  lemma BvBound(b: bv8)
    ensures 0 <= b as int < 256
  {
  }

  lemma Successor(b: bv8)
    requires b as int < 255
    ensures (b + 1) as int == (b as int) + 1
  {
    NotTop(b);
    SuccessorBelowTop(b);
  }

  lemma NotTop(b: bv8)
    requires b as int < 255
    ensures b != 0xFF
  {
  }

  lemma SuccessorBelowTop(b: bv8)
    requires b != 0xFF
    ensures (b + 1) as int == (b as int) + 1
  {
  }

  lemma {:induction false} RoundTrip(n: Byte)
    ensures FromBv(ToBv(n)) == n
    decreases n
  {
    if n > 0 {
      RoundTrip(n - 1);
      Successor(ToBv(n - 1));
    }
  }

  lemma FromBvInjective(a: bv8, b: bv8)
    requires FromBv(a) == FromBv(b)
    ensures a == b
  {
  }

  function Bvs(s: seq<Byte>): (r: seq<bv8>)
    ensures |r| == |s|
  {
    seq(|s|, i requires 0 <= i < |s| => ToBv(s[i]))
  }

  lemma BvsInjective(a: seq<Byte>, b: seq<Byte>)
    requires Bvs(a) == Bvs(b)
    ensures a == b
  {
    assert |a| == |Bvs(a)| == |b|;
    forall i | 0 <= i < |a| ensures a[i] == b[i] {
      assert Bvs(a)[i] == Bvs(b)[i];
      RoundTrip(a[i]);
      RoundTrip(b[i]);
    }
  }

  /** The two bytes of the checksum of `s`, low one first, as a little-endian machine keeps them. */
  function Checksum(s: seq<Byte>): (c: (Byte, Byte)) {
    var crc := Crc.Crc16(Bvs(s));
    (FromBv(Lo(crc)), FromBv(Hi(crc)))
  }

  /** lf_crc: the checksum as the two bytes of its result variable. */
  method LfCrc(s: seq<Byte>, signedChar: bool) returns (lo: Byte, hi: Byte)
    ensures (lo, hi) == Checksum(s)
  {
    var crc := Crc.Calcrc(Bvs(s), signedChar);
    lo, hi := FromBv(Lo(crc)), FromBv(Hi(crc));
  }

  lemma HalvesDetermine(a: bv16, b: bv16)
    requires Lo(a) == Lo(b) && Hi(a) == Hi(b)
    ensures a == b
  {
  }

  /** The bits of `a` and `b`, most significant bit of each byte first, differ only among the
      sixteen from bit `lo` on. */
  ghost predicate Burst(a: seq<Byte>, b: seq<Byte>, lo: nat)
    requires |a| == |b|
  {
    Crc.BurstWithin16(Bvs(a), Bvs(b), lo)
  }

  lemma BurstChangesChecksum(a: seq<Byte>, b: seq<Byte>, lo: nat)
    requires |a| == |b| && a != b && Burst(a, b, lo)
    ensures Checksum(a) != Checksum(b)
  {
    if Bvs(a) == Bvs(b) { BvsInjective(a, b); }
    Crc.BurstDetected(Bvs(a), Bvs(b), lo);
    var c, d := Crc.Crc16(Bvs(a)), Crc.Crc16(Bvs(b));
    if Checksum(a) == Checksum(b) {
      FromBvInjective(Lo(c), Lo(d));
      FromBvInjective(Hi(c), Hi(d));
      HalvesDetermine(c, d);
    }
  }

  lemma ToBvOfFromBv(b: bv8)
    ensures ToBv(FromBv(b)) == b
  {
    RoundTrip(FromBv(b));
    FromBvInjective(ToBv(FromBv(b)), b);
  }

  lemma ZeroChecksum(c: bv16)
    ensures (FromBv(Lo(c)), FromBv(Hi(c))) == (0, 0) <==> c == 0
  {
    if FromBv(Lo(c)) == 0 && FromBv(Hi(c)) == 0 {
      FromBvInjective(Lo(c), 0);
      FromBvInjective(Hi(c), 0);
      ZeroWord(c);
    }
  }

  lemma ZeroWord(c: bv16)
    ensures c == 0 <==> Lo(c) == 0 && Hi(c) == 0
  {
  }

  lemma BvsConcat(a: seq<Byte>, b: seq<Byte>)
    ensures Bvs(a + b) == Bvs(a) + Bvs(b)
  {
  }

  /** Data followed by two bytes checks to zero exactly when they are its checksum, high byte
      first. */
  lemma ResidueIff(data: seq<Byte>, hi: Byte, lo: Byte)
    ensures Checksum(data + [hi, lo]) == (0, 0) <==> (lo, hi) == Checksum(data)
  {
    var crc := Crc.Crc16(Bvs(data));
    BvsConcat(data, [hi, lo]);
    assert Bvs([hi, lo]) == [ToBv(hi), ToBv(lo)];
    Crc.ResidueIffChecksum(Bvs(data), ToBv(hi), ToBv(lo));
    ZeroChecksum(Crc.Crc16(Bvs(data + [hi, lo])));
    ToBvOfFromBv(Hi(crc));
    ToBvOfFromBv(Lo(crc));
    RoundTrip(hi);
    RoundTrip(lo);
  }

  lemma Regroup(a: seq<Byte>, b: seq<Byte>, c: seq<Byte>, d: seq<Byte>, e: seq<Byte>)
    requires b + c == d + e
    ensures (a + b) + c == (a + d) + e
  {
    assert (a + b) + c == a + (b + c) && (a + d) + e == a + (d + e);
  }

  function Min(a: nat, b: nat): nat { if a <= b then a else b }
}
