/** Which damaged packets fmr_perform refuses. */
module Integrity {
  import opened Octet
  import opened BitStream
  import opened Wire

  /** Bit j of byte i, counted from the most significant one. */
  ghost function Bit(s: seq<Byte>, i: nat, j: nat): bool
    requires i < |s| && j < 8
  {
    Bits8(ToBv(s[i]))[j]
  }

  lemma BitOfStream(s: seq<Byte>, i: nat, j: nat)
    requires i < |s| && j < 8
    ensures Bits(Bvs(s))[8 * i + j] == Bit(s, i, j)
  {
    BitsAt(Bvs(s), i, j);
  }

  lemma DifferentByteHasDifferentBit(a: seq<Byte>, b: seq<Byte>, i: nat) returns (j: nat)
    requires i < |a| == |b| && a[i] != b[i]
    ensures j < 8 && Bit(a, i, j) != Bit(b, i, j)
  {
    var x, y := ToBv(a[i]), ToBv(b[i]);
    if Bits8(x) == Bits8(y) {
      Bits8Injective(x, y);
      RoundTrip(a[i]);
      RoundTrip(b[i]);
    }
    j :| 0 <= j < 8 && Bits8(x)[j] != Bits8(y)[j];
  }

  /** Bytes that differ lie in the window of the burst. */
  lemma BurstPosition(a: seq<Byte>, b: seq<Byte>, lo: nat, i: nat)
    requires i < |a| == |b| && a[i] != b[i] && Burst(a, b, lo)
    ensures lo <= 8 * i + 7 && 8 * i < lo + 16
  {
    var j := DifferentByteHasDifferentBit(a, b, i);
    BitOfStream(a, i, j);
    BitOfStream(b, i, j);
  }

  /** A difference in one byte is a burst. */
  lemma OneByteBurst(a: seq<Byte>, b: seq<Byte>, i: nat)
    requires i < |a| == |b| && forall k :: 0 <= k < |a| && k != i ==> a[k] == b[k]
    ensures Burst(a, b, 8 * i)
  {
    forall n | 0 <= n < 8 * |a| && Bits(Bvs(a))[n] != Bits(Bvs(b))[n] ensures 8 * i <= n < 8 * i + 16 {
      BitOfStream(a, n / 8, n % 8);
      BitOfStream(b, n / 8, n % 8);
    }
  }

  /** Changing both messages alike in some places leaves a burst a burst. */
  lemma BurstNarrows(a: seq<Byte>, b: seq<Byte>, c: seq<Byte>, d: seq<Byte>, lo: nat)
    requires |a| == |b| == |c| == |d| && Burst(a, b, lo)
    requires forall i :: 0 <= i < |a| ==> c[i] == d[i] || (c[i] == a[i] && d[i] == b[i])
    ensures Burst(c, d, lo)
  {
    forall k | 0 <= k < 8 * |c| && Bits(Bvs(c))[k] != Bits(Bvs(d))[k] ensures lo <= k < lo + 16 {
      var i, j := k / 8, k % 8;
      BitOfStream(a, i, j);
      BitOfStream(b, i, j);
      BitOfStream(c, i, j);
      BitOfStream(d, i, j);
      assert k == 8 * i + j;
    }
  }

  /** The packets differ only in bytes the checksum covers, and not in the length field. */
  ghost predicate DamagedOutsideLength(mem: seq<Byte>, bad: seq<Byte>)
    requires Memory(mem)
  {
    && |bad| == |mem| && bad != mem
    && forall i :: 0 <= i < |mem| && (i == LEN_AT || i == LEN_AT + 1 || i >= Len(mem)) ==> bad[i] == mem[i]
  }

  /** Damage to the magic number, the checksum field, the class or anything after it, confined
      to sixteen consecutive bits, makes an acceptable packet unacceptable. */
  lemma BurstRejected(mem: seq<Byte>, bad: seq<Byte>, lo: nat)
    requires Memory(mem) && Accepts(mem) && DamagedOutsideLength(mem, bad)
    requires Burst(mem[..Len(mem)], bad[..Len(mem)], lo)
    ensures !Accepts(bad)
  {
    var n := Len(mem);
    assert Len(bad) == n;
    var a, b := mem[..n], bad[..n];
    var c, d := Cleared(mem)[..n], Cleared(bad)[..n];
    if bad[1] == mem[1] && bad[2] == mem[2] {
      var i :| 0 <= i < |mem| && bad[i] != mem[i];
      assert c[i] != d[i];
      BurstNarrows(a, b, c, d, lo);
      BurstChangesChecksum(c, d, lo);
    } else if bad[0] == mem[0] {
      var k := if bad[1] != mem[1] then 1 else 2;
      BurstPosition(a, b, lo, k);
      forall i | 5 <= i < n ensures a[i] == b[i] {
        if a[i] != b[i] { BurstPosition(a, b, lo, i); }
      }
      assert c == d;
    }
  }

  /** Damage confined to the checksum field is always refused. */
  lemma ChecksumFieldDamageRejected(mem: seq<Byte>, bad: seq<Byte>)
    requires Memory(mem) && Accepts(mem) && |bad| == |mem| && bad != mem
    requires forall i :: 0 <= i < |mem| && i != CRC_AT && i != CRC_AT + 1 ==> bad[i] == mem[i]
    ensures !Accepts(bad)
  {
    assert Cleared(mem) == Cleared(bad);
  }
}
