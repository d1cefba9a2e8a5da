/** The shift register that divides a bit stream by a generator, one bit at a time,
    and what it computes. */
module Lfsr {
  import opened Poly

  /** Multiply the register by x, bring in one message bit at the top, reduce by `g`. */
  function Shift(r: Poly, bit: bool, g: Poly): (s: Poly)
    requires IsGenerator(g) && |r| == |g| - 1
    ensures |s| == |r|
  {
    Add(r[1..] + [false], Scale(r[0] != bit, g[1..]))
  }

  /** The register after the bits of `m`. */
  function Run(r: Poly, m: Poly, g: Poly): (s: Poly)
    requires IsGenerator(g) && |r| == |g| - 1
    ensures |s| == |r|
    decreases |m|
  {
    if m == [] then r else Run(Shift(r, m[0], g), m[1..], g)
  }

  lemma {:induction false} RunConcat(r: Poly, a: Poly, b: Poly, g: Poly)
    requires IsGenerator(g) && |r| == |g| - 1
    ensures Run(r, a + b, g) == Run(Run(r, a, g), b, g)
    decreases |a|
  {
    if a == [] {
      assert a + b == b;
    } else {
      assert (a + b)[1..] == a[1..] + b;
      RunConcat(Shift(r, a[0], g), a[1..], b, g);
    }
  }

  lemma RunSnoc(r: Poly, m: Poly, bit: bool, g: Poly)
    requires IsGenerator(g) && |r| == |g| - 1
    ensures Run(r, m + [bit], g) == Shift(Run(r, m, g), bit, g)
  {
    RunConcat(r, m, [bit], g);
    assert [bit][1..] == [];
  }

  lemma ShiftLinear(r: Poly, s: Poly, a: bool, b: bool, g: Poly)
    requires IsGenerator(g) && |r| == |s| == |g| - 1
    ensures Shift(Add(r, s), a != b, g) == Add(Shift(r, a, g), Shift(s, b, g))
  {
    assert Add(r, s)[1..] + [false] == Add(r[1..] + [false], s[1..] + [false]);
  }

  /** The register is linear in its start value and the message together. */
  lemma {:induction false} RunLinear(r: Poly, s: Poly, a: Poly, b: Poly, g: Poly)
    requires IsGenerator(g) && |r| == |s| == |g| - 1 && |a| == |b|
    ensures Run(Add(r, s), Add(a, b), g) == Add(Run(r, a, g), Run(s, b, g))
    decreases |a|
  {
    if a != [] {
      ShiftLinear(r, s, a[0], b[0], g);
      assert Add(a, b)[1..] == Add(a[1..], b[1..]);
      RunLinear(Shift(r, a[0], g), Shift(s, b[0], g), a[1..], b[1..], g);
    }
  }

  lemma ShiftInjective(r: Poly, s: Poly, bit: bool, g: Poly)
    requires IsGenerator(g) && |r| == |s| == |g| - 1
    requires Shift(r, bit, g) == Shift(s, bit, g)
    ensures r == s
  {
    ShiftAt(r, bit, g, |r| - 1);
    ShiftAt(s, bit, g, |r| - 1);
    forall i | 0 < i < |r| ensures r[i] == s[i] {
      ShiftAt(r, bit, g, i - 1);
      ShiftAt(s, bit, g, i - 1);
    }
  }

  /** No message merges two register values. */
  lemma {:induction false} RunInjective(r: Poly, s: Poly, m: Poly, g: Poly)
    requires IsGenerator(g) && |r| == |s| == |g| - 1
    requires Run(r, m, g) == Run(s, m, g)
    ensures r == s
    decreases |m|
  {
    if m != [] {
      RunInjective(Shift(r, m[0], g), Shift(s, m[0], g), m[1..], g);
      ShiftInjective(r, s, m[0], g);
    }
  }

  lemma {:induction false} ZerosKeepZero(n: nat, g: Poly)
    requires IsGenerator(g)
    ensures Run(Zeros(|g| - 1), Zeros(n), g) == Zeros(|g| - 1)
  {
    if n > 0 {
      assert Zeros(n)[1..] == Zeros(n - 1);
      assert Shift(Zeros(|g| - 1), false, g) == Zeros(|g| - 1);
      ZerosKeepZero(n - 1, g);
    }
  }

  /** Bits may be brought in one at a time, or added to the top of the register at once and
      then shifted through: the step from bit-serial to byte-at-a-time division. */
  lemma {:induction false} LoadThenShift(r: Poly, w: Poly, g: Poly)
    requires IsGenerator(g) && |w| <= |r| == |g| - 1
    ensures Run(Add(r, w + Zeros(|r| - |w|)), Zeros(|w|), g) == Run(r, w, g)
    decreases |w|
  {
    if w == [] {
      assert Add(r, [] + Zeros(|r|)) == r;
    } else {
      var loaded := Add(r, w + Zeros(|r| - |w|));
      var rest := w[1..] + Zeros(|r| - |w| + 1);
      forall j | 0 <= j < |r| ensures Shift(loaded, false, g)[j] == Add(Shift(r, w[0], g), rest)[j] {
        ShiftAt(loaded, false, g, j);
        ShiftAt(r, w[0], g, j);
      }
      assert Shift(loaded, false, g) == Add(Shift(r, w[0], g), rest);
      assert Zeros(|w|)[1..] == Zeros(|w| - 1);
      LoadThenShift(Shift(r, w[0], g), w[1..], g);
    }
  }

  /** The register started from zero holds the remainder of m * x^d modulo `g`. */
  lemma {:induction false} RunIsRemainder(m: Poly, g: Poly) returns (q: Poly)
    requires IsGenerator(g)
    ensures Division(m, g, q, Run(Zeros(|g| - 1), m, g))
    decreases |m|
  {
    if m == [] {
      q := [];
      assert m + Zeros(|g| - 1) == Add(Mul(q, g), Zeros(0) + Zeros(|g| - 1));
    } else {
      var n, z := |m| - 1, Zeros(|g| - 1);
      assert m == m[..n] + [m[n]];
      var p := RunIsRemainder(m[..n], g);
      DivisionStep(m[..n], m[n], g, p, Run(z, m[..n], g));
      RunSnoc(z, m[..n], m[n], g);
      q := p + [Run(z, m[..n], g)[0] != m[n]];
    }
  }

  lemma ShiftAt(r: Poly, bit: bool, g: Poly, j: nat)
    requires IsGenerator(g) && |r| == |g| - 1 && j < |r|
    ensures Shift(r, bit, g)[j] == ((j + 1 < |r| && r[j + 1]) != ((r[0] != bit) && g[j + 1]))
  {
    assert (r[1..] + [false])[j] == (j + 1 < |r| && r[j + 1]);
    assert Scale(r[0] != bit, g[1..])[j] == ((r[0] != bit) && g[j + 1]);
  }

  ghost predicate StepHoldsAt(m: Poly, bit: bool, g: Poly, q: Poly, r: Poly, i: nat)
    requires IsGenerator(g) && Division(m, g, q, r) && i < |m| + |g|
  {
    (m + [bit] + Zeros(|g| - 1))[i] == (Mul(q + [r[0] != bit], g)[i] != (Zeros(|m| + 1) + Shift(r, bit, g))[i])
  }

  lemma DivisionStepBefore(m: Poly, bit: bool, g: Poly, q: Poly, r: Poly, i: nat)
    requires IsGenerator(g) && Division(m, g, q, r) && i <= |m|
    ensures StepHoldsAt(m, bit, g, q, r, i)
  {
    MulSnocAt(q, r[0] != bit, g, i);
    DivisionAt(m, g, q, r, i);
    assert (m + [bit] + Zeros(|g| - 1))[i] == if i < |m| then m[i] else bit;
  }

  lemma DivisionStepAfter(m: Poly, bit: bool, g: Poly, q: Poly, r: Poly, j: nat)
    requires IsGenerator(g) && Division(m, g, q, r) && j < |g| - 1
    ensures StepHoldsAt(m, bit, g, q, r, |m| + 1 + j)
  {
    var i := |m| + 1 + j;
    MulSnocAt(q, r[0] != bit, g, i);
    if j + 1 < |r| { DivisionAt(m, g, q, r, i); }
    ShiftAt(r, bit, g, j);
    assert !(m + [bit] + Zeros(|g| - 1))[i];
  }

  lemma DivisionStepAt(m: Poly, bit: bool, g: Poly, q: Poly, r: Poly, i: nat)
    requires IsGenerator(g) && Division(m, g, q, r) && i < |m| + |g|
    ensures StepHoldsAt(m, bit, g, q, r, i)
  {
    if i <= |m| { DivisionStepBefore(m, bit, g, q, r, i); } else { DivisionStepAfter(m, bit, g, q, r, i - |m| - 1); }
  }

  /** One more message bit extends the quotient by one coefficient. */
  lemma DivisionStep(m: Poly, bit: bool, g: Poly, q: Poly, r: Poly)
    requires IsGenerator(g) && Division(m, g, q, r)
    ensures Division(m + [bit], g, q + [r[0] != bit], Shift(r, bit, g))
  {
    var left := m + [bit] + Zeros(|g| - 1);
    var product, tail := Mul(q + [r[0] != bit], g), Zeros(|m| + 1) + Shift(r, bit, g);
    forall i | 0 <= i < |left| ensures left[i] == Add(product, tail)[i] {
      DivisionStepAt(m, bit, g, q, r, i);
    }
    assert left == Add(product, tail);
  }

  lemma EqualIffSumZero(x: Poly, y: Poly)
    requires |x| == |y|
    ensures x == y <==> Add(x, y) == Zeros(|x|)
  {
    if Add(x, y) == Zeros(|x|) {
      forall i | 0 <= i < |x| ensures x[i] == y[i] {
        assert Add(x, y)[i] == Zeros(|x|)[i];
      }
    }
  }

  /** Two messages collide exactly when their difference leaves the register at zero. */
  lemma CollisionIffDifferenceVanishes(a: Poly, b: Poly, g: Poly)
    requires IsGenerator(g) && |a| == |b|
    ensures Run(Zeros(|g| - 1), a, g) == Run(Zeros(|g| - 1), b, g)
            <==> Run(Zeros(|g| - 1), Add(a, b), g) == Zeros(|g| - 1)
  {
    var z := Zeros(|g| - 1);
    assert Add(z, z) == z;
    RunLinear(z, z, a, b, g);
    EqualIffSumZero(Run(z, a, g), Run(z, b, g));
  }

  /** No more bits than the register holds, not all zero, never leave it at zero. */
  lemma WindowVisible(w: Poly, g: Poly)
    requires IsGenerator(g) && |w| <= |g| - 1
    requires Run(Zeros(|g| - 1), w, g) == Zeros(|g| - 1)
    ensures w == Zeros(|w|)
  {
    var z := Zeros(|g| - 1);
    var top := w + Zeros(|z| - |w|);
    LoadThenShift(z, w, g);
    assert Add(z, top) == top;
    ZerosKeepZero(|w|, g);
    RunInjective(top, z, Zeros(|w|), g);
    assert w == top[..|w|];
  }

  /** Running the register over as many bits as it holds clears it exactly when those bits
      are its own value. */
  lemma ResidueIff(r: Poly, w: Poly, g: Poly)
    requires IsGenerator(g) && |w| == |r| == |g| - 1
    ensures Run(r, w, g) == Zeros(|g| - 1) <==> w == r
  {
    var z := Zeros(|g| - 1);
    LoadThenShift(r, w, g);
    assert w + Zeros(0) == w;
    ZerosKeepZero(|w|, g);
    EqualIffSumZero(r, w);
    if Run(r, w, g) == z {
      RunInjective(Add(r, w), z, Zeros(|w|), g);
    }
  }

  /** Zeros before and after a window do not hide it. */
  lemma SurroundingZerosHideNothing(lo: nat, w: Poly, hi: nat, g: Poly)
    requires IsGenerator(g)
    requires Run(Zeros(|g| - 1), Zeros(lo) + w + Zeros(hi), g) == Zeros(|g| - 1)
    ensures Run(Zeros(|g| - 1), w, g) == Zeros(|g| - 1)
  {
    var z := Zeros(|g| - 1);
    RunConcat(z, Zeros(lo) + w, Zeros(hi), g);
    RunConcat(z, Zeros(lo), w, g);
    ZerosKeepZero(lo, g);
    ZerosKeepZero(hi, g);
    RunInjective(Run(z, w, g), z, Zeros(hi), g);
  }

  /** Every nonzero coefficient of `e` is among the `d` from `lo` on. */
  ghost predicate Confined(e: Poly, lo: nat, d: nat) {
    lo + d <= |e| && e == Zeros(lo) + e[lo..lo + d] + Zeros(|e| - lo - d)
  }

  lemma ConfinedBurstIsZero(e: Poly, lo: nat, d: nat, g: Poly)
    requires IsGenerator(g) && d <= |g| - 1 && Confined(e, lo, d)
    requires Run(Zeros(|g| - 1), e, g) == Zeros(|g| - 1)
    ensures e == Zeros(|e|)
  {
    var w, hi := e[lo..lo + d], |e| - lo - d;
    assert w == Zeros(d) by {
      SurroundingZerosHideNothing(lo, w, hi, g);
      WindowVisible(w, g);
    }
    ZerosConcat(lo, d);
    ZerosConcat(lo + d, hi);
  }

  /** A difference of messages confined to a window no longer than the degree of the
      generator always changes the register. */
  lemma BurstChangesRegister(a: Poly, b: Poly, lo: nat, d: nat, g: Poly)
    requires IsGenerator(g) && |a| == |b| && a != b
    requires d <= |g| - 1 && Confined(Add(a, b), lo, d)
    ensures Run(Zeros(|g| - 1), a, g) != Run(Zeros(|g| - 1), b, g)
  {
    CollisionIffDifferenceVanishes(a, b, g);
    EqualIffSumZero(a, b);
    if Run(Zeros(|g| - 1), a, g) == Run(Zeros(|g| - 1), b, g) {
      ConfinedBurstIsZero(Add(a, b), lo, d, g);
    }
  }

  ghost predicate IsMultiple(e: Poly, g: Poly)
    requires |g| > 0
  {
    exists q :: |q| + |g| == |e| + 1 && Mul(q, g) == e
  }

  lemma VanishingIsMultiple(e: Poly, g: Poly)
    requires IsGenerator(g) && |e| >= |g| - 1
    requires Run(Zeros(|g| - 1), e, g) == Zeros(|g| - 1)
    ensures IsMultiple(e, g)
  {
    var d := |g| - 1;
    var q := RunIsRemainder(e, g);
    AddZero(Mul(q, g), |e|, Zeros(d));
    StripTrailingZeros(e, d, q, g);
  }

  lemma MultipleVanishes(e: Poly, g: Poly)
    requires IsGenerator(g) && IsMultiple(e, g)
    ensures Run(Zeros(|g| - 1), e, g) == Zeros(|g| - 1)
  {
    var z := Zeros(|g| - 1);
    var f :| |f| + |g| == |e| + 1 && Mul(f, g) == e;
    AppendTrailingZeros(f, |z|, g);
    AddZero(e + z, |e|, z);
    assert Division(e, g, f + z, z);
    var q := RunIsRemainder(e, g);
    RemainderUnique(e, g, z, Run(z, e, g));
  }

  /** Two messages of one length leave the same register exactly when their difference is a
      multiple of the generator. */
  lemma CollisionIffMultiple(a: Poly, b: Poly, g: Poly)
    requires IsGenerator(g) && |a| == |b| >= |g| - 1
    ensures Run(Zeros(|g| - 1), a, g) == Run(Zeros(|g| - 1), b, g) <==> IsMultiple(Add(a, b), g)
  {
    CollisionIffDifferenceVanishes(a, b, g);
    if Run(Zeros(|g| - 1), a, g) == Run(Zeros(|g| - 1), b, g) {
      VanishingIsMultiple(Add(a, b), g);
    }
    if IsMultiple(Add(a, b), g) {
      MultipleVanishes(Add(a, b), g);
    }
  }

  lemma AddZero(p: Poly, n: nat, z: Poly)
    requires |p| == n + |z| && z == Zeros(|z|)
    ensures Add(p, Zeros(n) + z) == p
  {
  }
}
