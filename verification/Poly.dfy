/** Polynomials over GF(2), written as coefficient sequences with the highest
    power first. Nothing here mentions a CRC register: this is the arithmetic
    the CRC is measured against. Every result is for an arbitrary generator. */
module Poly {

  type Poly = seq<bool>

  function Zeros(n: nat): (z: Poly)
    ensures |z| == n && forall i :: 0 <= i < n ==> !z[i]
  {
    seq(n, _ => false)
  }

  /** Addition in GF(2)[x] of two polynomials written with equally many coefficients. */
  function Add(a: Poly, b: Poly): (s: Poly)
    requires |a| == |b|
    ensures |s| == |a| && forall i :: 0 <= i < |a| ==> s[i] == (a[i] != b[i])
  {
    seq(|a|, i requires 0 <= i < |a| => a[i] != b[i])
  }

  function Scale(t: bool, g: Poly): (s: Poly)
    ensures |s| == |g|
  {
    if t then g else Zeros(|g|)
  }

  /** Schoolbook product: (q*x + t) * g == (q * g) * x + t * g. */
  function Mul(q: Poly, g: Poly): (p: Poly)
    requires |g| > 0
    ensures |p| == |q| + |g| - 1
  {
    if q == [] then Zeros(|g| - 1)
    else
      var n := |q| - 1;
      Add(Mul(q[..n], g) + [false], Zeros(n) + Scale(q[n], g))
  }

  /** A generator of degree at least one, monic and with a constant term. */
  predicate IsGenerator(g: Poly) {
    |g| >= 2 && g[0] && g[|g| - 1]
  }

  /** m * x^d == q * g + r, where d is the degree of `g` and r has degree below d. */
  ghost predicate Division(m: Poly, g: Poly, q: Poly, r: Poly)
    requires |g| > 0
  {
    && |q| == |m| && |r| == |g| - 1
    && m + Zeros(|g| - 1) == Add(Mul(q, g), Zeros(|m|) + r)
  }

  /** `r` is the remainder of m * x^d modulo `g`. */
  ghost predicate IsRemainder(m: Poly, g: Poly, r: Poly)
    requires |g| > 0
  {
    exists q :: Division(m, g, q, r)
  }

  lemma MulSnoc(q: Poly, t: bool, g: Poly)
    requires |g| > 0
    ensures Mul(q + [t], g) == Add(Mul(q, g) + [false], Zeros(|q|) + Scale(t, g))
  {
    assert (q + [t])[..|q|] == q;
  }

  /** A coefficient of a product, by the last coefficient of the factor. */
  lemma MulSnocAt(q: Poly, t: bool, g: Poly, i: nat)
    requires |g| > 0 && i < |q| + |g|
    ensures Mul(q + [t], g)[i] == ((i < |q| + |g| - 1 && Mul(q, g)[i]) != (i >= |q| && t && g[i - |q|]))
  {
    MulSnoc(q, t, g);
    var u, v := Mul(q, g) + [false], Zeros(|q|) + Scale(t, g);
    assert Add(u, v)[i] == (u[i] != v[i]);
  }

  ghost predicate AgreeBelow(a: Poly, b: Poly, n: nat)
    requires n <= |a| && n <= |b|
  {
    forall i :: 0 <= i < n ==> a[i] == b[i]
  }

  lemma FactorStep(p1: Poly, t1: bool, p2: Poly, t2: bool, g: Poly)
    requires IsGenerator(g) && |p1| == |p2|
    requires AgreeBelow(Mul(p1 + [t1], g), Mul(p2 + [t2], g), |p1| + 1)
    ensures AgreeBelow(Mul(p1, g), Mul(p2, g), |p1|)
    ensures p1 == p2 ==> t1 == t2
  {
    forall i | 0 <= i < |p1| ensures Mul(p1, g)[i] == Mul(p2, g)[i] {
      MulSnocAt(p1, t1, g, i);
      MulSnocAt(p2, t2, g, i);
    }
    MulSnocAt(p1, t1, g, |p1|);
    MulSnocAt(p2, t2, g, |p1|);
  }

  /** The generator is monic, so the leading coefficients of a multiple determine the factor. */
  lemma {:induction false} LeadingCoefficientsDetermineFactor(q1: Poly, q2: Poly, g: Poly)
    requires IsGenerator(g) && |q1| == |q2|
    requires AgreeBelow(Mul(q1, g), Mul(q2, g), |q1|)
    ensures q1 == q2
  {
    if q1 != [] {
      var n := |q1| - 1;
      var p1, p2 := q1[..n], q2[..n];
      assert q1 == p1 + [q1[n]] && q2 == p2 + [q2[n]];
      FactorStep(p1, q1[n], p2, q2[n], g);
      LeadingCoefficientsDetermineFactor(p1, p2, g);
    }
  }

  lemma DivisionAt(m: Poly, g: Poly, q: Poly, r: Poly, i: nat)
    requires |g| > 0 && Division(m, g, q, r) && i < |m| + |g| - 1
    ensures Mul(q, g)[i] == (m + r)[i]
  {
    assert (m + Zeros(|g| - 1))[i] == (Mul(q, g)[i] != (Zeros(|m|) + r)[i]);
  }

  /** q * g is m * x^d + r. */
  lemma DivisionIsProduct(m: Poly, g: Poly, q: Poly, r: Poly)
    requires |g| > 0 && Division(m, g, q, r)
    ensures Mul(q, g) == m + r
  {
    forall i | 0 <= i < |m| + |g| - 1 ensures Mul(q, g)[i] == (m + r)[i] { DivisionAt(m, g, q, r, i); }
  }

  lemma SameTail(m: Poly, r1: Poly, r2: Poly)
    requires m + r1 == m + r2
    ensures r1 == r2
  {
    assert (m + r1)[|m|..] == r1 && (m + r2)[|m|..] == r2;
  }

  /** A remainder modulo a generator is unique. */
  lemma RemainderUnique(m: Poly, g: Poly, r1: Poly, r2: Poly)
    requires IsGenerator(g)
    requires IsRemainder(m, g, r1) && IsRemainder(m, g, r2)
    ensures r1 == r2
  {
    var q1 :| Division(m, g, q1, r1);
    var q2 :| Division(m, g, q2, r2);
    DivisionIsProduct(m, g, q1, r1);
    DivisionIsProduct(m, g, q2, r2);
    LeadingCoefficientsDetermineFactor(q1, q2, g);
    SameTail(m, r1, r2);
  }

  lemma AddConcat(a: Poly, b: Poly, c: Poly, d: Poly)
    requires |a| == |c| && |b| == |d|
    ensures Add(a + b, c + d) == Add(a, c) + Add(b, d)
  {
  }

  lemma ZerosConcat(a: nat, b: nat)
    ensures Zeros(a) + Zeros(b) == Zeros(a + b)
  {
  }

  lemma ZerosSnoc(p: Poly, k: nat)
    requires k > 0
    ensures p + Zeros(k) == p + Zeros(k - 1) + [false]
  {
  }

  lemma MulAppendZero(q: Poly, g: Poly)
    requires |g| > 0
    ensures Mul(q + [false], g) == Mul(q, g) + [false]
  {
    MulSnoc(q, false, g);
  }

  /** Appending zero coefficients to the factor multiplies the product by that power of x. */
  lemma {:induction false} AppendTrailingZeros(q: Poly, k: nat, g: Poly)
    requires |g| > 0
    ensures Mul(q + Zeros(k), g) == Mul(q, g) + Zeros(k)
  {
    if k == 0 {
      assert q + Zeros(0) == q;
      assert Mul(q, g) + Zeros(0) == Mul(q, g);
    } else {
      ZerosSnoc(q, k);
      MulAppendZero(q + Zeros(k - 1), g);
      AppendTrailingZeros(q, k - 1, g);
      ZerosSnoc(Mul(q, g), k);
    }
  }

  lemma LastCoefficient(q: Poly, t: bool, g: Poly, i: nat)
    requires IsGenerator(g) && i == |q| + |g| - 1
    ensures Mul(q + [t], g)[i] == t
  {
    MulSnocAt(q, t, g, i);
  }

  lemma SameInit(a: Poly, b: Poly, x: bool)
    requires a + [x] == b + [x]
    ensures a == b
  {
    assert (a + [x])[..|a + [x]| - 1] == a && (b + [x])[..|b + [x]| - 1] == b;
  }

  lemma StripOneZero(d: Poly, q: Poly, t: bool, g: Poly)
    requires IsGenerator(g)
    requires Mul(q + [t], g) == d + [false]
    ensures Mul(q, g) == d
  {
    LastCoefficient(q, t, g, |d|);
    MulAppendZero(q, g);
    SameInit(Mul(q, g), d, false);
  }

  /** A multiple of the generator that ends in k zero coefficients, divided by x^k, is still
      a multiple of the generator. */
  lemma {:induction false} StripTrailingZeros(d: Poly, k: nat, q: Poly, g: Poly)
    requires IsGenerator(g) && |q| >= k
    requires Mul(q, g) == d + Zeros(k)
    ensures Mul(q[..|q| - k], g) == d
  {
    if k == 0 {
      assert q[..|q|] == q && d + Zeros(0) == d;
    } else {
      ZerosSnoc(d, k);
      var n := |q| - 1;
      assert q == q[..n] + [q[n]];
      StripOneZero(d + Zeros(k - 1), q[..n], q[n], g);
      StripTrailingZeros(d, k - 1, q[..n], g);
      assert q[..|q| - 1][..|q| - k] == q[..|q| - k];
    }
  }

  // ---- Parity --------------------------------------------------------------------------------------

  /** Whether an odd number of coefficients is set: the value at x == 1. */
  function Parity(p: Poly): bool {
    if p == [] then false else Parity(p[..|p| - 1]) != p[|p| - 1]
  }

  lemma {:induction false} ParityOfSum(a: Poly, b: Poly)
    requires |a| == |b|
    ensures Parity(Add(a, b)) == (Parity(a) != Parity(b))
  {
    if a != [] {
      var n := |a| - 1;
      ParityOfSum(a[..n], b[..n]);
      assert Add(a, b)[..n] == Add(a[..n], b[..n]);
    }
  }

  lemma {:induction false} ParityOfConcat(a: Poly, b: Poly)
    ensures Parity(a + b) == (Parity(a) != Parity(b))
    decreases |b|
  {
    if b == [] {
      assert a + b == a;
    } else {
      ParityOfConcat(a, b[..|b| - 1]);
      assert (a + b)[..|a + b| - 1] == a + b[..|b| - 1];
    }
  }

  lemma {:induction false} ParityOfZeros(n: nat)
    ensures !Parity(Zeros(n))
  {
    if n > 0 {
      ParityOfZeros(n - 1);
      assert Zeros(n)[..n - 1] == Zeros(n - 1);
    }
  }

  lemma {:induction false} ParityOfProduct(q: Poly, g: Poly)
    requires |g| > 0
    ensures Parity(Mul(q, g)) == (Parity(q) && Parity(g))
  {
    if q == [] {
      ParityOfZeros(|g| - 1);
    } else {
      var n := |q| - 1;
      ParityOfProduct(q[..n], g);
      ParityOfConcat(Mul(q[..n], g), [false]);
      ParityOfZeros(n);
      ParityOfZeros(|g|);
      ParityOfConcat(Zeros(n), Scale(q[n], g));
      ParityOfSum(Mul(q[..n], g) + [false], Zeros(n) + Scale(q[n], g));
      assert !Parity([false]) by { assert [false][..0] == []; }
    }
  }

  /** Division by a generator with an even number of terms keeps the parity. */
  lemma RemainderKeepsParity(m: Poly, g: Poly, r: Poly)
    requires |g| > 0 && IsRemainder(m, g, r) && !Parity(g)
    ensures Parity(r) == Parity(m)
  {
    var q :| Division(m, g, q, r);
    ParityOfConcat(m, Zeros(|g| - 1));
    ParityOfZeros(|g| - 1);
    ParityOfProduct(q, g);
    ParityOfZeros(|m|);
    ParityOfConcat(Zeros(|m|), r);
    ParityOfSum(Mul(q, g), Zeros(|m|) + r);
  }
}
