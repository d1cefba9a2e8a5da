/** The PWM clock search of the SAM4S driver (platforms/atsam4s/asf/src/pwm.c): a prescaler and a
    divisor for a wanted frequency, packed into half of the clock register. */
module Pwm {
  const PRE_MAX := 11
  const DIV_MAX := 256
  const INVALID := 0xFFFF

  function Pow2(k: nat): (n: nat)
    ensures n > 0
  {
    if k == 0 then 1 else 2 * Pow2(k - 1)
  }

  // ---- Shifting and or-ing naturals ----------------------------------------------------------------

  function Shl(x: nat, k: nat): nat {
    if k == 0 then x else 2 * Shl(x, k - 1)
  }

  function Or(a: nat, b: nat): nat {
    if a == 0 && b == 0 then 0
    else 2 * Or(a / 2, b / 2) + (if a % 2 == 1 || b % 2 == 1 then 1 else 0)
  }

  lemma {:induction false} OrZero(a: nat)
    ensures Or(a, 0) == a && Or(0, a) == a
  {
    if a > 0 { OrZero(a / 2); }
  }

  /** Fields that do not overlap are added by `|`. */
  lemma {:induction false} OrDisjoint(k: nat, d: nat, p: nat)
    requires d < Pow2(k)
    ensures Or(d, Shl(p, k)) == d + Shl(p, k)
  {
    if k == 0 {
      OrZero(p);
    } else {
      OrDisjoint(k - 1, d / 2, p);
    }
  }

  lemma {:induction false} OrShifted(k: nat, a: nat, b: nat)
    ensures Or(Shl(a, k), Shl(b, k)) == Shl(Or(a, b), k)
  {
    if k > 0 { OrShifted(k - 1, a, b); }
  }

  lemma {:induction false} ShlMultiplies(x: nat, k: nat)
    ensures Shl(x, k) == Pow2(k) * x
  {
    if k > 0 { ShlMultiplies(x, k - 1); }
  }

  lemma ByteShift(x: nat)
    ensures Shl(x, 8) == 256 * x && Pow2(8) == 256
  {
    ShlMultiplies(x, 8);
    assert Pow2(4) == 16 && Pow2(8) == 16 * Pow2(4);
  }

  /** The two halves of a 32-bit word do not disturb each other. */
  lemma HalvesJoin(low: nat, high: nat)
    requires low < 0x10000
    ensures Or(low, Shl(high, 16)) % 0x10000 == low && Or(low, Shl(high, 16)) / 0x10000 == high
  {
    HalfShift(high);
    OrDisjoint(16, low, high);
    Halves(Or(low, Shl(high, 16)), low, high);
  }

  lemma HalfShift(x: nat)
    ensures Shl(x, 16) == 0x10000 * x && Pow2(16) == 0x10000
  {
    ByteShift(x);
    ShlMultiplies(x, 16);
    assert Pow2(12) == 16 * Pow2(8) && Pow2(16) == 16 * Pow2(12);
  }

  lemma Halves(word: nat, low: nat, high: nat)
    requires low < 0x10000 && word == low + 0x10000 * high
    ensures word % 0x10000 == low && word / 0x10000 == high
  {
  }

  // ---- Whole quotients -----------------------------------------------------------------------------

  function Quotient(x: nat, n: nat): nat
    requires n > 0
  {
    if x < n then 0 else 1 + Quotient(x - n, n)
  }

  lemma {:induction false} QuotientBounds(x: nat, n: nat)
    requires n > 0
    ensures n * Quotient(x, n) <= x < n * Quotient(x, n) + n
  {
    if x >= n {
      QuotientBounds(x - n, n);
      assert n * (1 + Quotient(x - n, n)) == n + n * Quotient(x - n, n);
    }
  }

  lemma {:induction false} QuotientUnique(x: nat, n: nat, q: nat)
    requires n > 0 && n * q <= x < n * q + n
    ensures Quotient(x, n) == q
  {
    if x >= n {
      assert q > 0 && n * q == n + n * (q - 1);
      QuotientUnique(x - n, n, q - 1);
    } else if q > 0 {
      Product(n, 1, q);
    }
  }

  lemma Product(n: nat, a: nat, b: nat)
    requires a <= b
    ensures n * a <= n * b
  {
    assert n * b == n * a + n * (b - a);
  }

  method Divide(x: nat, n: nat) returns (q: nat)
    requires n > 0
    ensures q == Quotient(x, n)
  {
    q := x / n;
    QuotientUnique(x, n, q);
  }

  lemma Associate(a: nat, b: nat, c: nat)
    ensures a * (b * c) == (a * b) * c
  {
  }

  lemma Distribute(a: nat, b: nat, c: nat)
    ensures a * (b + c) == a * b + a * c
  {
  }

  lemma NestedBounds(x: nat, a: nat, b: nat, m: nat, q: nat)
    requires a * m <= x < a * m + a && b * q <= m < b * q + b
    ensures (a * b) * q <= x < (a * b) * q + a * b
  {
    Product(a, b * q, m);
    Product(a, m + 1, b * q + b);
    Distribute(a, m, 1);
    Distribute(a, b * q, b);
    Associate(a, b, q);
  }

  /** Dividing in two steps is dividing once. */
  lemma DivideTwice(x: nat, a: nat, b: nat)
    requires a > 0 && b > 0
    ensures a * b > 0 && Quotient(Quotient(x, a), b) == Quotient(x, a * b)
  {
    var m := Quotient(x, a);
    QuotientBounds(x, a);
    QuotientBounds(m, b);
    NestedBounds(x, a, b, m, Quotient(m, b));
    Product(a, 1, b);
    QuotientUnique(x, a * b, Quotient(m, b));
  }

  // ---- The search ----------------------------------------------------------------------------------

  function Divisor(f: nat, mck: nat, p: nat): nat
    requires f > 0
  {
    Quotient(Quotient(mck, Pow2(p)), f)
  }

  /** The first prescaler from `p` on whose divisor is small enough; PRE_MAX if there is none. */
  function FirstFrom(f: nat, mck: nat, p: nat): (q: nat)
    requires f > 0 && p <= PRE_MAX
    ensures p <= q <= PRE_MAX
    decreases PRE_MAX - p
  {
    if p == PRE_MAX || Divisor(f, mck, p) <= DIV_MAX then p else FirstFrom(f, mck, p + 1)
  }

  function Prescaler(f: nat, mck: nat): nat
    requires f > 0
  {
    FirstFrom(f, mck, 0)
  }

  function Packed(d: nat, p: nat): nat { Or(d, Shl(p, 8)) }

  /** The half of the clock register for frequency `f`. */
  function ClockWord(f: nat, mck: nat): nat
    requires f > 0
  {
    var p := Prescaler(f, mck);
    if p < PRE_MAX then Packed(Divisor(f, mck, p), p) else INVALID
  }

  method ClocksGenerate(f: nat, mck: nat) returns (result: nat)
    requires f > 0
    ensures result == ClockWord(f, mck)
  {
    var divisors := [1, 2, 4, 8, 16, 32, 64, 128, 256, 512, 1024];
    Powers(divisors);
    var pre: nat, div: nat := 0, DIV_MAX + 1;      // the first pass is unconditional
    while pre < PRE_MAX
      invariant pre <= PRE_MAX && Prescaler(f, mck) == FirstFrom(f, mck, pre)
    {
      var scaled := Divide(mck, divisors[pre]);
      div := Divide(scaled, f);
      if div <= DIV_MAX { break; }
      pre := pre + 1;
    }
    result := if pre < PRE_MAX then Packed(div, pre) else INVALID;
  }

  lemma Powers(divisors: seq<nat>)
    requires divisors == [1, 2, 4, 8, 16, 32, 64, 128, 256, 512, 1024]
    ensures forall p :: 0 <= p < PRE_MAX ==> divisors[p] == Pow2(p)
  {
    assert Pow2(4) == 16 && Pow2(8) == 16 * Pow2(4);
  }

  // ---- What it finds -------------------------------------------------------------------------------

  /** One more prescaler step halves the divisor. */
  lemma NextHalves(f: nat, mck: nat, p: nat)
    requires f > 0
    ensures Divisor(f, mck, p + 1) == Divisor(f, mck, p) / 2
  {
    DivideTwice(mck, Pow2(p), f);
    DivideTwice(mck, Pow2(p) * f, 2);
    DivideTwice(mck, Pow2(p + 1), f);
    assert Pow2(p + 1) * f == Pow2(p) * f * 2;
    HalfIs(Divisor(f, mck, p));
  }

  lemma HalfIs(x: nat)
    ensures Quotient(x, 2) == x / 2
  {
    QuotientUnique(x, 2, x / 2);
  }

  /** The search finds the smallest prescaler that will do. */
  lemma {:induction false} FirstIsSmallest(f: nat, mck: nat, p: nat)
    requires f > 0 && p <= PRE_MAX
    ensures var q := FirstFrom(f, mck, p);
            && (q < PRE_MAX ==> Divisor(f, mck, q) <= DIV_MAX)
            && forall j :: p <= j < q ==> Divisor(f, mck, j) > DIV_MAX
    decreases PRE_MAX - p
  {
    if p < PRE_MAX && Divisor(f, mck, p) > DIV_MAX { FirstIsSmallest(f, mck, p + 1); }
  }

  /** Past the first prescaler the divisor uses its upper half, and the clock realised is not below
      the one asked for, nor above it by 1/128 of it. */
  lemma ErrorBound(f: nat, mck: nat)
    requires f > 0 && 0 < Prescaler(f, mck) < PRE_MAX
    ensures var p := Prescaler(f, mck); var d := Divisor(f, mck, p);
            && 128 <= d <= DIV_MAX
            && f * (Pow2(p) * d) <= mck
            && 128 * mck < 129 * (f * (Pow2(p) * d))
  {
    var p := Prescaler(f, mck);
    var d := Divisor(f, mck, p);
    FirstIsSmallest(f, mck, 0);
    assert Divisor(f, mck, p - 1) > DIV_MAX;
    NextHalves(f, mck, p - 1);
    DivideTwice(mck, Pow2(p), f);
    RelativeError(mck, f, Pow2(p), d);
  }

  lemma RelativeError(mck: nat, f: nat, scale: nat, d: nat)
    requires scale * f > 0 && d == Quotient(mck, scale * f) && d >= 128
    ensures f * (scale * d) <= mck && 128 * mck < 129 * (f * (scale * d))
  {
    var n := scale * f;
    QuotientBounds(mck, n);
    Product(n, 128, d);
    Associate(f, scale, d);
  }

  lemma {:induction false} DivisorsFall(f: nat, mck: nat, p: nat, q: nat)
    requires f > 0 && p <= q
    ensures Divisor(f, mck, q) <= Divisor(f, mck, p)
    decreases q - p
  {
    if p < q {
      DivisorsFall(f, mck, p, q - 1);
      NextHalves(f, mck, q - 1);
    }
  }

  lemma QuotientAbove(x: nat, n: nat, q: nat)
    requires n > 0
    ensures Quotient(x, n) >= q <==> x >= q * n
  {
    QuotientBounds(x, n);
    var r := Quotient(x, n);
    if r >= q {
      Product(n, q, r);
    } else {
      Product(n, r + 1, q);
      Distribute(n, r, 1);
    }
  }

  /** A frequency is refused if and only if it is too low for the largest prescaler. */
  lemma InvalidIff(f: nat, mck: nat)
    requires f > 0
    ensures ClockWord(f, mck) == INVALID <==> mck >= (DIV_MAX + 1) * (1024 * f)
    ensures ClockWord(f, mck) != INVALID ==> ClockWord(f, mck) < 0x1000
  {
    var p := Prescaler(f, mck);
    FirstIsSmallest(f, mck, 0);
    Powers([1, 2, 4, 8, 16, 32, 64, 128, 256, 512, 1024]);
    DivideTwice(mck, 1024, f);
    QuotientAbove(mck, 1024 * f, DIV_MAX + 1);
    if p < PRE_MAX {
      DivisorsFall(f, mck, p, 10);
      PackedIs(Divisor(f, mck, p), p);
    }
  }

  /** What packing does: a divisor of 256 does not fit its eight bits, and sets the low bit of the
      prescaler instead. */
  lemma PackedIs(d: nat, p: nat)
    requires d <= DIV_MAX
    ensures Packed(d, p) == if d < 256 then d + 256 * p else 256 * (p + 1 - p % 2)
  {
    ByteShift(p);
    if d < 256 {
      OrDisjoint(8, d, p);
    } else {
      ByteShift(1);
      ByteShift(Or(1, p));
      OrShifted(8, 1, p);
      OrZero(p / 2);
      assert Or(1, p) == 2 * Or(0, p / 2) + 1;
    }
  }

  /** The frequencies whose divisor under prescaler `p` is 256. */
  predicate Spills(f: nat, mck: nat, p: nat) {
    256 * (Pow2(p) * f) <= mck < 257 * (Pow2(p) * f)
  }

  lemma SpillsIff(f: nat, mck: nat, p: nat)
    requires f > 0
    ensures Spills(f, mck, p) <==> Divisor(f, mck, p) == 256
  {
    DivideTwice(mck, Pow2(p), f);
    QuotientAbove(mck, Pow2(p) * f, 256);
    QuotientAbove(mck, Pow2(p) * f, 257);
  }

  /** Only the prescaler that the search chooses can have a divisor of 256. */
  lemma OnlyChosenSpills(f: nat, mck: nat, p: nat)
    requires f > 0 && p < PRE_MAX && Divisor(f, mck, p) == 256
    ensures Prescaler(f, mck) == p
  {
    var q := Prescaler(f, mck);
    FirstIsSmallest(f, mck, 0);
    if q < p {
      DivisorsFall(f, mck, q + 1, p);
      NextHalves(f, mck, q);
      assert false;
    }
  }

  /** The prescaler and divisor can be read back from the word of a frequency that is met if and only
      if the master clock is not between 256 and 257 times the frequency at any prescaler;
      otherwise the divisor field is zero. */
  lemma RecoverableIff(f: nat, mck: nat)
    requires f > 0 && ClockWord(f, mck) != INVALID
    ensures var w, p := ClockWord(f, mck), Prescaler(f, mck);
            && p < PRE_MAX
            && (w % 256 == Divisor(f, mck, p) && w / 256 == p
                <==> forall j :: 0 <= j < PRE_MAX ==> !Spills(f, mck, j))
            && (Spills(f, mck, p) ==> w % 256 == 0 && w / 256 == p + 1 - p % 2)
  {
    var p := Prescaler(f, mck);
    FirstIsSmallest(f, mck, 0);
    FieldsOf(Divisor(f, mck, p), p);
    SpillsIff(f, mck, p);
    AnySpillIsChosen(f, mck);
  }

  /** The fields of a packed word. */
  lemma FieldsOf(d: nat, p: nat)
    requires d <= DIV_MAX
    ensures var w := Packed(d, p);
            if d < 256 then w % 256 == d && w / 256 == p else w % 256 == 0 && w / 256 == p + 1 - p % 2
  {
    PackedIs(d, p);
    if d < 256 { LowByte(Packed(d, p), d, p); } else { LowByte(Packed(d, p), 0, p + 1 - p % 2); }
  }

  lemma LowByte(word: nat, low: nat, rest: nat)
    requires low < 256 && word == low + 256 * rest
    ensures word % 256 == low && word / 256 == rest
  {
  }

  lemma AnySpillIsChosen(f: nat, mck: nat)
    requires f > 0
    ensures forall j :: 0 <= j < PRE_MAX && Spills(f, mck, j) ==> j == Prescaler(f, mck)
  {
    forall j | 0 <= j < PRE_MAX && Spills(f, mck, j) ensures j == Prescaler(f, mck) {
      SpillsIff(f, mck, j);
      OnlyChosenSpills(f, mck, j);
    }
  }

  /** Such frequencies exist: 1 Hz from 256 Hz gives the word of prescaler 1 and divisor 0. */
  lemma SpillsSomewhere()
    ensures Spills(1, 256, 0) && Prescaler(1, 256) == 0 && Divisor(1, 256, 0) == 256
    ensures ClockWord(1, 256) == 256
  {
    SpillsIff(1, 256, 0);
    PackedIs(256, 0);
  }

  /** A frequency above the master clock is not refused: its word is zero. */
  lemma ZeroIff(f: nat, mck: nat)
    requires f > 0
    ensures ClockWord(f, mck) == 0 <==> f > mck
  {
    var p := Prescaler(f, mck);
    FirstIsSmallest(f, mck, 0);
    assert Divisor(f, mck, 0) == 0 <==> f > mck by {
      QuotientUnique(mck, 1, mck);
    }
    if p < PRE_MAX {
      PackedIs(Divisor(f, mck, p), p);
      if p > 0 { ErrorBound(f, mck); }
    }
  }

  // ---- The register --------------------------------------------------------------------------------

  /** The part of pwm_init for one clock; a frequency of zero leaves its clock off. */
  method Generate(f: nat, mck: nat) returns (word: nat)
    ensures word == if f > 0 then ClockWord(f, mck) else 0
    ensures word == INVALID || word < 0x1000
  {
    word := 0;
    if f != 0 {
      InvalidIff(f, mck);
      word := ClocksGenerate(f, mck);
    }
  }

  class Registers {
    var clk: nat

    /** pwm_init: the register is written only when both clocks can be met, and then its halves are
        the two clock words. */
    method Init(clka: nat, clkb: nat, mck: nat) returns (result: nat)
      modifies this`clk
      ensures result == 0 || result == INVALID
      ensures result == INVALID <==>
                (clka > 0 && ClockWord(clka, mck) == INVALID) || (clkb > 0 && ClockWord(clkb, mck) == INVALID)
      ensures result == INVALID ==> clk == old(clk)
      ensures result == 0 ==>
                && clk % 0x10000 == (if clka > 0 then ClockWord(clka, mck) else 0)
                && clk / 0x10000 == (if clkb > 0 then ClockWord(clkb, mck) else 0)
    {
      var a := Generate(clka, mck);
      if a == INVALID { return INVALID; }
      var b := Generate(clkb, mck);
      if b == INVALID { return INVALID; }
      HalvesJoin(a, b);
      clk := Or(a, Shl(b, 16));
      result := 0;
    }
  }
}
