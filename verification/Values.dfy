/** Arguments as the numbers a caller gives and a function reads, by the C type each type code stands
    for. */
module Values {
  import opened Octet
  import opened Wire

  // ---- Widths ------------------------------------------------------------------------------------

  /** The type codes of fixed width: lf_uint8_t, lf_uint16_t, lf_uint32_t, lf_int8_t, lf_int16_t,
      lf_int32_t and lf_int64_t. */
  predicate FixedWidth(typ: Byte) {
    typ == 16 || typ == 17 || typ == 19 || typ == 24 || typ == 25 || typ == 27 || typ == 31
  }

  /** How wide the C type of a type code is. A code of fixed width has the width less one in its low
      three bits, as lf_utype and lf_stype put it there; lf_int_t is an int, and lf_uint64_t and
      lf_ptr_t, which stand outside that scheme, have 64 bits. No other code carries a value. */
  function Width(typ: Byte): nat {
    if FixedWidth(typ) then typ % 8 + 1
    else if typ == 4 then 4
    else if typ == 2 || typ == 3 then 8
    else 0
  }

  /** lf_sizeof is the width of the C type, for every type code. */
  lemma SizeIsWidth(typ: Byte)
    ensures SizeOf(typ) == Width(typ)
  {
  }

  // ---- Numbers -----------------------------------------------------------------------------------

  /** The number that bytes in memory stand for, least significant first. */
  function Number(s: seq<Byte>): nat {
    if s == [] then 0 else s[0] as int + 256 * Number(s[1..])
  }

  function Pow256(n: nat): (p: nat)
    ensures p > 0
  {
    if n == 0 then 1 else 256 * Pow256(n - 1)
  }

  lemma {:induction false} NumberBound(s: seq<Byte>)
    ensures Number(s) < Pow256(|s|)
  {
    if s != [] { NumberBound(s[1..]); }
  }

  lemma Carry(p: nat, a: nat, b: nat)
    ensures 256 * (a + p * b) == 256 * a + (256 * p) * b
  {
    assert (256 * p) * b == 256 * (p * b);
  }

  lemma {:induction false} NumberSplit(s: seq<Byte>, w: nat)
    requires w <= |s|
    ensures Number(s) == Number(s[..w]) + Pow256(w) * Number(s[w..])
  {
    if w == 0 {
      assert s[..0] == [] && s[0..] == s;
    } else {
      NumberSplit(s[1..], w - 1);
      assert s[..w][1..] == s[1..][..w - 1] && s[1..][w - 1..] == s[w..] && s[..w][0] == s[0];
      Carry(Pow256(w - 1), Number(s[1..][..w - 1]), Number(s[w..]));
    }
  }

  lemma AtLeast(p: nat, k: nat)
    requires k > 0
    ensures p * k >= p
  {
    assert p * k == p * (k - 1) + p;
  }

  lemma QuotientIs(p: nat, q: nat, r: nat, q': nat, r': nat)
    requires r < p && r' < p && p * q + r == p * q' + r'
    ensures r == r'
  {
    if q > q' {
      assert p * q == p * q' + p * (q - q');
      AtLeast(p, q - q');
    } else if q' > q {
      assert p * q' == p * q + p * (q' - q);
      AtLeast(p, q' - q);
    }
  }

  lemma RemainderIs(x: nat, p: nat, r: nat, q: nat)
    requires p > 0 && r < p && x == r + p * q
    ensures x % p == r
  {
    QuotientIs(p, q, r, x / p, x % p);
  }

  /** The first bytes of a number are the number modulo that power of 256. */
  lemma LowBytes(s: seq<Byte>, w: nat)
    requires w <= |s|
    ensures Number(s[..w]) == Number(s) % Pow256(w)
  {
    NumberSplit(s, w);
    NumberBound(s[..w]);
    RemainderIs(Number(s), Pow256(w), Number(s[..w]), Number(s[w..]));
  }

  // ---- What a function reads ---------------------------------------------------------------------

  /** What a function reads of an argument whose C type is that of its type code. */
  function ReadAs(a: Arg): nat {
    SizeIsWidth(a.typ);
    Number(a.value[..Width(a.typ)])
  }

  /** Each argument is read as the number that was given, cut to its type's width: a number that the
      type can hold is read as it is, and a negative one, sign extended, in two's complement. */
  ghost predicate NumbersArrive(received: seq<Arg>, args: seq<Arg>) {
    && |received| == |args|
    && forall i :: 0 <= i < |args| ==>
         && received[i].typ == args[i].typ
         && ReadAs(received[i]) == Number(args[i].value) % Pow256(Width(args[i].typ))
  }

  lemma SameArgsSameNumbers(received: seq<Arg>, args: seq<Arg>)
    requires SameArgs(received, args)
    ensures NumbersArrive(received, args)
  {
    forall i | 0 <= i < |args| ensures ReadAs(received[i]) == Number(args[i].value) % Pow256(Width(args[i].typ)) {
      SizeIsWidth(args[i].typ);
      assert Low(received[i]) == Low(args[i]);
      LowBytes(args[i].value, Width(args[i].typ));
    }
  }

  /** A number that its type can hold arrives as that number. */
  lemma NumberArrives(received: seq<Arg>, args: seq<Arg>, i: nat)
    requires NumbersArrive(received, args) && i < |args|
    requires forall j :: Width(args[i].typ) <= j < 8 ==> args[i].value[j] == 0
    ensures ReadAs(received[i]) == Number(args[i].value)
  {
    var v, w := args[i].value, Width(args[i].typ);
    NumberSplit(v, w);
    ZerosAreZero(v[w..]);
    LowBytes(v, w);
  }

  lemma {:induction false} ZerosAreZero(s: seq<Byte>)
    requires forall j :: 0 <= j < |s| ==> s[j] == 0
    ensures Number(s) == 0
  {
    if s != [] { ZerosAreZero(s[1..]); }
  }
}
