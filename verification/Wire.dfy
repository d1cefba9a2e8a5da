/** Flipper Message Runtime packets: the 64-byte layout of lib/fmr.h, how a call is laid out
    in it and how a device reads it back. */
module Wire {
  import opened Octet

  /** A 64-bit value as the eight bytes it occupies in memory, least significant first. */
  type Word64 = s: seq<Byte> | |s| == 8 witness [0, 0, 0, 0, 0, 0, 0, 0]

  const ZERO64: Word64 := [0, 0, 0, 0, 0, 0, 0, 0]

  datatype Arg = Arg(typ: Byte, value: Word64)

  const PACKET_SIZE := 64
  const MAGIC: Byte := 0xFE
  const RPC_CLASS: Byte := 0
  const MAX_ARGC := 16

  // Offsets of the packed structures.
  const CRC_AT := 1
  const LEN_AT := 3
  const CLASS_AT := 5
  const MODULE_AT := 6
  const FUNCTION_AT := 7
  const RET_AT := 8
  const ARGC_AT := 9
  const TYPES_AT := 10
  const ARGV_AT := 26
  /** The argument bytes a packet has room for. */
  const ARGV_SIZE := PACKET_SIZE - ARGV_AT

  /** lf_sizeof. Types it does not list, the generic unsigned int among them, have size 0. */
  function SizeOf(typ: Byte): (size: nat)
    ensures size <= 8
  {
    if typ == 16 || typ == 24 then 1
    else if typ == 17 || typ == 25 then 2
    else if typ == 19 || typ == 4 || typ == 27 then 4
    else if typ == 3 || typ == 31 || typ == 2 then 8
    else 0
  }

  /** The bytes of an argument that travel. */
  function Low(a: Arg): (s: seq<Byte>)
    ensures |s| == SizeOf(a.typ)
  {
    a.value[..SizeOf(a.typ)]
  }

  function Total(args: seq<Arg>): nat {
    if args == [] then 0 else Total(args[..|args| - 1]) + SizeOf(args[|args| - 1].typ)
  }

  /** The argument bytes one after another. */
  function Payload(args: seq<Arg>): (s: seq<Byte>)
    ensures |s| == Total(args)
  {
    if args == [] then [] else Payload(args[..|args| - 1]) + Low(args[|args| - 1])
  }

  function Types(args: seq<Arg>): (s: seq<Byte>)
    ensures |s| == |args|
  {
    seq(|args|, i requires 0 <= i < |args| => args[i].typ)
  }

  function Blank(n: nat): (s: seq<Byte>)
    ensures |s| == n && forall i :: 0 <= i < n ==> s[i] == 0
  {
    seq(n, _ => 0)
  }

  /** What travels: the types and the low bytes are the same. */
  ghost predicate SameArgs(a: seq<Arg>, b: seq<Arg>) {
    |a| == |b| && forall i :: 0 <= i < |a| ==> a[i].typ == b[i].typ && Low(a[i]) == Low(b[i])
  }

  // ---- Sender ---------------------------------------------------------------------------------

  /** The length lf_invoke_by_index writes: header, call and, once more, one byte per argument. */
  function CallLength(args: seq<Arg>): nat {
    ARGV_AT + |args| + Total(args)
  }

  /** The arguments fit: their types have slots and the checksummed length stays in the packet. */
  predicate Fits(args: seq<Arg>) {
    |args| <= MAX_ARGC && CallLength(args) <= PACKET_SIZE
  }

  function Header(crc: (Byte, Byte), len: nat, cls: Byte): (s: seq<Byte>)
    requires len < 0x10000
    ensures |s| == MODULE_AT
  {
    [MAGIC, crc.0, crc.1, len % 256, len / 256, cls]
  }

  /** Module, function, return type and argument count. */
  function CallFields(mod: Byte, fn: Byte, ret: Byte, args: seq<Arg>): (s: seq<Byte>)
    requires |args| < 256
    ensures |s| == 4
  {
    [mod, fn, ret, |args|]
  }

  function Pad(s: seq<Byte>, n: nat): (r: seq<Byte>)
    requires |s| <= n
    ensures |r| == n
  {
    s + Blank(n - |s|)
  }

  function CallPacket(crc: (Byte, Byte), mod: Byte, fn: Byte, ret: Byte, args: seq<Arg>): (s: seq<Byte>)
    requires Fits(args)
    ensures |s| == PACKET_SIZE
  {
    Header(crc, CallLength(args), RPC_CLASS) + CallFields(mod, fn, ret, args)
    + Pad(Types(args), MAX_ARGC) + Pad(Payload(args), ARGV_SIZE)
  }

  function CallCrc(mod: Byte, fn: Byte, ret: Byte, args: seq<Arg>): (Byte, Byte)
    requires Fits(args)
  {
    Checksum(CallPacket((0, 0), mod, fn, ret, args)[..CallLength(args)])
  }

  /** The packet lf_invoke_by_index sends. */
  function Encode(mod: Byte, fn: Byte, ret: Byte, args: seq<Arg>): (s: seq<Byte>)
    requires Fits(args)
    ensures |s| == PACKET_SIZE
  {
    CallPacket(CallCrc(mod, fn, ret, args), mod, fn, ret, args)
  }

  // ---- Receiver -------------------------------------------------------------------------------

  /** A packet buffer and the memory that follows it. The length field and the argument count
      are taken on trust, so the receiver may read past the 64 bytes. */
  predicate Memory(mem: seq<Byte>) {
    |mem| >= 0x10000
  }

  function Len(mem: seq<Byte>): (len: nat)
    requires |mem| >= PACKET_SIZE
    ensures len < 0x10000
  {
    (mem[LEN_AT] as int) + 256 * (mem[LEN_AT + 1] as int)
  }

  /** The packet with its checksum field cleared. */
  function Cleared(mem: seq<Byte>): (s: seq<Byte>)
    requires |mem| >= PACKET_SIZE
    ensures |s| == |mem|
  {
    mem[CRC_AT := 0][CRC_AT + 1 := 0]
  }

  predicate ChecksumHolds(mem: seq<Byte>)
    requires Memory(mem)
  {
    (mem[CRC_AT], mem[CRC_AT + 1]) == Checksum(Cleared(mem)[..Len(mem)])
  }

  /** The magic and checksum tests of fmr_perform. */
  predicate Accepts(mem: seq<Byte>)
    requires Memory(mem)
  {
    mem[0] == MAGIC && ChecksumHolds(mem)
  }

  /** An argument as the receiver stores it: the bytes above its size are whatever the
      allocated record held before. */
  function Stored(typ: Byte, low: seq<Byte>, junk: Word64): (a: Arg)
    requires |low| == SizeOf(typ)
    ensures a.typ == typ && Low(a) == low
  {
    Arg(typ, low + junk[|low|..])
  }

  lemma {:induction false} TotalBound(args: seq<Arg>)
    ensures Total(args) <= 8 * |args|
  {
    if args != [] { TotalBound(args[..|args| - 1]); }
  }

  /** The first `n` arguments fmr_rpc decodes; `junk(i)` is what the i-th record held before. */
  function Decoded(mem: seq<Byte>, n: nat, junk: nat -> Word64): (args: seq<Arg>)
    requires n <= 255 && Memory(mem)
    ensures |args| == n
  {
    if n == 0 then []
    else
      var prev := Decoded(mem, n - 1, junk);
      TotalBound(prev);
      var at, typ := ARGV_AT + Total(prev), mem[TYPES_AT + n - 1];
      prev + [Stored(typ, mem[at..at + SizeOf(typ)], junk(n - 1))]
  }

  // ---- What the receiver makes of what was sent ----------------------------------------------

  lemma SliceIs<T>(s: seq<T>, at: nat, t: seq<T>)
    requires at + |t| <= |s| && forall j :: 0 <= j < |t| ==> s[at + j] == t[j]
    ensures s[at..at + |t|] == t
  {
  }

  lemma {:induction false} TotalPrefix(args: seq<Arg>, n: nat)
    requires n < |args|
    ensures Total(args[..n]) + SizeOf(args[n].typ) <= Total(args)
    decreases |args|
  {
    var init := args[..|args| - 1];
    if n < |args| - 1 {
      TotalPrefix(init, n);
      assert init[..n] == args[..n];
    } else {
      assert args[..n] == init;
    }
  }

  /** Where byte `j` of the n-th argument is in the payload. */
  lemma {:induction false} PayloadAt(args: seq<Arg>, n: nat, j: nat)
    requires n < |args| && j < SizeOf(args[n].typ)
    ensures Total(args[..n]) + j < Total(args)
    ensures Payload(args)[Total(args[..n]) + j] == args[n].value[j]
    decreases |args|
  {
    var init := args[..|args| - 1];
    if n < |args| - 1 {
      PayloadAt(init, n, j);
      assert init[..n] == args[..n];
    } else {
      assert args[..n] == init;
    }
  }

  lemma PayloadSnoc(args: seq<Arg>, a: Arg)
    ensures Payload(args + [a]) == Payload(args) + Low(a)
    ensures Total(args + [a]) == Total(args) + SizeOf(a.typ)
  {
    assert (args + [a])[..|args|] == args;
  }

  lemma {:induction false} SameTotal(a: seq<Arg>, b: seq<Arg>)
    requires SameArgs(a, b)
    ensures Total(a) == Total(b)
  {
    if a != [] { SameTotal(a[..|a| - 1], b[..|b| - 1]); }
  }

  /** `mem` starts with the packet of this call. */
  ghost predicate Holds(mem: seq<Byte>, crc: (Byte, Byte), mod: Byte, fn: Byte, ret: Byte, args: seq<Arg>) {
    && Fits(args) && |mem| >= PACKET_SIZE
    && forall i :: 0 <= i < PACKET_SIZE ==> mem[i] == CallPacket(crc, mod, fn, ret, args)[i]
  }

  lemma StartsWithPacket(mem: seq<Byte>, crc: (Byte, Byte), mod: Byte, fn: Byte, ret: Byte, args: seq<Arg>)
    requires Fits(args) && |mem| >= PACKET_SIZE && mem[..PACKET_SIZE] == CallPacket(crc, mod, fn, ret, args)
    ensures Holds(mem, crc, mod, fn, ret, args)
  {
    forall i | 0 <= i < PACKET_SIZE ensures mem[i] == CallPacket(crc, mod, fn, ret, args)[i] {
      assert mem[i] == mem[..PACKET_SIZE][i];
    }
  }

  lemma SentFields(mem: seq<Byte>, crc: (Byte, Byte), mod: Byte, fn: Byte, ret: Byte, args: seq<Arg>)
    requires Holds(mem, crc, mod, fn, ret, args)
    ensures mem[0] == MAGIC && (mem[CRC_AT], mem[CRC_AT + 1]) == crc
    ensures Len(mem) == CallLength(args) && mem[CLASS_AT] == RPC_CLASS
    ensures mem[MODULE_AT] == mod && mem[FUNCTION_AT] == fn && mem[ARGC_AT] == |args|
  {
    var p := CallPacket(crc, mod, fn, ret, args);
    assert p[0] == MAGIC && p[1] == crc.0 && p[2] == crc.1;
    assert p[3] == CallLength(args) % 256 && p[4] == CallLength(args) / 256 && p[5] == RPC_CLASS;
    assert p[6] == mod && p[7] == fn && p[9] == |args|;
  }

  lemma SentType(mem: seq<Byte>, crc: (Byte, Byte), mod: Byte, fn: Byte, ret: Byte, args: seq<Arg>, i: nat)
    requires Holds(mem, crc, mod, fn, ret, args) && i < |args|
    ensures mem[TYPES_AT + i] == args[i].typ
  {
    var p := CallPacket(crc, mod, fn, ret, args);
    assert p[TYPES_AT + i] == Pad(Types(args), MAX_ARGC)[i] == Types(args)[i];
  }

  lemma SentByte(mem: seq<Byte>, crc: (Byte, Byte), mod: Byte, fn: Byte, ret: Byte, args: seq<Arg>, j: nat)
    requires Holds(mem, crc, mod, fn, ret, args) && j < Total(args)
    ensures mem[ARGV_AT + j] == Payload(args)[j]
  {
    var p := CallPacket(crc, mod, fn, ret, args);
    assert p[ARGV_AT + j] == Pad(Payload(args), ARGV_SIZE)[j] == Payload(args)[j];
  }

  /** The argument area of `mem` carries `args`. */
  ghost predicate Carries(mem: seq<Byte>, args: seq<Arg>) {
    && |mem| >= PACKET_SIZE && |args| <= MAX_ARGC && Total(args) <= ARGV_SIZE
    && (forall i :: 0 <= i < |args| ==> mem[TYPES_AT + i] == args[i].typ)
    && (forall j :: 0 <= j < Total(args) ==> mem[ARGV_AT + j] == Payload(args)[j])
  }

  lemma SentCarries(mem: seq<Byte>, crc: (Byte, Byte), mod: Byte, fn: Byte, ret: Byte, args: seq<Arg>)
    requires Holds(mem, crc, mod, fn, ret, args)
    ensures Carries(mem, args)
  {
    forall i | 0 <= i < |args| ensures mem[TYPES_AT + i] == args[i].typ {
      SentType(mem, crc, mod, fn, ret, args, i);
    }
    forall j | 0 <= j < Total(args) ensures mem[ARGV_AT + j] == Payload(args)[j] {
      SentByte(mem, crc, mod, fn, ret, args, j);
    }
  }

  lemma DecodesOneMore(mem: seq<Byte>, args: seq<Arg>, n: nat, prev: seq<Arg>)
    requires Carries(mem, args) && n < |args| && SameArgs(prev, args[..n])
    ensures var at := ARGV_AT + Total(prev);
            at + SizeOf(args[n].typ) <= |mem| && mem[at..at + SizeOf(args[n].typ)] == Low(args[n])
  {
    SameTotal(prev, args[..n]);
    TotalPrefix(args, n);
    var at, low := ARGV_AT + Total(prev), Low(args[n]);
    forall j | 0 <= j < |low| ensures mem[at + j] == low[j] {
      PayloadAt(args, n, j);
      assert mem[ARGV_AT + (Total(prev) + j)] == Payload(args)[Total(prev) + j];
    }
    SliceIs(mem, at, low);
  }

  lemma DecodedNext(mem: seq<Byte>, n: nat, junk: nat -> Word64, prev: seq<Arg>, typ: Byte, low: seq<Byte>)
    requires Memory(mem) && n < 255 && prev == Decoded(mem, n, junk) && typ == mem[TYPES_AT + n]
    requires var at := ARGV_AT + Total(prev); at + SizeOf(typ) <= |mem| && low == mem[at..at + SizeOf(typ)]
    ensures Decoded(mem, n + 1, junk) == prev + [Stored(typ, low, junk(n))]
  {
  }

  lemma DecodesNext(mem: seq<Byte>, args: seq<Arg>, n: nat, junk: nat -> Word64, prev: seq<Arg>, next: seq<Arg>)
    requires Memory(mem) && Carries(mem, args) && n < |args| && n < 255
    requires prev == Decoded(mem, n, junk) && SameArgs(prev, args[..n]) && next == Decoded(mem, n + 1, junk)
    ensures SameArgs(next, args[..n] + [args[n]])
  {
    var a := args[n];
    DecodesOneMore(mem, args, n, prev);
    assert mem[TYPES_AT + n] == a.typ;
    DecodedNext(mem, n, junk, prev, a.typ, Low(a));
    SameSnoc(prev, args[..n], Stored(a.typ, Low(a), junk(n)), a);
  }

  /** fmr_rpc decodes the arguments that were sent: the same types in the same order, and the
      same low bytes of each value, whatever the memory beyond the packet and in the fresh
      records holds. */
  lemma {:induction false} DecodesWhatWasSent(mem: seq<Byte>, args: seq<Arg>, n: nat, junk: nat -> Word64)
    requires Memory(mem) && Carries(mem, args) && n <= |args|
    ensures SameArgs(Decoded(mem, n, junk), args[..n])
  {
    if n > 0 {
      DecodesWhatWasSent(mem, args, n - 1, junk);
      DecodesNext(mem, args, n - 1, junk, Decoded(mem, n - 1, junk), Decoded(mem, n, junk));
      assert args[..n] == args[..n - 1] + [args[n - 1]];
    }
  }

  lemma SameSnoc(a: seq<Arg>, b: seq<Arg>, x: Arg, y: Arg)
    requires SameArgs(a, b) && x.typ == y.typ && Low(x) == Low(y)
    ensures SameArgs(a + [x], b + [y])
  {
  }

  /** Clearing the checksum field of a sent packet gives back what the checksum was taken over. */
  lemma ClearedPacket(mem: seq<Byte>, crc: (Byte, Byte), mod: Byte, fn: Byte, ret: Byte, args: seq<Arg>)
    requires Holds(mem, crc, mod, fn, ret, args)
    ensures Cleared(mem)[..CallLength(args)] == CallPacket((0, 0), mod, fn, ret, args)[..CallLength(args)]
  {
    var p, q := CallPacket(crc, mod, fn, ret, args), CallPacket((0, 0), mod, fn, ret, args);
    forall i | 0 <= i < CallLength(args) ensures Cleared(mem)[i] == q[i] {
      assert mem[i] == p[i];
    }
  }

  /** The packet built for a call passes the receiver's magic and checksum tests. */
  lemma SentPacketAccepted(mem: seq<Byte>, mod: Byte, fn: Byte, ret: Byte, args: seq<Arg>)
    requires Memory(mem) && Fits(args) && Holds(mem, CallCrc(mod, fn, ret, args), mod, fn, ret, args)
    ensures Accepts(mem)
  {
    var crc := CallCrc(mod, fn, ret, args);
    SentFields(mem, crc, mod, fn, ret, args);
    ClearedPacket(mem, crc, mod, fn, ret, args);
  }
}
