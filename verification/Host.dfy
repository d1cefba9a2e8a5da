/** The host side of a remote call: how lf_invoke_by_index and lf_create_call fill a packet
    buffer in place from a linked list of arguments, and for which lists they stay inside it. */
module Host {
  import opened Options
  import opened Octet
  import opened Wire
  import opened LinkedList
  import opened Integrity

  // ---- The buffer while it is being filled ---------------------------------------------------

  function Splice(buf: seq<Byte>, at: nat, s: seq<Byte>): (r: seq<Byte>)
    requires at + |s| <= |buf|
    ensures |r| == |buf|
  {
    buf[..at] + s + buf[at + |s|..]
  }

  /** The writes made for one argument: its type into slot `i`, its bytes at `at`. */
  function Put(buf: seq<Byte>, i: nat, at: nat, typ: Byte, low: seq<Byte>): (r: seq<Byte>)
    requires TYPES_AT + i < |buf| && at + |low| <= |buf|
    ensures |r| == |buf|
  {
    Splice(buf[TYPES_AT + i := typ], at, low)
  }

  /** A buffer with header and call fields `p`, and the types and argument bytes written so far. */
  function Frame(p: seq<Byte>, types: seq<Byte>, bytes: seq<Byte>): (s: seq<Byte>)
    requires |p| == TYPES_AT && |types| <= MAX_ARGC && |bytes| <= ARGV_SIZE
    ensures |s| == PACKET_SIZE
  {
    p + Pad(types, MAX_ARGC) + Pad(bytes, ARGV_SIZE)
  }

  lemma PadSnoc(s: seq<Byte>, n: nat, x: Byte)
    requires |s| < n
    ensures Pad(s + [x], n) == Pad(s, n)[|s| := x]
  {
  }

  lemma PadAppend(s: seq<Byte>, n: nat, t: seq<Byte>)
    requires |s| + |t| <= n
    ensures Pad(s + t, n) == Splice(Pad(s, n), |s|, t)
  {
  }

  lemma UpdateMiddle(a: seq<Byte>, b: seq<Byte>, c: seq<Byte>, i: nat, x: Byte)
    requires i < |b|
    ensures (a + b + c)[|a| + i := x] == a + b[i := x] + c
  {
  }

  lemma SpliceTail(a: seq<Byte>, v: seq<Byte>, at: nat, s: seq<Byte>)
    requires at + |s| <= |v|
    ensures Splice(a + v, |a| + at, s) == a + Splice(v, at, s)
  {
    assert (a + v)[..|a| + at] == a + v[..at];
    assert (a + v)[|a| + at + |s|..] == v[at + |s|..];
  }

  /** The writes for one more argument touch its slot and its bytes and nothing else. */
  lemma PutExtendsFrame(p: seq<Byte>, types: seq<Byte>, bytes: seq<Byte>, typ: Byte, low: seq<Byte>)
    requires |p| == TYPES_AT && |types| < MAX_ARGC && |bytes| + |low| <= ARGV_SIZE
    ensures Put(Frame(p, types, bytes), |types|, ARGV_AT + |bytes|, typ, low)
            == Frame(p, types + [typ], bytes + low)
  {
    PadSnoc(types, MAX_ARGC, typ);
    PadAppend(bytes, ARGV_SIZE, low);
    UpdateMiddle(p, Pad(types, MAX_ARGC), Pad(bytes, ARGV_SIZE), |types|, typ);
    SpliceTail(p + Pad(types + [typ], MAX_ARGC), Pad(bytes, ARGV_SIZE), |bytes|, low);
  }

  function Items(cells: seq<Cell<Arg>>): (s: seq<Arg>)
    ensures |s| == |cells|
  {
    seq(|cells|, i requires 0 <= i < |cells| => cells[i].item)
  }

  // ---- Which lists stay inside the packet ------------------------------------------------------

  /** The arguments that are written: the 8-bit count keeps the low byte of the list's length. */
  function Sent(all: seq<Arg>): (args: seq<Arg>)
    ensures |args| == |all| % 256 && args <= all && (|all| < 256 ==> args == all)
  {
    all[..|all| % 256]
  }

  /** The i-th argument's type and bytes are written inside the packet. */
  predicate WritesInside(args: seq<Arg>, i: nat)
    requires i < |args|
  {
    && TYPES_AT + i < PACKET_SIZE
    && (SizeOf(args[i].typ) > 0 ==> ARGV_AT + Total(args[..i]) + SizeOf(args[i].typ) <= PACKET_SIZE)
  }

  predicate Inside(args: seq<Arg>) {
    |args| <= PACKET_SIZE - TYPES_AT && Total(args) <= ARGV_SIZE
  }

  lemma {:induction false} LastBytes(args: seq<Arg>) returns (i: nat)
    requires Total(args) > 0
    ensures i < |args| && SizeOf(args[i].typ) > 0 && Total(args[..i]) + SizeOf(args[i].typ) == Total(args)
  {
    i := |args| - 1;
    if SizeOf(args[i].typ) == 0 {
      i := LastBytes(args[..i]);
      assert args[..|args| - 1][..i] == args[..i];
    }
  }

  /** Every write stays inside the packet if and only if there are at most 54 arguments with at most
      38 bytes. */
  lemma InsideIff(args: seq<Arg>)
    ensures Inside(args) <==> forall i :: 0 <= i < |args| ==> WritesInside(args, i)
  {
    if Inside(args) {
      forall i | 0 <= i < |args| ensures WritesInside(args, i) { TotalPrefix(args, i); }
    } else if |args| > PACKET_SIZE - TYPES_AT {
      assert !WritesInside(args, |args| - 1);
    } else {
      var i := LastBytes(args);
      assert !WritesInside(args, i);
    }
  }

  // ---- What is written -------------------------------------------------------------------------

  /** The buffer after the writes for `args`, in order. */
  function Written(buf: seq<Byte>, args: seq<Arg>): (r: seq<Byte>)
    requires |buf| == PACKET_SIZE && Inside(args)
    ensures |r| == PACKET_SIZE
  {
    if args == [] then buf
    else
      var init, a := args[..|args| - 1], args[|args| - 1];
      Put(Written(buf, init), |init|, ARGV_AT + Total(init), a.typ, Low(a))
  }

  lemma TotalStep(all: seq<Arg>, i: nat)
    requires i < |all|
    ensures Total(all[..i + 1]) == Total(all[..i]) + SizeOf(all[i].typ)
  {
    assert all[..i + 1][..i] == all[..i];
  }

  lemma WrittenSnoc(buf: seq<Byte>, all: seq<Arg>, i: nat)
    requires |buf| == PACKET_SIZE && i < |all| && Inside(all[..i + 1])
    ensures Total(all[..i + 1]) == Total(all[..i]) + SizeOf(all[i].typ) && Inside(all[..i])
    ensures Written(buf, all[..i + 1])
            == Put(Written(buf, all[..i]), i, ARGV_AT + Total(all[..i]), all[i].typ, Low(all[i]))
  {
    var args := all[..i + 1];
    TotalStep(all, i);
    assert |args| == i + 1 && args[..|args| - 1] == all[..i] && args[|args| - 1] == all[i];
  }

  lemma {:induction false} TotalGrows(all: seq<Arg>, i: nat)
    requires i <= |all|
    ensures Total(all[..i]) <= Total(all)
  {
    if i < |all| {
      TotalPrefix(all, i);
    } else {
      assert all[..i] == all;
    }
  }

  /** The header and the call fields are not touched. */
  lemma {:induction false} WrittenKeepsHead(buf: seq<Byte>, args: seq<Arg>)
    requires |buf| == PACKET_SIZE && Inside(args)
    ensures Written(buf, args)[..TYPES_AT] == buf[..TYPES_AT]
  {
    if args != [] { WrittenKeepsHead(buf, args[..|args| - 1]); }
  }

  lemma TypesSnoc(args: seq<Arg>)
    requires args != []
    ensures Types(args) == Types(args[..|args| - 1]) + [args[|args| - 1].typ]
  {
  }

  /** With at most 16 arguments each type has a slot and each value its bytes. */
  lemma {:induction false} WrittenIsFrame(p: seq<Byte>, args: seq<Arg>)
    requires |p| == TYPES_AT && Inside(args) && |args| <= MAX_ARGC
    ensures Written(p + Blank(PACKET_SIZE - TYPES_AT), args) == Frame(p, Types(args), Payload(args))
  {
    if args == [] {
      assert p + Blank(PACKET_SIZE - TYPES_AT) == Frame(p, [], []);
    } else {
      var init, a := args[..|args| - 1], args[|args| - 1];
      WrittenIsFrame(p, init);
      TypesSnoc(args);
      PutExtendsFrame(p, Types(init), Payload(init), a.typ, Low(a));
    }
  }

  /** What the writes for one argument do to the first argument byte. */
  lemma FirstByteAfter(w: seq<Byte>, k: nat, size: nat, typ: Byte, low: seq<Byte>)
    requires |w| == PACKET_SIZE && MAX_ARGC <= k < PACKET_SIZE - TYPES_AT && size + |low| <= ARGV_SIZE
    ensures Put(w, k, ARGV_AT + size, typ, low)[ARGV_AT] ==
            if size == 0 && low != [] then low[0] else if k == MAX_ARGC then typ else w[ARGV_AT]
  {
  }

  /** With more than 16 arguments the slot of the seventeenth type is the first argument byte, and one
      of the two is lost: the byte, if the first 16 arguments have any; otherwise the type, if the
      later ones have any. */
  lemma {:induction false} SeventeenthSlot(buf: seq<Byte>, args: seq<Arg>)
    requires |buf| == PACKET_SIZE && Inside(args) && |args| > MAX_ARGC
    ensures Written(buf, args)[ARGV_AT] ==
            if Total(args[..MAX_ARGC]) > 0 || Total(args) == 0 then args[MAX_ARGC].typ else Payload(args)[0]
  {
    var init, low := args[..|args| - 1], Low(args[|args| - 1]);
    FirstByteAfter(Written(buf, init), |init|, Total(init), args[|args| - 1].typ, low);
    assert Total(args) == Total(init) + |low| && Payload(args) == Payload(init) + low;
    if |init| == MAX_ARGC {
      assert init == args[..MAX_ARGC];
    } else {
      SeventeenthSlot(buf, init);
      assert init[..MAX_ARGC] == args[..MAX_ARGC] && init[MAX_ARGC] == args[MAX_ARGC];
      TotalGrows(init, MAX_ARGC);
    }
  }

  /** A list of seventeen one-byte arguments is one that both builders take. */
  lemma SeventeenBytesFit(a: Arg)
    requires SizeOf(a.typ) == 1
    ensures var args := seq(17, _ => a); Total(args) == 17 && Inside(args) && CallLength(args) <= PACKET_SIZE
  {
    OneByteEach(a, 17);
  }

  lemma {:induction false} OneByteEach(a: Arg, n: nat)
    requires SizeOf(a.typ) == 1
    ensures Total(seq(n, _ => a)) == n
  {
    if n > 0 {
      OneByteEach(a, n - 1);
      assert seq(n, _ => a)[..n - 1] == seq(n - 1, _ => a);
    }
  }

  // ---- The packet lf_invoke_by_index sends -----------------------------------------------------

  /** The cleared packet with its fixed fields. */
  function BlankCall(mod: Byte, fn: Byte, ret: Byte, argc: Byte): (s: seq<Byte>)
    ensures |s| == PACKET_SIZE
  {
    Header((0, 0), 0, RPC_CLASS) + [mod, fn, ret, argc] + Blank(PACKET_SIZE - TYPES_AT)
  }

  function WithLength(buf: seq<Byte>, len: nat): (s: seq<Byte>)
    requires |buf| == PACKET_SIZE && len < 0x10000
    ensures |s| == PACKET_SIZE
  {
    buf[LEN_AT := len % 256][LEN_AT + 1 := len / 256]
  }

  /** The packet before its checksum is filled in. */
  function Unsealed(mod: Byte, fn: Byte, ret: Byte, args: seq<Arg>): (s: seq<Byte>)
    requires Inside(args)
    ensures |s| == PACKET_SIZE
  {
    WithLength(Written(BlankCall(mod, fn, ret, |args|), args), CallLength(args))
  }

  const BEYOND := 54

  /** The checksum is taken over the length the packet claims, which may reach into the memory that
      follows it. */
  function Covered(packet: seq<Byte>, after: seq<Byte>, len: nat): (s: seq<Byte>)
    requires len <= |packet| + |after|
    ensures |s| == len
  {
    (packet + after)[..len]
  }

  function WithCrc(packet: seq<Byte>, crc: (Byte, Byte)): (s: seq<Byte>)
    requires |packet| == PACKET_SIZE
    ensures |s| == PACKET_SIZE
  {
    packet[CRC_AT := crc.0][CRC_AT + 1 := crc.1]
  }

  function Sealed(buf: seq<Byte>, len: nat, after: seq<Byte>): (s: seq<Byte>)
    requires |buf| == PACKET_SIZE && len <= PACKET_SIZE + |after| && len < 0x10000
    ensures |s| == PACKET_SIZE
  {
    var packet := WithLength(buf, len);
    WithCrc(packet, Checksum(Covered(packet, after, len)))
  }

  /** The packet as it is sent, with `after` following it in the host's memory. */
  function Built(mod: Byte, fn: Byte, ret: Byte, args: seq<Arg>, after: seq<Byte>): (s: seq<Byte>)
    requires Inside(args) && |after| >= BEYOND
    ensures |s| == PACKET_SIZE
  {
    Sealed(Written(BlankCall(mod, fn, ret, |args|), args), CallLength(args), after)
  }

  lemma UnsealedIsCallPacket(mod: Byte, fn: Byte, ret: Byte, args: seq<Arg>)
    requires Fits(args)
    ensures Unsealed(mod, fn, ret, args) == CallPacket((0, 0), mod, fn, ret, args)
  {
    WrittenIsFrame(Header((0, 0), 0, RPC_CLASS) + CallFields(mod, fn, ret, args), args);
  }

  /** A list that fits is encoded as specified, whatever follows the packet. */
  lemma BuiltIsEncode(mod: Byte, fn: Byte, ret: Byte, args: seq<Arg>, after: seq<Byte>)
    requires Fits(args) && |after| >= BEYOND
    ensures Built(mod, fn, ret, args, after) == Encode(mod, fn, ret, args)
  {
    var packet := CallPacket((0, 0), mod, fn, ret, args);
    UnsealedIsCallPacket(mod, fn, ret, args);
    assert Covered(packet, after, CallLength(args)) == packet[..CallLength(args)];
    assert forall crc :: WithCrc(packet, crc) == CallPacket(crc, mod, fn, ret, args);
  }

  // ---- In place --------------------------------------------------------------------------------

  /** memcpy of the low bytes of a value. */
  method Copy(packet: array<Byte>, at: nat, s: seq<Byte>)
    requires at + |s| <= packet.Length
    modifies packet
    ensures packet[..] == Splice(old(packet[..]), at, s)
  {
    for j := 0 to |s|
      invariant packet[..at] == old(packet[..at]) && packet[at + |s|..] == old(packet[at + |s|..])
      invariant forall k :: 0 <= k < j ==> packet[at + k] == s[k]
    {
      packet[at + j] := s[j];
    }
    assert packet[..] == packet[..at] + packet[at..at + |s|] + packet[at + |s|..];
  }

  /** The writes for one argument. */
  method PutArg(packet: array<Byte>, i: nat, at: nat, a: Arg)
    requires TYPES_AT + i < packet.Length && at + SizeOf(a.typ) <= packet.Length
    modifies packet
    ensures packet[..] == Put(old(packet[..]), i, at, a.typ, Low(a))
  {
    packet[TYPES_AT + i] := a.typ;
    assert packet[..] == old(packet[..])[TYPES_AT + i := a.typ];
    Copy(packet, at, a.value[..SizeOf(a.typ)]);
  }

  /** A cleared packet with its fixed fields filled in. */
  method Start(mod: Byte, index: Byte, ret: Byte, argc: Byte) returns (packet: array<Byte>)
    ensures fresh(packet) && packet[..] == BlankCall(mod, index, ret, argc)
  {
    packet := new Byte[PACKET_SIZE](_ => 0);
    packet[0] := MAGIC;
    packet[CLASS_AT] := RPC_CLASS;
    packet[MODULE_AT] := mod;
    packet[FUNCTION_AT] := index;
    packet[RET_AT] := ret;
    packet[ARGC_AT] := argc;
  }

  /** The writes for one more argument of a list. */
  method PutNext(packet: array<Byte>, i: nat, size: nat, a: Arg, ghost buf: seq<Byte>, ghost want: seq<Arg>)
    returns (size': nat)
    requires |buf| == PACKET_SIZE == packet.Length && i < |want| && Inside(want[..i])
    requires i < PACKET_SIZE - TYPES_AT && size + SizeOf(a.typ) <= ARGV_SIZE
    requires a == want[i] && size == Total(want[..i]) && packet[..] == Written(buf, want[..i])
    modifies packet
    ensures size' == size + SizeOf(a.typ) == Total(want[..i + 1])
    ensures Inside(want[..i + 1]) && packet[..] == Written(buf, want[..i + 1])
  {
    TotalStep(want, i);
    WrittenSnoc(buf, want, i);
    PutArg(packet, i, ARGV_AT + size, a);
    size' := size + SizeOf(a.typ);
  }

  /** The loop of lf_invoke_by_index over the argument list. */
  method WriteArgs(packet: array<Byte>, args: List<Arg>, argc: nat, ghost buf: seq<Byte>, ghost want: seq<Arg>) returns (size: nat)
    requires args.Valid() && |buf| == PACKET_SIZE == packet.Length && packet[..] == buf
    requires argc == |want| <= |args.cells| && forall k :: 0 <= k < argc ==> args.cells[k].item == want[k]
    requires Inside(want)
    modifies packet
    ensures size == Total(want) && packet[..] == Written(buf, want)
  {
    size := 0;
    var node, i: nat := args.head, 0;
    while node != null && i < argc
      invariant i <= argc && node == args.NodeAt(i)
      invariant size == Total(want[..i]) && Inside(want[..i]) && packet[..] == Written(buf, want[..i])
      decreases argc - i
    {
      assert node == args.spine[i] && node.item == want[i];
      TotalStep(want, i);
      TotalGrows(want, i + 1);
      size := PutNext(packet, i, size, node.item, buf, want);
      node, i := node.next, i + 1;
    }
    assert want[..i] == want;
  }

  /** The length and, over that length, the checksum. */
  method Seal(packet: array<Byte>, len: nat, after: seq<Byte>, signedChar: bool, ghost buf: seq<Byte>)
    requires |buf| == PACKET_SIZE && packet[..] == buf && len <= PACKET_SIZE + |after| && len < 0x10000
    modifies packet
    ensures packet[..] == Sealed(buf, len, after)
  {
    packet[LEN_AT] := len % 256;
    packet[LEN_AT + 1] := len / 256;
    var lo, hi := LfCrc((packet[..] + after)[..len], signedChar);
    packet[CRC_AT] := lo;
    packet[CRC_AT + 1] := hi;
  }

  /** The packet up to its length and checksum. */
  method FillCall(mod: Byte, index: Byte, ret: Byte, argc: Byte, args: List<Arg>, ghost want: seq<Arg>)
    returns (packet: array<Byte>, len: nat)
    requires args.Valid() && want == Sent(Items(args.cells)) && argc == |want| && Inside(want)
    ensures fresh(packet) && packet[..] == Written(BlankCall(mod, index, ret, argc), want)
    ensures len == CallLength(want)
  {
    packet := Start(mod, index, ret, argc);
    var size := WriteArgs(packet, args, argc, packet[..], want);
    len := ARGV_AT + argc + size;
  }

  /** Packet construction in lf_invoke_by_index for a module and function index, for every list whose
      writes stay inside the packet. */
  method BuildCall(moduleIdx: nat, index: Byte, ret: Byte, args: List<Arg>, after: seq<Byte>, signedChar: bool)
    returns (packet: array<Byte>)
    requires args.Valid() && Inside(Sent(Items(args.cells))) && |after| >= BEYOND
    ensures fresh(packet) && packet[..] == Built(moduleIdx % 256, index, ret, Sent(Items(args.cells)), after)
  {
    var count := args.Count();
    var argc := count % 256;
    var len;
    ghost var want := Sent(Items(args.cells));
    packet, len := FillCall(moduleIdx % 256, index, ret, argc, args, want);
    Seal(packet, len, after, signedChar, Written(BlankCall(moduleIdx % 256, index, ret, |want|), want));
  }

  // ---- Acceptance --------------------------------------------------------------------------------

  lemma UnsealedFields(mod: Byte, fn: Byte, ret: Byte, args: seq<Arg>)
    requires Inside(args)
    ensures var w := Written(BlankCall(mod, fn, ret, |args|), args);
            w[0] == MAGIC && w[CRC_AT] == 0 && w[CRC_AT + 1] == 0 && w[CLASS_AT] == RPC_CLASS
  {
    var b := BlankCall(mod, fn, ret, |args|);
    WrittenKeepsHead(b, args);
    var w := Written(b, args);
    assert w[0] == w[..TYPES_AT][0] && b[0] == b[..TYPES_AT][0];
    assert w[CRC_AT] == w[..TYPES_AT][CRC_AT] && b[CRC_AT] == b[..TYPES_AT][CRC_AT];
    assert w[CRC_AT + 1] == w[..TYPES_AT][CRC_AT + 1] && b[CRC_AT + 1] == b[..TYPES_AT][CRC_AT + 1];
    assert w[CLASS_AT] == w[..TYPES_AT][CLASS_AT] && b[CLASS_AT] == b[..TYPES_AT][CLASS_AT];
  }

  /** A device accepts a sealed packet if and only if the checksum over its own memory, up to the
      claimed length, is the host's. */
  lemma SealedAcceptedIff(buf: seq<Byte>, len: nat, after: seq<Byte>, mem: seq<Byte>)
    requires |buf| == PACKET_SIZE && len <= PACKET_SIZE + |after| && len < 0x10000 && Memory(mem)
    requires buf[0] == MAGIC && buf[CRC_AT] == 0 && buf[CRC_AT + 1] == 0
    requires mem[..PACKET_SIZE] == Sealed(buf, len, after)
    ensures var u := WithLength(buf, len);
            Accepts(mem) <==> Checksum(Covered(u, after, len)) == Checksum(Covered(u, mem[PACKET_SIZE..], len))
  {
    var u := WithLength(buf, len);
    assert forall i :: 0 <= i < PACKET_SIZE ==> mem[i] == mem[..PACKET_SIZE][i];
    assert Cleared(mem) == u + mem[PACKET_SIZE..];
    assert Len(mem) == len;
  }

  lemma BuiltAcceptedIff(mod: Byte, fn: Byte, ret: Byte, args: seq<Arg>, after: seq<Byte>, mem: seq<Byte>)
    requires Inside(args) && |after| >= BEYOND && Memory(mem)
    requires mem[..PACKET_SIZE] == Built(mod, fn, ret, args, after)
    ensures var u, len := Unsealed(mod, fn, ret, args), CallLength(args);
            Accepts(mem) <==> Checksum(Covered(u, after, len)) == Checksum(Covered(u, mem[PACKET_SIZE..], len))
  {
    UnsealedFields(mod, fn, ret, args);
    SealedAcceptedIff(Written(BlankCall(mod, fn, ret, |args|), args), CallLength(args), after, mem);
  }

  /** What follows the packet in either memory does not matter if and only if the length is at most 64. */
  lemma ChecksumReadsInsideIff(mod: Byte, fn: Byte, ret: Byte, args: seq<Arg>)
    requires Inside(args)
    ensures CallLength(args) <= PACKET_SIZE <==>
            forall a: seq<Byte>, b: seq<Byte> :: |a| >= BEYOND && |b| >= BEYOND ==>
              Built(mod, fn, ret, args, a) == Built(mod, fn, ret, args, b)
  {
    var u, len := Unsealed(mod, fn, ret, args), CallLength(args);
    if len <= PACKET_SIZE {
      forall a: seq<Byte>, b: seq<Byte> | |a| >= BEYOND && |b| >= BEYOND
        ensures Built(mod, fn, ret, args, a) == Built(mod, fn, ret, args, b)
      {
        assert Covered(u, a, len) == Covered(u, b, len);
      }
    } else {
      var a, b := Blank(BEYOND), Blank(BEYOND)[0 := 1];
      var x, y := Covered(u, a, len), Covered(u, b, len);
      assert x[PACKET_SIZE] != y[PACKET_SIZE];
      OneByteBurst(x, y, PACKET_SIZE);
      BurstChangesChecksum(x, y, 8 * PACKET_SIZE);
      CrcFieldShows(u, Checksum(x), Checksum(y));
      assert Built(mod, fn, ret, args, a) != Built(mod, fn, ret, args, b);
    }
  }

  /** A built packet is accepted whatever follows it in either memory if and only if its length is at
      most 64. */
  lemma AcceptedEverywhereIff(mod: Byte, fn: Byte, ret: Byte, args: seq<Arg>)
    requires Inside(args)
    ensures CallLength(args) <= PACKET_SIZE <==>
            forall after: seq<Byte>, rest: seq<Byte> ::
              |after| >= BEYOND && |rest| == 0x10000 - PACKET_SIZE ==>
                Accepts(Built(mod, fn, ret, args, after) + rest)
  {
    var u, len := Unsealed(mod, fn, ret, args), CallLength(args);
    if len <= PACKET_SIZE {
      forall after: seq<Byte>, rest: seq<Byte> | |after| >= BEYOND && |rest| == 0x10000 - PACKET_SIZE
        ensures Accepts(Built(mod, fn, ret, args, after) + rest)
      {
        BuiltAcceptedBy(mod, fn, ret, args, after, rest);
        assert Covered(u, after, len) == Covered(u, rest, len);
      }
    } else {
      var after, rest := Blank(BEYOND), Blank(0x10000 - PACKET_SIZE)[0 := 1];
      var x, y := Covered(u, after, len), Covered(u, rest, len);
      assert x[PACKET_SIZE] != y[PACKET_SIZE];
      OneByteBurst(x, y, PACKET_SIZE);
      BurstChangesChecksum(x, y, 8 * PACKET_SIZE);
      BuiltAcceptedBy(mod, fn, ret, args, after, rest);
      assert !Accepts(Built(mod, fn, ret, args, after) + rest);
    }
  }

  lemma BuiltAcceptedBy(mod: Byte, fn: Byte, ret: Byte, args: seq<Arg>, after: seq<Byte>, rest: seq<Byte>)
    requires Inside(args) && |after| >= BEYOND && |rest| == 0x10000 - PACKET_SIZE
    ensures var u, len := Unsealed(mod, fn, ret, args), CallLength(args);
            Accepts(Built(mod, fn, ret, args, after) + rest)
            <==> Checksum(Covered(u, after, len)) == Checksum(Covered(u, rest, len))
  {
    var built := Built(mod, fn, ret, args, after);
    assert (built + rest)[..PACKET_SIZE] == built && (built + rest)[PACKET_SIZE..] == rest;
    BuiltAcceptedIff(mod, fn, ret, args, after, built + rest);
  }

  lemma CrcFieldShows(u: seq<Byte>, c: (Byte, Byte), d: (Byte, Byte))
    requires |u| == PACKET_SIZE && c != d
    ensures WithCrc(u, c) != WithCrc(u, d)
  {
    assert WithCrc(u, c)[CRC_AT] == c.0 && WithCrc(u, d)[CRC_AT] == d.0;
    assert WithCrc(u, c)[CRC_AT + 1] == c.1 && WithCrc(u, d)[CRC_AT + 1] == d.1;
  }

  // ---- lf_create_call --------------------------------------------------------------------------

  /** What lf_create_call makes of the packet before the arguments. */
  function CallStarted(buf: seq<Byte>, mod: nat, ret: Byte, argc: Byte): (p: seq<Byte>)
    requires |buf| == PACKET_SIZE
    ensures |p| == PACKET_SIZE
  {
    buf[MODULE_AT := mod % 256][FUNCTION_AT := 0][RET_AT := ret][ARGC_AT := argc]
  }

  /** And what it makes of it after them. */
  function CallFinished(buf: seq<Byte>, len: nat): (p: seq<Byte>)
    requires |buf| == PACKET_SIZE && len < 256
    ensures |p| == PACKET_SIZE
  {
    buf[CLASS_AT := RPC_CLASS][LEN_AT := len][LEN_AT + 1 := 0]
  }

  /** The packet of a successful lf_create_call. */
  function Created(buf: seq<Byte>, mod: nat, ret: Byte, args: seq<Arg>): (p: seq<Byte>)
    requires |buf| == PACKET_SIZE && |args| + Total(args) <= ARGV_SIZE
    ensures |p| == PACKET_SIZE
  {
    CallFinished(Written(CallStarted(buf, mod, ret, |args|), args), 20 + |args| + Total(args))
  }

  /** With more than 16 arguments, the first 16 with any bytes among them, the first argument byte is
      lost to the seventeenth type. */
  lemma CreatedLosesFirstByte(buf: seq<Byte>, mod: nat, ret: Byte, args: seq<Arg>)
    requires |buf| == PACKET_SIZE && |args| + Total(args) <= ARGV_SIZE
    requires |args| > MAX_ARGC && Total(args[..MAX_ARGC]) > 0
    ensures Created(buf, mod, ret, args)[ARGV_AT] == args[MAX_ARGC].typ
  {
    SeventeenthSlot(CallStarted(buf, mod, ret, |args|), args);
  }

  /** The first ten bytes of such a packet. */
  function CreatedHead(buf: seq<Byte>, mod: nat, ret: Byte, argc: Byte, len: Byte): (p: seq<Byte>)
    requires |buf| == PACKET_SIZE
    ensures |p| == TYPES_AT
  {
    buf[..CRC_AT + 2] + [len, 0, RPC_CLASS, mod % 256, 0, ret, argc]
  }

  lemma StartedSplit(buf: seq<Byte>, mod: nat, ret: Byte, argc: Byte)
    requires |buf| == PACKET_SIZE
    ensures var started := CallStarted(buf, mod, ret, argc);
            started == started[..TYPES_AT] + buf[TYPES_AT..]
  {
  }

  lemma FinishFrame(buf: seq<Byte>, mod: nat, ret: Byte, argc: Byte, len: Byte, types: seq<Byte>, bytes: seq<Byte>, w: seq<Byte>)
    requires |buf| == PACKET_SIZE && |types| <= MAX_ARGC && |bytes| <= ARGV_SIZE
    requires w == Frame(CallStarted(buf, mod, ret, argc)[..TYPES_AT], types, bytes)
    ensures CallFinished(w, len) == Frame(CreatedHead(buf, mod, ret, argc, len), types, bytes)
  {
  }

  lemma WrittenFrom(started: seq<Byte>, args: seq<Arg>)
    requires |started| == PACKET_SIZE && Inside(args) && |args| <= MAX_ARGC
    requires started == started[..TYPES_AT] + Blank(PACKET_SIZE - TYPES_AT)
    ensures Written(started, args) == Frame(started[..TYPES_AT], Types(args), Payload(args))
  {
    WrittenIsFrame(started[..TYPES_AT], args);
  }

  /** In a blank packet with at most 16 arguments each type is in its slot and each value has its
      bytes. */
  lemma CreatedIsFrame(buf: seq<Byte>, mod: nat, ret: Byte, args: seq<Arg>)
    requires |buf| == PACKET_SIZE && buf[TYPES_AT..] == Blank(PACKET_SIZE - TYPES_AT)
    requires |args| + Total(args) <= ARGV_SIZE && |args| <= MAX_ARGC
    ensures Created(buf, mod, ret, args) ==
            Frame(CreatedHead(buf, mod, ret, |args|, 20 + |args| + Total(args)), Types(args), Payload(args))
  {
    var started, len := CallStarted(buf, mod, ret, |args|), 20 + |args| + Total(args);
    var w := Written(started, args);
    assert Created(buf, mod, ret, args) == CallFinished(w, len);
    assert w == Frame(started[..TYPES_AT], Types(args), Payload(args)) by {
      StartedSplit(buf, mod, ret, |args|);
      WrittenFrom(started, args);
    }
    FinishFrame(buf, mod, ret, |args|, len, Types(args), Payload(args), w);
  }

  method StartCall(packet: array<Byte>, mod: nat, ret: Byte, argc: Byte, ghost buf: seq<Byte>)
    requires |buf| == PACKET_SIZE && packet[..] == buf
    modifies packet
    ensures packet[..] == CallStarted(buf, mod, ret, argc)
  {
    packet[MODULE_AT] := mod % 256;
    packet[FUNCTION_AT] := 0;
    packet[RET_AT] := ret;
    packet[ARGC_AT] := argc;
  }

  method FinishCall(packet: array<Byte>, len: nat, ghost buf: seq<Byte>)
    requires |buf| == PACKET_SIZE && packet[..] == buf && len < 256
    modifies packet
    ensures packet[..] == CallFinished(buf, len)
  {
    packet[CLASS_AT] := RPC_CLASS;
    packet[LEN_AT] := len;
    packet[LEN_AT + 1] := 0;
  }

  method PutType(packet: array<Byte>, i: nat, typ: Byte, ghost buf: seq<Byte>)
    requires |buf| == PACKET_SIZE && packet[..] == buf && TYPES_AT + i < PACKET_SIZE
    modifies packet
    ensures packet[..] == buf[TYPES_AT + i := typ]
  {
    packet[TYPES_AT + i] := typ;
  }

  /** One turn of the argument loop of lf_create_call. */
  method PutChecked(packet: array<Byte>, n: nat, i: nat, size: nat, a: Arg, ghost buf: seq<Byte>, ghost want: seq<Arg>)
    returns (ok: bool, size': nat)
    requires |buf| == PACKET_SIZE == packet.Length && i < n == |want| && Inside(want[..i])
    requires i > 0 ==> n + size <= ARGV_SIZE
    requires a == want[i] && size == Total(want[..i]) && packet[..] == Written(buf, want[..i])
    modifies packet
    ensures ok <==> n + Total(want[..i + 1]) <= ARGV_SIZE
    ensures ok ==>
              size' == Total(want[..i + 1]) && Inside(want[..i + 1]) && packet[..] == Written(buf, want[..i + 1])
    ensures !ok ==>
              TYPES_AT + i < PACKET_SIZE && packet[..] == Written(buf, want[..i])[TYPES_AT + i := a.typ]
  {
    TotalStep(want, i);
    if 20 + n + size + SizeOf(a.typ) > PACKET_SIZE - MODULE_AT {
      PutType(packet, i, a.typ, Written(buf, want[..i]));
      return false, size;
    }
    size' := PutNext(packet, i, size, a, buf, want);
    ok := true;
  }

  /** The argument loop of lf_create_call. It gives up at the first argument, the `stop`-th, whose
      bytes would not fit any more, after its type has been written. */
  method WriteArgsChecked(packet: array<Byte>, args: List<Arg>, n: nat, ghost buf: seq<Byte>, ghost want: seq<Arg>)
    returns (ok: bool, size: nat, ghost stop: nat)
    requires args.Valid() && |buf| == PACKET_SIZE == packet.Length && packet[..] == buf
    requires n == |want| <= |args.cells| && forall k :: 0 <= k < n ==> args.cells[k].item == want[k]
    requires n < 256
    modifies packet
    ensures ok <==> n == 0 || n + Total(want) <= ARGV_SIZE
    ensures ok ==> Inside(want) && size == Total(want) && packet[..] == Written(buf, want)
    ensures !ok ==>
              && stop < n && n + Total(want[..stop + 1]) > ARGV_SIZE
              && Inside(want[..stop]) && TYPES_AT + stop < PACKET_SIZE
              && packet[..] == Written(buf, want[..stop])[TYPES_AT + stop := want[stop].typ]
  {
    size, stop := 0, n;
    var node, i: nat := args.head, 0;
    while i < n
      invariant i <= n && node == args.NodeAt(i)
      invariant size == Total(want[..i]) && (i > 0 ==> n + size <= ARGV_SIZE)
      invariant Inside(want[..i]) && packet[..] == Written(buf, want[..i])
      decreases n - i
    {
      assert node == args.spine[i] && node.item == want[i];
      TotalGrows(want, i + 1);
      ok, size := PutChecked(packet, n, i, size, node.item, buf, want);
      if !ok { return false, size, i; }
      node, i := node.next, i + 1;
    }
    assert want[..n] == want;
    ok := true;
  }

  /** lf_create_call. It succeeds exactly when the counted arguments and their bytes are at most 38,
      and then every write has stayed inside the packet; a success and the other builder's length
      staying within the packet are the same thing. */
  method CreateCall(mod: nat, ret: Byte, args: List<Arg>, packet: array<Byte>) returns (ok: bool)
    requires args.Valid() && packet.Length == PACKET_SIZE
    modifies packet
    ensures var want := Sent(Items(args.cells));
            && (ok <==> |want| + Total(want) <= ARGV_SIZE)
            && (ok <==> CallLength(want) <= PACKET_SIZE)
            && (ok ==> packet[..] == Created(old(packet[..]), mod, ret, want))
  {
    var count := args.Count();
    ghost var buf := packet[..];
    ghost var want := Sent(Items(args.cells));
    var size;
    ok, size := FillChecked(packet, mod, ret, count % 256, args, buf, want);
    if ok {
      FinishCall(packet, 20 + count % 256 + size, Written(CallStarted(buf, mod, ret, |want|), want));
    }
  }

  /** The packet up to its length and class. */
  method FillChecked(packet: array<Byte>, mod: nat, ret: Byte, n: nat, args: List<Arg>, ghost buf: seq<Byte>, ghost want: seq<Arg>)
    returns (ok: bool, size: nat)
    requires args.Valid() && |buf| == PACKET_SIZE && packet[..] == buf && want == Sent(Items(args.cells)) && n == |want|
    modifies packet
    ensures ok <==> n + Total(want) <= ARGV_SIZE
    ensures ok ==> size == Total(want) && packet[..] == Written(CallStarted(buf, mod, ret, n), want)
  {
    StartCall(packet, mod, ret, n, buf);
    ghost var stop;
    ok, size, stop := WriteArgsChecked(packet, args, n, CallStarted(buf, mod, ret, n), want);
  }
}
