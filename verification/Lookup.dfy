/** How a host finds out the index of a module: lf_dyld_dyn_sym_lookup of lib/dyld.c, and fmr_dyld of
    lib/fmr.c answering it. */
module Lookup {
  import opened Options
  import opened Octet
  import opened Wire
  import opened Fmr
  import opened Host
  import opened Registry

  const DYLD_CLASS: Byte := 3
  const NAME_MAX := 32

  // ---- The request -------------------------------------------------------------------------------

  /** What a C string can hold. */
  predicate IsCString(name: string) {
    forall i :: 0 <= i < |name| ==> 0 < name[i] as int < 256
  }

  function NameBytes(name: string): (s: seq<Byte>)
    requires IsCString(name)
    ensures |s| == |name|
  {
    seq<Byte>(|name|, i requires 0 <= i < |name| => name[i] as int)
  }

  /** The packet before its length and checksum are filled in. */
  function Request(name: string): (s: seq<Byte>)
    requires IsCString(name) && |name| < NAME_MAX
    ensures |s| == PACKET_SIZE
  {
    Header((0, 0), 0, DYLD_CLASS) + NameBytes(name) + Blank(PACKET_SIZE - MODULE_AT - |name|)
  }

  function LookupPacket(name: string): (s: seq<Byte>)
    requires IsCString(name) && |name| < NAME_MAX
    ensures |s| == PACKET_SIZE
  {
    Sealed(Request(name), MODULE_AT + |name| + 1, [])
  }

  method BuildRequest(name: string) returns (packet: array<Byte>)
    requires IsCString(name) && |name| < NAME_MAX
    ensures fresh(packet) && packet[..] == Request(name)
  {
    packet := new Byte[PACKET_SIZE](_ => 0);
    packet[0] := MAGIC;
    packet[CLASS_AT] := DYLD_CLASS;
    for i := 0 to |name|
      invariant forall k :: 0 <= k < i ==> packet[MODULE_AT + k] == name[k] as int
      invariant forall k :: MODULE_AT + i <= k < PACKET_SIZE ==> packet[k] == 0
      invariant packet[..MODULE_AT] == Header((0, 0), 0, DYLD_CLASS)
    {
      packet[MODULE_AT + i] := name[i] as int;
    }
    assert packet[..] == packet[..MODULE_AT] + packet[MODULE_AT..];
  }

  method BuildLookup(name: string, signedChar: bool) returns (packet: array<Byte>)
    requires IsCString(name) && |name| < NAME_MAX
    ensures fresh(packet) && packet[..] == LookupPacket(name)
  {
    packet := BuildRequest(name);
    Seal(packet, MODULE_AT + |name| + 1, [], signedChar, Request(name));
  }

  lemma RequestAccepted(name: string, mem: seq<Byte>)
    requires IsCString(name) && |name| < NAME_MAX && Memory(mem) && mem[..PACKET_SIZE] == LookupPacket(name)
    ensures Accepts(mem) && mem[CLASS_AT] == DYLD_CLASS
  {
    var buf, len := Request(name), MODULE_AT + |name| + 1;
    assert buf[0] == MAGIC && buf[CRC_AT] == 0 && buf[CRC_AT + 1] == 0 && buf[CLASS_AT] == DYLD_CLASS;
    SealedAcceptedIff(buf, len, [], mem);
    assert Covered(WithLength(buf, len), [], len) == Covered(WithLength(buf, len), mem[PACKET_SIZE..], len);
    assert mem[CLASS_AT] == mem[..PACKET_SIZE][CLASS_AT];
  }

  // ---- The answer --------------------------------------------------------------------------------

  /** The C string at an address. */
  function CStringAt(mem: seq<Byte>, at: nat): (s: string)
    requires at <= |mem|
    decreases |mem| - at
  {
    if at == |mem| || mem[at] == 0 then [] else [mem[at] as char] + CStringAt(mem, at + 1)
  }

  lemma {:induction false} CStringSame(a: seq<Byte>, i: nat, b: seq<Byte>, j: nat)
    requires i <= |a| && j <= |b| && a[i..] == b[j..]
    ensures CStringAt(a, i) == CStringAt(b, j)
    decreases |a| - i
  {
    assert |a[i..]| == |b[j..]|;
    if i < |a| {
      assert a[i] == a[i..][0] && b[j] == b[j..][0];
      assert a[i + 1..] == a[i..][1..] && b[j + 1..] == b[j..][1..];
      CStringSame(a, i + 1, b, j + 1);
    }
  }

  lemma {:induction false} CStringIs(mem: seq<Byte>, at: nat, name: string)
    requires IsCString(name) && at + |name| < |mem| && mem[at + |name|] == 0
    requires forall i :: 0 <= i < |name| ==> mem[at + i] == name[i] as int
    ensures CStringAt(mem, at) == name
    decreases |name|
  {
    if name != [] {
      assert mem[at + 0] == name[0] as int;
      assert forall i :: 0 <= i < |name| - 1 ==> name[1..][i] == name[i + 1] && mem[at + 1 + i] == mem[at + (i + 1)];
      CStringIs(mem, at + 1, name[1..]);
      assert name == [name[0]] + name[1..];
    }
  }

  /** The lookup packet carries the name, as a C string after the header. */
  lemma RequestCarriesName(name: string)
    requires IsCString(name) && |name| < NAME_MAX
    ensures CStringAt(LookupPacket(name), MODULE_AT) == name
  {
    CStringIs(LookupPacket(name), MODULE_AT, name);
  }

  /** A 16-bit index as a result value. */
  function IndexWord(idx: int): Word64 {
    var w := idx % 0x10000;
    [w % 256, w / 256, 0, 0, 0, 0, 0, 0]
  }

  /** fmr_dyld. The name it looks up is the string that follows the whole packet structure in memory,
      and a name it does not find leaves the error state alone. */
  function DyldOutcome(reg: seq<Entry>, w: World, err: Byte, mem: seq<Byte>): Outcome
  {
    match FindName(reg, if PACKET_SIZE <= |mem| then CStringAt(mem, PACKET_SIZE) else [])
    case None => Outcome(false, ZERO64, w, err, [])
    case Some(i) => Outcome(true, IndexWord(reg[i].idx), w, err, [])
  }

  function Dyld(reg: seq<Entry>): Handler {
    Other((w, err, mem) => DyldOutcome(reg, w, err, mem))
  }

  method FmrDyld(modules: Modules, packet: array<Byte>) returns (ok: bool, value: Word64)
    requires modules.Valid() && packet.Length >= PACKET_SIZE
    ensures forall w, err :: DyldOutcome(modules.entries, w, err, packet[..]) == Outcome(ok, value, w, err, [])
  {
    var name: string, at := [], PACKET_SIZE;
    while at < packet.Length && packet[at] != 0
      invariant PACKET_SIZE <= at <= packet.Length
      invariant CStringAt(packet[..], PACKET_SIZE) == name + CStringAt(packet[..], at)
    {
      name := name + [packet[at] as char];
      at := at + 1;
    }
    assert CStringAt(packet[..], PACKET_SIZE) == name;
    var m := modules.GetByName(name);
    if m == null { return false, ZERO64; }
    return true, IndexWord(m.idx);
  }

  /** The index the host takes from the answer: an unknown name is answered with zero. */
  function Resolved(reg: seq<Entry>, seen: string): (idx: nat) {
    match FindName(reg, seen)
    case None => 0
    case Some(i) => reg[i].idx % 0x10000
  }

  /** The value of the answer. */
  function Reply(reg: seq<Entry>, seen: string): Word64 {
    match FindName(reg, seen)
    case None => ZERO64
    case Some(i) => IndexWord(reg[i].idx)
  }

  /** The 16-bit index at the start of a value. */
  function LowWord(value: seq<Byte>): int
    requires |value| >= 2
  {
    value[0] as int + 256 * (value[1] as int)
  }

  lemma LowWordOfIndex(idx: int)
    ensures LowWord(IndexWord(idx)) == idx % 0x10000
  {
    var w := idx % 0x10000;
    assert w == w % 256 + 256 * (w / 256);
  }

  lemma ReplyRead(reg: seq<Entry>, seen: string)
    ensures LowWord(Reply(reg, seen)) == Resolved(reg, seen)
  {
    var i := FindName(reg, seen);
    if i.Some? { LowWordOfIndex(reg[i.value].idx); }
  }

  /** A device with modules answers every lookup with E_OK, whether it found the name or not. */
  lemma LookupAnswered(d: Device, reg: seq<Entry>, name: string, mem: seq<Byte>, junk: nat -> Word64)
    requires WellFormed(d) && d.registry[DYLD_CLASS] == Some(Dyld(reg))
    requires IsCString(name) && |name| < NAME_MAX && Memory(mem) && mem[..PACKET_SIZE] == LookupPacket(name)
    ensures var seen := CStringAt(mem, PACKET_SIZE);
            Perform(d, mem, junk) ==
            if d.tables == [] then Send(d, E_OK, ZERO64, E_NULL)
            else Send(d, E_OK, Reply(reg, seen), E_OK)
  {
    RequestAccepted(name, mem);
    assert Cleared(mem)[PACKET_SIZE..] == mem[PACKET_SIZE..];
    CStringSame(Cleared(mem), PACKET_SIZE, mem, PACKET_SIZE);
    if d.tables != [] {
      var o := Handled(d, mem, junk);
      assert o == DyldOutcome(reg, d.world, E_OK, Cleared(mem));
      assert d.sent + [] == d.sent;
    }
  }

  /** What the host reads: `after` follows the packet in the device's memory. */
  lemma LookupRead(d: Device, reg: seq<Entry>, name: string, after: seq<Byte>, junk: nat -> Word64)
    requires WellFormed(d) && d.registry[DYLD_CLASS] == Some(Dyld(reg))
    requires IsCString(name) && |name| < NAME_MAX && |after| == 0x10000 - PACKET_SIZE
    ensures var r, seen := Perform(d, LookupPacket(name) + after, junk), CStringAt(after, 0);
            && r.world == d.world && |r.sent| == |d.sent| + 1
            && var record := r.sent[|d.sent|];
               && |record| == 9 && (record[8] == E_OK <==> d.tables != [])
               && (d.tables != [] ==>
                     && r == Send(d, E_OK, Reply(reg, seen), E_OK)
                     && LowWord(record) == Resolved(reg, seen))
  {
    var mem := LookupPacket(name) + after;
    assert mem[..PACKET_SIZE] == LookupPacket(name) && mem[PACKET_SIZE..] == after[0..];
    LookupAnswered(d, reg, name, mem, junk);
    CStringSame(mem, PACKET_SIZE, after, 0);
    ReplyRead(reg, CStringAt(after, 0));
    var reply := Reply(reg, CStringAt(after, 0));
    assert Record(reply, E_OK)[0] == reply[0] && Record(reply, E_OK)[1] == reply[1];
  }

  // ---- Which module a call then reaches ----------------------------------------------------------

  /** The module field of a call after a lookup is a position in the list. */
  lemma ReachesSome(reg: seq<Entry>, seen: string)
    requires IndexedByPosition(reg) && reg != []
    ensures Resolved(reg, seen) % 256 < |reg|
  {
    var i := FindName(reg, seen);
    if i.Some? { LowByteOfIndex(i.value); }
  }

  /** When the device looks up the name that was meant, the call reaches the module of that name if
      and only if it is registered among the first 256; for a name that is not registered it reaches
      the first module. */
  lemma ReachesNamedIff(reg: seq<Entry>, name: string)
    requires NamesDistinct(reg) && IndexedByPosition(reg) && reg != []
    ensures var j, i := Resolved(reg, name) % 256, FindName(reg, name);
            && j < |reg|
            && (reg[j].name == name <==> i.Some? && i.value < 256)
            && (i.None? ==> j == 0)
  {
    ReachesSome(reg, name);
    var i := FindName(reg, name);
    if i.Some? {
      LowByteOfIndex(i.value);
      assert reg[i.value].idx == i.value % 0x10000;
      if i.value >= 256 { assert reg[i.value % 256].name != name; }
    }
  }
}
