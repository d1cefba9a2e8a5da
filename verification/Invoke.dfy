/** A remote call from the host's argument list to the device's function and back. */
module Invoke {
  import opened Options
  import opened Octet
  import opened Wire
  import opened Values
  import opened LinkedList
  import opened Fmr
  import opened Host
  import opened Runtime
  import Registry
  import opened Lookup

  /** What calling `fn` remotely on `args` means for device state `d`: afterwards the state is `r`,
      and `retval` is the host's result. */
  ghost predicate Called(d: Device, fn: Fn, args: seq<Arg>, r: Device, retval: Word64) {
    exists received :: SameArgs(received, args) && NumbersArrive(received, args) &&
      var result := fn(d.world, E_OK, received);
      && retval == result.value
      && r == d.(world := result.world, err := result.err, sent := d.sent + [Record(result.value, result.err)])
  }

  /** A call packet is answered by one record and nothing else. */
  lemma CallAnsweredOnce(d: Device, mem: seq<Byte>, junk: nat -> Word64)
    requires WellFormed(d) && Memory(mem) && mem[CLASS_AT] == RPC_CLASS && d.registry[RPC_CLASS] == Some(Rpc)
    ensures |Answer(d, mem, junk)| == 1
  {
  }

  /** The device performs a packet it received into its buffer, which `after` follows; the host reads
      the one answer. */
  method Exchange(device: Endpoint, packet: array<Byte>, after: seq<Byte>, junk: nat -> Word64, signedChar: bool,
                  ghost mem: seq<Byte>)
    returns (record: seq<Byte>)
    requires device.Valid() && packet.Length == PACKET_SIZE && |after| == 0x10000 - PACKET_SIZE
    requires mem == packet[..] + after && |Perform(device.View(), mem, junk).sent| == |device.sent| + 1
    modifies device`world, device`err, device`sent, device`currentPacket
    ensures device.Valid() && device.View() == Perform(old(device.View()), mem, junk)
    ensures record == device.sent[|old(device.sent)|]
  {
    var buffer := new Byte[0x10000](i requires 0 <= i < 0x10000 reads packet =>
      if i < packet.Length then packet[i] else after[i - PACKET_SIZE]);
    assert buffer[..] == mem;
    device.Perform(buffer, junk, signedChar);
    record := device.sent[|device.sent| - 1];
  }

  /** What becomes of a call packet. */
  lemma CallMeansCalled(d: Device, mod: Byte, fn: Byte, ret: Byte, args: seq<Arg>, hostAfter: seq<Byte>,
                        mem: seq<Byte>, junk: nat -> Word64)
    requires WellFormed(d) && d.registry[RPC_CLASS] == Some(Rpc) && Memory(mem)
    requires Inside(Sent(args)) && |hostAfter| >= BEYOND
    requires mem[..PACKET_SIZE] == Built(mod, fn, ret, Sent(args), hostAfter)
    ensures var r := Perform(d, mem, junk);
            && |r.sent| == |d.sent| + 1 && |r.sent[|d.sent|]| == 9
            && (Fits(args) && mod < |d.tables| && fn < |d.tables[mod]| ==>
                  Called(d, d.tables[mod][fn], args, r, ReplyValue(r.sent[|d.sent|])))
  {
    UnsealedFields(mod, fn, ret, Sent(args));
    assert mem[CLASS_AT] == mem[..PACKET_SIZE][CLASS_AT] == RPC_CLASS;
    CallAnsweredOnce(d, mem, junk);
    OneRecordPerPacket(d, mem, junk);
    if Fits(args) && mod < |d.tables| && fn < |d.tables[mod]| {
      BuiltIsEncode(mod, fn, ret, args, hostAfter);
      RemoteCall(d, mod, fn, ret, args, mem, junk);
    }
  }

  /** lf_invoke_by_index from line 126 on, with the device answering: `hostAfter` is the memory that
      follows the host's packet and `after` the memory that follows the device's. For every list whose
      writes stay inside the packet the device does with it what `Perform` says, and the host's
      result is the value of its one answer. A list that fits and a function that exists make that
      the call. */
  method InvokeByIndex(device: Endpoint, moduleIdx: nat, index: Byte, ret: Byte, args: List<Arg>,
                       hostAfter: seq<Byte>, after: seq<Byte>, junk: nat -> Word64, signedChar: bool)
    returns (retval: Word64)
    requires device.Valid() && args.Valid() && Inside(Sent(Items(args.cells)))
    requires |hostAfter| >= BEYOND && |after| == 0x10000 - PACKET_SIZE
    requires device.registry[RPC_CLASS] == Some(Rpc)
    modifies device`world, device`err, device`sent, device`currentPacket
    ensures device.Valid()
    ensures device.View() ==
            Perform(old(device.View()),
                    Built(moduleIdx % 256, index, ret, Sent(Items(args.cells)), hostAfter) + after, junk)
    ensures |device.sent| == |old(device.sent)| + 1 && |device.sent[|old(device.sent)|]| == 9
    ensures retval == ReplyValue(device.sent[|old(device.sent)|])
    ensures Fits(Items(args.cells)) && moduleIdx % 256 < |device.modules.cells| &&
            index < |device.modules.cells[moduleIdx % 256].item.table| ==>
              Called(old(device.View()), device.modules.cells[moduleIdx % 256].item.table[index],
                     Items(args.cells), device.View(), retval)
  {
    ghost var all := Items(args.cells);
    ghost var mem := Built(moduleIdx % 256, index, ret, Sent(all), hostAfter) + after;
    CallMeansCalled(device.View(), moduleIdx % 256, index, ret, all, hostAfter, mem, junk);
    var packet := BuildCall(moduleIdx, index, ret, args, hostAfter, signedChar);
    var record := Exchange(device, packet, after, junk, signedChar, mem);
    retval := record[..8];
  }

  /** The same for a list that fits and a module that exists. */
  method InvokeFitting(device: Endpoint, moduleIdx: nat, index: Byte, ret: Byte, args: List<Arg>,
                       hostAfter: seq<Byte>, after: seq<Byte>, junk: nat -> Word64, signedChar: bool,
                       ghost j: nat, ghost fns: seq<Fn>)
    returns (retval: Word64)
    requires device.Valid() && args.Valid() && Fits(Items(args.cells))
    requires |hostAfter| >= BEYOND && |after| == 0x10000 - PACKET_SIZE
    requires device.registry[RPC_CLASS] == Some(Rpc)
    requires j == moduleIdx % 256 < |device.modules.cells| && device.modules.cells[j].item.table == fns
    modifies device`world, device`err, device`sent, device`currentPacket
    ensures device.Valid()
    ensures index < |fns| ==> Called(old(device.View()), fns[index], Items(args.cells), device.View(), retval)
  {
    retval := InvokeByIndex(device, moduleIdx, index, ret, args, hostAfter, after, junk, signedChar);
  }

  /** A lookup packet goes to the device, and its answer comes back. */
  method AskDevice(device: Endpoint, packet: array<Byte>, after: seq<Byte>, junk: nat -> Word64, signedChar: bool,
                   ghost name: string, ghost reg: seq<Registry.Entry>)
    returns (record: seq<Byte>)
    requires device.Valid() && IsCString(name) && |name| < NAME_MAX && |after| == 0x10000 - PACKET_SIZE
    requires packet[..] == LookupPacket(name) && device.registry[DYLD_CLASS] == Some(Dyld(reg))
    modifies device`world, device`err, device`sent, device`currentPacket
    ensures device.Valid() && device.world == old(device.world)
    ensures |record| == 9 && (record[8] == E_OK <==> device.modules.cells != [])
    ensures record[8] == E_OK ==>
              && LowWord(record) == Resolved(reg, CStringAt(after, 0))
              && device.View() == Send(old(device.View()), E_OK, Reply(reg, CStringAt(after, 0)), E_OK)
  {
    LookupRead(device.View(), reg, name, after, junk);
    record := Exchange(device, packet, after, junk, signedChar, LookupPacket(name) + after);
  }

  /** lf_dyld_dyn_sym_lookup: a name that is too long is refused, and otherwise the answer decides.
      `after` follows the device's packet. */
  method LookUp(device: Endpoint, name: string, after: seq<Byte>, junk: nat -> Word64, signedChar: bool,
                ghost reg: seq<Registry.Entry>)
    returns (idx: Option<nat>)
    requires device.Valid() && IsCString(name) && |after| == 0x10000 - PACKET_SIZE
    requires device.registry[DYLD_CLASS] == Some(Dyld(reg))
    modifies device`world, device`err, device`sent, device`currentPacket
    ensures device.Valid() && device.world == old(device.world)
    ensures idx == if |name| < NAME_MAX && device.modules.cells != [] then Some(Resolved(reg, CStringAt(after, 0))) else None
    ensures idx.Some? ==> device.View() == Send(old(device.View()), E_OK, Reply(reg, CStringAt(after, 0)), E_OK)
  {
    if |name| >= NAME_MAX { return None; }
    var packet := BuildLookup(name, signedChar);
    var record := AskDevice(device, packet, after, junk, signedChar, name, reg);
    if record[8] != E_OK { return None; }
    idx := Some(LowWord(record));
  }

  /** lf_invoke_by_index with a module name. The lookup fails only for a name that is too long and on a
      device without modules. Otherwise the call runs the function of the module that the lookup
      reaches, and if the device looked up the name that was meant, that is the named module exactly
      when it is registered among the first 256, and the first module when it is not registered. */
  method InvokeByName(modules: Registry.Modules, device: Endpoint, name: string, index: Byte, ret: Byte, args: List<Arg>,
                      hostAfter: seq<Byte>, lookupAfter: seq<Byte>, after: seq<Byte>, junk: nat -> Word64, signedChar: bool)
    returns (retval: Option<Word64>, ghost j: nat)
    requires modules.Valid() && device.Valid() && device.modules == modules.list
    requires Registry.NamesDistinct(modules.entries) && Registry.IndexedByPosition(modules.entries)
    requires IsCString(name) && args.Valid() && Fits(Items(args.cells))
    requires |hostAfter| >= BEYOND && |lookupAfter| == |after| == 0x10000 - PACKET_SIZE
    requires device.registry[RPC_CLASS] == Some(Rpc) && device.registry[DYLD_CLASS] == Some(Dyld(modules.entries))
    modifies device`world, device`err, device`sent, device`currentPacket
    ensures device.Valid()
    ensures retval.None? <==> |name| >= NAME_MAX || modules.entries == []
    ensures retval.None? ==> device.world == old(device.world)
    ensures retval.Some? ==>
              && j == Resolved(modules.entries, CStringAt(lookupAfter, 0)) % 256 < |modules.list.cells|
              && (index < |modules.list.cells[j].item.table| ==>
                    Called(Send(old(device.View()), E_OK, Reply(modules.entries, CStringAt(lookupAfter, 0)), E_OK),
                           modules.list.cells[j].item.table[index], Items(args.cells), device.View(), retval.value))
    ensures retval.Some? && CStringAt(lookupAfter, 0) == name ==>
              var i := Registry.FindName(modules.entries, name);
              && (modules.list.cells[j].item.name == name <==> i.Some? && i.value < 256)
              && (i.None? ==> j == 0)
  {
    var idx := LookUp(device, name, lookupAfter, junk, signedChar, modules.entries);
    if idx.None? { return None, 0; }
    ReachesSome(modules.entries, CStringAt(lookupAfter, 0));
    ReachesNamedIff(modules.entries, name);
    j := idx.value % 256;
    assert modules.entries[j].name == modules.list.cells[j].item.name;
    ghost var fns := modules.list.cells[j].item.table;
    var value := InvokeFitting(device, idx.value, index, ret, args, hostAfter, after, junk, signedChar, j, fns);
    retval := Some(value);
  }
}
