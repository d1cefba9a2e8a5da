/** fmr_perform and fmr_rpc of lib/fmr.c on a packet buffer, a module list and the dispatch
    table, proved to do what the functions of `Fmr` say. */
module Runtime {
  import opened Options
  import opened Octet
  import opened Wire
  import opened LinkedList
  import opened Fmr
  import Registry

  /** free, the deconstructor of argument records. */
  const FREE := 1

  ghost function Tables(cells: seq<Cell<Registry.Module>>): (t: seq<seq<Fn>>)
    ensures |t| == |cells|
  {
    seq(|cells|, i requires 0 <= i < |cells| => cells[i].item.table)
  }

  ghost predicate ItemsAre(cells: seq<Cell<Arg>>, items: seq<Arg>) {
    |cells| == |items| && forall k :: 0 <= k < |items| ==> cells[k].item == items[k]
  }

  /** A decoded record goes to the end of the argument list. */
  method Push(args: List<Arg>, arg: Arg, ghost done: seq<Arg>)
    requires args.Valid() && ItemsAre(args.cells, done)
    modifies args, args.nodes
    ensures args.Valid() && ItemsAre(args.cells, done + [arg]) && fresh(args.nodes - old(args.nodes))
  {
    args.Append(arg, Some(FREE));
  }

  class Endpoint {
    const modules: List<Registry.Module>
    var registry: seq<Option<Handler>>
    var world: World
    var err: Byte
    /** The messages written to the device so far. */
    var sent: seq<seq<Byte>>
    var currentPacket: array?<Byte>

    ghost predicate Valid()
      reads this, modules, modules.nodes
    {
      modules.Valid() && |registry| == CLASS_COUNT && currentPacket == null
    }

    ghost function View(): Fmr.Device
      reads this, modules
    {
      Fmr.Device(registry, Tables(modules.cells), world, err, sent)
    }

    constructor (modules: List<Registry.Module>, world: World)
      requires modules.Valid()
      ensures Valid() && this.modules == modules
      ensures View() == Fmr.Device(seq(CLASS_COUNT, _ => None), Tables(modules.cells), world, E_OK, [])
    {
      this.modules, this.world, this.err, this.sent, this.currentPacket := modules, world, E_OK, [], null;
      this.registry := seq(CLASS_COUNT, _ => None);
    }

    /** fmr_register. */
    method RegisterHandler(cls: nat, handler: Option<Handler>) returns (ok: bool)
      requires Valid()
      modifies this`registry
      ensures Valid() && (View(), ok) == Fmr.Register(old(View()), cls, handler)
    {
      if cls >= CLASS_COUNT || handler.None? { return false; }
      registry := registry[cls := handler];
      ok := true;
    }

    /** One argument record of fmr_rpc. */
    method DecodeOne(packet: array<Byte>, i: nat, argv: nat, junk: nat -> Word64, ghost mem: seq<Byte>, ghost done: seq<Arg>)
      returns (arg: Arg)
      requires mem == packet[..] && Memory(mem) && i < 255
      requires done == Decoded(mem, i, junk) && argv == ARGV_AT + Total(done)
      ensures done + [arg] == Decoded(mem, i + 1, junk)
      ensures Total(done + [arg]) == Total(done) + SizeOf(arg.typ)
    {
      TotalBound(done);
      var typ := packet[TYPES_AT + i];
      var size := SizeOf(typ);
      var low := packet[argv..argv + size];
      assert low == mem[argv..argv + size];
      DecodedNext(mem, i, junk, done, typ, low);
      arg := Stored(typ, low, junk(i));
      PayloadSnoc(done, arg);
    }

    /** The body of the argument loop of fmr_rpc. */
    method DecodeInto(packet: array<Byte>, i: nat, argv: nat, junk: nat -> Word64, args: List<Arg>,
                      ghost mem: seq<Byte>, ghost done: seq<Arg>)
      returns (argv': nat, ghost done': seq<Arg>)
      requires mem == packet[..] && Memory(mem) && i < 255
      requires done == Decoded(mem, i, junk) && argv == ARGV_AT + Total(done)
      requires args.Valid() && ItemsAre(args.cells, done)
      modifies args, args.nodes
      ensures done' == Decoded(mem, i + 1, junk) && argv' == ARGV_AT + Total(done')
      ensures args.Valid() && ItemsAre(args.cells, done') && fresh(args.nodes - old(args.nodes))
    {
      var arg := DecodeOne(packet, i, argv, junk, mem, done);
      Push(args, arg, done);
      argv', done' := argv + SizeOf(arg.typ), done + [arg];
    }

    /** The argument loop of fmr_rpc. */
    method DecodeLoop(packet: array<Byte>, argc: nat, junk: nat -> Word64, args: List<Arg>, ghost mem: seq<Byte>)
      requires mem == packet[..] && Memory(mem) && argc <= 255
      requires args.Valid() && args.cells == []
      modifies args, args.nodes
      ensures args.Valid() && ItemsAre(args.cells, Decoded(mem, argc, junk)) && fresh(args.nodes - old(args.nodes))
    {
      var argv, i: nat := ARGV_AT, 0;
      ghost var done := [];
      while i < argc
        invariant i <= argc && done == Decoded(mem, i, junk) && argv == ARGV_AT + Total(done)
        invariant args.Valid() && ItemsAre(args.cells, done) && fresh(args.nodes - old(args.nodes))
      {
        argv, done := DecodeInto(packet, i, argv, junk, args, mem, done);
        i := i + 1;
      }
    }

    method DecodeArgs(packet: array<Byte>, junk: nat -> Word64, ghost mem: seq<Byte>) returns (args: List<Arg>)
      requires mem == packet[..] && Memory(mem)
      ensures fresh(args) && fresh(args.nodes) && args.Valid()
      ensures ItemsAre(args.cells, Decoded(mem, mem[ARGC_AT], junk))
    {
      args := new List<Arg>();
      DecodeLoop(packet, packet[ARGC_AT], junk, args, mem);
    }

    /** The arguments are decoded, handed to the function and released. */
    method Invoke(fn: Fn, packet: array<Byte>, junk: nat -> Word64, ghost mem: seq<Byte>) returns (value: Word64)
      requires mem == packet[..] && Memory(mem)
      modifies this`world, this`err
      ensures FnResult(world, err, value) == fn(old(world), old(err), Decoded(mem, mem[ARGC_AT], junk))
    {
      var args := DecodeArgs(packet, junk, mem);
      var items := args.Walk();
      assert items == Decoded(mem, mem[ARGC_AT], junk);
      var r := fn(world, err, items);
      world, err, value := r.world, r.err, r.value;
      var _ := args.Release();
    }

    /** fmr_rpc. */
    method Call(packet: array<Byte>, junk: nat -> Word64) returns (ok: bool, value: Word64)
      requires modules.Valid() && packet.Length >= 0x10000
      modifies this`world, this`err
      ensures Outcome(ok, value, world, err, []) == RunRpc(old(View()), packet[..], junk)
    {
      var item := modules.Item(packet[MODULE_AT]);
      if item.None? {
        err := E_NULL;
        return false, ZERO64;
      }
      var table := item.value.table;
      if packet[FUNCTION_AT] >= |table| {
        return false, ZERO64;
      }
      value := Invoke(table[packet[FUNCTION_AT]], packet, junk, packet[..]);
      ok := true;
    }

    /** A handler's run, with the packet noted as the current one meanwhile. */
    method Dispatch(handler: Handler, packet: array<Byte>, junk: nat -> Word64) returns (ok: bool, value: Word64)
      requires modules.Valid() && packet.Length >= 0x10000
      modifies this`world, this`err, this`sent, this`currentPacket
      ensures currentPacket == null
      ensures var o := RunHandler(old(View()), handler, packet[..], junk);
              ok == o.ok && value == o.value && world == o.world && err == o.err && sent == old(sent) + o.writes
    {
      currentPacket := packet;
      match handler {
        case Rpc =>
          ok, value := Call(packet, junk);
        case Other(run) =>
          var o := run(world, err, packet[..]);
          world, err, sent := o.world, o.err, sent + o.writes;
          ok, value := o.ok, o.value;
      }
      currentPacket := null;
    }

    /** The checksum test of fmr_perform, which clears the field in the packet. */
    method CheckCrc(packet: array<Byte>, signedChar: bool) returns (ok: bool)
      requires packet.Length >= 0x10000
      modifies packet
      ensures packet[..] == Cleared(old(packet[..]))
      ensures ok == ChecksumHolds(old(packet[..]))
    {
      var crc := (packet[CRC_AT], packet[CRC_AT + 1]);
      packet[CRC_AT] := 0;
      packet[CRC_AT + 1] := 0;
      assert packet[..] == Cleared(old(packet[..]));
      var len := (packet[LEN_AT] as int) + 256 * (packet[LEN_AT + 1] as int);
      assert packet[..len] == packet[..][..len];
      var lo, hi := LfCrc(packet[..len], signedChar);
      ok := crc == (lo, hi);
    }

    method SendResult(value: Word64, code: Byte)
      modifies this`sent
      ensures sent == old(sent) + [Record(value, code)]
    {
      sent := sent + [value + [code]];
    }

    /** The part of fmr_perform that follows the checks of magic number and checksum. */
    method PerformAccepted(packet: array<Byte>, junk: nat -> Word64, ghost mem: seq<Byte>)
      requires Valid() && Memory(mem) && Accepts(mem) && packet[..] == Cleared(mem)
      modifies this`world, this`err, this`sent, this`currentPacket
      ensures Valid() && View() == Fmr.Perform(old(View()), mem, junk)
    {
      err := E_OK;
      var cls := packet[CLASS_AT];
      if cls >= CLASS_COUNT {
        err := E_FMR;
        SendResult(ZERO64, err);
        return;
      }
      if modules.head == null {
        SendResult(ZERO64, E_NULL);
        return;
      }
      if registry[cls].None? {
        SendResult(ZERO64, E_FMR);
        return;
      }
      var _, value := Dispatch(registry[cls].value, packet, junk);
      SendResult(value, err);
    }

    /** fmr_perform. */
    method Perform(packet: array<Byte>, junk: nat -> Word64, signedChar: bool)
      requires Valid() && packet.Length >= 0x10000
      modifies this`world, this`err, this`sent, this`currentPacket, packet
      ensures Valid() && View() == Fmr.Perform(old(View()), old(packet[..]), junk)
      ensures packet[..] == if old(packet[0]) == MAGIC then Cleared(old(packet[..])) else old(packet[..])
    {
      ghost var mem := packet[..];
      if packet[0] != MAGIC {
        err := E_CHECKSUM;
        SendResult(ZERO64, err);
        return;
      }
      var ok := CheckCrc(packet, signedChar);
      if !ok {
        err := E_CHECKSUM;
        SendResult(ZERO64, err);
        return;
      }
      PerformAccepted(packet, junk, mem);
    }
  }
}
