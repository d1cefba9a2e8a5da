/** The device side of the message runtime: what fmr_perform does with a packet, as a function
    of the device's state, and what that means for the host that sent it. */
module Fmr {
  import opened Options
  import opened Octet
  import opened Wire
  import opened Values

  // The error codes the runtime itself sets, from lib/errors.def.
  const E_OK: Byte := 0
  const E_NULL: Byte := 2
  const E_FMR: Byte := 11
  const E_CHECKSUM: Byte := 19

  const CLASS_COUNT := 6

  /** The device memory that module functions and handlers act on. */
  type World = map<nat, Byte>

  datatype FnResult = FnResult(world: World, err: Byte, value: Word64)

  /** A module function. It sees and may set the error state of the library. */
  type Fn = (World, Byte, seq<Arg>) -> FnResult

  /** What a handler did: its status and value, and what it wrote to the device. */
  datatype Outcome = Outcome(ok: bool, value: Word64, world: World, err: Byte, writes: seq<seq<Byte>>)

  /** fmr_rpc, or some other function registered for a packet class. */
  datatype Handler = Rpc | Other(run: (World, Byte, seq<Byte>) -> Outcome)

  /** `tables` are the function tables of the registered modules in list order. */
  datatype Device = Device(registry: seq<Option<Handler>>, tables: seq<seq<Fn>>,
                           world: World, err: Byte, sent: seq<seq<Byte>>)

  predicate WellFormed(d: Device) {
    |d.registry| == CLASS_COUNT
  }

  /** A packed _fmr_result. */
  function Record(value: Word64, err: Byte): (r: seq<Byte>)
    ensures |r| == 9 && r[..8] == value && r[8] == err
  {
    value + [err]
  }

  /** The value the host takes from a result record. */
  function ReplyValue(record: seq<Byte>): Word64
    requires |record| == 9
  {
    record[..8]
  }

  /** fmr_register. Re-registering a class replaces its handler. */
  function Register(d: Device, cls: nat, handler: Option<Handler>): (r: (Device, bool))
    requires WellFormed(d)
    ensures WellFormed(r.0) && r.0.(registry := d.registry) == d
    ensures r.1 <==> cls < CLASS_COUNT && handler.Some?
    ensures forall c :: 0 <= c < CLASS_COUNT ==>
              r.0.registry[c] == if c == cls && handler.Some? then handler else d.registry[c]
  {
    if cls >= CLASS_COUNT || handler.None? then (d, false)
    else (d.(registry := d.registry[cls := handler]), true)
  }

  /** fmr_rpc on a packet. */
  function RunRpc(d: Device, mem: seq<Byte>, junk: nat -> Word64): Outcome
    requires Memory(mem)
  {
    var mod, fn := mem[MODULE_AT], mem[FUNCTION_AT];
    if mod >= |d.tables| then Outcome(false, ZERO64, d.world, E_NULL, [])
    else if fn >= |d.tables[mod]| then Outcome(false, ZERO64, d.world, d.err, [])
    else
      var r := d.tables[mod][fn](d.world, d.err, Decoded(mem, mem[ARGC_AT], junk));
      Outcome(true, r.value, r.world, r.err, [])
  }

  function RunHandler(d: Device, h: Handler, mem: seq<Byte>, junk: nat -> Word64): Outcome
    requires Memory(mem)
  {
    match h
    case Rpc => RunRpc(d, mem, junk)
    case Other(run) => run(d.world, d.err, mem)
  }

  /** The packet is well formed and there is a handler to give it to. */
  predicate Dispatches(d: Device, mem: seq<Byte>)
    requires WellFormed(d) && Memory(mem)
  {
    Accepts(mem) && mem[CLASS_AT] < CLASS_COUNT && d.tables != [] && d.registry[mem[CLASS_AT]].Some?
  }

  /** What the handler of a dispatched packet did. It runs with the error state cleared. */
  function Handled(d: Device, mem: seq<Byte>, junk: nat -> Word64): Outcome
    requires WellFormed(d) && Memory(mem) && Dispatches(d, mem)
  {
    RunHandler(d.(err := E_OK), d.registry[mem[CLASS_AT]].value, Cleared(mem), junk)
  }

  function Send(d: Device, err: Byte, value: Word64, code: Byte): Device {
    d.(err := err, sent := d.sent + [Record(value, code)])
  }

  /** fmr_perform. The error of the result is the library's error state, whatever the status of
      the handler was. */
  function Perform(d: Device, mem: seq<Byte>, junk: nat -> Word64): (r: Device)
    requires WellFormed(d) && Memory(mem)
    ensures WellFormed(r)
  {
    if !Accepts(mem) then Send(d, E_CHECKSUM, ZERO64, E_CHECKSUM)
    else if mem[CLASS_AT] >= CLASS_COUNT then Send(d, E_FMR, ZERO64, E_FMR)
    else if d.tables == [] then Send(d, E_OK, ZERO64, E_NULL)
    else match d.registry[mem[CLASS_AT]]
      case None => Send(d, E_OK, ZERO64, E_FMR)
      case Some(_) =>
        var o := Handled(d, mem, junk);
        Send(d.(world := o.world, sent := d.sent + o.writes), o.err, o.value, o.err)
  }

  // ---- One packet ------------------------------------------------------------------------------

  /** The error with which a packet is answered that is not dispatched. */
  function Refusal(d: Device, mem: seq<Byte>): (code: Byte)
    requires WellFormed(d) && Memory(mem) && !Dispatches(d, mem)
    ensures code != E_OK
  {
    if !Accepts(mem) then E_CHECKSUM
    else if mem[CLASS_AT] < CLASS_COUNT && d.tables == [] then E_NULL
    else E_FMR
  }

  /** What is sent on account of a packet. */
  function Answer(d: Device, mem: seq<Byte>, junk: nat -> Word64): (messages: seq<seq<Byte>>)
    requires WellFormed(d) && Memory(mem)
    ensures messages != [] && |messages[|messages| - 1]| == 9
  {
    if Dispatches(d, mem) then
      var o := Handled(d, mem, junk);
      o.writes + [Record(o.value, o.err)]
    else [Record(ZERO64, Refusal(d, mem))]
  }

  /** Exactly one result record answers a packet, after whatever the handler wrote itself. A
      packet that is not dispatched changes nothing else but the error state, and its answer
      carries value 0 and an error. */
  lemma OneRecordPerPacket(d: Device, mem: seq<Byte>, junk: nat -> Word64)
    requires WellFormed(d) && Memory(mem)
    ensures var r := Perform(d, mem, junk);
            && r.registry == d.registry && r.tables == d.tables
            && r.sent == d.sent + Answer(d, mem, junk)
            && r.world == (if Dispatches(d, mem) then Handled(d, mem, junk).world else d.world)
            && (!Accepts(mem) ==> r.err == E_CHECKSUM)
            && (Dispatches(d, mem) ==> r.err == Handled(d, mem, junk).err)
  {
    if Dispatches(d, mem) {
      var o := Handled(d, mem, junk);
      assert d.sent + o.writes + [Record(o.value, o.err)] == d.sent + (o.writes + [Record(o.value, o.err)]);
    }
  }

  /** What a call packet's answer reports. A function index outside the module's table makes
      fmr_rpc fail, yet the answer says E_OK with value 0. */
  lemma CallReportedOkIff(d: Device, mem: seq<Byte>, junk: nat -> Word64)
    requires WellFormed(d) && Memory(mem) && Dispatches(d, mem)
    requires mem[CLASS_AT] == RPC_CLASS && d.registry[RPC_CLASS] == Some(Rpc)
    ensures var mod, fn, o := mem[MODULE_AT], mem[FUNCTION_AT], Handled(d, mem, junk);
            && (o.err == E_OK <==>
                  mod < |d.tables| && (fn < |d.tables[mod]| ==>
                    d.tables[mod][fn](d.world, E_OK, Decoded(Cleared(mem), mem[ARGC_AT], junk)).err == E_OK))
            && (o.ok <==> mod < |d.tables| && fn < |d.tables[mod]|)
            && (!o.ok ==> o.value == ZERO64 && o.world == d.world)
            && (mod >= |d.tables| ==> o.err == E_NULL)
  {
  }

  // ---- Runs ------------------------------------------------------------------------------------

  /** A packet in memory, and what the records allocated for its arguments held before. */
  datatype Packet = Packet(mem: seq<Byte>, junk: nat -> Word64)

  ghost predicate AllMemory(packets: seq<Packet>) {
    forall i :: 0 <= i < |packets| ==> Memory(packets[i].mem)
  }

  function PerformAll(d: Device, packets: seq<Packet>): (r: Device)
    requires WellFormed(d) && forall i :: 0 <= i < |packets| ==> Memory(packets[i].mem)
    ensures WellFormed(r)
    decreases |packets|
  {
    if packets == [] then d
    else
      var p := packets[|packets| - 1];
      Perform(PerformAll(d, packets[..|packets| - 1]), p.mem, p.junk)
  }

  /** What is sent on account of each packet of a run. */
  function Answers(d: Device, packets: seq<Packet>): (groups: seq<seq<seq<Byte>>>)
    requires WellFormed(d) && forall i :: 0 <= i < |packets| ==> Memory(packets[i].mem)
    ensures |groups| == |packets|
    decreases |packets|
  {
    if packets == [] then []
    else
      var before, p := packets[..|packets| - 1], packets[|packets| - 1];
      Answers(d, before) + [Answer(PerformAll(d, before), p.mem, p.junk)]
  }

  function Concat(groups: seq<seq<seq<Byte>>>): seq<seq<Byte>> {
    if groups == [] then [] else Concat(groups[..|groups| - 1]) + groups[|groups| - 1]
  }

  /** No packet changes which packets are dispatched. */
  lemma {:induction false} DispatchUnchanged(d: Device, packets: seq<Packet>, mem: seq<Byte>)
    requires WellFormed(d) && AllMemory(packets) && Memory(mem)
    ensures var r := PerformAll(d, packets);
            && r.registry == d.registry && r.tables == d.tables
            && (Dispatches(r, mem) <==> Dispatches(d, mem))
    decreases |packets|
  {
    if packets != [] {
      var before, p := packets[..|packets| - 1], packets[|packets| - 1];
      DispatchUnchanged(d, before, mem);
      OneRecordPerPacket(PerformAll(d, before), p.mem, p.junk);
    }
  }

  /** How the i-th packet of a run is answered, `before` being the device's state by then: it is
      dispatched exactly when the device would have dispatched it at the start; then the handler's
      own messages and one record follow, and otherwise one record with an error, and the world is
      as it was. */
  ghost predicate Answered(d: Device, before: Device, after: Device, p: Packet, messages: seq<seq<Byte>>)
    requires WellFormed(d) && WellFormed(before) && Memory(p.mem)
  {
    if Dispatches(d, p.mem) then
      && Dispatches(before, p.mem)
      && var o := Handled(before, p.mem, p.junk);
         messages == o.writes + [Record(o.value, o.err)] && after.world == o.world
    else messages == [Record(ZERO64, Refusal(d, p.mem))] && after.world == before.world
  }

  lemma ConcatSnoc(groups: seq<seq<seq<Byte>>>, last: seq<seq<Byte>>, sent: seq<seq<Byte>>)
    ensures sent + Concat(groups + [last]) == sent + Concat(groups) + last
  {
    assert (groups + [last])[..|groups|] == groups;
  }

  lemma {:induction false} SentIsAnswers(d: Device, packets: seq<Packet>)
    requires WellFormed(d) && AllMemory(packets)
    ensures PerformAll(d, packets).sent == d.sent + Concat(Answers(d, packets))
    decreases |packets|
  {
    if packets != [] {
      var before, p := packets[..|packets| - 1], packets[|packets| - 1];
      var s := PerformAll(d, before);
      SentIsAnswers(d, before);
      assert PerformAll(d, packets).sent == s.sent + Answer(s, p.mem, p.junk) by {
        OneRecordPerPacket(s, p.mem, p.junk);
      }
      ConcatSnoc(Answers(d, before), Answer(s, p.mem, p.junk), d.sent);
    }
  }

  lemma AnswersOf(d: Device, before: seq<Packet>, p: Packet)
    requires WellFormed(d) && AllMemory(before) && Memory(p.mem)
    ensures Answers(d, before + [p]) == Answers(d, before) + [Answer(PerformAll(d, before), p.mem, p.junk)]
  {
    assert (before + [p])[..|before|] == before;
  }

  lemma {:induction false} AnswersAt(d: Device, packets: seq<Packet>, i: nat)
    requires WellFormed(d) && AllMemory(packets) && i < |packets|
    ensures Answers(d, packets)[i] == Answer(PerformAll(d, packets[..i]), packets[i].mem, packets[i].junk)
    decreases |packets|
  {
    var before, p := packets[..|packets| - 1], packets[|packets| - 1];
    assert packets == before + [p];
    AnswersOf(d, before, p);
    if i < |before| {
      AnswersAt(d, before, i);
      assert before[..i] == packets[..i] && before[i] == packets[i];
    } else {
      assert packets[..i] == before;
    }
  }

  lemma RunStep(d: Device, packets: seq<Packet>, i: nat)
    requires WellFormed(d) && AllMemory(packets) && i < |packets|
    ensures PerformAll(d, packets[..i + 1]) == Perform(PerformAll(d, packets[..i]), packets[i].mem, packets[i].junk)
  {
    assert packets[..i + 1][..i] == packets[..i];
  }

  /** What is sent over any run of packets is, packet by packet, the answers: which packets are
      dispatched is settled at the start, and each gets exactly one record. */
  lemma RunAnswersEachPacketOnce(d: Device, packets: seq<Packet>)
    requires WellFormed(d) && AllMemory(packets)
    ensures PerformAll(d, packets).sent == d.sent + Concat(Answers(d, packets))
    ensures forall i :: 0 <= i < |packets| ==>
              Answered(d, PerformAll(d, packets[..i]), PerformAll(d, packets[..i + 1]), packets[i],
                       Answers(d, packets)[i])
  {
    SentIsAnswers(d, packets);
    forall i | 0 <= i < |packets|
      ensures Answered(d, PerformAll(d, packets[..i]), PerformAll(d, packets[..i + 1]), packets[i],
                       Answers(d, packets)[i])
    {
      AnswersAt(d, packets, i);
      RunStep(d, packets, i);
      DispatchUnchanged(d, packets[..i], packets[i].mem);
      OneRecordPerPacket(PerformAll(d, packets[..i]), packets[i].mem, packets[i].junk);
    }
  }

  // ---- End to end --------------------------------------------------------------------------------

  lemma ClearedHolds(mem: seq<Byte>, crc: (Byte, Byte), mod: Byte, fn: Byte, ret: Byte, args: seq<Arg>)
    requires Holds(mem, crc, mod, fn, ret, args)
    ensures Holds(Cleared(mem), (0, 0), mod, fn, ret, args)
  {
    var p, q := CallPacket(crc, mod, fn, ret, args), CallPacket((0, 0), mod, fn, ret, args);
    forall i | 0 <= i < PACKET_SIZE ensures Cleared(mem)[i] == q[i] {
      assert mem[i] == p[i];
    }
  }

  /** The packet of a call reaches fmr_rpc with its fields and its arguments. */
  lemma CallArrives(mod: Byte, fn: Byte, ret: Byte, args: seq<Arg>, mem: seq<Byte>, junk: nat -> Word64)
    requires Fits(args) && Memory(mem) && mem[..PACKET_SIZE] == Encode(mod, fn, ret, args)
    ensures Accepts(mem) && mem[CLASS_AT] == RPC_CLASS
    ensures var c := Cleared(mem);
            && c[MODULE_AT] == mod && c[FUNCTION_AT] == fn && c[ARGC_AT] == |args|
            && SameArgs(Decoded(c, |args|, junk), args)
  {
    var crc := CallCrc(mod, fn, ret, args);
    StartsWithPacket(mem, crc, mod, fn, ret, args);
    SentPacketAccepted(mem, mod, fn, ret, args);
    SentFields(mem, crc, mod, fn, ret, args);
    assert Carries(Cleared(mem), args) by {
      ClearedHolds(mem, crc, mod, fn, ret, args);
      SentCarries(Cleared(mem), (0, 0), mod, fn, ret, args);
    }
    DecodesWhatWasSent(Cleared(mem), args, |args|, junk);
    assert args[..|args|] == args;
  }

  /** A call sent by lf_invoke_by_index to an existing function runs exactly that function,
      exactly once, on the arguments that were given, and the value the host reads from the
      single answer is what the function returned. */
  lemma RemoteCall(d: Device, mod: Byte, fn: Byte, ret: Byte, args: seq<Arg>, mem: seq<Byte>, junk: nat -> Word64)
    requires WellFormed(d) && d.registry[RPC_CLASS] == Some(Rpc)
    requires mod < |d.tables| && fn < |d.tables[mod]|
    requires Fits(args) && Memory(mem) && mem[..PACKET_SIZE] == Encode(mod, fn, ret, args)
    ensures exists received :: SameArgs(received, args) && NumbersArrive(received, args) &&
              var result := d.tables[mod][fn](d.world, E_OK, received);
              var r := Perform(d, mem, junk);
              && r == d.(world := result.world, err := result.err, sent := d.sent + [Record(result.value, result.err)])
              && ReplyValue(r.sent[|d.sent|]) == result.value
  {
    CallArrives(mod, fn, ret, args, mem, junk);
    var received := Decoded(Cleared(mem), |args|, junk);
    SameArgsSameNumbers(received, args);
    var result := d.tables[mod][fn](d.world, E_OK, received);
    assert Handled(d, mem, junk) == Outcome(true, result.value, result.world, result.err, []);
  }
}
