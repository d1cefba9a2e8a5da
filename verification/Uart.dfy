/** The receive side of the U2's UART (platforms/atmegau2/api/uart0.c): the buffer shared by the
    receive interrupt and uart0_read, with uart0_read atomic against the interrupt. */
module Uart {
  import opened Options
  import opened Octet

  const CAPACITY := 64

  datatype Op =
    | Receive(c: Byte, fmr: bool)                  // the receive interrupt; fmr is the FMR line
    | Read(length: nat, incoming: seq<Byte>)       // incoming: what arrives in time while it polls
    | Reset(pending: seq<Byte>)                    // pending: what the hardware still held

  /** What became of a stretch of the received stream. */
  datatype Fate = Delivered(bytes: seq<Byte>) | Overwritten(bytes: seq<Byte>) | Discarded(bytes: seq<Byte>)

  // ---- The buffer as a value -----------------------------------------------------------------

  /** The interrupt: a full buffer starts over before the byte is looked at. */
  function AfterReceive(held: seq<Byte>, c: Byte, fmr: bool): seq<Byte> {
    (if |held| == CAPACITY then [] else held) + (if fmr then [c] else [])
  }

  /** How many bytes uart0_read takes from the line itself. */
  function Polled(held: seq<Byte>, length: nat, incoming: seq<Byte>): (n: nat)
    ensures n <= |incoming|
  {
    if length < |held| then 0 else Min(length - |held|, |incoming|)
  }

  /** What uart0_read delivers. */
  function ReadData(held: seq<Byte>, length: nat, incoming: seq<Byte>): seq<Byte> {
    if length < |held| then held[..length] else held + incoming[..Polled(held, length, incoming)]
  }

  /** A read delivers the first bytes of what is held and what arrives, as many as were asked for or as
      many as there are. */
  lemma ReadDelivers(held: seq<Byte>, length: nat, incoming: seq<Byte>)
    ensures ReadData(held, length, incoming) == (held + incoming)[..Min(length, |held| + |incoming|)]
  {
  }

  function AfterRead(held: seq<Byte>, length: nat): seq<Byte> {
    if length < |held| then held[length..] else []
  }

  function After(held: seq<Byte>, op: Op): seq<Byte> {
    match op
    case Receive(c, fmr) => AfterReceive(held, c, fmr)
    case Read(length, _) => AfterRead(held, length)
    case Reset(_) => []
  }

  /** What a call takes off the line for the FMR side. */
  function Arriving(held: seq<Byte>, op: Op): seq<Byte> {
    match op
    case Receive(c, fmr) => if fmr then [c] else []
    case Read(length, incoming) => incoming[..Polled(held, length, incoming)]
    case Reset(pending) => pending
  }

  /** What a call takes out of the buffer, or past it, and what becomes of it. */
  function Leaving(held: seq<Byte>, op: Op): seq<Fate> {
    match op
    case Receive(_, _) => if |held| == CAPACITY then [Overwritten(held)] else []
    case Read(length, incoming) => [Delivered(ReadData(held, length, incoming))]
    case Reset(pending) => [Discarded(held + pending)]
  }

  // ---- Runs ------------------------------------------------------------------------------------

  function Held(run: seq<Op>): seq<Byte>
    decreases |run|
  {
    if run == [] then [] else After(Held(run[..|run| - 1]), run[|run| - 1])
  }

  /** The bytes taken off the line for the FMR side, in order of arrival. */
  function Received(run: seq<Op>): seq<Byte>
    decreases |run|
  {
    if run == [] then []
    else
      var before := run[..|run| - 1];
      Received(before) + Arriving(Held(before), run[|run| - 1])
  }

  /** The bytes the callers of uart0_read got, in order. */
  function Output(run: seq<Op>): seq<Byte>
    decreases |run|
  {
    if run == [] then []
    else
      var before, op := run[..|run| - 1], run[|run| - 1];
      Output(before) + if op.Read? then ReadData(Held(before), op.length, op.incoming) else []
  }

  /** The fate of everything that has left the buffer, in order of arrival. */
  function Fates(run: seq<Op>): seq<Fate>
    decreases |run|
  {
    if run == [] then []
    else
      var before := run[..|run| - 1];
      Fates(before) + Leaving(Held(before), run[|run| - 1])
  }

  function Bytes(fates: seq<Fate>): seq<Byte> {
    if fates == [] then [] else Bytes(fates[..|fates| - 1]) + fates[|fates| - 1].bytes
  }

  function DeliveredBytes(fates: seq<Fate>): seq<Byte> {
    if fates == [] then []
    else
      var f := fates[|fates| - 1];
      DeliveredBytes(fates[..|fates| - 1]) + if f.Delivered? then f.bytes else []
  }

  lemma BytesSnoc(fates: seq<Fate>, f: Fate)
    ensures Bytes(fates + [f]) == Bytes(fates) + f.bytes
    ensures DeliveredBytes(fates + [f]) == DeliveredBytes(fates) + (if f.Delivered? then f.bytes else [])
  {
    assert (fates + [f])[..|fates|] == fates;
  }

  /** What one call does to the account: nothing is lost, doubled or reordered. */
  lemma StepBalances(held: seq<Byte>, op: Op)
    ensures |Leaving(held, op)| <= 1
    ensures (if Leaving(held, op) == [] then [] else Leaving(held, op)[0].bytes) + After(held, op)
            == held + Arriving(held, op)
  {
    match op
    case Receive(_, _) =>
    case Read(length, _) => if length < |held| { assert held[..length] + held[length..] == held; }
    case Reset(_) =>
  }

  lemma StepAccounts(held: seq<Byte>, op: Op, fates: seq<Fate>)
    ensures Bytes(fates + Leaving(held, op)) + After(held, op) == Bytes(fates) + held + Arriving(held, op)
  {
    var l := Leaving(held, op);
    StepBalances(held, op);
    Regroup(Bytes(fates), if l == [] then [] else l[0].bytes, After(held, op), held, Arriving(held, op));
    if l == [] {
      assert fates + l == fates && Bytes(fates) + [] == Bytes(fates);
    } else {
      BytesSnoc(fates, l[0]);
      assert l == [l[0]];
    }
  }

  lemma StepDelivers(held: seq<Byte>, op: Op, fates: seq<Fate>)
    ensures DeliveredBytes(fates + Leaving(held, op))
            == DeliveredBytes(fates) + (if op.Read? then ReadData(held, op.length, op.incoming) else [])
  {
    var l := Leaving(held, op);
    if l == [] {
      assert fates + l == fates;
    } else {
      BytesSnoc(fates, l[0]);
      assert l == [l[0]];
    }
  }

  /** The account of a whole run: the fates followed by what is held are the received stream, so
      the buffer holds exactly the last bytes received; what was delivered is what the readers
      got; and only whole buffers of 64 bytes are ever overwritten. */
  lemma {:induction false} Conservation(run: seq<Op>)
    ensures Bytes(Fates(run)) + Held(run) == Received(run)
    ensures DeliveredBytes(Fates(run)) == Output(run)
    ensures |Held(run)| <= CAPACITY
    ensures forall i :: 0 <= i < |Fates(run)| && Fates(run)[i].Overwritten? ==> |Fates(run)[i].bytes| == CAPACITY
    decreases |run|
  {
    if run != [] {
      var before := run[..|run| - 1];
      Conservation(before);
      StepAccounts(Held(before), run[|run| - 1], Fates(before));
      StepDelivers(Held(before), run[|run| - 1], Fates(before));
    }
  }

  // ---- What the interrupt keeps --------------------------------------------------------------

  /** The receive interrupts for these bytes, all for FMR. */
  function Receives(bytes: seq<Byte>): (run: seq<Op>)
    ensures |run| == |bytes|
  {
    if bytes == [] then [] else Receives(bytes[..|bytes| - 1]) + [Receive(bytes[|bytes| - 1], true)]
  }

  /** Where the buffer started over for the last time: the last multiple of 64 before the last byte. */
  function LastStart(n: nat): (start: nat)
    ensures start <= n && n - start <= CAPACITY && (n > 0 ==> start < n)
  {
    if n <= CAPACITY then 0 else CAPACITY + LastStart(n - CAPACITY)
  }

  lemma {:induction false} LastStartNext(n: nat)
    ensures LastStart(n + 1) == if n - LastStart(n) == CAPACITY then n else LastStart(n)
  {
    if n > CAPACITY { LastStartNext(n - CAPACITY); }
  }

  /** Of any number of bytes received in a row the buffer holds the last 1 to 64, back to the last
      multiple of 64, in order. */
  lemma {:induction false} ReceivedAreHeld(bytes: seq<Byte>)
    ensures Held(Receives(bytes)) == bytes[LastStart(|bytes|)..]
  {
    if bytes != [] {
      var n := |bytes| - 1;
      var init := bytes[..n];
      ReceivedAreHeld(init);
      LastStartNext(n);
      assert Receives(bytes)[..n] == Receives(init);
      assert Held(Receives(bytes)) == AfterReceive(init[LastStart(n)..], bytes[n], true);
      assert bytes == init + [bytes[n]];
    }
  }

  lemma ReadAll(held: seq<Byte>)
    ensures ReadData(held, |held|, []) == held
  {
  }

  /** So up to 64 bytes that are received and then read are delivered as they came. */
  lemma ReceivedThenRead(bytes: seq<Byte>, held: seq<Byte>)
    requires |bytes| <= CAPACITY && held == Held(Receives(bytes))
    ensures ReadData(held, |bytes|, []) == bytes
  {
    ReceivedAreHeld(bytes);
    assert bytes[0..] == bytes;
    ReadAll(bytes);
  }

  /** A byte that is not for FMR adds nothing, but still makes a full buffer start over. */
  lemma OtherBytesNotKept(held: seq<Byte>, c: Byte)
    ensures AfterReceive(held, c, false) == if |held| == CAPACITY then [] else held
  {
  }

  // ---- In place --------------------------------------------------------------------------------

  class Receiver {
    const buffer: array<Byte>
    var idx: nat

    ghost predicate Valid()
      reads this
    {
      buffer.Length == CAPACITY && idx <= CAPACITY
    }

    ghost function Contents(): seq<Byte>
      requires Valid()
      reads this, buffer
    {
      buffer[..idx]
    }

    constructor ()
      ensures Valid() && Contents() == [] && fresh(buffer)
    {
      buffer := new Byte[CAPACITY](_ => 0);
      idx := 0;
    }

    /** The receive interrupt. A byte that is not for FMR goes to the debug output. */
    method Interrupt(c: Byte, fmr: bool) returns (debug: Option<Byte>)
      requires Valid()
      modifies this`idx, buffer
      ensures Valid() && Contents() == AfterReceive(old(Contents()), c, fmr)
      ensures debug == if fmr then None else Some(c)
    {
      if idx == CAPACITY { idx := 0; }
      if !fmr { return Some(c); }
      buffer[idx] := c;
      idx := idx + 1;
      debug := None;
    }

    /** memmove of the unread rest to the start of the buffer. */
    method Shift(length: nat)
      requires Valid() && length <= idx
      modifies this`idx, buffer
      ensures Valid() && Contents() == old(Contents())[length..]
    {
      for k := 0 to idx - length
        invariant forall i :: 0 <= i < k ==> buffer[i] == old(buffer[length + i])
        invariant forall i :: k <= i < CAPACITY ==> buffer[i] == old(buffer[i])
        invariant idx == old(idx)
      {
        buffer[k] := buffer[length + k];
      }
      idx := idx - length;
    }

    /** memcpy to the caller's buffer. */
    method CopyOut(dst: array<Byte>, n: nat)
      requires Valid() && n <= idx && n <= dst.Length && dst != buffer
      modifies dst
      ensures dst[..n] == Contents()[..n]
    {
      for k := 0 to n
        invariant dst[..k] == buffer[..k]
      {
        dst[k] := buffer[k];
      }
    }

    /** uart0_read. It fails when the line stays silent before all bytes have come, having
        delivered those that did. */
    method Read(dst: array<Byte>, length: nat, incoming: seq<Byte>) returns (ok: bool, count: nat)
      requires Valid() && length <= dst.Length && dst != buffer
      modifies this`idx, buffer, dst
      ensures Valid() && Contents() == AfterRead(old(Contents()), length)
      ensures count <= length && dst[..count] == ReadData(old(Contents()), length, incoming)
      ensures count == Min(length, |old(Contents())| + |incoming|)
      ensures ok <==> length <= |old(Contents())| + |incoming|
    {
      ReadDelivers(Contents(), length, incoming);
      count := 0;
      if idx != 0 {
        if length >= idx {
          CopyOut(dst, idx);
          count := idx;
          idx := 0;
        } else {
          CopyOut(dst, length);
          Shift(length);
          return true, length;
        }
      }
      var from := count;
      ghost var held := old(Contents());
      while count < length
        invariant from <= count <= length && count - from <= |incoming|
        invariant dst[..count] == held + incoming[..count - from]
        invariant idx == 0
      {
        if count - from == |incoming| {
          return false, count;
        }
        dst[count] := incoming[count - from];
        count := count + 1;
      }
      ok := true;
    }

    /** uart0_reset. The loop drains `pending`, what the hardware still holds, along with the buffer. */
    method ResetReceiver(pending: seq<Byte>) returns (drained: seq<Byte>)
      requires Valid()
      modifies this`idx
      ensures Valid() && Contents() == After(old(Contents()), Reset(pending))
      ensures drained == pending && [Discarded(old(Contents()) + drained)] == Leaving(old(Contents()), Reset(pending))
    {
      idx := 0;
      drained := [];
      while |drained| < |pending|
        invariant drained <= pending && idx == 0
      {
        drained := drained + [pending[|drained|]];
      }
    }

    /** One call, and what the caller of uart0_read got from it. */
    method Do(op: Op) returns (got: seq<Byte>)
      requires Valid()
      modifies this`idx, buffer
      ensures Valid() && Contents() == After(old(Contents()), op)
      ensures got == if op.Read? then ReadData(old(Contents()), op.length, op.incoming) else []
    {
      got := [];
      match op
      case Receive(c, fmr) =>
        var _ := Interrupt(c, fmr);
      case Read(length, incoming) =>
        var dst := new Byte[length];
        var _, count := Read(dst, length, incoming);
        got := dst[..count];
      case Reset(pending) =>
        var _ := ResetReceiver(pending);
    }

    /** A whole run on the buffer: it holds what the account says, and the readers got its output. */
    method Run(run: seq<Op>) returns (output: seq<Byte>)
      requires Valid() && Contents() == []
      modifies this`idx, buffer
      ensures Valid() && Contents() == Held(run) && output == Output(run)
    {
      output := [];
      for k := 0 to |run|
        invariant Valid() && Contents() == Held(run[..k]) && output == Output(run[..k])
      {
        assert run[..k + 1][..k] == run[..k];
        var got := Do(run[k]);
        output := output + got;
      }
      assert run[..|run|] == run;
    }
  }
}
