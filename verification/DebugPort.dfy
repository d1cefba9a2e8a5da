/** The debug output routines themselves, with their loops, against the state machine. */
module DebugPort {
  import opened Octet
  import opened DebugFifo

  /** One turn of the wait loop of usb_debug_putchar with interrupts enabled: what interrupts and the
      host do before the configuration is looked at, the frame number read, and what they do after
      that and before interrupts are disabled again. */
  datatype Poll = Poll(before: seq<Event>, frame: Byte, after: seq<Event>)

  /** The state in which the n-th turn finds the bank. */
  function Found(s: State, polls: seq<Poll>, n: nat): State
    requires n <= |polls|
  {
    if n == 0 then s else Run(Run(Found(s, polls, n - 1), polls[n - 1].before), polls[n - 1].after)
  }

  /** The state in which the n-th turn looks at the configuration. */
  function Looked(s: State, polls: seq<Poll>, n: nat): State
    requires n < |polls|
  {
    Run(Found(s, polls, n), polls[n].before)
  }

  /** The wait goes on past the first `n` turns: the bank is never ready, the timeout is not reached
      and the device stays configured. */
  ghost predicate Waits(s: State, timeout: Byte, polls: seq<Poll>, n: nat)
    requires n <= |polls|
  {
    forall j :: 0 <= j < n ==>
      !Writable(Found(s, polls, j)) && polls[j].frame != timeout && Looked(s, polls, j).configured
  }

  datatype Verdict = Ready | TimedOut | Offline

  /** How the wait ends, in its n-th turn. */
  ghost predicate Ends(s: State, timeout: Byte, polls: seq<Poll>, n: nat, v: Verdict) {
    && n <= |polls| && Waits(s, timeout, polls, n)
    && (Writable(Found(s, polls, n)) <==> v == Ready)
    && (v != Ready ==>
          && n < |polls| && (polls[n].frame == timeout <==> v == TimedOut)
          && (v == Offline ==> !Looked(s, polls, n).configured))
  }

  /** The bank becomes ready during the wait. */
  ghost predicate BecomesReady(s: State, timeout: Byte, polls: seq<Poll>) {
    exists n :: 0 <= n <= |polls| && Waits(s, timeout, polls, n) && Writable(Found(s, polls, n))
  }

  /** When the rest of usb_debug_putchar succeeds; `previous` says that an earlier call timed out. */
  ghost predicate Succeeds(s: State, previous: bool, timeout: Byte, polls: seq<Poll>) {
    Writable(s) || (!previous && BecomesReady(s, timeout, polls))
  }

  /** The endpoint's bank as the hardware has it. */
  datatype Fifo = Unset | Open(bytes: seq<Byte>) | Handed(packet: seq<Byte>)

  class Port {
    var configured: bool
    var fifo: Fifo
    var timer: nat
    var previousTimeout: bool
    var sent: seq<seq<Byte>>
    var collected: seq<seq<Byte>>
    /** How many bytes of a bank that was handed over are not padding. */
    ghost var fill: nat

    ghost function View(): State
      reads this
    {
      var bank := match fifo
        case Unset => Off
        case Open(bytes) => Filling(bytes)
        case Handed(packet) => Busy(packet, fill);
      State(configured, bank, timer, sent, collected)
    }

    constructor ()
      ensures View() == Boot && !previousTimeout
    {
      configured, fifo, timer, sent, collected, previousTimeout := false, Unset, 0, [], [], false;
    }

    /** UEINTX & (1 << RWAL). */
    method Rwal() returns (b: bool)
      ensures b == Writable(View())
    {
      b := fifo.Open? && |fifo.bytes| < BANK;
    }

    /** Hands the bank to the host, `n` of its bytes being written ones. */
    method Release(ghost n: nat)
      requires fifo.Open?
      modifies this`fifo, this`fill, this`sent
      ensures fifo == Handed(old(fifo).bytes) && fill == n && sent == old(sent) + [old(fifo).bytes]
    {
      sent := sent + [fifo.bytes];
      fifo := Handed(fifo.bytes);
      fill := n;
    }

    /** The padding loop and the release that follow an expired or forced timer. */
    method PadAndRelease()
      modifies this`fifo, this`fill, this`sent
      ensures View() == SendPadded(old(View()))
    {
      if !fifo.Open? || |fifo.bytes| > BANK { return; }
      ghost var bytes := fifo.bytes;
      while |fifo.bytes| < BANK
        invariant fifo.Open? && |bytes| <= |fifo.bytes| <= BANK && sent == old(sent)
        invariant forall k :: 0 <= k < |fifo.bytes| ==> fifo.bytes[k] == if k < |bytes| then bytes[k] else 0
      {
        fifo := Open(fifo.bytes + [0]);
      }
      assert fifo.bytes == Padded(bytes);
      Release(|bytes|);
    }

    /** The start-of-frame branch of the general USB interrupt. */
    method Frame()
      modifies this`fifo, this`fill, this`timer, this`sent
      ensures View() == Step(old(View()), StartOfFrame)
    {
      if configured {
        var t := timer;
        if t != 0 {
          t := t - 1;
          timer := t;
          if t == 0 {
            PadAndRelease();
          }
        }
      }
    }

    /** usb_debug_flush_output. */
    method FlushOutput()
      modifies this`fifo, this`fill, this`timer, this`sent
      ensures View() == Step(old(View()), Flush)
    {
      if timer != 0 {
        PadAndRelease();
        timer := 0;
      }
    }

    /** The write at the end of usb_debug_putchar. */
    method Write(c: Byte)
      requires Writable(View())
      modifies this`fifo, this`fill, this`timer, this`sent
      ensures View() == Put(old(View()), c)
    {
      fifo := Open(fifo.bytes + [c]);
      var more := Rwal();
      if !more {
        Release(BANK);
        timer := 0;
      } else {
        timer := 2;
      }
    }

    /** What happens to the port while interrupts are enabled. */
    method Environment(events: seq<Event>)
      modifies this`configured, this`fifo, this`fill, this`timer, this`sent, this`collected
      ensures View() == Run(old(View()), events)
    {
      for i := 0 to |events|
        invariant View() == Run(old(View()), events[..i])
      {
        assert events[..i + 1][..i] == events[..i];
        match events[i] {
          case Offer(c) =>
            var ready := Rwal();
            if ready { Write(c); }
          case StartOfFrame => Frame();
          case Flush => FlushOutput();
          case HostIn => if fifo.Handed? { collected, fifo := collected + [fifo.packet], Open([]); }
          case BusReset => configured := false;
          case Configure(value) => configured, fifo := value % 256 != 0, Open([]);
          case ClearHalt => if !fifo.Unset? { fifo := Open([]); }
        }
      }
      assert events[..|events|] == events;
    }

    /** The k-th turn of the wait loop; ready means that the bank is to be looked at again. */
    method Turn(timeout: Byte, polls: seq<Poll>, k: nat, ghost s: State) returns (v: Verdict)
      requires k < |polls| && View() == Found(s, polls, k) && !Writable(View()) && Waits(s, timeout, polls, k)
      modifies this`configured, this`fifo, this`fill, this`timer, this`sent, this`collected
      ensures v != Ready ==> View() == Looked(s, polls, k) && Ends(s, timeout, polls, k, v)
      ensures v == Ready ==>
                polls[k].frame != timeout && View() == Found(s, polls, k + 1) && Waits(s, timeout, polls, k + 1)
    {
      ghost var looked := Looked(s, polls, k);
      Look(polls[k].before, looked);
      if polls[k].frame == timeout { return TimedOut; }
      if !configured { return Offline; }
      WaitsOneMore(s, timeout, polls, k);
      Look(polls[k].after, Found(s, polls, k + 1));
      v := Ready;
    }

    /** What happens meanwhile, ending in a known state. */
    method Look(events: seq<Event>, ghost t: State)
      requires t == Run(View(), events)
      modifies this`configured, this`fifo, this`fill, this`timer, this`sent, this`collected
      ensures View() == t
    {
      Environment(events);
    }

    /** The wait loop of usb_debug_putchar. The frame counter is taken to reach the timeout by the
        last poll. */
    method Await(timeout: Byte, polls: seq<Poll>) returns (v: Verdict, ghost n: nat)
      requires polls != [] && polls[|polls| - 1].frame == timeout
      modifies this`configured, this`fifo, this`fill, this`timer, this`sent, this`collected
      ensures Ends(old(View()), timeout, polls, n, v)
      ensures View() == if v == Ready then Found(old(View()), polls, n) else Looked(old(View()), polls, n)
    {
      ghost var s := View();
      var ready := Rwal();
      var k: nat := 0;
      while !ready
        invariant k <= |polls| && View() == Found(s, polls, k)
        invariant ready == Writable(View())
        invariant Waits(s, timeout, polls, k)
        invariant k == |polls| ==> ready
        decreases |polls| - k
      {
        v := Turn(timeout, polls, k, s);
        if v != Ready { return v, k; }
        k := k + 1;
        ready := Rwal();
      }
      return Ready, k;
    }

    /** The part of usb_debug_putchar that follows the disabling of interrupts. */
    method PutUnless(c: Byte, frame: Byte, polls: seq<Poll>) returns (status: int, ghost v: Verdict, ghost n: nat)
      requires polls != [] && polls[|polls| - 1].frame == (frame + 3) % 256
      modifies this
      ensures status == 0 || status == -1
      ensures status == 0 <==> Succeeds(old(View()), old(previousTimeout), (frame + 3) % 256, polls)
      ensures status == 0 ==>
                && n <= |polls| && Writable(Found(old(View()), polls, n))
                && View() == Put(Found(old(View()), polls, n), c) && !previousTimeout
      ensures status != 0 && old(previousTimeout) ==> View() == old(View()) && previousTimeout
      ensures status != 0 && !old(previousTimeout) ==>
                && n < |polls| && View() == Looked(old(View()), polls, n)
                && (previousTimeout <==> v == TimedOut)
      ensures Writable(old(View())) || !old(previousTimeout) ==>
                Ends(old(View()), (frame + 3) % 256, polls, n, v) && (status == 0 <==> v == Ready)
    {
      if previousTimeout {
        var ready := Rwal();
        if !ready { return -1, TimedOut, 0; }
        previousTimeout := false;
      }
      ghost var s := View();
      var verdict;
      verdict, n := Await((frame + 3) % 256, polls);
      v := verdict;
      EndsReadyIff(s, (frame + 3) % 256, polls, n, v);
      match verdict
      case TimedOut => previousTimeout := true; status := -1;
      case Offline => status := -1;
      case Ready => Write(c); status := 0;
    }

    /** usb_debug_putchar. `entry` is what happens between its look at the configuration and the
        disabling of interrupts. It succeeds exactly when the device is configured at that look and the
        bank is then ready at once or, unless an earlier call timed out, becomes ready while it waits;
        and one write to the ready bank is all it adds to what happened meanwhile. A failure adds
        nothing: the device was or went offline, or the call timed out, which later calls remember
        until one finds the bank ready. */
    method Putchar(c: Byte, entry: seq<Event>, frame: Byte, polls: seq<Poll>)
      returns (status: int, ghost v: Verdict, ghost n: nat)
      requires polls != [] && polls[|polls| - 1].frame == (frame + 3) % 256
      modifies this
      ensures status == 0 || status == -1
      ensures !old(configured) ==> status == -1 && View() == old(View()) && previousTimeout == old(previousTimeout)
      ensures var s := Run(old(View()), entry);
              old(configured) ==>
                && (status == 0 <==> Succeeds(s, old(previousTimeout), (frame + 3) % 256, polls))
                && (status == 0 ==>
                      && n <= |polls| && Writable(Found(s, polls, n))
                      && View() == Put(Found(s, polls, n), c) && !previousTimeout)
                && (status != 0 && old(previousTimeout) ==> View() == s && previousTimeout)
                && (status != 0 && !old(previousTimeout) ==>
                      && n < |polls| && View() == Looked(s, polls, n) && Ends(s, (frame + 3) % 256, polls, n, v)
                      && v != Ready && (previousTimeout <==> v == TimedOut))
    {
      if !configured { return -1, Offline, 0; }
      Environment(entry);
      status, v, n := PutUnless(c, frame, polls);
    }
  }

  lemma WaitsOneMore(s: State, timeout: Byte, polls: seq<Poll>, k: nat)
    requires k < |polls| && Waits(s, timeout, polls, k) && !Writable(Found(s, polls, k))
    requires polls[k].frame != timeout && Looked(s, polls, k).configured
    ensures Waits(s, timeout, polls, k + 1)
    ensures Found(s, polls, k + 1) == Run(Looked(s, polls, k), polls[k].after)
  {
  }

  lemma NotReadyLater(s: State, timeout: Byte, polls: seq<Poll>, n: nat, v: Verdict, k: nat)
    requires Ends(s, timeout, polls, n, v) && v != Ready && k <= |polls| && Waits(s, timeout, polls, k)
    ensures !Writable(Found(s, polls, k))
  {
  }

  lemma ReadyAtOnce(s: State, timeout: Byte, polls: seq<Poll>, n: nat, v: Verdict)
    requires Ends(s, timeout, polls, n, v) && Writable(s)
    ensures v == Ready
  {
    assert Found(s, polls, 0) == s;
  }

  /** A wait ends with the bank ready exactly when the bank becomes ready during it. */
  lemma EndsReadyIff(s: State, timeout: Byte, polls: seq<Poll>, n: nat, v: Verdict)
    requires Ends(s, timeout, polls, n, v)
    ensures v == Ready <==> BecomesReady(s, timeout, polls)
    ensures Writable(s) ==> v == Ready
  {
    if Writable(s) { ReadyAtOnce(s, timeout, polls, n, v); }
    if v != Ready {
      forall k | 0 <= k <= |polls| && Waits(s, timeout, polls, k) ensures !Writable(Found(s, polls, k)) {
        NotReadyLater(s, timeout, polls, n, v, k);
      }
    }
  }

  lemma {:induction false} RunConcat(s: State, a: seq<Event>, b: seq<Event>)
    ensures Run(s, a + b) == Run(Run(s, a), b)
    decreases |b|
  {
    if b == [] {
      assert a + b == a;
    } else {
      assert (a + b)[..|a + b| - 1] == a + b[..|b| - 1];
      RunConcat(s, a, b[..|b| - 1]);
    }
  }

  /** What happened before the n-th turn. */
  function EventsOf(polls: seq<Poll>, n: nat): seq<Event>
    requires n <= |polls|
  {
    if n == 0 then [] else EventsOf(polls, n - 1) + (polls[n - 1].before + polls[n - 1].after)
  }

  lemma {:induction false} FoundIsRun(s: State, polls: seq<Poll>, n: nat)
    requires n <= |polls|
    ensures Found(s, polls, n) == Run(s, EventsOf(polls, n))
  {
    if n > 0 {
      var poll := polls[n - 1];
      FoundIsRun(s, polls, n - 1);
      RunConcat(Found(s, polls, n - 1), poll.before, poll.after);
      RunConcat(s, EventsOf(polls, n - 1), poll.before + poll.after);
    }
  }

  /** So a call is a stretch of a run of the state machine, with the write as its last event if it
      succeeds, and what holds of every run holds of calls however they are interrupted. */
  lemma CallIsRun(s: State, polls: seq<Poll>, n: nat, c: Byte)
    requires n <= |polls|
    ensures Writable(Found(s, polls, n)) ==>
              Put(Found(s, polls, n), c) == Run(s, EventsOf(polls, n) + [Offer(c)])
    ensures n < |polls| ==> Looked(s, polls, n) == Run(s, EventsOf(polls, n) + polls[n].before)
  {
    FoundIsRun(s, polls, n);
    assert (EventsOf(polls, n) + [Offer(c)])[..|EventsOf(polls, n)|] == EventsOf(polls, n);
    if n < |polls| { RunConcat(s, EventsOf(polls, n), polls[n].before); }
  }
}
