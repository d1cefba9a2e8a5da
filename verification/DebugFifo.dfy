/** The debug endpoint of the USB controller: usb_debug_putchar and usb_debug_flush_output of
    platforms/atmegau2/src/debug.c, the start-of-frame branch of control.c, and the host, as a
    state machine over their atomic sections. */
module DebugFifo {
  import opened Octet

  const BANK := 32

  /** The endpoint's single bank: not set up yet, being filled by the firmware, or handed over and
      waiting for the host, `fill` of its bytes being ones that were written to it and not padding. */
  datatype Bank = Off | Filling(bytes: seq<Byte>) | Busy(packet: seq<Byte>, fill: nat)

  /** `sent` are the packets handed over so far, `collected` those the host has fetched. */
  datatype State = State(configured: bool, bank: Bank, timer: nat, sent: seq<seq<Byte>>, collected: seq<seq<Byte>>)

  datatype Event =
    | Offer(c: Byte)           // the write section of usb_debug_putchar finds the bank as it is
    | StartOfFrame
    | Flush
    | HostIn                   // the host fetches the bank
    | BusReset
    | Configure(value: nat)    // SET_CONFIGURATION, which resets the endpoint whatever the value
    | ClearHalt                // CLEAR_FEATURE on the endpoint, which resets it too

  /** RWAL: the bank takes another byte. */
  predicate Writable(s: State) {
    s.bank.Filling? && |s.bank.bytes| < BANK
  }

  function Padded(bytes: seq<Byte>): (p: seq<Byte>)
    requires |bytes| <= BANK
    ensures |p| == BANK && bytes <= p && forall i :: |bytes| <= i < BANK ==> p[i] == 0
  {
    bytes + seq(BANK - |bytes|, _ => 0)
  }

  /** Fill the rest of the bank with zeros and hand it over. */
  function SendPadded(s: State): State {
    if s.bank.Filling? && |s.bank.bytes| <= BANK
    then s.(bank := Busy(Padded(s.bank.bytes), |s.bank.bytes|), sent := s.sent + [Padded(s.bank.bytes)])
    else s
  }

  /** The write of usb_debug_putchar: a full bank goes out at once, otherwise the timer starts. */
  function Put(s: State, c: Byte): State
    requires Writable(s)
  {
    var bytes := s.bank.bytes + [c];
    if |bytes| == BANK
    then s.(bank := Busy(bytes, BANK), timer := 0, sent := s.sent + [bytes])
    else s.(bank := Filling(bytes), timer := 2)
  }

  function Step(s: State, e: Event): State {
    match e
    case Offer(c) => if Writable(s) then Put(s, c) else s
    case StartOfFrame =>
      if !s.configured || s.timer == 0 then s
      else if s.timer == 1 then SendPadded(s.(timer := 0))
      else s.(timer := s.timer - 1)
    case Flush => if s.timer == 0 then s else SendPadded(s).(timer := 0)
    case HostIn => if s.bank.Busy? then s.(bank := Filling([]), collected := s.collected + [s.bank.packet]) else s
    case BusReset => s.(configured := false)
    case ClearHalt => if s.bank.Off? then s else s.(bank := Filling([]))
    case Configure(value) => s.(configured := value % 256 != 0, bank := Filling([]))
  }

  function Run(s: State, events: seq<Event>): State
    decreases |events|
  {
    if events == [] then s else Step(Run(s, events[..|events| - 1]), events[|events| - 1])
  }

  // ---- Every run -------------------------------------------------------------------------------

  /** Some, but not all, of the bank is filled. */
  predicate Partial(s: State) {
    s.bank.Filling? && 0 < |s.bank.bytes| < BANK
  }

  /** What every run keeps: a partly filled bank has its timer running, and a bank that was handed over
      holds what was written to it, filled up with zeros. */
  ghost predicate Watched(s: State) {
    && s.timer <= 2 && (Partial(s) ==> s.timer > 0)
    && (s.bank.Filling? ==> |s.bank.bytes| < BANK)
    && (s.bank.Busy? ==> s.bank.fill <= |s.bank.packet| == BANK && s.bank.packet == Padded(s.bank.packet[..s.bank.fill]))
  }

  /** The timer runs exactly while the bank is partly filled. */
  ghost predicate Inv(s: State) {
    Watched(s) && (s.timer > 0 ==> Partial(s))
  }

  /** The written bytes that are in the bank. */
  function Held(s: State): seq<Byte> {
    match s.bank
    case Off => []
    case Filling(bytes) => bytes
    case Busy(packet, fill) => if fill <= |packet| then packet[..fill] else []
  }

  /** Power-up: not configured, and the endpoint not set up. */
  const Boot := State(false, Off, 0, [], [])

  lemma PaddedPrefix(bytes: seq<Byte>)
    requires |bytes| <= BANK
    ensures Padded(bytes)[..|bytes|] == bytes
  {
  }

  lemma StepStaysWatched(s: State, e: Event)
    requires Watched(s)
    ensures Watched(Step(s, e))
  {
    if s.bank.Filling? {
      PaddedPrefix(s.bank.bytes);
      if e.Offer? && |s.bank.bytes| == BANK - 1 {
        var full := s.bank.bytes + [e.c];
        assert full[..BANK] == full && Padded(full) == full;
      }
    }
  }

  lemma {:induction false} RunStaysWatched(s: State, events: seq<Event>)
    requires Watched(s)
    ensures Watched(Run(s, events))
    decreases |events|
  {
    if events != [] {
      RunStaysWatched(s, events[..|events| - 1]);
      StepStaysWatched(Run(s, events[..|events| - 1]), events[|events| - 1]);
    }
  }

  /** Requests that reset the endpoint's FIFO. */
  predicate Resets(e: Event) { e.Configure? || e.ClearHalt? }

  /** No such request comes while the bank is partly filled. */
  predicate Timely(s: State, e: Event) { Resets(e) ==> !Partial(s) }

  /** No such request comes while written bytes are in the bank, partly filled or handed over. */
  predicate Calm(s: State, e: Event) { Resets(e) ==> Held(s) == [] }

  ghost predicate TimelyRun(s: State, events: seq<Event>)
    decreases |events|
  {
    events != [] ==>
      var before := events[..|events| - 1];
      TimelyRun(s, before) && Timely(Run(s, before), events[|events| - 1])
  }

  ghost predicate CalmRun(s: State, events: seq<Event>)
    decreases |events|
  {
    events != [] ==>
      var before := events[..|events| - 1];
      CalmRun(s, before) && Calm(Run(s, before), events[|events| - 1])
  }

  /** A step keeps the timer and the bank in agreement exactly when it is timely: a reset empties the
      bank but leaves the timer. */
  lemma StepKeepsInvIff(s: State, e: Event)
    requires Inv(s)
    ensures Inv(Step(s, e)) <==> Timely(s, e)
  {
    StepStaysWatched(s, e);
  }

  lemma {:induction false} RunKeepsInv(s: State, events: seq<Event>)
    requires Inv(s) && TimelyRun(s, events)
    ensures Inv(Run(s, events))
    decreases |events|
  {
    if events != [] {
      RunKeepsInv(s, events[..|events| - 1]);
      StepKeepsInvIff(Run(s, events[..|events| - 1]), events[|events| - 1]);
    }
  }

  // ---- The account -------------------------------------------------------------------------------

  function Taken(s: State, e: Event): seq<Byte> {
    if e.Offer? && Writable(s) then [e.c] else []
  }

  /** The bytes usb_debug_putchar took in a run. */
  function Accepted(s: State, events: seq<Event>): seq<Byte>
    decreases |events|
  {
    if events == [] then []
    else
      var before, e := events[..|events| - 1], events[|events| - 1];
      Accepted(s, before) + Taken(Run(s, before), e)
  }

  /** How bytes leave the bank: fetched by the host in one packet, or wiped out by a reset. */
  datatype Departure = Fetched(bytes: seq<Byte>) | Lost(bytes: seq<Byte>)

  function Leaving(s: State, e: Event): seq<Departure> {
    if e.HostIn? && s.bank.Busy? then [Fetched(Held(s))]
    else if Resets(e) && !s.bank.Off? then [Lost(Held(s))]
    else []
  }

  function Departures(s: State, events: seq<Event>): seq<Departure>
    decreases |events|
  {
    if events == [] then []
    else
      var before := events[..|events| - 1];
      Departures(s, before) + Leaving(Run(s, before), events[|events| - 1])
  }

  function Bytes(ds: seq<Departure>): seq<Byte> {
    if ds == [] then [] else Bytes(ds[..|ds| - 1]) + ds[|ds| - 1].bytes
  }

  /** The written bytes the host has fetched. */
  function FetchedBytes(ds: seq<Departure>): seq<Byte> {
    if ds == [] then []
    else
      var d := ds[|ds| - 1];
      FetchedBytes(ds[..|ds| - 1]) + if d.Fetched? then d.bytes else []
  }

  /** The packets in which they came, each filled up with zeros. */
  function Packets(ds: seq<Departure>): seq<seq<Byte>> {
    if ds == [] then []
    else
      var d := ds[|ds| - 1];
      Packets(ds[..|ds| - 1]) + if d.Fetched? && |d.bytes| <= BANK then [Padded(d.bytes)] else []
  }

  lemma OneMore(ds: seq<Departure>, d: Departure)
    ensures Bytes(ds + [d]) == Bytes(ds) + d.bytes
    ensures FetchedBytes(ds + [d]) == FetchedBytes(ds) + if d.Fetched? then d.bytes else []
    ensures Packets(ds + [d]) == Packets(ds) + if d.Fetched? && |d.bytes| <= BANK then [Padded(d.bytes)] else []
  {
    assert (ds + [d])[..|ds|] == ds;
  }

  /** What leaves and what stays in a step is what was there and what came. */
  lemma StepBalances(s: State, e: Event)
    requires Watched(s)
    ensures var l := Leaving(s, e);
            |l| <= 1 && (if l == [] then [] else l[0].bytes) + Held(Step(s, e)) == Held(s) + Taken(s, e)
  {
    assert Held(s) + [] == Held(s) && [] + Held(Step(s, e)) == Held(Step(s, e));
    if e.Offer? && Writable(s) {
      var full := s.bank.bytes + [e.c];
      assert full[..|full|] == full;
    } else {
      HeldUnlessLeft(s, e);
    }
  }

  lemma HeldUnlessLeft(s: State, e: Event)
    requires Watched(s) && !(e.Offer? && Writable(s))
    ensures Held(Step(s, e)) == if Leaving(s, e) == [] then Held(s) else []
  {
    if s.bank.Filling? { PaddedPrefix(s.bank.bytes); }
  }

  /** The host fetches what was written, filled up with zeros. */
  lemma StepCollects(s: State, e: Event)
    requires Watched(s)
    ensures var l, t := Leaving(s, e), Step(s, e);
            && |l| <= 1
            && (l != [] && l[0].Fetched? ==> |l[0].bytes| <= BANK && t.collected == s.collected + [Padded(l[0].bytes)])
            && (l == [] || l[0].Lost? ==> t.collected == s.collected)
  {
  }

  lemma BytesAddUp(ds: seq<Departure>, l: seq<Departure>, left: seq<Byte>, held: seq<Byte>, taken: seq<Byte>)
    requires |l| <= 1 && (if l == [] then [] else l[0].bytes) + left == held + taken
    ensures Bytes(ds + l) + left == Bytes(ds) + held + taken
  {
    Regroup(Bytes(ds), if l == [] then [] else l[0].bytes, left, held, taken);
    if l == [] {
      assert ds + l == ds && Bytes(ds) + [] == Bytes(ds);
    } else {
      assert l == [l[0]];
      OneMore(ds, l[0]);
    }
  }

  lemma PacketsAddUp(ds: seq<Departure>, l: seq<Departure>, after: seq<seq<Byte>>)
    requires |l| <= 1
    requires l != [] && l[0].Fetched? ==> |l[0].bytes| <= BANK && after == Packets(ds) + [Padded(l[0].bytes)]
    requires l == [] || l[0].Lost? ==> after == Packets(ds)
    ensures Packets(ds + l) == after
  {
    if l == [] {
      assert ds + l == ds;
    } else {
      assert l == [l[0]];
      OneMore(ds, l[0]);
    }
  }

  lemma StepAccounts(s: State, e: Event, ds: seq<Departure>)
    requires Watched(s) && Packets(ds) == s.collected
    ensures Bytes(ds + Leaving(s, e)) + Held(Step(s, e)) == Bytes(ds) + Held(s) + Taken(s, e)
    ensures Packets(ds + Leaving(s, e)) == Step(s, e).collected
  {
    StepBalances(s, e);
    BytesAddUp(ds, Leaving(s, e), Held(Step(s, e)), Held(s), Taken(s, e));
    StepCollects(s, e);
    PacketsAddUp(ds, Leaving(s, e), Step(s, e).collected);
  }

  /** The account of every run from power-up, whatever the host asks for: the accepted bytes are, in
      order, what the host fetched, what resets wiped out, and what is in the bank; and the packets
      the host has are what it fetched, each filled up with zeros to 32 bytes. */
  lemma {:induction false} Conservation(events: seq<Event>)
    ensures Bytes(Departures(Boot, events)) + Held(Run(Boot, events)) == Accepted(Boot, events)
    ensures Packets(Departures(Boot, events)) == Run(Boot, events).collected
    decreases |events|
  {
    if events != [] {
      var before := events[..|events| - 1];
      Conservation(before);
      RunStaysWatched(Boot, before);
      StepAccounts(Run(Boot, before), events[|events| - 1], Departures(Boot, before));
    }
  }

  // ---- When nothing is lost ----------------------------------------------------------------------

  lemma {:induction false} FetchedAtMost(ds: seq<Departure>)
    ensures |FetchedBytes(ds)| <= |Bytes(ds)|
    ensures |FetchedBytes(ds)| == |Bytes(ds)| ==> FetchedBytes(ds) == Bytes(ds)
  {
    if ds != [] { FetchedAtMost(ds[..|ds| - 1]); }
  }

  lemma LeavingKeepsIff(s: State, e: Event, ds: seq<Departure>)
    ensures var all := ds + Leaving(s, e);
            |FetchedBytes(all)| == |Bytes(all)| <==> |FetchedBytes(ds)| == |Bytes(ds)| && Calm(s, e)
  {
    var l := Leaving(s, e);
    FetchedAtMost(ds);
    if l == [] {
      assert ds + l == ds;
    } else {
      assert l == [l[0]];
      OneMore(ds, l[0]);
    }
  }

  lemma {:induction false} FetchedAllIffCalm(s: State, events: seq<Event>)
    ensures var ds := Departures(s, events);
            |FetchedBytes(ds)| == |Bytes(ds)| <==> CalmRun(s, events)
    decreases |events|
  {
    if events != [] {
      var before := events[..|events| - 1];
      FetchedAllIffCalm(s, before);
      LeavingKeepsIff(Run(s, before), events[|events| - 1], Departures(s, before));
    }
  }

  /** What the host has fetched, followed by what is in the bank, is what was accepted if and only if
      no reset comes while written bytes are in the bank. */
  lemma NothingLostIff(events: seq<Event>)
    ensures FetchedBytes(Departures(Boot, events)) + Held(Run(Boot, events)) == Accepted(Boot, events)
            <==> CalmRun(Boot, events)
  {
    var ds := Departures(Boot, events);
    Conservation(events);
    FetchedAtMost(ds);
    FetchedAllIffCalm(Boot, events);
    if FetchedBytes(ds) + Held(Run(Boot, events)) == Accepted(Boot, events) {
      assert |FetchedBytes(ds) + Held(Run(Boot, events))| == |Bytes(ds) + Held(Run(Boot, events))|;
    }
  }

  /** And then every packet carries some of them. */
  lemma {:induction false} NoEmptyPackets(s: State, events: seq<Event>)
    requires Inv(s) && CalmRun(s, events) && (s.bank.Busy? ==> s.bank.fill > 0)
    ensures TimelyRun(s, events)
    ensures Run(s, events).bank.Busy? ==> Held(Run(s, events)) != []
    ensures forall i :: 0 <= i < |Departures(s, events)| ==>
              Departures(s, events)[i].Fetched? ==> Departures(s, events)[i].bytes != []
    decreases |events|
  {
    if events != [] {
      var before, e := events[..|events| - 1], events[|events| - 1];
      NoEmptyPackets(s, before);
      RunKeepsInv(s, before);
      StepStaysWatched(Run(s, before), e);
    }
  }

  // ---- When the bank is handed over --------------------------------------------------------------

  /** How many frames have come on a configured device since the last byte was accepted. */
  function Quiet(s: State, events: seq<Event>): nat
    decreases |events|
  {
    if events == [] then 0
    else
      var before, e := events[..|events| - 1], events[|events| - 1];
      if Taken(Run(s, before), e) != [] then 0
      else Quiet(s, before) + if e.StartOfFrame? && Run(s, before).configured then 1 else 0
  }

  /** The timer, while it runs, says how many of two frames are still to come. */
  lemma {:induction false} TimerCountsFrames(events: seq<Event>)
    ensures var t := Run(Boot, events); t.timer > 0 ==> t.timer + Quiet(Boot, events) == 2
    decreases |events|
  {
    if events != [] { TimerCountsFrames(events[..|events| - 1]); }
  }

  /** The event that hands a partly filled bank over: a flush, the second frame since the last accepted
      byte, or the byte that fills it. */
  ghost predicate HandsOver(t: State, quiet: nat, e: Event) {
    || e.Flush?
    || (e.StartOfFrame? && t.configured && quiet == 1)
    || (e.Offer? && |Held(t)| == BANK - 1)
  }

  /** Bytes are buffered: in any run from power-up a partly filled bank is handed over by these events
      and by no other, with everything that was written to it; other bytes are added to it without
      anything being sent. */
  lemma HandedOverIff(events: seq<Event>, e: Event)
    requires Partial(Run(Boot, events))
    ensures var t := Run(Boot, events); var u := Step(t, e);
            && (u.sent != t.sent <==> HandsOver(t, Quiet(Boot, events), e))
            && (u.sent != t.sent ==>
                  u.sent == t.sent + [Padded(Held(t) + Taken(t, e))] && u.bank.Busy? && u.timer == 0)
            && (e.Offer? && u.sent == t.sent ==>
                  u.bank == Filling(Held(t) + [e.c]) && u.timer == 2)
  {
    RunStaysWatched(Boot, events);
    TimerCountsFrames(events);
    var t := Run(Boot, events);
    assert Held(t) + [] == Held(t);
    if e.Offer? && |Held(t)| == BANK - 1 { assert Padded(Held(t) + [e.c]) == Held(t) + [e.c]; }
  }

  /** A byte offered to an empty bank stays in it and starts the timer. */
  lemma FirstByteBuffered(t: State, c: Byte)
    requires t.bank == Filling([])
    ensures var u := Step(t, Offer(c));
            u.sent == t.sent && u.bank == Filling([c]) && u.timer == 2 && u.configured == t.configured
  {
  }

  /** Whatever the run, a packet with room left in it goes out only on a flush or on the second frame
      since the last accepted byte. */
  lemma ShortPacketsWait(events: seq<Event>, e: Event)
    ensures var t := Run(Boot, events); var u := Step(t, e);
            u.sent != t.sent && u.bank.Busy? && u.bank.fill < BANK ==>
              e.Flush? || (e.StartOfFrame? && t.configured && Quiet(Boot, events) == 1)
  {
    RunStaysWatched(Boot, events);
    TimerCountsFrames(events);
  }

  /** A bank that was handed over takes nothing more until the host has fetched it, and is empty then. */
  lemma HandedOverUntilFetched(t: State, e: Event)
    requires t.bank.Busy?
    ensures var u := Step(t, e);
            && (e.HostIn? ==> u.bank == Filling([]) && u.timer == t.timer)
            && (!e.HostIn? && !Resets(e) ==> u.bank == t.bank && u.sent == t.sent)
  {
  }

  /** Whether the device is configured: by the last configuration request since the last bus reset. */
  function Configured(events: seq<Event>): bool {
    if events == [] then false
    else match events[|events| - 1]
      case BusReset => false
      case Configure(value) => value % 256 != 0
      case _ => Configured(events[..|events| - 1])
  }

  lemma {:induction false} ConfiguredByRequests(events: seq<Event>)
    ensures Run(Boot, events).configured == Configured(events)
    decreases |events|
  {
    if events != [] { ConfiguredByRequests(events[..|events| - 1]); }
  }

  // ---- Latency -----------------------------------------------------------------------------------

  /** How far a partly filled bank is from going out. */
  function Distance(s: State): int
    requires s.bank.Filling?
  {
    2 * (BANK - |s.bank.bytes|) + s.timer
  }

  /** An event that brings a partly filled bank closer to going out. */
  predicate Productive(s: State, e: Event) {
    e.StartOfFrame? || (e.Offer? && Writable(s))
  }

  function ProductiveCount(s: State, events: seq<Event>): nat
    decreases |events|
  {
    if events == [] then 0
    else
      var before := events[..|events| - 1];
      ProductiveCount(s, before) + if Productive(Run(s, before), events[|events| - 1]) then 1 else 0
  }

  predicate Undisturbed(events: seq<Event>) {
    forall i :: 0 <= i < |events| ==> !Resets(events[i]) && !events[i].BusReset?
  }

  lemma {:induction false} UndisturbedIsTimely(s: State, events: seq<Event>)
    requires Undisturbed(events)
    ensures TimelyRun(s, events)
    decreases |events|
  {
    if events != [] { UndisturbedIsTimely(s, events[..|events| - 1]); }
  }

  /** Every accepted byte and every frame brings the bank strictly closer to going out. */
  lemma ProductiveApproaches(s: State, e: Event)
    requires Inv(s) && s.configured && Partial(s) && !Resets(e) && !e.BusReset?
    ensures var t := Step(s, e);
            t.sent != s.sent || (t.configured && Partial(t) && Distance(t) <= Distance(s) - (if Productive(s, e) then 1 else 0))
  {
  }

  lemma {:induction false} SentOnlyGrows(s: State, events: seq<Event>)
    ensures s.sent <= Run(s, events).sent
    decreases |events|
  {
    if events != [] { SentOnlyGrows(s, events[..|events| - 1]); }
  }

  lemma {:induction false} UnsentApproaches(s: State, events: seq<Event>)
    requires Inv(s) && s.configured && Partial(s) && Undisturbed(events)
    requires Run(s, events).sent == s.sent
    ensures var t := Run(s, events);
            t.configured && Partial(t) && Distance(t) + ProductiveCount(s, events) <= Distance(s)
    decreases |events|
  {
    if events != [] {
      var before := events[..|events| - 1];
      SentOnlyGrows(s, before);
      UnsentApproaches(s, before);
      UndisturbedIsTimely(s, before);
      RunKeepsInv(s, before);
      ProductiveApproaches(Run(s, before), events[|events| - 1]);
    }
  }

  /** Bounded latency: as long as nothing resets the bus or the endpoint, a partly filled bank is
      handed over before more bytes and frames have come than it was away from that, in whatever order
      they come. */
  lemma Latency(s: State, events: seq<Event>)
    requires Inv(s) && s.configured && Partial(s) && Undisturbed(events)
    requires ProductiveCount(s, events) >= Distance(s) - 2
    ensures |Run(s, events).sent| > |s.sent|
  {
    SentOnlyGrows(s, events);
    if Run(s, events).sent == s.sent {
      UnsentApproaches(s, events);
      UndisturbedIsTimely(s, events);
      RunKeepsInv(s, events);
    }
  }

  // ---- Reconfiguration ---------------------------------------------------------------------------

  /** After a reset that wipes out a partly filled bank the timer's remaining frames send a packet of
      zeros that nobody wrote if and only if the device is configured after it: always after
      CLEAR_FEATURE on a configured device, and after SET_CONFIGURATION unless the value is zero. */
  lemma ResetSendsZerosIff(s: State, e: Event)
    requires Inv(s) && Partial(s) && Resets(e)
    ensures var frames := if s.timer == 1 then [StartOfFrame] else [StartOfFrame, StartOfFrame];
            Run(s, [e] + frames).sent == s.sent + if Step(s, e).configured then [Padded([])] else []
    ensures Step(s, e).configured == if e.Configure? then e.value % 256 != 0 else s.configured
  {
    assert Run(s, [e]) == Step(s, e) by { assert [e][..0] == []; }
    assert [e, StartOfFrame][..1] == [e];
    if s.timer == 1 {
      assert [e] + [StartOfFrame] == [e, StartOfFrame];
    } else {
      assert [e] + [StartOfFrame, StartOfFrame] == [e, StartOfFrame, StartOfFrame];
      assert [e, StartOfFrame, StartOfFrame][..2] == [e, StartOfFrame];
    }
  }
}
