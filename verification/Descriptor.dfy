/** GET_DESCRIPTOR on the U2's control endpoint (platforms/atmegau2/src/control.c): the cursor
    search through the descriptor table, and the data stage in 16-byte packets. */
module Descriptor {
  import opened Options
  import opened Octet

  const COUNT := 5          // NUM_DESC_LIST
  const STRIDE := 7         // sizeof(struct _descriptor): two words, a 16-bit pointer and a byte
  const PACKET := 16        // USB_CONTROL_SIZE

  type Word = n: int | 0 <= n < 0x10000

  datatype Entry = Entry(value: Word, index: Word, address: Word, length: Byte)

  type Table = t: seq<Byte> | |t| == STRIDE * COUNT witness seq(STRIDE * COUNT, _ => 0)

  // ---- The table -----------------------------------------------------------------------------------

  function ReadWord(t: seq<Byte>, at: nat): Word
    requires at + 2 <= |t|
  {
    var lo: int, hi: int := t[at], t[at + 1];
    lo + 256 * hi
  }

  /** The k-th entry of the table. */
  function EntryAt(t: Table, k: nat): Entry
    requires k < COUNT
  {
    Entry(ReadWord(t, STRIDE * k), ReadWord(t, STRIDE * k + 2), ReadWord(t, STRIDE * k + 4), t[STRIDE * k + 6])
  }

  predicate Matches(t: Table, k: nat, value: Word, index: Word)
    requires k < COUNT
  {
    EntryAt(t, k).value == value && EntryAt(t, k).index == index
  }

  /** The bytes of an entry, and of a table of them: words have their low byte first. */
  function Row(e: Entry): (r: seq<Byte>)
    ensures |r| == STRIDE
  {
    [e.value % 256, e.value / 256, e.index % 256, e.index / 256, e.address % 256, e.address / 256, e.length]
  }

  function Image(es: seq<Entry>): (t: seq<Byte>)
    ensures |t| == STRIDE * |es|
  {
    if es == [] then [] else Image(es[..|es| - 1]) + Row(es[|es| - 1])
  }

  lemma {:induction false} ImageHolds(es: seq<Entry>, k: nat, j: nat)
    requires k < |es| && j < STRIDE
    ensures Image(es)[STRIDE * k + j] == Row(es[k])[j]
  {
    var init := es[..|es| - 1];
    assert Image(es) == Image(init) + Row(es[|es| - 1]);
    if k < |init| {
      ImageHolds(init, k, j);
      assert STRIDE * k + j < |Image(init)| && init[k] == es[k];
    } else {
      assert STRIDE * k == |Image(init)|;
    }
  }

  /** Reading the table back gives the declared entries. */
  lemma TableRoundTrip(es: seq<Entry>, k: nat)
    requires |es| == COUNT && k < COUNT
    ensures EntryAt(Image(es), k) == es[k]
  {
    WordAt(es, k, 0, es[k].value);
    WordAt(es, k, 2, es[k].index);
    WordAt(es, k, 4, es[k].address);
    ImageHolds(es, k, 6);
  }

  lemma WordAt(es: seq<Entry>, k: nat, j: nat, w: Word)
    requires k < |es| && j + 1 < STRIDE && Row(es[k])[j] == w % 256 && Row(es[k])[j + 1] == w / 256
    ensures STRIDE * k + j + 2 <= |Image(es)| && ReadWord(Image(es), STRIDE * k + j) == w
  {
    ImageHolds(es, k, j);
    ImageHolds(es, k, j + 1);
    assert STRIDE * k + (j + 1) == STRIDE * k + j + 1;
  }

  /** The position from `k` on of the first entry that matches; COUNT if there is none. */
  function FirstMatch(t: Table, k: nat, value: Word, index: Word): (r: nat)
    requires k <= COUNT
    ensures k <= r <= COUNT && (r < COUNT ==> Matches(t, r, value, index))
    ensures forall j :: k <= j < r ==> !Matches(t, j, value, index)
    decreases COUNT - k
  {
    if k == COUNT || Matches(t, k, value, index) then k else FirstMatch(t, k + 1, value, index)
  }

  /** The cursor search: the first entry with both fields equal, and none exactly when there is no
      such entry. */
  method Search(table: Table, wValue: Word, wIndex: Word) returns (found: Option<Entry>)
    ensures var k := FirstMatch(table, 0, wValue, wIndex);
            found == if k < COUNT then Some(EntryAt(table, k)) else None
  {
    var list, i := 0, 0;
    while true
      invariant 0 <= i <= COUNT && list == STRIDE * i
      invariant FirstMatch(table, 0, wValue, wIndex) == FirstMatch(table, i, wValue, wIndex)
      decreases COUNT - i
    {
      if i >= COUNT { return None; }
      var val := ReadWord(table, list);
      if val != wValue {
        list := list + STRIDE;
      } else {
        list := list + 2;
        var idx := ReadWord(table, list);
        if idx != wIndex {
          list := list + (STRIDE - 2);
        } else {
          list := list + 2;
          var address := ReadWord(table, list);
          list := list + 2;
          return Some(Entry(val, idx, address, table[list]));
        }
      }
      i := i + 1;
    }
  }

  // ---- The data stage ------------------------------------------------------------------------------

  /** `n` bytes of program memory from `address`; the pointer is 16 bits wide. */
  function Contents(flash: nat -> Byte, address: nat, n: nat): (s: seq<Byte>)
    ensures |s| == n && forall i :: 0 <= i < n ==> s[i] == flash((address + i) % 0x10000)
  {
    seq<Byte>(n, i requires 0 <= i < n => flash((address + i) % 0x10000))
  }

  /** Full packets and then a short one, which is empty after a whole number of full ones. */
  function Packets(data: seq<Byte>): (ps: seq<seq<Byte>>)
    ensures ps != []
  {
    if |data| < PACKET then [data] else [data[..PACKET]] + Packets(data[PACKET..])
  }

  function Concat(ps: seq<seq<Byte>>): seq<Byte> {
    if ps == [] then [] else ps[0] + Concat(ps[1..])
  }

  lemma ConcatCons(p: seq<Byte>, ps: seq<seq<Byte>>)
    ensures Concat([p] + ps) == p + Concat(ps)
  {
    assert ([p] + ps)[1..] == ps;
  }

  lemma ConcatOne(p: seq<Byte>)
    ensures Concat([p]) == p
  {
    ConcatCons(p, []);
    assert [p] + [] == [p];
  }

  /** The packets carry exactly the data; all but the last are full, and the last is short. */
  lemma {:induction false} PacketsShape(data: seq<Byte>)
    ensures Concat(Packets(data)) == data
    ensures forall i :: 0 <= i < |Packets(data)| - 1 ==> |Packets(data)[i]| == PACKET
    ensures |Packets(data)[|Packets(data)| - 1]| < PACKET
  {
    if |data| < PACKET {
      ConcatOne(data);
    } else {
      PacketsShape(data[PACKET..]);
      ConcatCons(data[..PACKET], Packets(data[PACKET..]));
      assert data[..PACKET] + data[PACKET..] == data;
    }
  }

  // ---- The host's side -----------------------------------------------------------------------------

  /** How many packets a host takes that asked for `want` bytes: it ends the data stage at a short
      packet or when it has them all (sections 8.5.3.2 and 9.4.3 of the USB 2.0 specification). */
  function Taken(ps: seq<seq<Byte>>, want: nat): (k: nat)
    ensures k <= |ps|
  {
    if ps == [] || want == 0 then 0
    else if |ps[0]| < PACKET || |ps[0]| >= want then 1
    else 1 + Taken(ps[1..], want - |ps[0]|)
  }

  lemma TakenCons(p: seq<Byte>, ps: seq<seq<Byte>>, want: nat)
    requires |p| == PACKET < want
    ensures Taken([p] + ps, want) == 1 + Taken(ps, want - PACKET)
  {
    assert ([p] + ps)[1..] == ps;
  }

  /** The host has all the data, and the one packet it may leave behind is an empty one. */
  predicate Complete(data: seq<Byte>, want: nat, k: nat) {
    var ps := Packets(data);
    && k <= |ps| && Concat(ps[..k]) == data
    && (k < |ps| ==> k == |ps| - 1 && ps[k] == [] && |data| == want)
  }

  /** A host that asked for at least as much as there is gets all of it. */
  lemma {:induction false} HostGetsAll(data: seq<Byte>, want: nat)
    requires |data| <= want
    ensures Complete(data, want, Taken(Packets(data), want))
    decreases |data|
  {
    if |data| < PACKET {
      ConcatOne(data);
      assert [data][..1] == [data] && [data][..0] == [];
    } else {
      var p, rest := data[..PACKET], data[PACKET..];
      assert p + rest == data;
      if want > PACKET {
        HostGetsAll(rest, want - PACKET);
        TakenCons(p, Packets(rest), want);
        LaterPackets(p, rest, want, Taken(Packets(rest), want - PACKET));
      } else {
        assert rest == [] && p == data;
        assert Packets(data) == [data, []] && [data, []][..1] == [data];
        ConcatOne(data);
      }
    }
  }

  lemma LaterPackets(p: seq<Byte>, rest: seq<Byte>, want: nat, k: nat)
    requires |p| == PACKET <= want && Complete(rest, want - PACKET, k)
    ensures Complete(p + rest, want, k + 1)
  {
    var ps := Packets(rest);
    assert (p + rest)[..PACKET] == p && (p + rest)[PACKET..] == rest;
    assert Packets(p + rest) == [p] + ps;
    assert ([p] + ps)[..k + 1] == [p] + ps[..k];
    ConcatCons(p, ps[..k]);
  }

  // ---- The request ---------------------------------------------------------------------------------

  /** `wLength` bytes are asked for, counted in a byte. */
  function Clamped(wLength: nat, length: Byte): (len: nat)
    ensures len == Min(wLength, length)
  {
    var len := if wLength < 256 then wLength else 255;
    if len > length then length else len
  }

  /** What the device sends of `data` when the host moves on to the status stage before the k-th
      packet whenever `moved(k)`. */
  ghost predicate SentUntilMoved(packets: seq<seq<Byte>>, data: seq<Byte>, moved: nat -> bool) {
    && packets <= Packets(data)
    && (forall k :: 0 <= k < |packets| ==> !moved(k))
    && (packets != Packets(data) ==> moved(|packets|))
  }

  /** What is still to be sent when `len` bytes are left and the last packet had `n`. */
  function Remaining(flash: nat -> Byte, addr: nat, len: nat, n: nat): seq<seq<Byte>> {
    if len != 0 || n == PACKET then Packets(Contents(flash, addr, len)) else []
  }

  /** The bytes of one packet, read one by one through the advancing pointer. */
  method ReadPacket(flash: nat -> Byte, addr: nat, n: nat) returns (packet: seq<Byte>)
    ensures packet == Contents(flash, addr, n)
  {
    packet := [];
    var p, i := addr % 0x10000, n;
    while i != 0
      invariant 0 <= i <= n && |packet| == n - i && p == (addr + (n - i)) % 0x10000
      invariant forall k :: 0 <= k < |packet| ==> packet[k] == flash((addr + k) % 0x10000)
    {
      packet := packet + [flash(p)];
      p, i := (p + 1) % 0x10000, i - 1;
    }
  }

  method DataStage(flash: nat -> Byte, address: nat, length: nat, moved: nat -> bool)
    returns (packets: seq<seq<Byte>>)
    ensures SentUntilMoved(packets, Contents(flash, address, length), moved)
  {
    ghost var all := Packets(Contents(flash, address, length));
    packets := [];
    var addr: nat, len: nat, n: nat := address, length, PACKET;      // the first pass is unconditional
    while len != 0 || n == PACKET
      invariant n <= PACKET
      invariant forall k :: 0 <= k < |packets| ==> !moved(k)
      invariant all == packets + Remaining(flash, addr, len, n)
      decreases len, n
    {
      if moved(|packets|) { return; }
      SendNext(all, packets, flash, addr, len, n);
      n := if len < PACKET then len else PACKET;
      var packet := ReadPacket(flash, addr, n);
      packets := packets + [packet];
      addr, len := addr + n, len - n;
    }
  }

  lemma PacketsStep(flash: nat -> Byte, addr: nat, len: nat, n: nat)
    requires n == Min(len, PACKET)
    ensures Packets(Contents(flash, addr, len)) == [Contents(flash, addr, n)] + Remaining(flash, addr + n, len - n, n)
  {
    var data := Contents(flash, addr, len);
    if len >= PACKET {
      assert data[..PACKET] == Contents(flash, addr, PACKET);
      assert data[PACKET..] == Contents(flash, addr + PACKET, len - PACKET);
    }
  }

  lemma SendNext(all: seq<seq<Byte>>, packets: seq<seq<Byte>>, flash: nat -> Byte, addr: nat, len: nat, last: nat)
    requires all == packets + Remaining(flash, addr, len, last) && (len != 0 || last == PACKET)
    ensures var n := Min(len, PACKET);
            all == packets + [Contents(flash, addr, n)] + Remaining(flash, addr + n, len - n, n)
  {
    PacketsStep(flash, addr, len, Min(len, PACKET));
  }

  /** The host moves on when it has taken the packets it wants, and not before. */
  ghost predicate Patient(data: seq<Byte>, want: nat, moved: nat -> bool) {
    forall k: nat :: moved(k) <==> k >= Taken(Packets(data), want)
  }

  /** A host that takes packets until it is satisfied, and only then moves on, receives exactly the
      data. */
  lemma HostAndDevice(data: seq<Byte>, want: nat, packets: seq<seq<Byte>>, moved: nat -> bool)
    requires |data| <= want && SentUntilMoved(packets, data, moved)
    requires Patient(data, want, moved)
    ensures Concat(packets) == data
  {
    HostGetsAll(data, want);
    var k := Taken(Packets(data), want);
    assert moved(k);
    assert packets == Packets(data)[..k];
  }

  /** What the host sees of a request. */
  datatype Response = Stall | Data(packets: seq<seq<Byte>>)

  /** The whole request: it is stalled exactly when no entry matches, and otherwise the packets are
      those of the first min(wLength, length) bytes of the first entry that does, which are what a
      patient host receives. */
  method GetDescriptor(table: Table, flash: nat -> Byte, wValue: Word, wIndex: Word, wLength: Word, moved: nat -> bool)
    returns (response: Response)
    ensures var k := FirstMatch(table, 0, wValue, wIndex);
            && (response.Stall? <==> k == COUNT)
            && (response.Data? ==>
                  var e := EntryAt(table, k);
                  var data := Contents(flash, e.address, Min(wLength, e.length));
                  && SentUntilMoved(response.packets, data, moved)
                  && (Patient(data, wLength, moved) ==>
                        && |Concat(response.packets)| == Min(wLength, e.length)
                        && forall i :: 0 <= i < Min(wLength, e.length) ==>
                             Concat(response.packets)[i] == flash((e.address + i) % 0x10000)))
  {
    var found := Search(table, wValue, wIndex);
    if found.None? { return Stall; }
    var len := Clamped(wLength, found.value.length);
    var packets := DataStage(flash, found.value.address, len, moved);
    ghost var data := Contents(flash, found.value.address, len);
    if Patient(data, wLength, moved) { HostAndDevice(data, wLength, packets, moved); }
    return Data(packets);
  }
}
