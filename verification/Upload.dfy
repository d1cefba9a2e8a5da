/** How utils/fdfu frames a firmware image: zero-filled 512-byte flash pages, each sent as 128-byte
    XMODEM blocks that carry a CRC. */
module Upload {
  import opened Options
  import opened Octet

  const SOH: Byte := 0x01
  const ACK: Byte := 0x06
  const CAN: Byte := 0x18
  const XLEN := 128
  const PAGE := 512
  const BLOCK := 3 + XLEN + 2

  // ---- Zero-filled views of a byte string --------------------------------------------------------

  function ByteAt(s: seq<Byte>, i: nat): Byte {
    if i < |s| then s[i] else 0
  }

  /** `n` bytes of `s` from offset `lo`, reading zeros past its end. */
  function Filled(s: seq<Byte>, lo: nat, n: nat): (f: seq<Byte>)
    ensures |f| == n
  {
    seq<Byte>(n, i requires 0 <= i < n => ByteAt(s, lo + i))
  }

  lemma FilledAt(s: seq<Byte>, lo: nat, n: nat, i: nat)
    requires i < n
    ensures Filled(s, lo, n)[i] == ByteAt(s, lo + i)
  {
  }

  lemma FilledJoins(s: seq<Byte>, lo: nat, m: nat, n: nat)
    ensures Filled(s, lo, m) + Filled(s, lo + m, n) == Filled(s, lo, m + n)
  {
  }

  lemma SliceFilled(s: seq<Byte>, lo: nat, len: nat, n: nat)
    requires lo + len <= |s| && len <= n && (len < n ==> lo + len == |s|)
    ensures s[lo..lo + len] + Filled([], 0, n - len) == Filled(s, lo, n)
  {
    var joined := s[lo..lo + len] + Filled([], 0, n - len);
    forall i | 0 <= i < n ensures joined[i] == Filled(s, lo, n)[i] {
      FilledAt(s, lo, n, i);
      if i >= len { FilledAt([], 0, n - len, i - len); }
    }
  }

  lemma SliceOfFilled(s: seq<Byte>, n: nat, lo: nat, m: nat)
    requires lo + m <= n
    ensures Filled(s, 0, n)[lo..lo + m] == Filled(s, lo, m)
  {
  }

  lemma FilledIsPadding(s: seq<Byte>, n: nat)
    requires |s| <= n
    ensures s <= Filled(s, 0, n)
    ensures forall i :: |s| <= i < n ==> Filled(s, 0, n)[i] == 0
  {
  }

  /** How many units of `m` bytes it takes to hold `n` bytes. */
  function Units(n: nat, m: nat): (k: nat)
    requires m > 0
    ensures k * m >= n && (k > 0 ==> (k - 1) * m < n)
  {
    (n + m - 1) / m
  }

  // ---- Blocks ------------------------------------------------------------------------------------

  /** The i-th block of a transfer. The CRC field is stored byte-swapped, so its high byte goes
      out first. */
  function Block(i: nat, data: seq<Byte>): (b: seq<Byte>)
    requires |data| == XLEN
    ensures |b| == BLOCK
  {
    var (lo, hi) := Checksum(data);
    [SOH, (i + 1) % 256, 255 - (i + 1) % 256] + data + [hi, lo]
  }

  /** The first `k` blocks of a transfer. */
  function Blocks(src: seq<Byte>, k: nat): (bs: seq<seq<Byte>>)
    ensures |bs| == k
  {
    if k == 0 then [] else Blocks(src, k - 1) + [Block(k - 1, Filled(src, XLEN * (k - 1), XLEN))]
  }

  function Transfer(src: seq<Byte>): seq<seq<Byte>> {
    Blocks(src, Units(|src|, XLEN))
  }

  // ---- The receiving end -------------------------------------------------------------------------

  predicate GoodBlock(b: seq<Byte>, i: nat) {
    && |b| == BLOCK
    && b[0] == SOH && b[1] == (i + 1) % 256 && b[2] == 255 - b[1]
    && Checksum(b[3..]) == (0, 0)
  }

  /** What an XMODEM-CRC receiver makes of a transfer. */
  function Receive(blocks: seq<seq<Byte>>): Option<seq<Byte>> {
    if blocks == [] then Some([])
    else
      var n := |blocks| - 1;
      match Receive(blocks[..n])
      case None => None
      case Some(data) => if GoodBlock(blocks[n], n) then Some(data + blocks[n][3..3 + XLEN]) else None
  }

  lemma BlockIsGood(i: nat, data: seq<Byte>)
    requires |data| == XLEN
    ensures GoodBlock(Block(i, data), i) && Block(i, data)[3..3 + XLEN] == data
  {
    var (lo, hi) := Checksum(data);
    assert Block(i, data)[3..] == data + [hi, lo];
    ResidueIff(data, hi, lo);
  }

  /** A block damaged anywhere in its header, and within sixteen consecutive bits of what follows
      the header, is not accepted in its place. */
  lemma DamagedBlockRefused(i: nat, data: seq<Byte>, bad: seq<Byte>, lo: nat)
    requires |data| == XLEN && |bad| == BLOCK && bad != Block(i, data)
    requires Burst(Block(i, data)[3..], bad[3..], lo)
    ensures !GoodBlock(bad, i)
  {
    var b := Block(i, data);
    BlockIsGood(i, data);
    if GoodBlock(bad, i) {
      assert b[..3] == bad[..3];
      assert b == b[..3] + b[3..] && bad == bad[..3] + bad[3..];
      BurstChangesChecksum(b[3..], bad[3..], lo);
    }
  }

  lemma ReceiveSnoc(blocks: seq<seq<Byte>>, b: seq<Byte>)
    ensures Receive(blocks + [b]) ==
            match Receive(blocks)
            case None => None
            case Some(data) => if GoodBlock(b, |blocks|) then Some(data + b[3..3 + XLEN]) else None
  {
    assert (blocks + [b])[..|blocks|] == blocks;
  }

  lemma ReceivesOneMore(blocks: seq<seq<Byte>>, got: seq<Byte>, data: seq<Byte>, all: seq<Byte>)
    requires Receive(blocks) == Some(got) && |data| == XLEN && all == got + data
    ensures Receive(blocks + [Block(|blocks|, data)]) == Some(all)
  {
    BlockIsGood(|blocks|, data);
    ReceiveSnoc(blocks, Block(|blocks|, data));
  }

  lemma {:induction false} ReceivesPrefix(src: seq<Byte>, k: nat)
    ensures Receive(Blocks(src, k)) == Some(Filled(src, 0, XLEN * k))
  {
    if k == 0 {
      assert Filled(src, 0, 0) == [];
    } else {
      var lo := XLEN * (k - 1);
      ReceivesPrefix(src, k - 1);
      FilledJoins(src, 0, lo, XLEN);
      ReceivesOneMore(Blocks(src, k - 1), Filled(src, 0, lo), Filled(src, lo, XLEN), Filled(src, 0, XLEN * k));
    }
  }

  /** A transfer is lossless: the receiver accepts every block and holds the source, followed by
      fewer than 128 zeros. */
  lemma TransferLossless(src: seq<Byte>)
    ensures exists n :: |src| <= n < |src| + XLEN && Receive(Transfer(src)) == Some(Filled(src, 0, n))
  {
    var k := Units(|src|, XLEN);
    ReceivesPrefix(src, k);
    var n := XLEN * k;
    assert |src| <= n < |src| + XLEN;
  }

  // ---- The whole image ---------------------------------------------------------------------------

  /** The transfers of the first `k` pages of an image. */
  function Pages(firmware: seq<Byte>, k: nat): (ts: seq<seq<seq<Byte>>>)
    ensures |ts| == k
  {
    if k == 0 then [] else Pages(firmware, k - 1) + [Transfer(Filled(firmware, PAGE * (k - 1), PAGE))]
  }

  /** What a device holds after receiving the pages one after another. */
  function Flash(transfers: seq<seq<seq<Byte>>>): Option<seq<Byte>> {
    if transfers == [] then Some([])
    else
      var n := |transfers| - 1;
      match Flash(transfers[..n])
      case None => None
      case Some(image) =>
        match Receive(transfers[n])
        case None => None
        case Some(page) => Some(image + page)
  }

  lemma PageArrives(firmware: seq<Byte>, lo: nat)
    ensures Receive(Transfer(Filled(firmware, lo, PAGE))) == Some(Filled(firmware, lo, PAGE))
  {
    var page := Filled(firmware, lo, PAGE);
    ReceivesPrefix(page, 4);
    assert Filled(page, 0, PAGE) == page;
  }

  lemma FlashSnoc(transfers: seq<seq<seq<Byte>>>, image: seq<Byte>, t: seq<seq<Byte>>, page: seq<Byte>, all: seq<Byte>)
    requires Flash(transfers) == Some(image) && Receive(t) == Some(page) && all == image + page
    ensures Flash(transfers + [t]) == Some(all)
  {
    assert (transfers + [t])[..|transfers|] == transfers;
  }

  lemma NextPageArrives(firmware: seq<Byte>, lo: nat, transfers: seq<seq<seq<Byte>>>, t: seq<seq<Byte>>)
    requires Flash(transfers) == Some(Filled(firmware, 0, lo)) && Receive(t) == Some(Filled(firmware, lo, PAGE))
    ensures Flash(transfers + [t]) == Some(Filled(firmware, 0, lo + PAGE))
  {
    FilledJoins(firmware, 0, lo, PAGE);
    FlashSnoc(transfers, Filled(firmware, 0, lo), t, Filled(firmware, lo, PAGE), Filled(firmware, 0, lo + PAGE));
  }

  lemma PagesSnoc(firmware: seq<Byte>, k: nat, lo: nat)
    requires lo == PAGE * k
    ensures Pages(firmware, k + 1) == Pages(firmware, k) + [Transfer(Filled(firmware, lo, PAGE))]
  {
  }

  lemma OneMorePage(firmware: seq<Byte>, k: nat, lo: nat, hi: nat)
    requires lo == PAGE * k && hi == lo + PAGE && Flash(Pages(firmware, k)) == Some(Filled(firmware, 0, lo))
    ensures Flash(Pages(firmware, k + 1)) == Some(Filled(firmware, 0, hi))
  {
    var t := Transfer(Filled(firmware, lo, PAGE));
    PageArrives(firmware, lo);
    PagesSnoc(firmware, k, lo);
    NextPageArrives(firmware, lo, Pages(firmware, k), t);
  }

  lemma {:induction false} PagesArrive(firmware: seq<Byte>, k: nat)
    ensures Flash(Pages(firmware, k)) == Some(Filled(firmware, 0, PAGE * k))
  {
    if k == 0 {
      assert Filled(firmware, 0, 0) == [];
    } else {
      PagesArrive(firmware, k - 1);
      OneMorePage(firmware, k - 1, PAGE * (k - 1), PAGE * k);
    }
  }

  /** The device ends up with exactly the firmware, followed by the zeros that fill its last page. */
  lemma UploadLossless(firmware: seq<Byte>)
    ensures var flash := Flash(Pages(firmware, Units(|firmware|, PAGE)));
            && flash.Some? && firmware <= flash.value
            && |flash.value| % PAGE == 0 && |flash.value| < |firmware| + PAGE
            && forall i :: |firmware| <= i < |flash.value| ==> flash.value[i] == 0
  {
    var k := Units(|firmware|, PAGE);
    PagesArrive(firmware, k);
    FilledIsPadding(firmware, PAGE * k);
  }

  // ---- The sending end ---------------------------------------------------------------------------

  /** What the calls made for one transfer return. A status of zero means success, and the uploader
      takes it for a failure everywhere: `reset(t)` is the status of uart0_reset in the t-th try of the
      handshake, and `malloc`, `push` and `write` are those of the calls in sam_write. `cts(t)` is the
      byte read in the t-th try, `answers(i)` the one read after the i-th block, and after the end
      mark. */
  datatype Session = Session(reset: nat -> int, malloc: int, push: int, write: int,
                             cts: nat -> Byte, answers: nat -> Byte)

  const CLEAR: Byte := 0x43     // 'C'

  /** The handshake succeeds in try `t`. */
  ghost predicate GrantedAt(s: Session, t: nat) {
    s.cts(t) == CLEAR && (forall j :: 0 <= j < t ==> s.cts(j) != CLEAR) && (forall j :: 0 <= j <= t ==> s.reset(j) != 0)
  }

  ghost predicate Granted(s: Session) {
    exists t :: 0 <= t < 4 && GrantedAt(s, t)
  }

  /** How often the command that opens a transfer is written: in every try whose reset passes, until
      the answer is the clear-to-send byte, and at most five times. */
  ghost predicate Commanded(s: Session, n: nat) {
    && n <= 5 && (forall j :: 0 <= j < n ==> s.reset(j) != 0)
    && (forall j :: 0 <= j < n - 1 ==> s.cts(j) != CLEAR)
    && (n < 5 ==> s.reset(n) == 0 || (n > 0 && s.cts(n - 1) == CLEAR))
  }

  /** The tries of sam_ba_copy. A fifth one is made, and is in vain. */
  method Handshake(s: Session) returns (ok: bool, commands: nat)
    ensures ok <==> Granted(s)
    ensures Commanded(s, commands)
  {
    var tries := 0;
    while true
      invariant 0 <= tries <= 4
      invariant forall j :: 0 <= j < tries ==> s.cts(j) != CLEAR && s.reset(j) != 0
      decreases 5 - tries
    {
      if s.reset(tries) == 0 { return false, tries; }
      if s.cts(tries) == CLEAR { break; }
      if tries >= 4 { return false, 5; }
      tries := tries + 1;
    }
    ok, commands := tries < 4, tries + 1;
    if ok { assert GrantedAt(s, tries); }
  }

  /** What sam_write hands to the serial line. */
  function Handed(data: seq<Byte>, s: Session): seq<Byte> {
    if s.malloc == 0 || s.push == 0 then []
    else if s.write == 0 && |data| > 128 then data[..128]
    else data
  }

  method SamWrite(data: seq<Byte>, s: Session) returns (handed: seq<Byte>)
    ensures handed == Handed(data, s)
    ensures handed <= data
    ensures |handed| == if s.malloc == 0 || s.push == 0 then 0 else if s.write == 0 then Min(|data|, 128) else |data|
  {
    handed := [];
    if s.malloc == 0 { return; }
    var length := |data|;
    while length > 0
      invariant 0 <= length <= |data| && handed == data[..|data| - length]
      invariant length < |data| ==> s.push != 0 && s.write != 0
    {
      var len := if length >= 128 then 128 else length;
      if s.push == 0 { return; }
      handed := handed + data[|data| - length..|data| - length + len];
      if s.write == 0 { return; }
      length := length - len;
    }
  }

  /** Blocks reach the line whole exactly when none of the calls in sam_write reports success. */
  predicate Transports(s: Session) { s.malloc != 0 && s.push != 0 && s.write != 0 }

  lemma HandedWholeIff(i: nat, data: seq<Byte>, s: Session)
    requires |data| == XLEN
    ensures Handed(Block(i, data), s) == Block(i, data) <==> Transports(s)
  {
    assert |Block(i, data)| == 133;
  }

  predicate AllAcknowledged(answers: nat -> Byte, n: nat) {
    forall i | 0 <= i < n :: answers(i) == ACK
  }

  /** One packet: `len` bytes of the source after `i` whole blocks of it, over zeros. */
  method MakePacket(src: seq<Byte>, i: nat, len: nat, signedChar: bool) returns (packet: seq<Byte>)
    requires XLEN * i + len <= |src| && len <= XLEN && (len < XLEN ==> XLEN * i + len == |src|)
    ensures packet == Block(i, Filled(src, XLEN * i, XLEN))
  {
    var data := src[XLEN * i..XLEN * i + len] + Filled([], 0, XLEN - len);
    SliceFilled(src, XLEN * i, len, XLEN);
    var lo, hi := LfCrc(data, signedChar);
    packet := [SOH, (i + 1) % 256, 255 - (i + 1) % 256] + data + [hi, lo];
  }

  /** `left` of `n` bytes are still to be sent after `i` blocks. */
  predicate Remaining(n: nat, i: nat, left: nat) {
    && left <= n && i <= Units(n, XLEN)
    && (left == 0 <==> i == Units(n, XLEN))
    && (left > 0 ==> n - left == XLEN * i)
  }

  lemma RemainingStep(n: nat, i: nat, left: nat, len: nat)
    requires Remaining(n, i, left) && left > 0 && len == if left > XLEN then XLEN else left
    ensures XLEN * i + len <= n && (len < XLEN ==> XLEN * i + len == n)
    ensures Remaining(n, i + 1, left - len)
  {
  }

  datatype Outcome = Sent | Cancelled | Refused

  /** The next block of a transfer with `length` bytes left. */
  method NextBlock(src: seq<Byte>, i: nat, length: nat, blocks: seq<seq<Byte>>, signedChar: bool)
    returns (blocks': seq<seq<Byte>>, len: nat)
    requires Remaining(|src|, i, length) && length > 0 && blocks == Blocks(src, i)
    ensures 0 < len <= length && Remaining(|src|, i + 1, length - len) && blocks' == Blocks(src, i + 1)
  {
    len := if length > XLEN then XLEN else length;
    RemainingStep(|src|, i, length, len);
    var packet := MakePacket(src, i, len, signedChar);
    blocks' := blocks + [packet];
  }

  /** How the block loop ends, of `n` blocks `acked` having been acknowledged. */
  ghost predicate LoopEnds(n: nat, answers: nat -> Byte, outcome: Outcome, acked: nat) {
    && AllAcknowledged(answers, acked)
    && (if outcome == Sent then acked == n else acked < n && answers(acked) != ACK)
    && (outcome == Cancelled ==> answers(acked) == CAN) && (outcome == Refused ==> answers(acked) != CAN)
  }

  lemma AckedOneMore(answers: nat -> Byte, n: nat)
    requires AllAcknowledged(answers, n) && answers(n) == ACK
    ensures AllAcknowledged(answers, n + 1)
  {
  }

  /** The block loop of sam_ba_copy. Its blocks are handed to sam_write one by one; `acked` counts
      those acknowledged. */
  method SendBlocks(src: seq<Byte>, answers: nat -> Byte, signedChar: bool)
    returns (outcome: Outcome, acked: nat, blocks: seq<seq<Byte>>)
    ensures LoopEnds(Units(|src|, XLEN), answers, outcome, acked)
    ensures blocks == Blocks(src, if outcome == Sent then acked else acked + 1)
  {
    blocks, acked, outcome := [], 0, Sent;
    var length: nat := |src|;
    while length > 0
      invariant Remaining(|src|, acked, length)
      invariant blocks == Blocks(src, acked)
      invariant AllAcknowledged(answers, acked)
    {
      var len;
      blocks, len := NextBlock(src, acked, length, blocks, signedChar);
      var c := answers(acked);
      if c == CAN { return Cancelled, acked, blocks; }
      if c != ACK { return Refused, acked, blocks; }
      AckedOneMore(answers, acked);
      length := length - len;
      acked := acked + 1;
    }
    outcome := Sent;
  }

  /** The blocks as sam_write hands them to the line. */
  function HandedAll(blocks: seq<seq<Byte>>, s: Session): (line: seq<seq<Byte>>)
    ensures |line| == |blocks| && forall i :: 0 <= i < |blocks| ==> line[i] == Handed(blocks[i], s)
  {
    seq(|blocks|, i requires 0 <= i < |blocks| => Handed(blocks[i], s))
  }

  method WriteAll(blocks: seq<seq<Byte>>, s: Session) returns (line: seq<seq<Byte>>)
    ensures line == HandedAll(blocks, s)
  {
    line := [];
    for i := 0 to |blocks|
      invariant |line| == i && forall k :: 0 <= k < i ==> line[k] == Handed(blocks[k], s)
    {
      var handed := SamWrite(blocks[i], s);
      line := line + [handed];
    }
  }

  /** How many blocks are built for `src`: none without a handshake, and none after an answer that is
      not an acknowledgement. */
  ghost predicate Attempted(src: seq<Byte>, s: Session, n: nat) {
    && n <= Units(|src|, XLEN)
    && (n > 0 ==> Granted(s) && AllAcknowledged(s.answers, n - 1))
    && (n < Units(|src|, XLEN) ==> !Granted(s) || (n > 0 && s.answers(n - 1) != ACK))
  }

  /** sam_ba_copy. It reports success, which is zero, exactly when the handshake succeeds and every
      block and the end mark are acknowledged. What is on the line are the commands of the handshake,
      the blocks it attempted, as sam_write hands them over, and after all of them the end mark. */
  method SamBaCopy(src: seq<Byte>, s: Session, signedChar: bool)
    returns (e: int, commands: nat, line: seq<seq<Byte>>, marked: bool, ghost n: nat)
    ensures e == 0 || e == 1
    ensures e == 0 <==> Granted(s) && AllAcknowledged(s.answers, Units(|src|, XLEN) + 1)
    ensures Commanded(s, commands)
    ensures Attempted(src, s, n) && line == HandedAll(Blocks(src, n), s)
    ensures marked <==> Granted(s) && AllAcknowledged(s.answers, Units(|src|, XLEN))
  {
    var granted;
    granted, commands := Handshake(s);
    if !granted { return 1, commands, [], false, 0; }
    var outcome, acked, blocks := SendBlocks(src, s.answers, signedChar);
    n := |blocks|;
    line := WriteAll(blocks, s);
    if outcome != Sent { return 1, commands, line, false, n; }
    marked := true;
    e := if s.answers(acked) == ACK then 0 else 1;
  }

  /** Reads a file into whole pages. Past its end every read reports the end of the file. */
  method LoadPageData(firmware: seq<Byte>, size: nat) returns (raw: array<Byte>)
    ensures fresh(raw) && raw.Length == PAGE * Units(size, PAGE)
    ensures raw[..] == Filled(firmware, 0, raw.Length)
  {
    var pages := Units(size, PAGE);
    raw := new Byte[PAGE * pages];
    var pos := 0;
    for i := 0 to pages
      invariant pos == PAGE * i
      invariant forall k :: 0 <= k < PAGE * i ==> raw[k] == ByteAt(firmware, k)
    {
      for j := 0 to PAGE
        invariant pos == PAGE * i + j
        invariant forall k :: 0 <= k < PAGE * i + j ==> raw[k] == ByteAt(firmware, k)
      {
        raw[PAGE * i + j] := if pos < |firmware| then firmware[pos] else 0;
        pos := pos + 1;
      }
    }
  }

  /** All four blocks of a page are on the line. */
  ghost predicate PageOut(s: Session) { Granted(s) && Transports(s) && AllAcknowledged(s.answers, 3) }

  /** sam_ba_copy reports success for a page. */
  ghost predicate Confirmed(s: Session) { Granted(s) && AllAcknowledged(s.answers, 5) }

  lemma PageOutIff(page: seq<Byte>, s: Session, n: nat)
    requires |page| == PAGE && Attempted(page, s, n)
    ensures HandedAll(Blocks(page, n), s) == Transfer(page) <==> PageOut(s)
    ensures !Granted(s) ==> n == 0
  {
    assert Units(PAGE, XLEN) == 4;
    if n > 0 { FirstBlock(page, n, s); }
    if PageOut(s) {
      assert n == 4;
      forall i | 0 <= i < 4 ensures Handed(Blocks(page, 4)[i], s) == Blocks(page, 4)[i] { FirstBlock(page, 4, s); }
    }
  }

  lemma FirstBlock(src: seq<Byte>, n: nat, s: Session)
    requires n > 0
    ensures Handed(Blocks(src, n)[0], s) == Blocks(src, n)[0] <==> Transports(s)
    ensures Transports(s) ==> forall i :: 0 <= i < n ==> Handed(Blocks(src, n)[i], s) == Blocks(src, n)[i]
    decreases n
  {
    if n == 1 {
      HandedWholeIff(0, Filled(src, 0, XLEN), s);
    } else {
      FirstBlock(src, n - 1, s);
      HandedWholeIff(n - 1, Filled(src, XLEN * (n - 1), XLEN), s);
    }
  }

  /** One turn of the page loop. */
  method SendPage(raw: seq<Byte>, page: nat, ghost firmware: seq<Byte>, s: Session, signedChar: bool)
    returns (e: int, line: seq<seq<Byte>>)
    requires PAGE * page + PAGE <= |raw| && raw == Filled(firmware, 0, |raw|)
    ensures e == 0 <==> Confirmed(s)
    ensures line == Transfer(Filled(firmware, PAGE * page, PAGE)) <==> PageOut(s)
    ensures !Granted(s) ==> line == []
  {
    SliceOfFilled(firmware, |raw|, PAGE * page, PAGE);
    var src := raw[PAGE * page..PAGE * page + PAGE];
    var commands, marked;
    ghost var n;
    e, commands, line, marked, n := SamBaCopy(src, s, signedChar);
    PageOutIff(src, s, n);
  }

  /** What is on the line for a page. */
  ghost predicate PageLine(firmware: seq<Byte>, page: nat, s: Session, line: seq<seq<Byte>>) {
    && (line == Transfer(Filled(firmware, PAGE * page, PAGE)) <==> PageOut(s))
    && (!Granted(s) ==> line == [])
  }

  /** What the page loop does: it leaves after the first page for which sam_ba_copy reports success,
      because success is zero, and walks all of them if there is none. */
  ghost predicate Walked(firmware: seq<Byte>, pages: nat, sessions: nat -> Session, finished: bool, lines: seq<seq<seq<Byte>>>) {
    && |lines| <= pages && (finished ==> |lines| == pages) && (!finished ==> lines != [])
    && (forall p :: 0 <= p < |lines| ==> (Confirmed(sessions(p)) <==> !finished && p == |lines| - 1))
    && (forall p :: 0 <= p < |lines| ==> PageLine(firmware, p, sessions(p), lines[p]))
  }

  method SendEach(raw: seq<Byte>, pages: nat, ghost firmware: seq<Byte>, sessions: nat -> Session, signedChar: bool)
    returns (finished: bool, lines: seq<seq<seq<Byte>>>)
    requires |raw| == PAGE * pages && raw == Filled(firmware, 0, |raw|)
    ensures Walked(firmware, pages, sessions, finished, lines)
  {
    lines := [];
    for page := 0 to pages
      invariant |lines| == page
      invariant forall p :: 0 <= p < page ==> !Confirmed(sessions(p))
      invariant forall p :: 0 <= p < page ==> PageLine(firmware, p, sessions(p), lines[p])
    {
      var e, line := SendPage(raw, page, firmware, sessions(page), signedChar);
      lines := lines + [line];
      if e == 0 { return false, lines; }
    }
    finished := true;
  }

  /** The upload of a firmware. */
  method SendPages(firmware: seq<Byte>, sessions: nat -> Session, signedChar: bool)
    returns (finished: bool, lines: seq<seq<seq<Byte>>>)
    ensures Walked(firmware, Units(|firmware|, PAGE), sessions, finished, lines)
  {
    var pagedata := LoadPageData(firmware, |firmware|);
    finished, lines := SendEach(pagedata[..], Units(|firmware|, PAGE), firmware, sessions, signedChar);
  }

  // ---- When the image goes out -------------------------------------------------------------------

  lemma {:induction false} PagesAt(firmware: seq<Byte>, k: nat, p: nat)
    requires p < k
    ensures Pages(firmware, k)[p] == Transfer(Filled(firmware, PAGE * p, PAGE))
  {
    if p < k - 1 { PagesAt(firmware, k - 1, p); }
  }

  /** Each page is transmitted in full, and none but the last is confirmed. */
  ghost predicate EveryPageOut(sessions: nat -> Session, pages: nat) {
    forall p :: 0 <= p < pages ==> PageOut(sessions(p)) && (p < pages - 1 ==> !Confirmed(sessions(p)))
  }

  /** The pages are on the line as they should be if and only if every page's handshake and transport
      go through, its blocks are acknowledged, and no end mark but the last is. */
  lemma ImageOutIff(firmware: seq<Byte>, pages: nat, sessions: nat -> Session, finished: bool, lines: seq<seq<seq<Byte>>>)
    requires Walked(firmware, pages, sessions, finished, lines)
    ensures lines == Pages(firmware, pages) <==> EveryPageOut(sessions, pages)
  {
    forall p | 0 <= p < pages ensures Pages(firmware, pages)[p] == Transfer(Filled(firmware, PAGE * p, PAGE)) {
      PagesAt(firmware, pages, p);
    }
    if lines == Pages(firmware, pages) {
      forall p | 0 <= p < pages ensures PageOut(sessions(p)) && (p < pages - 1 ==> !Confirmed(sessions(p))) {
        assert PageLine(firmware, p, sessions(p), lines[p]);
      }
    }
    if EveryPageOut(sessions, pages) {
      assert !finished ==> Confirmed(sessions(|lines| - 1));
      assert |lines| == pages;
      forall p | 0 <= p < pages ensures lines[p] == Pages(firmware, pages)[p] {
        assert PageLine(firmware, p, sessions(p), lines[p]);
      }
    }
  }

  /** uart0_reset returns zero, and then no handshake succeeds: whatever the device answers, the loop
      walks all the pages and puts nothing on the line. */
  lemma ResetEndsEverything(firmware: seq<Byte>, pages: nat, sessions: nat -> Session, finished: bool, lines: seq<seq<seq<Byte>>>)
    requires Walked(firmware, pages, sessions, finished, lines)
    requires forall p: nat, t: nat :: sessions(p).reset(t) == 0
    ensures finished && |lines| == pages && forall p :: 0 <= p < pages ==> lines[p] == []
    ensures lines == Pages(firmware, pages) <==> pages == 0
  {
    forall p: nat ensures !Granted(sessions(p)) { ResetEndsIt(sessions(p)); }
    assert !finished ==> Confirmed(sessions(|lines| - 1));
    ImageOutIff(firmware, pages, sessions, finished, lines);
    if pages > 0 { assert !PageOut(sessions(0)); }
  }

  lemma ResetEndsIt(s: Session)
    requires s.reset(0) == 0
    ensures !Granted(s)
  {
    forall t | 0 <= t < 4 ensures !GrantedAt(s, t) { assert s.reset(0) == 0; }
  }
}
