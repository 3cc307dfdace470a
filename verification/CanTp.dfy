/** The application's transport (src/CanTp.c): one step per frame and per tick,
  * with block size and separation time on the sending side. */
module CanTp {
  import opened Bytes
  import opened IsoTp
  import opened BootIsoTp
  import opened FlowControl

  const CLEAR_TO_SEND: nat := 0
  const WAIT: nat := 1
  const N_CR_TIMEOUT: nat := 1000
  const N_BS_TIMEOUT: nat := 1000

  datatype TxState = TX_IDLE | TX_WAIT_FC | TX_SEND_CF

  /** STmin in milliseconds; 100 to 900 microseconds count as one, what is
    * reserved counts as the maximum. */
  function DecodeStmin(stmin: byte): nat {
    if stmin <= 0x7F then stmin else if 0xF1 <= stmin <= 0xF9 then 1 else 127
  }

  /** Against the standard's coding (section 9.6.5.4 of ISO 15765-2:2016): full
    * milliseconds up to 127; 0xF1 to 0xF9 are 100 to 900 microseconds; the rest is
    * reserved and stands for the longest. The sender never waits less, and less
    * than one tick more. */
  lemma StminIsKept(stmin: byte)
    ensures stmin <= 127 ==> DecodeStmin(stmin) == stmin
    ensures 0xF1 <= stmin <= 0xF9 ==>
      var micros := 100 * (stmin - 0xF0);
      micros <= 1000 * DecodeStmin(stmin) < micros + 1000
    ensures 127 < stmin < 0xF1 || 0xF9 < stmin ==> DecodeStmin(stmin) == 127
  {
  }

  /** Tick arithmetic: what a wrapped difference shows has really passed. */
  lemma TicksPassed(earlier: nat, later: nat)
    requires earlier <= later
    ensures Subtract(later % WORD_MODULUS, earlier % WORD_MODULUS) <= later - earlier
  {
    var a, b := later / WORD_MODULUS, earlier / WORD_MODULUS;
    var x := later % WORD_MODULUS - earlier % WORD_MODULUS;
    assert later - earlier == x + (a - b) * WORD_MODULUS;
    assert Subtract(later % WORD_MODULUS, earlier % WORD_MODULUS) == if x >= 0 then x else x + WORD_MODULUS;
  }

  // -------------------------------------------------------------- the receiver

  /** What one frame does to the application's receiver; `space` is room in the
    * request queue, `granted` says that the flow control frame could be queued. */
  function AcceptApp(r: Receiver, f: Frame, space: bool, granted: bool): Received {
    if f.id != REQUEST_ID || f.dlc == 0 || f.dlc > FRAME_SIZE then Received(r, None)
    else if Pci(f.data[0]) == SINGLE then
      var count := Low(f.data[0]);
      if count == 0 || count > 7 || count + 1 > f.dlc then Received(r, None)
      else Received(Resting, Some(f.data[1..1 + count]))
    else if Pci(f.data[0]) == FIRST then
      var total := Low(f.data[0]) * 256 + f.data[1] as nat;
      if f.dlc != 8 || total <= 7 || total > MAX_PDU || !space || !granted then Received(Resting, None)
      else Received(Collecting(total, f.data[2..8], 1), None)
    else if Pci(f.data[0]) == CONSECUTIVE && r.Collecting? && f.dlc > 1 then
      if Low(f.data[0]) != r.next then Received(Resting, None)
      else
        var count := if |r.data| <= r.length then Min(f.dlc - 1, r.length - |r.data|) else 0;
        var data := r.data + f.data[1..1 + count];
        if |data| >= r.length then Received(Resting, Some(data))
        else Received(Collecting(r.length, data, (r.next + 1) % 16), None)
    else Received(r, None)
  }

  /** On full frames, which is all that either sender sends, the application's
    * receiver is the bootloader's. */
  lemma ReceiversAgree(r: Receiver, f: Frame)
    requires f.dlc == 8 && (r.Collecting? ==> |r.data| < r.length)
    ensures AcceptApp(r, f, true, true) == Accept(r, f)
  {
  }

  // ---------------------------------------------------------------- the sender

  /** The frames that carry payload. */
  function Payloads(frames: seq<Frame>): seq<Frame>
    decreases |frames|
  {
    if frames == [] then []
    else
      var last := frames[|frames| - 1];
      Payloads(frames[..|frames| - 1]) + (if Pci(last.data[0]) == FLOW_CONTROL then [] else [last])
  }

  lemma PayloadsAppend(frames: seq<Frame>, f: Frame)
    ensures Payloads(frames + [f]) == Payloads(frames) + (if Pci(f.data[0]) == FLOW_CONTROL then [] else [f])
  {
    assert (frames + [f])[..|frames|] == frames;
  }

  /** `emitted` is what has been sent of `pdu` with `count` consecutive frames. */
  predicate Emitted(emitted: seq<Frame>, pdu: seq<byte>, count: nat) {
    && 7 < |pdu| <= MAX_PDU && count <= Consecutives(|pdu|)
    && |Segments(pdu, RESPONSE_ID)| == Consecutives(|pdu|) + 1
    && emitted == Segments(pdu, RESPONSE_ID)[..count + 1]
  }

  lemma FirstEmitted(pdu: Pdu)
    requires |pdu| > 7
    ensures Emitted([Frame(RESPONSE_ID, 8, FirstFrame(pdu))], pdu, 0) && Carried(|pdu|, 0) == 6
    ensures 0 < Consecutives(|pdu|)
  {
    hide FirstFrame, ConsecutiveFrame;
    CarriedAll(|pdu|);
    SegmentsAt(pdu, RESPONSE_ID, 0);
  }

  lemma NextEmitted(emitted: seq<Frame>, pdu: Pdu, count: nat)
    requires Emitted(emitted, pdu, count) && count < Consecutives(|pdu|)
    ensures Emitted(emitted + [Frame(RESPONSE_ID, 8, ConsecutiveFrame(pdu, count + 1))], pdu, count + 1)
    ensures Carried(|pdu|, count) < |pdu|
    ensures Carried(|pdu|, count + 1) == Carried(|pdu|, count) + Min(7, |pdu| - Carried(|pdu|, count))
    ensures Carried(|pdu|, count + 1) == |pdu| <==> count + 1 == Consecutives(|pdu|)
  {
    hide FirstFrame, ConsecutiveFrame, Segments, Carried;
    SegmentsAt(pdu, RESPONSE_ID, count);
  }

  /** A message sent to its end is received, whatever else was on the way. */
  lemma CompleteIsReceived(emitted: seq<Frame>, pdu: Pdu, r: Receiver)
    requires Emitted(emitted, pdu, Consecutives(|pdu|))
    ensures Messages(r, Relabelled(emitted, REQUEST_ID)) == [pdu]
  {
    hide Messages;
    assert emitted == Segments(pdu, RESPONSE_ID);
    SentIsReceived(pdu, RESPONSE_ID, r);
  }

  /** The static variables of the sending side. */
  datatype Tx = Tx(state: TxState, length: nat, offset: nat, nextSn: nat, blockSize: nat, blockCounter: nat, stmin: nat,
                   lastActivity: word, lastCf: word)

  const NO_TX: Tx := Tx(TX_IDLE, 0, 0, 1, 0, 0, 0, 0, 0)

  /** The long message that is, or was last, being sent, and what came of it. */
  datatype Sent = Sent(pdu: seq<byte>, emitted: seq<Frame>, cfs: seq<Sending>, grants: seq<Grant>)

  const NOTHING: Sent := Sent([], [], [], [])

  /** Over every interleaving: what was sent is a prefix of the message's frames,
    * in blocks and with separation times as granted. */
  predicate Ordered(h: Sent, clock: nat) {
    && Separated(h.cfs, h.grants) && Blocked(h.cfs, h.grants)
    && (h.emitted == [] ==> h.cfs == [])
    && (h.emitted != [] ==> Emitted(h.emitted, h.pdu, |h.cfs|))
    && (h.cfs != [] ==> h.cfs[|h.cfs| - 1].time <= clock)
  }

  /** The sender's variables while it is sending. */
  predicate InProgress(tx: Tx, h: Sent, buffer: seq<byte>) {
    tx.state != TX_IDLE ==>
      && h.emitted != [] && |h.cfs| < Consecutives(|h.pdu|) && tx.length == |h.pdu| <= |buffer|
         && buffer[..tx.length] == h.pdu
      && tx.offset == Carried(|h.pdu|, |h.cfs|) && tx.nextSn == (|h.cfs| + 1) % 16
  }

  predicate Permitted(tx: Tx, h: Sent, clock: nat) {
    tx.state == TX_SEND_CF ==>
      && h.grants != []
      && var g, last := h.grants[|h.grants| - 1], LastEvent(h.cfs, h.grants);
         && g.blockSize == tx.blockSize && g.stmin == tx.stmin
         && CountedUnderLast(h.cfs, h.grants, tx.blockCounter) && (g.blockSize != 0 ==> tx.blockCounter < g.blockSize)
         && g.time <= last <= clock && (h.cfs != [] ==> h.cfs[|h.cfs| - 1].time <= last)
         && tx.lastCf == last % WORD_MODULUS
  }

  /** All of it. */
  predicate Sound(tx: Tx, h: Sent, buffer: seq<byte>, clock: nat) {
    Ordered(h, clock) && InProgress(tx, h, buffer) && Permitted(tx, h, clock)
  }

  lemma RestSound(tx: Tx, h: Sent, buffer: seq<byte>, clock: nat)
    requires Sound(tx, h, buffer, clock)
    ensures Sound(NO_TX, h, buffer, clock)
  {
    hide Separated, Blocked, Emitted;
  }

  lemma IdleIsSound(tx: Tx, buffer: seq<byte>, clock: nat)
    requires tx.state == TX_IDLE
    ensures Sound(tx, NOTHING, buffer, clock)
  {
    hide Separated, Blocked, Emitted;
    NothingSent();
  }

  lemma LaterSound(tx: Tx, h: Sent, buffer: seq<byte>, clock: nat, later: nat)
    requires Sound(tx, h, buffer, clock) && clock <= later
    ensures Sound(tx, h, buffer, later)
  {
    hide Separated, Blocked, Emitted, Consecutives, Carried, CountedUnderLast;
  }

  /** The sender is idle: its buffer may be overwritten. */
  lemma IdleSound(tx: Tx, h: Sent, buffer: seq<byte>, other: seq<byte>, clock: nat)
    requires Sound(tx, h, buffer, clock) && tx.state == TX_IDLE
    ensures forall length: nat :: Sound(tx.(length := length), h, other, clock)
  {
    hide Separated, Blocked, Emitted, Consecutives, Carried, CountedUnderLast;
  }

  lemma NothingSent()
    ensures Separated([], []) && Blocked([], [])
  {
  }

  lemma StartSound(pdu: Pdu, buffer: seq<byte>, clock: nat, now: word, lastCf: word)
    requires |pdu| > 7 && |pdu| <= |buffer| && buffer[..|pdu|] == pdu
    ensures var frame := Frame(RESPONSE_ID, 8, FirstFrame(pdu));
      Sound(Tx(TX_WAIT_FC, |pdu|, 6, 1, 0, 0, 0, now, lastCf), Sent(pdu, [frame], [], []), buffer, clock)
  {
    hide FirstFrame, ConsecutiveFrame, Segments, Carried, Consecutives, Emitted, Separated, Blocked, CountedUnderLast,
         LastEvent;
    NothingSent();
    FirstEmitted(pdu);
  }

  /** A clear-to-send opens a new block. */
  lemma GrantSound(tx: Tx, h: Sent, buffer: seq<byte>, clock: nat, blockSize: nat, stmin: nat)
    requires Sound(tx, h, buffer, clock) && tx.state == TX_WAIT_FC
    ensures var now := clock % WORD_MODULUS;
      Sound(tx.(state := TX_SEND_CF, blockSize := blockSize, blockCounter := 0, stmin := stmin, lastActivity := now,
                lastCf := now),
            h.(grants := h.grants + [Grant(blockSize, stmin, clock)]), buffer, clock)
  {
    hide Separated, Blocked, Emitted, Consecutives, Carried, CountedUnderLast, LastEvent;
    GrantAdded(h.cfs, h.grants, Grant(blockSize, stmin, clock));
    LastGrant(h.cfs, h.grants, Grant(blockSize, stmin, clock));
  }

  lemma LastGrant(cfs: seq<Sending>, grants: seq<Grant>, g: Grant)
    ensures (grants + [g])[|grants + [g]| - 1] == g
  {
  }

  /** The separation time has passed, by the tick counter. */
  predicate Due(tx: Tx, now: word) { tx.state == TX_SEND_CF && Subtract(now, tx.lastCf) >= tx.stmin }

  /** One more consecutive frame, when it is due. */
  lemma SendSound(tx: Tx, h: Sent, buffer: seq<byte>, clock: nat, blockCounter: nat)
    requires Sound(tx, h, buffer, clock) && Due(tx, clock % WORD_MODULUS)
    requires blockCounter == tx.blockCounter + 1
    ensures 7 < |h.pdu| <= MAX_PDU && |h.cfs| < Consecutives(|h.pdu|) && tx.length == |h.pdu|
    ensures tx.offset < tx.length <= |buffer|
    ensures buffer[..tx.length] == h.pdu && tx.offset == Carried(|h.pdu|, |h.cfs|) && tx.nextSn == (|h.cfs| + 1) % 16
    ensures var n := Sent(h.pdu, h.emitted + [Frame(RESPONSE_ID, 8, ConsecutiveFrame(h.pdu, |h.cfs| + 1))],
                          h.cfs + [Sending(clock, |h.grants| - 1)], h.grants);
      var now := clock % WORD_MODULUS;
      var offset := tx.offset + Min(7, tx.length - tx.offset);
      && h.grants != [] && Emitted(n.emitted, n.pdu, |n.cfs|)
      && (offset >= tx.length <==> |n.cfs| == Consecutives(|n.pdu|))
      && (offset >= tx.length ==> Sound(NO_TX, n, buffer, clock))
      && (offset < tx.length && tx.blockSize != 0 && blockCounter >= tx.blockSize ==>
            Sound(tx.(state := TX_WAIT_FC, offset := offset, nextSn := (tx.nextSn + 1) % 16, blockCounter := 0,
                      lastActivity := now, lastCf := now),
                  n, buffer, clock))
      && (offset < tx.length && !(tx.blockSize != 0 && blockCounter >= tx.blockSize) ==>
            Sound(tx.(offset := offset, nextSn := (tx.nextSn + 1) % 16, blockCounter := blockCounter,
                      lastActivity := now, lastCf := now),
                  n, buffer, clock))
  {
    hide Separated, Blocked, Emitted, Segments, FirstFrame, ConsecutiveFrame, Carried, Consecutives, LastEvent,
         CountedUnderLast, Subtract;
    EmittedLong(h.emitted, h.pdu, |h.cfs|);
    NextEmitted(h.emitted, h.pdu, |h.cfs|);
    TicksPassed(LastEvent(h.cfs, h.grants), clock);
    FrameAdded(h.cfs, h.grants, tx.blockCounter, clock);
    var g := h.grants[|h.grants| - 1];
    assert g.time <= clock;
  }

  lemma EmittedLong(emitted: seq<Frame>, pdu: seq<byte>, count: nat)
    requires Emitted(emitted, pdu, count)
    ensures 7 < |pdu| <= MAX_PDU
  {
  }

  datatype Event = Poll(time: nat) | Arrival(time: nat, frame: Frame, space: bool)

  /** Events come in the order of their times. */
  predicate InTime(clock: nat, events: seq<Event>)
    decreases |events|
  {
    events != [] ==> clock <= events[0].time && InTime(events[0].time, events[1..])
  }

  lemma TimeGoesOn(clock: nat, events: seq<Event>)
    requires InTime(clock, events) && events != []
    ensures clock <= events[0].time && InTime(events[0].time, events[1..])
  {
  }

  /** A flow control frame with which the receiver ends the transmission. */
  predicate GivenUp(f: Frame) {
    && f.id == REQUEST_ID && 3 <= f.dlc <= FRAME_SIZE && Pci(f.data[0]) == FLOW_CONTROL
    && Low(f.data[0]) != CLEAR_TO_SEND && Low(f.data[0]) != WAIT
  }

  /** All of the message's frames are out. */
  predicate Whole(h: Sent) { h.emitted != [] && |h.cfs| == Consecutives(|h.pdu|) }

  lemma WholeIsSegments(tx: Tx, h: Sent, buffer: seq<byte>, clock: nat)
    requires Sound(tx, h, buffer, clock) && Whole(h)
    ensures h.emitted == Segments(h.pdu, RESPONSE_ID)
  {
    hide Separated, Blocked, Segments;
  }

  lemma DriveEnds(tx: Tx, h: Sent, buffer: seq<byte>, clock: nat)
    requires Sound(tx, h, buffer, clock)
    ensures h.emitted != [] ==> Emitted(h.emitted, h.pdu, |h.cfs|)
    ensures Separated(h.cfs, h.grants) && Blocked(h.cfs, h.grants)
    ensures Whole(h) ==> h.emitted == Segments(h.pdu, RESPONSE_ID)
  {
    hide Separated, Blocked, Segments, Emitted;
    if Whole(h) {
      WholeIsSegments(tx, h, buffer, clock);
    }
  }

  lemma SendingSound(tx: Tx, h: Sent, buffer: seq<byte>, clock: nat)
    requires Sound(tx, h, buffer, clock) && tx.state == TX_SEND_CF
    ensures |h.cfs| < Consecutives(|h.pdu|)
  {
    hide Separated, Blocked, Segments, Emitted;
  }

  /** Polls until `frames` more frames are out, `passed` ticks after the last one. */
  function Bound(frames: int, stmin: nat, passed: nat): int {
    (frames - 1) * (stmin + 1) + 1 + (if passed >= stmin then 0 else stmin - passed)
  }

  lemma StartBound(frames: int, stmin: nat, passed: nat)
    ensures Bound(frames, stmin, passed) <= frames * (stmin + 1)
  {
  }

  lemma SomeBound(frames: int, stmin: nat, passed: nat)
    requires frames > 0
    ensures Bound(frames, stmin, passed) > 0
  {
  }

  /** A tick brings the next frame nearer; the counter may wrap only when it is due. */
  lemma TickBound(time: nat, last: word, frames: int, stmin: nat)
    requires stmin <= 127
    ensures var now, next := time % WORD_MODULUS, (time + 1) % WORD_MODULUS;
      && (Subtract(now, last) < stmin ==>
           Bound(frames, stmin, Subtract(next, last)) == Bound(frames, stmin, Subtract(now, last)) - 1)
      && (Subtract(now, last) >= stmin ==>
           Bound(frames - 1, stmin, Subtract(next, now)) <= Bound(frames, stmin, Subtract(now, last)) - 1)
  {
    hide Subtract, Bound;
    OneTick(time, last);
    var now, next := time % WORD_MODULUS, (time + 1) % WORD_MODULUS;
    BoundLess(frames, stmin, Subtract(now, last), Subtract(next, last));
    BoundAfterFrame(frames, stmin, Subtract(now, last));
  }

  lemma OneTick(time: nat, last: word)
    ensures var now, next := time % WORD_MODULUS, (time + 1) % WORD_MODULUS;
      && (Subtract(now, last) < WORD_MODULUS - 1 ==> Subtract(next, last) == Subtract(now, last) + 1)
      && Subtract(next, now) == 1
  {
    var now, next := time % WORD_MODULUS, (time + 1) % WORD_MODULUS;
    NextTick(time);
    var x := now - last;
    assert Subtract(now, last) == if x >= 0 then x else x + WORD_MODULUS;
    assert Subtract(next, last) == if next - last >= 0 then next - last else next - last + WORD_MODULUS;
  }

  lemma NextTick(time: nat)
    ensures (time + 1) % WORD_MODULUS == if time % WORD_MODULUS == WORD_MODULUS - 1 then 0 else time % WORD_MODULUS + 1
  {
  }

  lemma BoundLess(frames: int, stmin: nat, passed: nat, later: nat)
    ensures passed < stmin && later == passed + 1 ==> Bound(frames, stmin, later) == Bound(frames, stmin, passed) - 1
  {
  }

  lemma BoundAfterFrame(frames: int, stmin: nat, passed: nat)
    ensures passed >= stmin ==> Bound(frames - 1, stmin, 1) <= Bound(frames, stmin, passed) - 1
  {
    assert (frames - 1) * (stmin + 1) == (frames - 2) * (stmin + 1) + (stmin + 1);
  }

  lemma WaitSound(tx: Tx, h: Sent, buffer: seq<byte>, clock: nat, now: word)
    requires Sound(tx, h, buffer, clock)
    ensures Sound(tx.(lastActivity := now), h, buffer, clock)
  {
    hide Separated, Blocked, Emitted, Consecutives, Carried, CountedUnderLast;
  }

  /** A consecutive frame in the words of the specification. */
  lemma AppConsecutive(r: Receiver, f: Frame)
    requires f.id == REQUEST_ID && 0 < f.dlc <= FRAME_SIZE && Pci(f.data[0]) == CONSECUTIVE
    requires r.Collecting? ==> |r.data| < r.length
    ensures !r.Collecting? || f.dlc <= 1 ==> AcceptApp(r, f, true, true) == Received(r, None)
    ensures r.Collecting? && f.dlc > 1 ==>
      var available, remaining := f.dlc - 1, r.length - |r.data|;
      var count := if available < remaining then available else remaining;
      AcceptApp(r, f, true, true) ==
        if Low(f.data[0]) != r.next then Received(Resting, None)
        else if |r.data| + count >= r.length then Received(Resting, Some(r.data + f.data[1..1 + count]))
        else Received(Collecting(r.length, r.data + f.data[1..1 + count], (r.next + 1) % 16), None)
  {
  }

  /** The queue and the flow control frame matter for first frames only. */
  lemma AppIgnores(r: Receiver, f: Frame)
    ensures Pci(f.data[0]) != FIRST ==>
      forall space: bool, granted: bool :: AcceptApp(r, f, space, granted) == AcceptApp(r, f, true, true)
    ensures f.id == REQUEST_ID && Pci(f.data[0]) !in {SINGLE, FIRST, CONSECUTIVE} ==>
      AcceptApp(r, f, true, true) == Received(r, None)
  {
  }

  lemma MinSeven(remaining: nat)
    ensures Min(7, remaining) == if remaining < 7 then remaining else 7
  {
  }

  lemma FirstPci(pdu: Pdu)
    requires |pdu| > 7
    ensures Pci(FirstFrame(pdu)[0]) == FIRST
  {
  }

  lemma ConsecutivePci(pdu: Pdu, k: nat)
    requires |pdu| > 7 && 1 <= k <= Consecutives(|pdu|)
    ensures Pci(ConsecutiveFrame(pdu, k)[0]) == CONSECUTIVE
  {
    hide Carried;
    CarriedAll(|pdu|);
    SegmentsAt(pdu, RESPONSE_ID, k - 1);
    SequenceNumber(k);
  }

  /** One payload frame more, or none; the message and its grants stay. */
  predicate FrameSent(before: Sent, after: Sent, was: seq<Frame>, sent: seq<Frame>) {
    || (after == before && sent == was)
    || (after.pdu == before.pdu && after.grants == before.grants && |after.cfs| == |before.cfs| + 1
        && |after.emitted| == |before.emitted| + 1 && before.emitted <= after.emitted
        && sent == was + after.emitted[|before.emitted|..])
  }

  lemma FrameSentSelf(h: Sent, sent: seq<Frame>)
    ensures FrameSent(h, h, sent, sent)
  {
  }

  /** The sender after a frame at `now`: done, at the end of its block, or ready for the next. */
  predicate AfterFrame(was: Tx, tx: Tx, h: Sent, now: word) {
    || (tx.state == TX_IDLE && Whole(h))
    || (tx.state == TX_WAIT_FC && was.blockSize != 0)
    || (tx.state == TX_SEND_CF && tx.blockSize == was.blockSize && tx.stmin == was.stmin && tx.lastCf == now)
  }

  predicate IsFlowControl(f: Frame) {
    f.id == REQUEST_ID && 0 < f.dlc <= FRAME_SIZE && Pci(f.data[0]) == FLOW_CONTROL
  }

  /** What a flow control frame does to the sender: it counts only while one is
    * waited for; a clear-to-send permits a block, a wait prolongs the waiting, and
    * anything else ends the transmission. */
  predicate FlowControlled(was: Tx, tx: Tx, before: Sent, h: Sent, f: Frame, now: word, clock: nat) {
    if f.dlc < 3 || was.state != TX_WAIT_FC then tx == was && h == before
    else if f.data[0] % 16 == 0 then
      var stmin := DecodeStmin(f.data[2]);
      && tx == was.(state := TX_SEND_CF, blockSize := f.data[1], blockCounter := 0, stmin := stmin, lastActivity := now,
                    lastCf := now)
      && h == before.(grants := before.grants + [Grant(f.data[1], stmin, clock)])
    else if f.data[0] % 16 == 1 then tx == was.(lastActivity := now) && h == before
    else tx == NO_TX && h == before
  }

  /** What the receiver sends in answer to one frame: a permission exactly for a
    * message it has taken up, an overflow, if the controller takes it, for a long
    * message it has no room for, and otherwise nothing. */
  predicate Answered(f: Frame, space: bool, granted: bool, before: seq<Frame>, sent: seq<Frame>) {
    if f.id == REQUEST_ID && f.dlc == 8 && Pci(f.data[0]) == FIRST && Low(f.data[0]) * 256 + f.data[1] as nat > 7 then
      if space && Low(f.data[0]) * 256 + f.data[1] as nat <= MAX_PDU then
        sent == (if granted then before + [Reply(0x30)] else before)
      else sent == before || sent == before + [Reply(0x32)]
    else sent == before
  }

  class Endpoint {
    const bus: CanBus

    var rxWaiting: bool
    const rxBuffer: array<byte>
    var rxLength: nat
    var rxOffset: nat
    var rxNextSn: nat
    var rxLastActivity: word

    var tx: Tx
    const txBuffer: array<byte>

    ghost var h: Sent
    /** The payload frames that were sent before that message. */
    ghost var base: seq<Frame>
    /** Time that has passed, of which the tick counter shows the lower 32 bits. */
    ghost var clock: nat

    constructor (bus: CanBus)
      ensures this.bus == bus && Valid() && tx.state == TX_IDLE && RxAbstract() == Resting && h.emitted == []
    {
      hide Sound, Payloads;
      IdleIsSound(NO_TX, seq(MAX_PDU, _ => 0), 0);
      this.bus := bus;
      rxBuffer := new byte[MAX_PDU](_ => 0);
      txBuffer := new byte[MAX_PDU](_ => 0);
      rxWaiting, rxLength, rxOffset, rxNextSn, rxLastActivity := false, 0, 0, 1, 0;
      tx := NO_TX;
      h, base, clock := NOTHING, Payloads(bus.sent), 0;
      new;
      assert txBuffer[..] == seq(MAX_PDU, _ => 0);
    }

    /** What was sent on the bus is, in order, what was sent before and of the message. */
    ghost predicate Valid()
      reads this, txBuffer, bus
    {
      && rxBuffer.Length == MAX_PDU && txBuffer.Length == MAX_PDU && rxBuffer != txBuffer
      && (rxWaiting ==> rxOffset < rxLength <= MAX_PDU) && rxNextSn < 16
      && Sound(tx, h, txBuffer[..], clock) && tx.stmin <= 127
      && Payloads(bus.sent) == base + h.emitted
    }

    ghost function RxAbstract(): Receiver
      requires Valid()
      reads this, txBuffer, rxBuffer, bus
    {
      if rxWaiting then Collecting(rxLength, rxBuffer[..rxOffset], rxNextSn) else Resting
    }

    /** CanTp_ResetTx. */
    method ResetTx()
      requires Valid()
      modifies this`tx
      ensures Valid() && tx == NO_TX
    {
      hide Sound, Payloads;
      RestSound(tx, h, txBuffer[..], clock);
      tx := NO_TX;
    }

    /** CanTp_ResetRx. */
    method ResetRx()
      requires Valid()
      modifies this`rxWaiting, this`rxLength, this`rxOffset, this`rxNextSn, this`rxLastActivity
      ensures Valid() && RxAbstract() == Resting && rxNextSn == 1
    {
      hide Sound;
      rxWaiting, rxLength, rxOffset, rxNextSn, rxLastActivity := false, 0, 0, 1, 0;
    }

    /** Time goes on; the tick counter wraps. */
    ghost method Elapse(time: nat)
      requires Valid() && clock <= time
      modifies this`clock
      ensures Valid() && clock == time
    {
      hide Sound;
      LaterSound(tx, h, txBuffer[..], clock, time);
      clock := time;
    }

    // ---------------------------------------------------------------- sending

    /** CanTp_Transmit at `time`, when the tick counter shows `now`. */
    method Transmit(data: seq<byte>, now: word, ghost time: nat) returns (ok: bool)
      requires Valid() && clock <= time && now == time % WORD_MODULUS
      modifies this`tx, this`h, this`base, this`clock, txBuffer, bus
      ensures Valid() && clock == time
      ensures ok <==> 0 < |data| <= MAX_PDU && old(tx).state == TX_IDLE && bus.refusals == old(bus.refusals)
      ensures old(bus.refusals) <= bus.refusals
      ensures ok && |data| <= 7 ==>
        base == old(Payloads(bus.sent)) + Segments(data, RESPONSE_ID) && h == NOTHING && tx == old(tx)
      ensures ok && |data| > 7 ==> base == old(Payloads(bus.sent)) && StartedWith(data)
      ensures ok && |data| > 7 ==> bus.sent == old(bus.sent) + h.emitted
      ensures !ok ==> bus.sent == old(bus.sent) && h == old(h) && base == old(base)
    {
      hide Sound, Payloads, Segments, FirstFrame, ConsecutiveFrame;
      Elapse(time);
      if data == [] || |data| > MAX_PDU || tx.state != TX_IDLE {
        return false;
      }
      if |data| <= 7 {
        ok := SendSingle(data);
        if ok {
          IdleIsSound(tx, txBuffer[..], clock);
          h, base := NOTHING, Payloads(bus.sent);
        }
      } else {
        ok := StartMultiFrame(data, now);
      }
    }

    ghost predicate StartedWith(data: seq<byte>)
      reads this
    {
      && 7 < |data| <= MAX_PDU && h == Sent(data, [Frame(RESPONSE_ID, 8, FirstFrame(data))], [], [])
      && tx.state == TX_WAIT_FC && tx.length == |data|
    }

    /** CanTp_SendSingleFrame. */
    method SendSingle(data: Pdu) returns (ok: bool)
      requires |data| <= 7
      modifies bus
      ensures ok ==> Payloads(bus.sent) == Payloads(old(bus.sent)) + Segments(data, RESPONSE_ID)
      ensures bus.refusals == old(bus.refusals) + (if ok then 0 else 1)
      ensures !ok ==> bus.sent == old(bus.sent)
    {
      hide Payloads;
      var frame := ClearFrame(RESPONSE_ID);
      frame := frame.(data := frame.data[0 := |data|]);
      var i := 0;
      while i < |data|
        invariant 0 <= i <= |data| && frame.id == RESPONSE_ID && frame.dlc == 8
        invariant frame.data == Padded([|data|] + data[..i])
      {
        frame := frame.(data := frame.data[i + 1 := data[i]]);
        i := i + 1;
      }
      assert data[..|data|] == data;
      assert Segments(data, RESPONSE_ID) == [frame];
      PayloadsAppend(bus.sent, frame);
      ok := bus.Transmit(frame);
    }

    /** CanTp_StartMultiFrameTransmit: only the first frame goes out. */
    method StartMultiFrame(data: Pdu, now: word) returns (ok: bool)
      requires Valid() && tx.state == TX_IDLE && |data| > 7
      modifies this`tx, this`h, this`base, txBuffer, bus
      ensures Valid()
      ensures ok ==> StartedWith(data) && base == old(Payloads(bus.sent)) && bus.sent == old(bus.sent) + h.emitted
      ensures bus.refusals == old(bus.refusals) + (if ok then 0 else 1)
      ensures !ok ==> bus.sent == old(bus.sent) && h == old(h) && base == old(base)
    {
      hide Sound, Payloads, FirstFrame, ConsecutiveFrame;
      var i := 0;
      while i < |data|
        invariant 0 <= i <= |data| && txBuffer[..i] == data[..i]
        modifies txBuffer
      {
        txBuffer[i] := data[i];
        i := i + 1;
      }
      assert txBuffer[..|data|] == data == txBuffer[..][..|data|];
      IdleSound(tx, h, old(txBuffer[..]), txBuffer[..], clock);
      tx := tx.(length := |data|);
      var frame := First(data);
      FirstPci(data);
      PayloadsAppend(bus.sent, frame);
      ok := bus.Transmit(frame);
      if !ok {
        tx := tx.(length := 0);
        return;
      }
      StartSound(data, txBuffer[..], clock, now, tx.lastCf);
      tx := Tx(TX_WAIT_FC, |data|, 6, 1, 0, 0, 0, now, tx.lastCf);
      h, base := Sent(data, [frame], [], []), old(Payloads(bus.sent));
    }

    method First(data: Pdu) returns (frame: Frame)
      requires |data| > 7 && txBuffer.Length == MAX_PDU && txBuffer[..|data|] == data
      ensures frame == Frame(RESPONSE_ID, 8, FirstFrame(data))
    {
      frame := ClearFrame(RESPONSE_ID);
      frame := frame.(data := frame.data[0 := FIRST + |data| / 256][1 := |data| % 256]);
      var i := 0;
      while i < 6
        invariant 0 <= i <= 6 && frame.id == RESPONSE_ID && frame.dlc == 8
        invariant frame.data == Padded([FIRST + |data| / 256, |data| % 256] + data[..i])
      {
        assert data[i] == txBuffer[i];
        frame := frame.(data := frame.data[i + 2 := txBuffer[i]]);
        i := i + 1;
      }
    }

    /** CanTp_SendNextConsecutiveFrame: the next frame of the message, or none. */
    method SendNext(now: word)
      requires Valid() && Due(tx, now) && now == clock % WORD_MODULUS
      modifies this`tx, this`h, bus
      ensures Valid() && FrameSent(old(h), h, old(bus.sent), bus.sent)
      ensures h == old(h) ==> tx == old(tx) && bus.refusals == old(bus.refusals) + 1
      ensures h != old(h) ==> bus.refusals == old(bus.refusals) && AfterFrame(old(tx), tx, h, now)
    {
      hide Sound, Payloads, ConsecutiveFrame, Carried, Consecutives, Emitted, Min;
      SendSound(tx, h, txBuffer[..], clock, tx.blockCounter + 1);
      var remaining := tx.length - tx.offset;
      var count := if remaining < 7 then remaining else 7;
      MinSeven(remaining);
      var frame := NextFrame(count);
      ConsecutivePci(h.pdu, |h.cfs| + 1);
      PayloadsAppend(bus.sent, frame);
      var ok := bus.Transmit(frame);
      if !ok {
        return;
      }
      h := Sent(h.pdu, h.emitted + [frame], h.cfs + [Sending(clock, |h.grants| - 1)], h.grants);
      var counter := tx.blockCounter + 1;
      tx := tx.(offset := tx.offset + count, nextSn := (tx.nextSn + 1) % 16, blockCounter := counter, lastCf := now,
                lastActivity := now);
      if tx.offset >= tx.length {
        tx := NO_TX;
        return;
      }
      if tx.blockSize != 0 && tx.blockCounter >= tx.blockSize {
        tx := tx.(blockCounter := 0, lastActivity := now, state := TX_WAIT_FC);
      }
    }

    method NextFrame(count: nat) returns (frame: Frame)
      requires txBuffer.Length == MAX_PDU && 7 < |h.pdu| <= MAX_PDU && |h.cfs| < Consecutives(|h.pdu|)
      requires tx.length == |h.pdu| && tx.offset == Carried(|h.pdu|, |h.cfs|) && tx.nextSn == (|h.cfs| + 1) % 16
      requires txBuffer[..][..tx.length] == h.pdu && count == Min(7, tx.length - tx.offset)
      ensures frame == Frame(RESPONSE_ID, 8, ConsecutiveFrame(h.pdu, |h.cfs| + 1))
    {
      hide Segments, Consecutives, Carried;
      SegmentsAt(h.pdu, RESPONSE_ID, |h.cfs|);
      frame := ClearFrame(RESPONSE_ID);
      frame := frame.(data := frame.data[0 := CONSECUTIVE + tx.nextSn]);
      var i := 0;
      while i < count
        invariant 0 <= i <= count && frame.id == RESPONSE_ID && frame.dlc == 8
        invariant frame.data == Padded([CONSECUTIVE + tx.nextSn] + h.pdu[tx.offset..tx.offset + i])
      {
        assert h.pdu[tx.offset + i] == txBuffer[tx.offset + i];
        frame := frame.(data := frame.data[i + 1 := txBuffer[tx.offset + i]]);
        i := i + 1;
      }
    }

    /** CanTp_HandleFlowControl: any status but these two gives the message up. */
    method HandleFlowControl(frame: Frame, now: word)
      requires Valid() && now == clock % WORD_MODULUS && frame.dlc <= FRAME_SIZE
      modifies this`tx, this`h
      ensures Valid() && FlowControlled(old(tx), tx, old(h), h, frame, now, clock)
      ensures tx.state == TX_IDLE && old(tx).state != TX_IDLE ==>
        old(tx).state == TX_WAIT_FC && frame.dlc >= 3 && Low(frame.data[0]) != CLEAR_TO_SEND
          && Low(frame.data[0]) != WAIT
    {
      hide Sound, Payloads;
      if frame.dlc < 3 || tx.state != TX_WAIT_FC {
        return;
      }
      var status := Low(frame.data[0]);
      if status == CLEAR_TO_SEND {
        var stmin := DecodeStmin(frame.data[2]);
        GrantSound(tx, h, txBuffer[..], clock, frame.data[1], stmin);
        tx := tx.(blockSize := frame.data[1], blockCounter := 0, stmin := stmin, lastActivity := now, lastCf := now,
                  state := TX_SEND_CF);
        h := h.(grants := h.grants + [Grant(frame.data[1], stmin, clock)]);
      } else if status == WAIT {
        WaitSound(tx, h, txBuffer[..], clock, now);
        tx := tx.(lastActivity := now);
      } else {
        ResetTx();
      }
    }

    // -------------------------------------------------------------- receiving

    /** CanTp_QueueRxPdu: the request queue may refuse the message. */
    method QueueRxPdu(message: seq<byte>) returns (ok: bool)
    {
      ok := *;
    }

    /** CanTp_SendFlowControl. */
    method SendFlowControl(status: nat, blockSize: byte, stmin: byte) returns (ok: bool)
      requires status < 16
      modifies bus
      ensures Payloads(bus.sent) == Payloads(old(bus.sent))
      ensures ok ==>
        bus.sent == old(bus.sent) + [Frame(RESPONSE_ID, 8, [0x30 + status, blockSize, stmin, 0, 0, 0, 0, 0])]
      ensures bus.refusals == old(bus.refusals) + (if ok then 0 else 1)
      ensures !ok ==> bus.sent == old(bus.sent)
    {
      hide Payloads;
      var frame := ClearFrame(RESPONSE_ID);
      frame := frame.(data := frame.data[0 := FLOW_CONTROL + status][1 := blockSize][2 := stmin]);
      assert frame.data == [0x30 + status, blockSize, stmin, 0, 0, 0, 0, 0];
      PayloadsAppend(bus.sent, frame);
      ok := bus.Transmit(frame);
    }

    /** CanTp_HandleSingleFrame. */
    method HandleSingle(frame: Frame) returns (message: Option<seq<byte>>)
      requires Valid() && Pci(frame.data[0]) == SINGLE && frame.id == REQUEST_ID && 0 < frame.dlc <= FRAME_SIZE
      modifies this`rxWaiting, this`rxLength, this`rxOffset, this`rxNextSn, this`rxLastActivity
      ensures Valid() && Received(RxAbstract(), message) == AcceptApp(old(RxAbstract()), frame, true, true)
    {
      hide Sound;
      var count := Low(frame.data[0]);
      if count == 0 || count > 7 || count + 1 > frame.dlc {
        return None;
      }
      if rxWaiting {
        ResetRx();
      }
      var ok := QueueRxPdu(frame.data[1..1 + count]);
      return Some(frame.data[1..1 + count]);
    }

    /** CanTp_HandleFirstFrame. */
    method HandleFirst(frame: Frame, space: bool, now: word) returns (granted: bool)
      requires Valid() && Pci(frame.data[0]) == FIRST && frame.id == REQUEST_ID && 0 < frame.dlc <= FRAME_SIZE
      modifies this`rxWaiting, this`rxLength, this`rxOffset, this`rxNextSn, this`rxLastActivity, rxBuffer, bus
      ensures Valid() && Received(RxAbstract(), None) == AcceptApp(old(RxAbstract()), frame, space, granted)
      ensures Payloads(bus.sent) == Payloads(old(bus.sent))
      ensures Answered(frame, space, granted, old(bus.sent), bus.sent) && (granted ==> Opens(frame))
      ensures Opens(frame) && space && bus.refusals == old(bus.refusals) ==> granted
    {
      hide Sound, Payloads;
      granted := false;
      if frame.dlc != 8 {
        ResetRx();
        return;
      }
      var total := Low(frame.data[0]) * 256 + frame.data[1] as nat;
      if total <= 7 {
        ResetRx();
        return;
      }
      if total > MAX_PDU || !space {
        var overflow := SendFlowControl(2, 0, 0);
        ResetRx();
        return;
      }
      ResetRx();
      rxLength := total;
      var i := 0;
      while i < 6
        invariant 0 <= i <= 6 && rxBuffer[..i] == frame.data[2..2 + i]
        modifies rxBuffer
      {
        rxBuffer[i] := frame.data[i + 2];
        i := i + 1;
      }
      assert rxBuffer[..6] == frame.data[2..8];
      rxOffset, rxNextSn, rxLastActivity, rxWaiting := 6, 1, now, true;
      granted := SendFlowControl(CLEAR_TO_SEND, 0, 0);
      if !granted {
        ResetRx();
      }
    }

    /** The copy loop of CanTp_HandleConsecutiveFrame. */
    method CopyPayload(frame: Frame, count: nat)
      requires rxBuffer.Length == MAX_PDU && rxBuffer != txBuffer && rxOffset + count <= MAX_PDU && count <= 7
      modifies rxBuffer
      ensures rxBuffer[..rxOffset + count] == old(rxBuffer[..rxOffset]) + frame.data[1..1 + count]
    {
      ghost var before := rxBuffer[..rxOffset];
      var i := 0;
      while i < count
        invariant 0 <= i <= count && rxBuffer[..rxOffset] == before
        invariant rxBuffer[rxOffset..rxOffset + i] == frame.data[1..1 + i]
      {
        rxBuffer[rxOffset + i] := frame.data[i + 1];
        i := i + 1;
      }
      assert rxBuffer[..rxOffset + count] == before + rxBuffer[rxOffset..rxOffset + count];
    }

    /** CanTp_HandleConsecutiveFrame. */
    method HandleConsecutive(frame: Frame, now: word) returns (message: Option<seq<byte>>)
      requires Valid() && Pci(frame.data[0]) == CONSECUTIVE && frame.id == REQUEST_ID && 0 < frame.dlc <= FRAME_SIZE
      modifies this`rxWaiting, this`rxLength, this`rxOffset, this`rxNextSn, this`rxLastActivity, rxBuffer
      ensures Valid() && Received(RxAbstract(), message) == AcceptApp(old(RxAbstract()), frame, true, true)
    {
      hide Sound, AcceptApp, Low, Pci;
      AppConsecutive(RxAbstract(), frame);
      if !rxWaiting || frame.dlc <= 1 {
        return None;
      }
      if Low(frame.data[0]) != rxNextSn {
        ResetRx();
        return None;
      }
      var available, remaining := frame.dlc - 1, rxLength - rxOffset;
      var count := if available < remaining then available else remaining;
      ghost var before := rxBuffer[..rxOffset];
      CopyPayload(frame, count);
      ghost var data := before + frame.data[1..1 + count];
      if rxOffset + count >= rxLength {
        message := Some(rxBuffer[..rxLength]);
        var ok := QueueRxPdu(message.value);
        ResetRx();
        return;
      }
      rxOffset, rxNextSn, rxLastActivity := rxOffset + count, (rxNextSn + 1) % 16, now;
      return None;
    }

    /** CanTp_RxIndication at `time`. */
    method RxIndication(frame: Frame, space: bool, now: word, ghost time: nat)
      returns (message: Option<seq<byte>>, granted: bool)
      requires Valid() && clock <= time && now == time % WORD_MODULUS
      modifies this, rxBuffer, bus
      ensures Valid() && clock == time && h == old(h).(grants := h.grants) && base == old(base)
      ensures Received(RxAbstract(), message) == AcceptApp(old(RxAbstract()), frame, space, granted)
      ensures Answered(frame, space, granted, old(bus.sent), bus.sent)
      ensures Opens(frame) && space && bus.refusals == old(bus.refusals) ==> granted
      ensures Pci(frame.data[0]) != FIRST ==> bus.refusals == old(bus.refusals)
      ensures if IsFlowControl(frame) then FlowControlled(old(tx), tx, old(h), h, frame, now, time)
              else tx == old(tx) && h == old(h)
      ensures tx.state == TX_IDLE && old(tx).state != TX_IDLE ==> GivenUp(frame)
    {
      hide Sound, Payloads, Pci, Low;
      Elapse(time);
      message, granted := None, true;
      if frame.id != REQUEST_ID || frame.dlc == 0 || frame.dlc > FRAME_SIZE {
        return;
      }
      AppIgnores(RxAbstract(), frame);
      var pci := Pci(frame.data[0]);
      if pci == SINGLE {
        message := HandleSingle(frame);
      } else if pci == FIRST {
        granted := HandleFirst(frame, space, now);
      } else if pci == CONSECUTIVE {
        message := HandleConsecutive(frame, now);
      } else if pci == FLOW_CONTROL {
        HandleFlowControl(frame, now);
      }
    }

    /** CanTp_MainFunction at `time`: timeouts, and one frame if one is due. */
    method MainFunction(now: word, ghost time: nat)
      requires Valid() && clock <= time && now == time % WORD_MODULUS
      modifies this, bus
      ensures Valid() && clock == time && base == old(base)
      ensures RxAbstract() == if old(rxWaiting && Subtract(now, rxLastActivity) >= N_CR_TIMEOUT) then Resting
              else old(RxAbstract())
      ensures old(tx).state != TX_SEND_CF ==> tx == if old(TimedOut(now)) then NO_TX else old(tx)
      ensures !Due(old(tx), now) ==> h == old(h) && bus.sent == old(bus.sent) && bus.refusals == old(bus.refusals)
      ensures old(tx).state == TX_SEND_CF && !Due(old(tx), now) ==> tx == old(tx)
      ensures old(bus.refusals) <= bus.refusals
      ensures Due(old(tx), now) && bus.refusals != old(bus.refusals) ==>
        h == old(h) && tx == old(tx) && bus.sent == old(bus.sent)
      ensures Due(old(tx), now) && bus.refusals == old(bus.refusals) ==>
        FrameSent(old(h), h, old(bus.sent), bus.sent) && h != old(h) && AfterFrame(old(tx), tx, h, now)
    {
      hide Sound, Payloads, Consecutives, AfterFrame;
      Elapse(time);
      if rxWaiting && Subtract(now, rxLastActivity) >= N_CR_TIMEOUT {
        ResetRx();
      }
      if TimedOut(now) {
        ResetTx();
      }
      if tx.state == TX_SEND_CF && Subtract(now, tx.lastCf) >= tx.stmin {
        FrameSentSelf(h, bus.sent);
        SendNext(now);
      }
    }

    /** No flow control came in time. */
    predicate TimedOut(now: word)
      reads this
    {
      tx.state == TX_WAIT_FC && Subtract(now, tx.lastActivity) >= N_BS_TIMEOUT
    }

    /** Any interleaving of frames that arrive and of polls: the endpoint goes on
      * sending the same message, in order, and is done with it before its end only
      * if it gave the message up. */
    method Drive(events: seq<Event>) returns (ghost abandoned: bool)
      requires Valid() && InTime(clock, events)
      modifies this, rxBuffer, bus
      ensures Valid() && base == old(base) && h.pdu == old(h).pdu
      ensures old(h).emitted <= h.emitted && (h.emitted != [] ==> Emitted(h.emitted, h.pdu, |h.cfs|))
      ensures Separated(h.cfs, h.grants) && Blocked(h.cfs, h.grants)
      ensures tx.state == TX_IDLE && old(tx).state != TX_IDLE && !abandoned ==>
        h.emitted == Segments(h.pdu, RESPONSE_ID)
    {
      hide Sound, Payloads, Consecutives, Emitted, Separated, Blocked, Segments;
      abandoned := false;
      var i := 0;
      while i < |events|
        invariant 0 <= i <= |events| && Valid() && InTime(clock, events[i..])
        invariant base == old(base) && h.pdu == old(h).pdu && old(h).emitted <= h.emitted
        invariant tx.state == TX_IDLE && old(tx).state != TX_IDLE && !abandoned ==> Whole(h)
      {
        TimeGoesOn(clock, events[i..]);
        var event := events[i];
        assert events[i..][1..] == events[i + 1..];
        if event.Arrival? {
          var message, granted := RxIndication(event.frame, event.space, event.time % WORD_MODULUS, event.time);
          abandoned := abandoned || GivenUp(event.frame);
        } else {
          abandoned := abandoned || TimedOut(event.time % WORD_MODULUS);
          MainFunction(event.time % WORD_MODULUS, event.time);
        }
        i := i + 1;
      }
      DriveEnds(tx, h, txBuffer[..], clock);
    }

    /** Polled at every tick, a sender with a clear-to-send comes to the end of its
      * block or of its message, if no frame is refused, within one poll for each
      * frame and each millisecond it has to keep between them. */
    method Drain(start: nat, polls: nat)
      requires Valid() && clock <= start && tx.state == TX_SEND_CF
      requires polls >= (Consecutives(|h.pdu|) - |h.cfs|) * (tx.stmin + 1)
      modifies this, bus
      ensures Valid() && base == old(base) && h.pdu == old(h).pdu && h.grants == old(h).grants
      ensures old(h).emitted <= h.emitted && bus.sent == old(bus.sent) + h.emitted[|old(h).emitted|..]
      ensures old(bus.refusals) <= bus.refusals
      ensures bus.refusals == old(bus.refusals) ==>
        || (tx.state == TX_IDLE && h.emitted == Segments(h.pdu, RESPONSE_ID))
        || (tx.state == TX_WAIT_FC && old(tx).blockSize != 0)
    {
      hide Sound, Payloads, Consecutives, Segments, Draining;
      var time, left := start, polls;
      DrainStarts(start, polls);
      while tx.state == TX_SEND_CF && left > 0
        invariant Valid() && clock <= time && base == old(base) && h.pdu == old(h).pdu && h.grants == old(h).grants
        invariant old(h).emitted <= h.emitted && bus.sent == old(bus.sent) + h.emitted[|old(h).emitted|..]
        invariant old(bus.refusals) <= bus.refusals
        invariant bus.refusals == old(bus.refusals) ==> Draining(old(tx), time, left)
        decreases left
      {
        DrainPoll(old(tx), time, left);
        time, left := time + 1, left - 1;
      }
      if bus.refusals == old(bus.refusals) {
        DrainEnds(old(tx), time, left);
      }
    }

    /** Enough polls are left for the frames of the block that a sender like `was` is in. */
    ghost predicate Draining(was: Tx, time: nat, left: nat)
      reads this
    {
      match tx.state
      case TX_SEND_CF =>
        && tx.stmin == was.stmin && tx.blockSize == was.blockSize && |h.cfs| < Consecutives(|h.pdu|)
        && left >= Bound(Consecutives(|h.pdu|) - |h.cfs|, tx.stmin, Subtract(time % WORD_MODULUS, tx.lastCf))
      case TX_IDLE => Whole(h)
      case TX_WAIT_FC => was.blockSize != 0
    }

    lemma DrainStarts(start: nat, polls: nat)
      requires Valid() && tx.state == TX_SEND_CF && polls >= (Consecutives(|h.pdu|) - |h.cfs|) * (tx.stmin + 1)
      ensures Draining(tx, start, polls)
    {
      hide Sound, Payloads, Consecutives, Subtract, Bound;
      SendingSound(tx, h, txBuffer[..], clock);
      StartBound(Consecutives(|h.pdu|) - |h.cfs|, tx.stmin, Subtract(start % WORD_MODULUS, tx.lastCf));
    }

    lemma DrainEnds(was: Tx, time: nat, left: nat)
      requires Valid() && Draining(was, time, left) && (tx.state == TX_SEND_CF ==> left == 0)
      ensures
        || (tx.state == TX_IDLE && h.emitted == Segments(h.pdu, RESPONSE_ID))
        || (tx.state == TX_WAIT_FC && was.blockSize != 0)
    {
      hide Sound, Payloads, Consecutives, Segments, Subtract;
      if tx.state == TX_SEND_CF {
        SomeBound(Consecutives(|h.pdu|) - |h.cfs|, tx.stmin, Subtract(time % WORD_MODULUS, tx.lastCf));
      } else if tx.state == TX_IDLE {
        WholeIsSegments(tx, h, txBuffer[..], clock);
      }
    }

    method DrainPoll(ghost was: Tx, time: nat, left: nat)
      requires Valid() && clock <= time && tx.state == TX_SEND_CF && left > 0
      modifies this, bus
      ensures Valid() && clock == time && base == old(base) && h.pdu == old(h).pdu && h.grants == old(h).grants
      ensures old(h).emitted <= h.emitted && bus.sent == old(bus.sent) + h.emitted[|old(h).emitted|..]
      ensures old(bus.refusals) <= bus.refusals
      ensures bus.refusals == old(bus.refusals) && old(Draining(was, time, left)) ==> Draining(was, time + 1, left - 1)
    {
      hide Sound, Payloads, Consecutives, Subtract, Bound;
      TickBound(time, tx.lastCf, Consecutives(|h.pdu|) - |h.cfs|, tx.stmin);
      MainFunction(time % WORD_MODULUS, time);
      if tx.state == TX_SEND_CF {
        SendingSound(tx, h, txBuffer[..], clock);
      }
    }
  }

  /** The first frame, its answer, and what the answer permits. */
  method Open(sender: Endpoint, receiver: Transport, data: Pdu, time: nat) returns (ok: bool)
    requires sender.Valid() && receiver.Valid() && sender.bus != receiver.bus
    requires receiver.buffer != sender.rxBuffer && receiver.buffer != sender.txBuffer
    requires sender.tx.state == TX_IDLE && sender.clock <= time && |data| > 7
    modifies sender, sender.rxBuffer, sender.txBuffer, sender.bus, receiver, receiver.buffer, receiver.bus
    ensures sender.Valid() && receiver.Valid() && sender.clock == time
    ensures old(sender.bus.refusals) <= sender.bus.refusals && old(receiver.bus.refusals) <= receiver.bus.refusals
    ensures (sender.bus.refusals == old(sender.bus.refusals)
             && receiver.bus.refusals == old(receiver.bus.refusals)) ==> ok
    ensures ok ==> Permitting(sender, data) && receiver.Abstract() == Collecting(|data|, data[..6], 1)
    ensures receiver.timeout <= old(receiver.timeout) + 1
  {
    hide Accept, Segments, Consecutives, Payloads, Sound, FirstFrame;
    ok := sender.Transmit(data, time % WORD_MODULUS, time);
    if !ok {
      return;
    }
    LongFrame(data);
    FirstOpens(data);
    var first := sender.bus.sent[|sender.bus.sent| - 1];
    receiver.bus.polls := [Some(first.(id := REQUEST_ID))];
    var replies := |receiver.bus.sent|;
    var none := receiver.MainFunction();
    if |receiver.bus.sent| == replies {
      return false;
    }
    var reply := receiver.bus.sent[replies].(id := REQUEST_ID);
    var nothing, granted := sender.RxIndication(reply, true, time % WORD_MODULUS, time);
  }

  /** The sender may send all of the rest at any rate. */
  ghost predicate Permitting(sender: Endpoint, data: Pdu)
    requires |data| > 7
    reads sender
  {
    && sender.tx.state == TX_SEND_CF && sender.tx.stmin == 0 && sender.tx.blockSize == 0
    && sender.h.pdu == data && sender.h.cfs == [] && sender.h.emitted == [Frame(RESPONSE_ID, 8, FirstFrame(data))]
  }

  lemma RestArrives(data: Pdu, rest: seq<Frame>)
    requires |data| > 7 && Segments(data, RESPONSE_ID) == [Frame(RESPONSE_ID, 8, FirstFrame(data))] + rest
    ensures Messages(Collecting(|data|, data[..6], 1), Arrived(Prompt(Relabelled(rest, REQUEST_ID)))) == [data]
    ensures |rest| == Consecutives(|data|) <= |data|
  {
    hide Accept, Messages, FirstFrame, ConsecutiveFrame;
    PromptArrives(Relabelled(rest, REQUEST_ID));
    SegmentsRelabelled(data, RESPONSE_ID, REQUEST_ID);
    assert Relabelled(Segments(data, RESPONSE_ID), REQUEST_ID)[1..] == Relabelled(rest, REQUEST_ID);
    LongFrame(data);
    CarriedAll(|data|);
    CollectsRest(data, 1);
  }

  lemma EmittedShort(tx: Tx, h: Sent, buffer: seq<byte>, clock: nat)
    requires Sound(tx, h, buffer, clock)
    ensures |h.emitted| <= MAX_PDU
  {
    hide Separated, Blocked, Segments;
  }

  /** Both sides on one line: the sender's first frame is answered, the answer
    * permits it, and the message comes out whole at the other end. */
  method Exchange(sender: Endpoint, receiver: Transport, data: Pdu, time: nat) returns (messages: seq<seq<byte>>)
    requires sender.Valid() && receiver.Valid() && sender.bus != receiver.bus
    requires receiver.buffer != sender.rxBuffer && receiver.buffer != sender.txBuffer
    requires sender.tx.state == TX_IDLE && sender.clock <= time && |data| > 7
    requires receiver.timeout + 2 * MAX_PDU < TIMEOUT_LOOPS
    modifies sender, sender.rxBuffer, sender.txBuffer, sender.bus, receiver, receiver.buffer, receiver.bus
    ensures sender.Valid() && receiver.Valid()
    ensures sender.bus.refusals == old(sender.bus.refusals) && receiver.bus.refusals == old(receiver.bus.refusals) ==>
      messages == [data] && sender.tx.state == TX_IDLE
  {
    hide Segments, Payloads, Messages, Sound, FirstFrame, Accept;
    messages := [];
    var ok := Open(sender, receiver, data, time);
    if !ok {
      return;
    }
    var sent := |sender.bus.sent|;
    sender.Drain(time, |data|);
    if sender.tx.state != TX_IDLE {
      return;
    }
    var rest := sender.bus.sent[sent..];
    EmittedShort(sender.tx, sender.h, sender.txBuffer[..], sender.clock);
    ghost var whole := sender.h.emitted == Segments(data, RESPONSE_ID);
    if whole {
      RestArrives(data, rest);
    }
    receiver.bus.polls := Prompt(Relabelled(rest, REQUEST_ID));
    messages := receiver.PollAll();
  }
}
