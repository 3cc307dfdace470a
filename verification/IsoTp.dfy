/** Segmentation and reassembly of diagnostic messages (section 9.6 of
  * ISO 15765-2:2016), as both implementations use them. */
module IsoTp {
  import opened Bytes

  const REQUEST_ID: nat := 0x7E0
  const RESPONSE_ID: nat := 0x7E8
  const MAX_PDU: nat := 256
  const FRAME_SIZE: nat := 8

  const SINGLE: nat := 0x00
  const FIRST: nat := 0x10
  const CONSECUTIVE: nat := 0x20
  const FLOW_CONTROL: nat := 0x30

  type FrameData = d: seq<byte> | |d| == FRAME_SIZE witness [0, 0, 0, 0, 0, 0, 0, 0]

  datatype Frame = Frame(id: nat, dlc: nat, data: FrameData)

  type Pdu = p: seq<byte> | 0 < |p| <= MAX_PDU witness [0]

  /** The protocol control information: type in the high, rest in the low half. */
  function Pci(b: byte): nat { b / 16 * 16 }

  function Low(b: byte): nat { b % 16 }

  function Min(a: nat, b: nat): nat { if a < b then a else b }

  /** A frame body padded with zeros. */
  function Padded(s: seq<byte>): FrameData
    requires |s| <= FRAME_SIZE
  {
    s + seq(FRAME_SIZE - |s|, _ => 0)
  }

  // ------------------------------------------------------------ segmentation

  /** How many payload bytes the first `k + 1` frames of a long message carry. */
  function Carried(length: nat, k: nat): nat { Min(6 + 7 * k, length) }

  /** How many consecutive frames follow the first one: the length less the six
    * bytes of the first, in sevens, rounded up. */
  function Consecutives(length: nat): nat {
    if length <= 7 then 0 else length / 7
  }

  function SingleFrame(pdu: Pdu): FrameData
    requires |pdu| <= 7
  {
    Padded([|pdu|] + pdu)
  }

  function FirstFrame(pdu: Pdu): FrameData
    requires |pdu| > 7
  {
    [FIRST + |pdu| / 256, |pdu| % 256] + pdu[..6]
  }

  /** Consecutive frame number `k`, counted from 1, with its number modulo 16. */
  function ConsecutiveFrame(pdu: Pdu, k: nat): FrameData
    requires |pdu| > 7 && 1 <= k <= Consecutives(|pdu|)
  {
    Padded([CONSECUTIVE + k % 16] + pdu[Carried(|pdu|, k - 1)..Carried(|pdu|, k)])
  }

  /** The frames of a message, in order. */
  function Segments(pdu: Pdu, id: nat): seq<Frame> {
    if |pdu| <= 7 then [Frame(id, 8, SingleFrame(pdu))] else [Frame(id, 8, FirstFrame(pdu))] + Rest(pdu, id)
  }

  function Rest(pdu: Pdu, id: nat): seq<Frame>
    requires |pdu| > 7
  {
    seq(Consecutives(|pdu|), (k: nat) requires k < Consecutives(|pdu|) => Frame(id, 8, ConsecutiveFrame(pdu, k + 1)))
  }

  /** Consecutive frame `k` carries the seven bytes from 6 + 7 * (k - 1), as far as there
    * are any, behind its number. */
  predicate Numbered(pdu: Pdu, k: nat, data: FrameData) {
    var low, high := 6 + 7 * (k - 1), Min(6 + 7 * k, |pdu|);
    data[0] == 0x20 + k % 16 && 0 <= low < high && data[1..1 + high - low] == pdu[low..high]
  }

  /** What is on the wire: a short message in one frame behind its length; of a long one
    * twelve bits of length and six bytes, then numbered frames of seven bytes each. */
  lemma OnTheWire(pdu: Pdu, id: nat)
    ensures |pdu| <= 7 ==>
      |Segments(pdu, id)| == 1 && Segments(pdu, id)[0].data[0] == |pdu|
      && Segments(pdu, id)[0].data[1..1 + |pdu|] == pdu
    ensures |pdu| > 7 ==>
      && |Segments(pdu, id)| == 1 + |pdu| / 7
      && Segments(pdu, id)[0].data[0] == 0x10 + |pdu| / 256 && Segments(pdu, id)[0].data[1] == |pdu| % 256
      && Segments(pdu, id)[0].data[2..] == pdu[..6]
      && (forall k :: 1 <= k < |Segments(pdu, id)| ==> Numbered(pdu, k, Segments(pdu, id)[k].data))
    ensures forall k :: 0 <= k < |Segments(pdu, id)| ==> Segments(pdu, id)[k].id == id && Segments(pdu, id)[k].dlc == 8
  {
    hide Numbered, ConsecutiveFrame;
    if |pdu| > 7 {
      forall k | 1 <= k <= Consecutives(|pdu|) ensures Numbered(pdu, k, ConsecutiveFrame(pdu, k)) {
        ConsecutiveNumbered(pdu, k);
      }
    }
  }

  lemma ConsecutiveNumbered(pdu: Pdu, k: nat)
    requires |pdu| > 7 && 1 <= k <= Consecutives(|pdu|)
    ensures Numbered(pdu, k, ConsecutiveFrame(pdu, k))
  {
    var data := ConsecutiveFrame(pdu, k);
    var low, high := 6 + 7 * (k - 1), Min(6 + 7 * k, |pdu|);
    assert data[..1 + high - low] == [0x20 + k % 16] + pdu[low..high];
  }

  lemma SegmentsAt(pdu: Pdu, id: nat, k: nat)
    requires |pdu| > 7 && k < Consecutives(|pdu|)
    ensures |Segments(pdu, id)| == Consecutives(|pdu|) + 1
    ensures Segments(pdu, id)[..1] == [Frame(id, 8, FirstFrame(pdu))]
    ensures Segments(pdu, id)[..k + 2] == Segments(pdu, id)[..k + 1] + [Frame(id, 8, ConsecutiveFrame(pdu, k + 1))]
    ensures Carried(|pdu|, k) < |pdu|
    ensures Carried(|pdu|, k + 1) == Carried(|pdu|, k) + Min(7, |pdu| - Carried(|pdu|, k))
    ensures Carried(|pdu|, k + 1) == |pdu| <==> k + 1 == Consecutives(|pdu|)
  {
    hide FirstFrame, ConsecutiveFrame;
    CarriedAll(|pdu|);
    var frames := Segments(pdu, id);
    assert frames[k + 1] == Frame(id, 8, ConsecutiveFrame(pdu, k + 1));
  }

  /** The same frames under another identifier. */
  function Relabelled(frames: seq<Frame>, id: nat): seq<Frame> {
    seq(|frames|, (i: nat) requires i < |frames| => frames[i].(id := id))
  }

  lemma SegmentsRelabelled(pdu: Pdu, from: nat, to: nat)
    ensures Relabelled(Segments(pdu, from), to) == Segments(pdu, to)
  {
  }

  // -------------------------------------------------------------- reassembly

  datatype Receiver = Resting | Collecting(length: nat, data: seq<byte>, next: nat)

  datatype Received = Received(receiver: Receiver, message: Option<seq<byte>>)

  /** What one frame does to the bootloader's receiver. */
  function Accept(r: Receiver, f: Frame): Received {
    if f.id != REQUEST_ID || f.dlc == 0 then Received(r, None)
    else if Pci(f.data[0]) == SINGLE then
      var count := Low(f.data[0]);
      if count == 0 || count > 7 || count + 1 > f.dlc then Received(r, None)
      else Received(Resting, Some(f.data[1..1 + count]))
    else if Pci(f.data[0]) == FIRST then
      var total := Low(f.data[0]) * 256 + f.data[1] as nat;
      if f.dlc != 8 || total <= 7 || total > MAX_PDU then Received(Resting, None)
      else Received(Collecting(total, f.data[2..8], 1), None)
    else if Pci(f.data[0]) == CONSECUTIVE && r.Collecting? then
      var count := if |r.data| <= r.length then Min(7, r.length - |r.data|) else 0;
      if Low(f.data[0]) != r.next || f.dlc < count + 1 then Received(Resting, None)
      else
        var data := r.data + f.data[1..1 + count];
        if |data| == r.length then Received(Resting, Some(data))
        else Received(Collecting(r.length, data, (r.next + 1) % 16), None)
    else Received(r, None)
  }

  /** Every message that comes out of a sequence of frames. */
  function Messages(r: Receiver, frames: seq<Frame>): seq<seq<byte>>
    decreases |frames|
  {
    if frames == [] then []
    else
      var step := Accept(r, frames[0]);
      (if step.message.Some? then [step.message.value] else []) + Messages(step.receiver, frames[1..])
  }

  lemma SequenceNumber(k: nat)
    ensures Pci(CONSECUTIVE + k % 16) == CONSECUTIVE && Low(CONSECUTIVE + k % 16) == k % 16
  {
  }

  lemma CarriedAll(length: nat)
    requires length > 7
    ensures Carried(length, Consecutives(length)) == length
    ensures forall k: nat :: k < Consecutives(length) ==> 6 + 7 * k < length && Carried(length, k) == 6 + 7 * k
  {
    var n := Consecutives(length);
    assert 7 * n <= length < 7 * n + 7;
  }

  /** The bytes of consecutive frame `k`. */
  lemma ConsecutiveBytes(pdu: Pdu, k: nat)
    requires |pdu| > 7 && 1 <= k <= Consecutives(|pdu|)
    ensures var from, to := Carried(|pdu|, k - 1), Carried(|pdu|, k);
      var f := ConsecutiveFrame(pdu, k);
      && from < to <= |pdu| && to - from == Min(7, |pdu| - from) <= 7 && (to == |pdu| <==> k == Consecutives(|pdu|))
      && Pci(f[0]) == CONSECUTIVE && Low(f[0]) == k % 16 && f[1..1 + to - from] == pdu[from..to]
  {
    CarriedAll(|pdu|);
    SequenceNumber(k);
  }

  lemma NextNumber(k: nat)
    ensures (k % 16 + 1) % 16 == (k + 1) % 16
  {
  }

  /** One consecutive frame brings the receiver from `k` to `k + 1` of them. */
  lemma AcceptConsecutive(pdu: Pdu, k: nat)
    requires |pdu| > 7 && 1 <= k <= Consecutives(|pdu|)
    ensures var r := Collecting(|pdu|, pdu[..Carried(|pdu|, k - 1)], k % 16);
      Accept(r, Frame(REQUEST_ID, 8, ConsecutiveFrame(pdu, k))) ==
        if k == Consecutives(|pdu|) then Received(Resting, Some(pdu))
        else Received(Collecting(|pdu|, pdu[..Carried(|pdu|, k)], (k + 1) % 16), None)
  {
    hide Carried, Consecutives, ConsecutiveFrame, Pci, Low;
    ConsecutiveBytes(pdu, k);
    NextNumber(k);
    var from, to := Carried(|pdu|, k - 1), Carried(|pdu|, k);
    assert pdu[..from] + pdu[from..to] == pdu[..to];
    assert pdu[..|pdu|] == pdu;
  }

  lemma {:induction false} CollectsRest(pdu: Pdu, k: nat)
    requires |pdu| > 7 && 1 <= k <= Consecutives(|pdu|)
    ensures Messages(Collecting(|pdu|, pdu[..Carried(|pdu|, k - 1)], k % 16), Segments(pdu, REQUEST_ID)[k..]) == [pdu]
    decreases Consecutives(|pdu|) - k
  {
    hide Carried, ConsecutiveFrame, Accept;
    AcceptConsecutive(pdu, k);
    var frames := Segments(pdu, REQUEST_ID)[k..];
    assert frames[0] == Frame(REQUEST_ID, 8, ConsecutiveFrame(pdu, k));
    assert frames[1..] == Segments(pdu, REQUEST_ID)[k + 1..];
    if k < Consecutives(|pdu|) {
      CollectsRest(pdu, k + 1);
    } else {
      assert frames[1..] == [];
    }
  }

  lemma ShortFrame(pdu: Pdu)
    requires |pdu| <= 7
    ensures forall r: Receiver :: Accept(r, Frame(REQUEST_ID, 8, SingleFrame(pdu))) == Received(Resting, Some(pdu))
  {
    assert SingleFrame(pdu)[1..1 + |pdu|] == pdu;
  }

  lemma LongFrame(pdu: Pdu)
    requires |pdu| > 7
    ensures forall r: Receiver ::
      Accept(r, Frame(REQUEST_ID, 8, FirstFrame(pdu))) == Received(Collecting(|pdu|, pdu[..6], 1), None)
    ensures Carried(|pdu|, 0) == 6
  {
    assert FirstFrame(pdu)[2..8] == pdu[..6];
    assert |pdu| / 256 * 256 + |pdu| % 256 == |pdu|;
  }

  /** Round trip: whatever the receiver was doing, the frames of a message give
    * that message and nothing else. */
  lemma SegmentsReassemble(pdu: Pdu, r: Receiver)
    ensures Messages(r, Segments(pdu, REQUEST_ID)) == [pdu]
  {
    hide Accept, SingleFrame, FirstFrame, ConsecutiveFrame, Carried;
    var frames := Segments(pdu, REQUEST_ID);
    if |pdu| <= 7 {
      ShortFrame(pdu);
      assert frames[1..] == [];
    } else {
      LongFrame(pdu);
      CollectsRest(pdu, 1);
      assert frames[0] == Frame(REQUEST_ID, 8, FirstFrame(pdu));
    }
  }

  /** ... also when the sender used another identifier. */
  lemma SentIsReceived(pdu: Pdu, from: nat, r: Receiver)
    ensures Messages(r, Relabelled(Segments(pdu, from), REQUEST_ID)) == [pdu]
  {
    SegmentsRelabelled(pdu, from, REQUEST_ID);
    SegmentsReassemble(pdu, r);
  }

  /** Without its `k`-th frame a long message yields nothing at all. */
  lemma LostFrame(pdu: Pdu, k: nat)
    requires |pdu| > 7 && 1 <= k <= Consecutives(|pdu|)
    ensures var frames := Segments(pdu, REQUEST_ID);
      Messages(Resting, frames[..k] + frames[k + 1..]) == []
  {
    hide Accept, FirstFrame, ConsecutiveFrame, Carried;
    LongFrame(pdu);
    var frames := Segments(pdu, REQUEST_ID);
    var all := frames[..k] + frames[k + 1..];
    assert frames[0] == Frame(REQUEST_ID, 8, FirstFrame(pdu));
    assert all[1..] == frames[1..k] + frames[k + 1..];
    LostLater(pdu, 1, k);
  }

  lemma {:induction false} LostLater(pdu: Pdu, from: nat, k: nat)
    requires |pdu| > 7 && 1 <= from <= k <= Consecutives(|pdu|)
    ensures var frames := Segments(pdu, REQUEST_ID);
      Messages(Collecting(|pdu|, pdu[..Carried(|pdu|, from - 1)], from % 16), frames[from..k] + frames[k + 1..]) == []
    decreases k - from
  {
    hide Accept, FirstFrame, ConsecutiveFrame;
    var frames := Segments(pdu, REQUEST_ID);
    var rest := frames[from..k] + frames[k + 1..];
    if from < k {
      AcceptConsecutive(pdu, from);
      assert rest[0] == Frame(REQUEST_ID, 8, ConsecutiveFrame(pdu, from));
      assert rest[1..] == frames[from + 1..k] + frames[k + 1..];
      LostLater(pdu, from + 1, k);
    } else {
      assert rest == frames[k + 1..];
      if k < Consecutives(|pdu|) {
        WrongNumber(pdu, k + 1, Collecting(|pdu|, pdu[..Carried(|pdu|, from - 1)], from % 16));
        assert rest[0] == Frame(REQUEST_ID, 8, ConsecutiveFrame(pdu, k + 1));
        assert rest[1..] == frames[k + 2..];
        NothingCollected(pdu, k + 2);
      }
    }
  }

  lemma WrongNumber(pdu: Pdu, k: nat, r: Receiver)
    requires |pdu| > 7 && 1 <= k <= Consecutives(|pdu|) && r.Collecting? && r.next == (k - 1) % 16
    ensures Accept(r, Frame(REQUEST_ID, 8, ConsecutiveFrame(pdu, k))) == Received(Resting, None)
  {
    SequenceNumber(k);
    assert (k - 1) % 16 != k % 16;
  }

  lemma {:induction false} NothingCollected(pdu: Pdu, k: nat)
    requires |pdu| > 7 && 1 <= k <= Consecutives(|pdu|) + 1
    ensures Messages(Resting, Segments(pdu, REQUEST_ID)[k..]) == []
    decreases Consecutives(|pdu|) + 1 - k
  {
    var frames := Segments(pdu, REQUEST_ID)[k..];
    if k <= Consecutives(|pdu|) {
      SequenceNumber(k);
      assert frames[0] == Frame(REQUEST_ID, 8, ConsecutiveFrame(pdu, k));
      assert frames[1..] == Segments(pdu, REQUEST_ID)[k + 1..];
      NothingCollected(pdu, k + 1);
    }
  }

  // ------------------------------------------------------------ flow control

  /** A first frame that announces a message the receiver has room for. */
  predicate Opens(f: Frame) {
    f.id == REQUEST_ID && f.dlc == 8 && Pci(f.data[0]) == FIRST && 7 < Low(f.data[0]) * 256 + f.data[1] <= MAX_PDU
  }

  /** The frame with which a receiver answers: 0x30 permits any number of frames at
    * any rate, 0x32 reports an overflow. */
  function Reply(status: byte): Frame {
    Frame(RESPONSE_ID, 8, [status, 0, 0, 0, 0, 0, 0, 0])
  }

  lemma FirstOpens(pdu: Pdu)
    requires |pdu| > 7
    ensures Opens(Frame(REQUEST_ID, 8, FirstFrame(pdu)))
  {
    assert |pdu| / 256 * 256 + |pdu| % 256 == |pdu|;
  }

  lemma ConsecutiveOpensNothing(pdu: Pdu, k: nat)
    requires |pdu| > 7 && 1 <= k <= Consecutives(|pdu|)
    ensures !Opens(Frame(REQUEST_ID, 8, ConsecutiveFrame(pdu, k)))
  {
    hide Carried;
    ConsecutiveBytes(pdu, k);
  }
}
