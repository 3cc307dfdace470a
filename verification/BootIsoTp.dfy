/** The bootloader's transport (boot_isotp.c): reassembly polled frame by frame,
  * and a sender that blocks on flow control. */
module BootIsoTp {
  import opened Bytes
  import opened IsoTp
  import opened FlowControl

  const TIMEOUT_LOOPS: nat := 4000000

  /** What the coming polls of the receive mailbox find: a frame, or nothing yet.
    * After the last of them nothing arrives any more. */
  type Polls = seq<Option<Frame>>

  /** boot_can.c: what will have arrived when, and what was accepted for sending. */
  class CanBus {
    var polls: Polls
    var sent: seq<Frame>
    /** Frames that could not be sent. */
    ghost var refusals: nat

    /** BootCan_Receive. */
    method Receive() returns (frame: Option<Frame>)
      modifies this`polls
      ensures old(polls) == [] ==> frame == None && polls == []
      ensures old(polls) != [] ==> frame == old(polls)[0] && polls == old(polls)[1..]
    {
      if polls == [] {
        return None;
      }
      frame, polls := polls[0], polls[1..];
    }

    /** BootCan_Transmit. */
    method Transmit(frame: Frame) returns (ok: bool)
      modifies this`sent, this`refusals
      ensures ok ==> sent == old(sent) + [frame] && refusals == old(refusals)
      ensures !ok ==> sent == old(sent) && refusals == old(refusals) + 1
    {
      ok := *;
      if ok {
        sent := sent + [frame];
      } else {
        refusals := refusals + 1;
      }
    }
  }

  /** BootIsoTp_ClearFrame. */
  function ClearFrame(id: nat): Frame { Frame(id, 8, [0, 0, 0, 0, 0, 0, 0, 0]) }

  predicate IsCts(f: Frame) { f.id == REQUEST_ID && f.dlc >= 3 && f.data[0] == FLOW_CONTROL && f.data[2] == 0 }

  /** The outcome of waiting for permission: a block size, and the polls that are left. */
  datatype Wait = Wait(granted: Option<nat>, rest: Polls)

  /** The first request frame within `loops` polls gives permission or refuses it. */
  function Waited(polls: Polls, loops: nat): Wait
    decreases loops
  {
    if loops == 0 || polls == [] then Wait(None, polls)
    else if polls[0] == None || polls[0].value.id != REQUEST_ID then Waited(polls[1..], loops - 1)
    else Wait(if IsCts(polls[0].value) then Some(polls[0].value.data[1]) else None, polls[1..])
  }

  function Awaited(polls: Polls): Wait { Waited(polls, TIMEOUT_LOOPS) }

  /** Permission comes in time for each of `n` consecutive frames. */
  predicate Covered(polls: Polls, n: nat)
    decreases n
  {
    n == 0
    || var w := Awaited(polls);
       && w.granted.Some?
       && (w.granted.value == 0 || n <= w.granted.value || Covered(w.rest, n - w.granted.value))
  }

  /** The same for `n` more frames of a block of which `inBlock` are out. */
  predicate CoveredFrom(polls: Polls, blockSize: nat, inBlock: nat, n: nat) {
    blockSize == 0 || inBlock + n <= blockSize || Covered(polls, inBlock + n - blockSize)
  }

  lemma BlockGoesOn(polls: Polls, blockSize: nat, inBlock: nat, n: nat)
    requires n > 0
    ensures CoveredFrom(polls, blockSize, inBlock + 1, n - 1) == CoveredFrom(polls, blockSize, inBlock, n)
  {
  }

  lemma BlockEnds(polls: Polls, blockSize: nat, n: nat)
    requires blockSize > 0 && n > 0
    ensures var w := Awaited(polls);
      CoveredFrom(polls, blockSize, blockSize, n) <==> w.granted.Some? && CoveredFrom(w.rest, w.granted.value, 0, n)
  {
    hide Awaited;
  }

  lemma FirstBlock(polls: Polls, n: nat)
    requires n > 0
    ensures var w := Awaited(polls);
      Covered(polls, n) <==> w.granted.Some? && CoveredFrom(w.rest, w.granted.value, 0, n)
  {
    hide Awaited;
  }

  lemma NothingToCover(polls: Polls, blockSize: nat, inBlock: nat)
    requires blockSize != 0 ==> inBlock <= blockSize
    ensures CoveredFrom(polls, blockSize, inBlock, 0)
  {
  }

  /** The polls that are left after `k` waits. */
  function AfterWaits(polls: Polls, k: nat): Polls {
    if k == 0 then polls else Awaited(AfterWaits(polls, k - 1)).rest
  }

  /** The grants are what the first waits brought, in order. */
  predicate Spent(polls: Polls, grants: seq<Grant>) {
    forall i: nat :: i < |grants| ==> Awaited(AfterWaits(polls, i)).granted == Some(grants[i].blockSize)
  }

  /** The sender's block counter against the record. */
  predicate Discipline(cfs: seq<Sending>, grants: seq<Grant>, blockSize: nat, inBlock: nat) {
    && Separated(cfs, grants) && Blocked(cfs, grants) && grants != [] && grants[|grants| - 1] == Grant(blockSize, 0, 0)
    && CountedUnderLast(cfs, grants, inBlock) && LastEvent(cfs, grants) == 0
    && (cfs != [] ==> cfs[|cfs| - 1].time == 0)
  }

  lemma DisciplineKept(cfs: seq<Sending>, grants: seq<Grant>, blockSize: nat, inBlock: nat)
    requires Discipline(cfs, grants, blockSize, inBlock) && (blockSize != 0 ==> inBlock < blockSize)
    ensures Discipline(cfs + [Sending(0, |grants| - 1)], grants, blockSize, inBlock + 1)
  {
    hide Separated, Blocked, CountedUnderLast, LastEvent;
    FrameAdded(cfs, grants, inBlock, 0);
  }

  lemma NothingGranted(polls: Polls)
    ensures Spent(polls, []) && AfterWaits(polls, 0) == polls && Blocked([], []) && Separated([], [])
  {
  }

  lemma SpentMore(polls: Polls, middle: Polls, grants: seq<Grant>, blockSize: nat)
    requires Spent(polls, grants) && middle == AfterWaits(polls, |grants|) && Awaited(middle).granted == Some(blockSize)
    ensures Spent(polls, grants + [Grant(blockSize, 0, 0)])
    ensures Awaited(middle).rest == AfterWaits(polls, |grants| + 1)
  {
    hide Waited, Awaited;
  }

  /** What each clear-to-send of `frames` permits. */
  function BlockSizes(frames: seq<Frame>): nat
    decreases |frames|
  {
    if frames == [] then 0 else frames[0].data[1] as nat + BlockSizes(frames[1..])
  }

  /** All of these frames have arrived before they are looked for. */
  function Prompt(frames: seq<Frame>): Polls {
    seq(|frames|, (i: nat) requires i < |frames| => Some(frames[i]))
  }

  predicate AllCts(frames: seq<Frame>) { forall i :: 0 <= i < |frames| ==> IsCts(frames[i]) }

  /** Prompt clear-to-sends suffice if and only if one without a limit is among
    * them, or their block sizes add up to the frames there are. */
  lemma {:induction false} CoveredExactly(frames: seq<Frame>, n: nat)
    requires AllCts(frames)
    ensures Covered(Prompt(frames), n) <==>
      n <= BlockSizes(frames) || exists i :: 0 <= i < |frames| && frames[i].data[1] == 0
    decreases |frames|
  {
    if frames != [] && n != 0 {
      var rest := frames[1..];
      assert Prompt(frames)[1..] == Prompt(rest);
      assert Awaited(Prompt(frames)) == Wait(Some(frames[0].data[1]), Prompt(rest));
      if n > frames[0].data[1] as nat {
        CoveredExactly(rest, n - frames[0].data[1] as nat);
      }
    }
  }

  lemma SevenOrRest(rest: nat)
    ensures Min(7, rest) == if rest > 7 then 7 else rest
  {
  }

  lemma CarriedFirst(length: nat)
    requires length > 7
    ensures Carried(length, 0) == 6 && Consecutives(length) >= 1
  {
  }

  lemma ShortSegments(pdu: Pdu)
    requires |pdu| <= 7
    ensures Segments(pdu, RESPONSE_ID) == [Frame(RESPONSE_ID, 8, Padded([|pdu|] + pdu))]
  {
  }

  /** `sent` grew by a prefix of `frames`, by all of them on success. */
  predicate SentPrefix(before: seq<Frame>, sent: seq<Frame>, frames: seq<Frame>, ok: bool) {
    && (exists k: nat :: k <= |frames| && sent == before + frames[..k])
    && (ok ==> sent == before + frames)
  }

  lemma SentSoFar(before: seq<Frame>, sent: seq<Frame>, frames: seq<Frame>, k: nat)
    requires k <= |frames| && sent == before + frames[..k]
    ensures SentPrefix(before, sent, frames, false)
    ensures k == |frames| ==> SentPrefix(before, sent, frames, true)
  {
    if k == |frames| {
      assert frames[..k] == frames;
    }
  }

  /** A consecutive frame in the words of the receiver's specification. */
  lemma ContinueStep(length: nat, data: seq<byte>, next: nat, frame: Frame)
    requires |data| < length && frame.id == REQUEST_ID && frame.dlc != 0 && Pci(frame.data[0]) == CONSECUTIVE
    ensures var r := Collecting(length, data, next);
      var count := if length - |data| > 7 then 7 else length - |data|;
      Accept(r, frame) ==
        if Low(frame.data[0]) != next || frame.dlc < count + 1 then Received(Resting, None)
        else if |data| + count == length then Received(Resting, Some(data + frame.data[1..1 + count]))
        else Received(Collecting(length, data + frame.data[1..1 + count], (next + 1) % 16), None)
  {
  }

  /** The frames among what the polls find. */
  function Arrived(polls: Polls): seq<Frame>
    decreases |polls|
  {
    if polls == [] then []
    else (if polls[0].Some? then [polls[0].value] else []) + Arrived(polls[1..])
  }

  /** The next poll finds a first frame to be answered. */
  predicate Opening(polls: Polls) { polls != [] && polls[0].Some? && Opens(polls[0].value) }

  /** One permission without limits was sent, or refused by the controller. */
  predicate Replied(before: seq<Frame>, sent: seq<Frame>, refusals: nat, later: nat) {
    || (sent == before + [Reply(0x30)] && later == refusals)
    || (sent == before && later == refusals + 1)
  }

  lemma {:induction false} PromptArrives(frames: seq<Frame>)
    ensures Arrived(Prompt(frames)) == frames
    decreases |frames|
  {
    if frames != [] {
      assert Prompt(frames)[1..] == Prompt(frames[1..]);
      PromptArrives(frames[1..]);
    }
  }

  lemma ArrivedNext(polls: Polls)
    requires polls != []
    ensures polls[0] == None ==> Arrived(polls) == Arrived(polls[1..])
    ensures polls[0].Some? ==>
      Arrived(polls) != [] && Arrived(polls)[0] == polls[0].value && Arrived(polls)[1..] == Arrived(polls[1..])
  {
  }

  class Transport {
    const bus: CanBus
    /** BootIsoTp_RxState. */
    var waiting: bool
    const buffer: array<byte>
    var length: nat
    var offset: nat
    var nextSn: nat
    var timeout: nat

    constructor (bus: CanBus)
      ensures this.bus == bus && Valid() && Abstract() == Resting && fresh(buffer)
    {
      this.bus := bus;
      buffer := new byte[MAX_PDU](_ => 0);
      waiting, length, offset, nextSn, timeout := false, 0, 0, 1, 0;
    }

    ghost predicate Valid()
      reads this
    {
      buffer.Length == MAX_PDU && (waiting ==> offset < length <= MAX_PDU) && nextSn < 16
    }

    ghost function Abstract(): Receiver
      requires Valid()
      reads this, buffer
    {
      if waiting then Collecting(length, buffer[..offset], nextSn) else Resting
    }

    /** BootIsoTp_Abort. */
    method Abort()
      requires buffer.Length == MAX_PDU
      modifies this
      ensures Valid() && Abstract() == Resting && nextSn == 1 && timeout == 0
    {
      waiting, length, offset, nextSn, timeout := false, 0, 0, 1, 0;
    }

    /** What the poll starts from: waiting too long for a frame ends the message. */
    ghost function Polled(): Receiver
      requires Valid()
      reads this, buffer
    {
      if waiting && timeout + 1 >= TIMEOUT_LOOPS then Resting else Abstract()
    }

    /** BootIsoTp_MainFunction: one poll is one step of the receiver. */
    method MainFunction() returns (request: Option<seq<byte>>)
      requires Valid()
      modifies this, buffer, bus
      ensures Valid()
      ensures old(bus.polls) == [] || old(bus.polls)[0] == None ==> request == None && Abstract() == old(Polled())
      ensures old(bus.polls) != [] && old(bus.polls)[0].Some? ==>
        Received(Abstract(), request) == Accept(old(Polled()), old(bus.polls)[0].value)
      ensures bus.polls == if old(bus.polls) == [] then [] else old(bus.polls)[1..]
      ensures timeout <= old(timeout) + 1
      ensures if old(Opening(bus.polls)) then Replied(old(bus.sent), bus.sent, old(bus.refusals), bus.refusals)
              else bus.sent == old(bus.sent) && bus.refusals == old(bus.refusals)
    {
      if waiting {
        timeout := timeout + 1;
        if timeout >= TIMEOUT_LOOPS {
          Abort();
        }
      }
      var polled := bus.Receive();
      if polled == None || polled.value.id != REQUEST_ID || polled.value.dlc == 0 {
        return None;
      }
      var frame := polled.value;
      if Pci(frame.data[0]) == SINGLE {
        var count := Low(frame.data[0]);
        if count == 0 || count > 7 || count + 1 > frame.dlc {
          return None;
        }
        Abort();
        return Some(frame.data[1..1 + count]);
      }
      if Pci(frame.data[0]) == FIRST {
        Begin(frame);
        return None;
      }
      if Pci(frame.data[0]) == CONSECUTIVE && waiting {
        request := Continue(frame);
        return;
      }
      return None;
    }

    /** The first frame of a long message. */
    method Begin(frame: Frame)
      requires Valid() && frame.id == REQUEST_ID && frame.dlc != 0 && Pci(frame.data[0]) == FIRST
      modifies this, buffer, bus`sent, bus`refusals
      ensures Valid() && Received(Abstract(), None) == Accept(old(Abstract()), frame) && timeout == 0
      ensures if Opens(frame) then Replied(old(bus.sent), bus.sent, old(bus.refusals), bus.refusals)
              else bus.sent == old(bus.sent) && bus.refusals == old(bus.refusals)
    {
      var total := Low(frame.data[0]) * 256 + frame.data[1] as nat;
      Abort();
      if frame.dlc != 8 || total <= 7 || total > MAX_PDU {
        return;
      }
      length := total;
      var i := 0;
      while i < 6
        invariant 0 <= i <= 6 && buffer[..i] == frame.data[2..2 + i]
        modifies buffer
      {
        buffer[i] := frame.data[i + 2];
        i := i + 1;
      }
      assert buffer[..6] == frame.data[2..8];
      offset := 6;
      waiting := true;
      timeout := 0;
      SendFlowControl();
    }

    /** BootIsoTp_SendFlowControl. */
    method SendFlowControl()
      modifies bus`sent, bus`refusals
      ensures Replied(old(bus.sent), bus.sent, old(bus.refusals), bus.refusals)
    {
      var frame := ClearFrame(RESPONSE_ID);
      frame := frame.(data := frame.data[0 := FLOW_CONTROL]);
      assert frame.data == [0x30, 0, 0, 0, 0, 0, 0, 0];
      var ok := bus.Transmit(frame);
    }

    /** A consecutive frame of the message being received. */
    method Continue(frame: Frame) returns (request: Option<seq<byte>>)
      requires Valid() && waiting && frame.id == REQUEST_ID && frame.dlc != 0 && Pci(frame.data[0]) == CONSECUTIVE
      modifies this, buffer
      ensures Valid() && Received(Abstract(), request) == Accept(old(Abstract()), frame) && timeout == 0
    {
      hide Accept, Low;
      ContinueStep(length, buffer[..offset], nextSn, frame);
      if Low(frame.data[0]) != nextSn {
        Abort();
        return None;
      }
      var remaining := length - offset;
      var count := if remaining > 7 then 7 else remaining;
      if frame.dlc < count + 1 {
        Abort();
        return None;
      }
      ghost var before := buffer[..offset];
      CopyPayload(frame, count);
      offset := offset + count;
      nextSn := (nextSn + 1) % 16;
      timeout := 0;
      if offset == length {
        assert buffer[..length] == before + frame.data[1..1 + count];
        request := Some(buffer[..length]);
        Abort();
        return;
      }
      return None;
    }

    method CopyPayload(frame: Frame, count: nat)
      requires buffer.Length == MAX_PDU && offset + count <= MAX_PDU && count <= 7
      modifies buffer
      ensures buffer[..offset + count] == old(buffer[..offset]) + frame.data[1..1 + count]
    {
      ghost var before := buffer[..offset];
      var i := 0;
      while i < count
        invariant 0 <= i <= count && forall j :: 0 <= j < offset ==> buffer[j] == before[j]
        invariant forall j :: offset <= j < offset + i ==> buffer[j] == frame.data[j - offset + 1]
      {
        buffer[offset + i] := frame.data[i + 1];
        i := i + 1;
      }
      assert buffer[offset..offset + count] == frame.data[1..1 + count];
      assert buffer[..offset + count] == before + buffer[offset..offset + count];
    }

    /** Poll until nothing arrives any more: exactly the messages of the frames come
      * out, however many polls found nothing in between. */
    method PollAll() returns (messages: seq<seq<byte>>)
      requires Valid() && timeout + |bus.polls| < TIMEOUT_LOOPS
      modifies this, buffer, bus
      ensures Valid() && bus.polls == []
      ensures messages == Messages(old(Abstract()), Arrived(old(bus.polls)))
    {
      hide Accept;
      messages := [];
      ghost var all := Messages(Abstract(), Arrived(bus.polls));
      while bus.polls != []
        invariant Valid() && timeout + |bus.polls| < TIMEOUT_LOOPS
        invariant messages + Messages(Abstract(), Arrived(bus.polls)) == all
        decreases |bus.polls|
      {
        ArrivedNext(bus.polls);
        var request := MainFunction();
        if request.Some? {
          messages := messages + [request.value];
        }
      }
    }

    /** BootIsoTp_WaitCts: the first request frame in time gives permission, or,
      * unless it is a clear-to-send without separation time, ends the transmission. */
    method WaitCts() returns (blockSize: Option<nat>)
      modifies bus`polls
      ensures Wait(blockSize, bus.polls) == Awaited(old(bus.polls))
    {
      var timeout := TIMEOUT_LOOPS;
      while timeout != 0
        invariant 0 <= timeout <= TIMEOUT_LOOPS
        invariant Waited(bus.polls, timeout) == Awaited(old(bus.polls))
        decreases timeout
      {
        timeout := timeout - 1;
        var polled := bus.Receive();
        if polled == None || polled.value.id != REQUEST_ID {
          continue;
        }
        var frame := polled.value;
        if frame.dlc < 3 || frame.data[0] != FLOW_CONTROL || frame.data[2] != 0 {
          return None;
        }
        return Some(frame.data[1]);
      }
      return None;
    }

    /** BootIsoTp_Transmit: what is sent is a prefix of the message's frames, and
      * it is all of them if and only if no frame is refused and permission comes in
      * time for every one of them. */
    method Transmit(response: seq<byte>) returns (ok: bool, ghost cfs: seq<Sending>, ghost grants: seq<Grant>)
      modifies bus
      ensures !(0 < |response| <= MAX_PDU) ==> !ok && bus.sent == old(bus.sent)
      ensures 0 < |response| <= MAX_PDU ==> SentPrefix(old(bus.sent), bus.sent, Segments(response, RESPONSE_ID), ok)
      ensures Blocked(cfs, grants) && Spent(old(bus.polls), grants)
      ensures |response| > 7 && bus.sent != old(bus.sent) ==> |bus.sent| == |old(bus.sent)| + 1 + |cfs|
      ensures ok <==>
        0 < |response| <= MAX_PDU && bus.refusals == old(bus.refusals)
          && Covered(old(bus.polls), Consecutives(|response|))
    {
      hide Segments, SentPrefix, Spent, Blocked, Separated, Awaited;
      cfs, grants := [], [];
      NothingGranted(bus.polls);
      if response == [] || |response| > MAX_PDU {
        ok := false;
        return;
      }
      if |response| > 7 {
        ok, cfs, grants := TransmitLong(response);
      } else {
        ok := TransmitShort(response);
      }
    }

    /** The frame of a short response. */
    method TransmitShort(response: Pdu) returns (ok: bool)
      requires |response| <= 7
      modifies bus`sent, bus`refusals
      ensures SentPrefix(old(bus.sent), bus.sent, Segments(response, RESPONSE_ID), ok)
      ensures ok <==> bus.refusals == old(bus.refusals)
    {
      hide SingleFrame;
      ghost var frames := Segments(response, RESPONSE_ID);
      assert frames[..0] == [];
      var frame := ClearFrame(RESPONSE_ID);
      frame := frame.(data := frame.data[0 := |response|]);
      var index := 0;
      while index < |response|
        invariant 0 <= index <= |response| && frame.id == RESPONSE_ID && frame.dlc == 8
        invariant frame.data == Padded([|response|] + response[..index])
      {
        frame := frame.(data := frame.data[index + 1 := response[index]]);
        index := index + 1;
      }
      assert response[..|response|] == response;
      assert frame == frames[0] by { ShortSegments(response); }
      assert frames == frames[..1];
      ok := bus.Transmit(frame);
    }

    /** WaitCts, with the permission recorded; `all` are the polls from the first wait on. */
    method AwaitGrant(ghost all: Polls, ghost cfs: seq<Sending>, ghost grants: seq<Grant>)
      returns (granted: Option<nat>, ghost after: seq<Grant>)
      requires Separated(cfs, grants) && Blocked(cfs, grants) && (cfs != [] ==> cfs[|cfs| - 1].time == 0)
      requires Spent(all, grants) && bus.polls == AfterWaits(all, |grants|)
      modifies bus`polls
      ensures Wait(granted, bus.polls) == Awaited(old(bus.polls))
      ensures Spent(all, after) && Separated(cfs, after) && Blocked(cfs, after)
      ensures granted.Some? ==> Discipline(cfs, after, granted.value, 0) && bus.polls == AfterWaits(all, |after|)
    {
      hide Separated, Blocked, CountedUnderLast, LastEvent, Awaited, Spent, AfterWaits;
      ghost var before := bus.polls;
      granted := WaitCts();
      after := grants;
      if granted.Some? {
        after := grants + [Grant(granted.value, 0, 0)];
        SpentMore(all, before, grants, granted.value);
        GrantAdded(cfs, grants, Grant(granted.value, 0, 0));
      }
    }

    /** One more consecutive frame. */
    method SendConsecutive(response: Pdu, offset: nat, sequence: nat, ghost k: nat) returns (ok: bool, next: nat)
      requires |response| > 7 && k < Consecutives(|response|) && offset == Carried(|response|, k)
      requires sequence == (k + 1) % 16
      modifies bus`sent, bus`refusals
      ensures ok ==>
        && bus.refusals == old(bus.refusals)
        && bus.sent == old(bus.sent) + [Frame(RESPONSE_ID, 8, ConsecutiveFrame(response, k + 1))]
      ensures ok ==>
        && next == Carried(|response|, k + 1)
        && (next < |response| <==> k + 1 < Consecutives(|response|))
        && offset < next <= |response|
      ensures !ok ==> bus.sent == old(bus.sent) && bus.refusals == old(bus.refusals) + 1
    {
      hide ConsecutiveFrame, Segments, Carried, Consecutives;
      SegmentsAt(response, RESPONSE_ID, k);
      SevenOrRest(|response| - offset);
      var frame := MakeConsecutive(response, offset, sequence, k + 1);
      ok := bus.Transmit(frame);
      next := offset + (if |response| - offset > 7 then 7 else |response| - offset);
    }

    /** The frames of a long response; `cfs` and `grants` record under which
      * permission each consecutive frame went out. */
    method TransmitLong(response: Pdu) returns (ok: bool, ghost cfs: seq<Sending>, ghost grants: seq<Grant>)
      requires |response| > 7
      modifies bus
      ensures SentPrefix(old(bus.sent), bus.sent, Segments(response, RESPONSE_ID), ok)
      ensures Blocked(cfs, grants) && Spent(old(bus.polls), grants)
      ensures bus.sent != old(bus.sent) ==> |bus.sent| == |old(bus.sent)| + 1 + |cfs|
      ensures ok <==> bus.refusals == old(bus.refusals) && Covered(old(bus.polls), Consecutives(|response|))
    {
      hide FirstFrame, ConsecutiveFrame, Segments, Carried, Blocked, Separated, CountedUnderLast, LastEvent, Spent,
           Consecutives, Awaited, AfterWaits, Covered, CoveredFrom;
      ghost var frames := Segments(response, RESPONSE_ID);
      ghost var sent, all := bus.sent, bus.polls;
      CarriedFirst(|response|);
      FirstBlock(all, Consecutives(|response|));
      cfs, grants := [], [];
      NothingGranted(all);
      SegmentsAt(response, RESPONSE_ID, 0);
      assert frames[..0] == [];
      var frame := MakeFirst(response);
      ok := bus.Transmit(frame);
      if !ok {
        return;
      }
      var granted;
      granted, grants := AwaitGrant(all, cfs, grants);
      if granted == None {
        ok := false;
        return;
      }
      ok, cfs, grants := TransmitRest(response, granted.value, sent, all, grants);
    }

    /** The consecutive frames, from the first grant on; `sent` is what was on the
      * bus before the first frame, `all` are the polls from the first wait on. */
    method TransmitRest(response: Pdu, first: nat, ghost sent: seq<Frame>, ghost all: Polls, ghost granted: seq<Grant>)
      returns (ok: bool, ghost cfs: seq<Sending>, ghost grants: seq<Grant>)
      requires |response| > 7 && Discipline([], granted, first, 0)
      requires bus.sent == sent + Segments(response, RESPONSE_ID)[..1]
      requires Spent(all, granted) && bus.polls == AfterWaits(all, |granted|)
      modifies bus
      ensures SentPrefix(sent, bus.sent, Segments(response, RESPONSE_ID), ok)
      ensures Blocked(cfs, grants) && Spent(all, grants)
      ensures |bus.sent| == |sent| + 1 + |cfs|
      ensures ok <==>
        bus.refusals == old(bus.refusals) && CoveredFrom(old(bus.polls), first, 0, Consecutives(|response|))
    {
      hide FirstFrame, ConsecutiveFrame, Segments, Carried, Blocked, Separated, CountedUnderLast, LastEvent, Spent,
           Consecutives, Awaited, AfterWaits, Covered, CoveredFrom, SentPrefix;
      ghost var frames, n := Segments(response, RESPONSE_ID), Consecutives(|response|);
      cfs, grants := [], granted;
      CarriedFirst(|response|);
      SegmentsAt(response, RESPONSE_ID, 0);
      var blockSize, inBlock, sequence, offset := first, 0, 1, 6;
      while offset < |response|
        invariant |cfs| <= n && offset == Carried(|response|, |cfs|) <= |response| && sequence == (|cfs| + 1) % 16
        invariant offset < |response| <==> |cfs| < n
        invariant bus.sent == sent + frames[..|cfs| + 1] && bus.refusals == old(bus.refusals)
        invariant Spent(all, grants) && bus.polls == AfterWaits(all, |grants|)
        invariant CoveredFrom(bus.polls, blockSize, inBlock, n - |cfs|) == CoveredFrom(old(bus.polls), first, 0, n)
        invariant Discipline(cfs, grants, blockSize, inBlock) && (blockSize != 0 ==> inBlock <= blockSize)
        invariant offset < |response| && blockSize != 0 ==> inBlock < blockSize
        decreases |response| - offset
      {
        ghost var k := |cfs|;
        var next;
        ok, next := SendConsecutive(response, offset, sequence, k);
        if !ok {
          SentSoFar(sent, bus.sent, frames, k + 1);
          return;
        }
        SegmentsAt(response, RESPONSE_ID, k);
        DisciplineKept(cfs, grants, blockSize, inBlock);
        BlockGoesOn(bus.polls, blockSize, inBlock, n - k);
        cfs := cfs + [Sending(0, |grants| - 1)];
        offset, sequence, inBlock := next, (sequence + 1) % 16, inBlock + 1;
        if offset < |response| && blockSize != 0 && inBlock == blockSize {
          var again;
          BlockEnds(bus.polls, blockSize, n - |cfs|);
          again, grants := AwaitGrant(all, cfs, grants);
          if again == None {
            ok := false;
            SentSoFar(sent, bus.sent, frames, |cfs| + 1);
            return;
          }
          blockSize, inBlock := again.value, 0;
        }
      }
      NothingToCover(bus.polls, blockSize, inBlock);
      SentSoFar(sent, bus.sent, frames, n + 1);
      ok := true;
    }

    method MakeFirst(response: Pdu) returns (frame: Frame)
      requires |response| > 7
      ensures frame == Frame(RESPONSE_ID, 8, FirstFrame(response))
    {
      frame := ClearFrame(RESPONSE_ID);
      frame := frame.(data := frame.data[0 := FIRST + |response| / 256][1 := |response| % 256]);
      var index := 0;
      while index < 6
        invariant 0 <= index <= 6 && frame.id == RESPONSE_ID && frame.dlc == 8
        invariant frame.data == Padded([FIRST + |response| / 256, |response| % 256] + response[..index])
      {
        frame := frame.(data := frame.data[index + 2 := response[index]]);
        index := index + 1;
      }
    }

    method MakeConsecutive(response: Pdu, offset: nat, sequence: nat, ghost k: nat) returns (frame: Frame)
      requires |response| > 7 && 1 <= k <= Consecutives(|response|) && offset == Carried(|response|, k - 1)
      requires sequence == k % 16
      ensures frame == Frame(RESPONSE_ID, 8, ConsecutiveFrame(response, k))
    {
      CarriedAll(|response|);
      frame := ClearFrame(RESPONSE_ID);
      frame := frame.(data := frame.data[0 := CONSECUTIVE + sequence]);
      var count := if |response| - offset > 7 then 7 else |response| - offset;
      var index := 0;
      while index < count
        invariant 0 <= index <= count && frame.id == RESPONSE_ID && frame.dlc == 8
        invariant frame.data == Padded([CONSECUTIVE + sequence] + response[offset..offset + index])
      {
        frame := frame.(data := frame.data[index + 1 := response[offset + index]]);
        index := index + 1;
      }
      assert Carried(|response|, k) == offset + count;
    }
  }
}
