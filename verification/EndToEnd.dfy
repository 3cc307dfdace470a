/** From the image file to the slot: what the gateway sends, in whatever pieces,
  * is what the bootloader activates. */
module EndToEnd {
  import opened Bytes
  import opened Slots
  import opened TwinStore
  import opened ImageFormat
  import opened Protocol
  import opened Safety
  import opened FlashMap
  import opened FlashModel
  import opened Transfer
  import opened UpdateManager
  import opened Programming
  import BootCycle
  import opened Trials
  import opened BootManager
  import opened Uds
  import opened Requests
  import opened Device
  import JournalStore
  import IsoTp
  import Lifecycle
  import MetadataStore
  import PackedImage
  import Security
  import J = JournalFormat
  import M = MetadataFormat

  /** The chunks a transfer request can carry. */
  predicate Sendable(chunks: seq<seq<byte>>) {
    forall i :: 0 <= i < |chunks| ==> 0 < |chunks[i]| <= MAX_BLOCK - 2
  }

  /** A download that has received exactly `data`: nothing in it depends on how
    * the data was cut into requests. */
  ghost predicate Sent(session: Session, data: seq<byte>)
    reads session, session.buffer, session.update, session.flash, session.flash.mem
  {
    && session.flash.mem.Length == FLASH_SIZE && |data| <= SLOT_SIZE
    && session.c.downloadActive && session.update.CanContinue() && session.stream == data
    && session.TargetBytes() == Written(data) && session.c.staged == Staged(data) && TailErased(data)
    && session.c.size == SLOT_SIZE && session.c.received == |data| && session.c.programmed == Phrases(|data|)
    && session.c.buffered == |data| - session.c.programmed && session.c.session && session.c.unlocked
  }

  lemma SessionSize(session: Session)
    requires session.Valid() && session.c.downloadActive
    ensures session.c.size == SLOT_SIZE && session.c.received == |session.stream|
  {
    hide SystemOf, Unambiguous, Outside, VersionRight, Holds, Cached, MayStart;
  }

  lemma SentNow(session: Session)
    requires session.Valid() && session.c.downloadActive && session.update.CanContinue()
    requires session.c.session && session.c.unlocked
    ensures Sent(session, session.stream)
  {
    hide SystemOf, Unambiguous, Outside, VersionRight, MayStart, Written, Staged, TailErased;
  }

  lemma NoTail()
    ensures TailErased([])
  {
  }

  /** The server is in the programming session, and unlocked. */
  ghost predicate Entered(server: Server)
    reads server, server.session, server.session.buffer, server.session.update, server.session.lifecycle,
          server.session.lifecycle.update, server.session.lifecycle.store, server.session.flash,
          server.session.flash.mem
  {
    server.session.Valid() && server.kind == PROGRAMMING_SESSION && server.unlocked
  }

  /** The code of a response; a malformed one has none. */
  function Code(reading: Reading): byte {
    match reading
    case Done(_) => POSITIVE
    case Rejected(nrc) => nrc
    case Malformed => PROGRAMMING_FAILURE
  }

  /** One request of the gateway, byte by byte: written, cut into frames and put
    * together, read, handled, answered, and the answer understood. */
  method Ask(server: Server, request: Request) returns (reading: Reading)
    requires server.session.Valid() && Expressible(request)
    requires request.RequestSeed? || request.SendKey? ==> server.kind == PROGRAMMING_SESSION
    modifies server, server.session, server.session.buffer, server.session.update, server.session.update.journal,
             server.session.flash, server.session.flash.mem
    ensures server.session.Valid() && server.Goes()
    ensures server.Does(request, Code(reading)) && (Code(reading) == POSITIVE <==> reading.Done?)
    ensures reading.Done? ==> reading.value == Reported(request, server.seed)
  {
    hide SystemOf, Unambiguous, Outside, Session.Valid, Moves, Confined, Obeyed, Handled, Encode, Decode, Read, Respond,
         IsoTp.Messages, IsoTp.Segments, MayStart;
    var q := Encode(request);
    IsoTp.SegmentsReassemble(q, IsoTp.Resting);
    var received := IsoTp.Messages(IsoTp.Resting, IsoTp.Segments(q, IsoTp.REQUEST_ID));
    var drawn: word := if request.RequestSeed? then request.drawn else 0;
    RequestUnderstood(request, server.kind, drawn);
    var parsed := Decode(received[0], server.kind, drawn);
    var nrc := server.Handle(parsed.request);
    ResponseUnderstood(request, nrc, server.seed);
    reading := Read(request, Respond(parsed.request, nrc, server.seed));
  }

  lemma AccessKnown(a: Standing)
    requires a.kind == PROGRAMMING_SESSION && a.unlocked && a.s.c.session && a.s.c.unlocked
    ensures a.s.(c := Accessed(a)) == a.s
  {
  }

  method AskErase(server: Server, address: word, size: word) returns (nrc: byte)
    requires Entered(server) && server.session.c.session && server.session.c.unlocked
    modifies server, server.session, server.session.buffer, server.session.update, server.session.update.journal,
             server.session.flash, server.session.flash.mem
    ensures Entered(server) && server.session.flash.Onward() && server.session.Within()
    ensures old(server.session.refusals) <= server.session.refusals
    ensures server.session.EraseOutcome(nrc, address, size)
  {
    hide SystemOf, Unambiguous, Outside, Session.Valid, EraseAnswer, Moves, Confined, Obeyed, Ordered;
    OrderedSession(server.session);
    AccessKnown(server.Now());
    var reading := Ask(server, EraseSlot(address, size));
    nrc := Code(reading);
  }

  method AskDownload(server: Server, address: word, size: word) returns (nrc: byte, maximum: nat)
    requires Entered(server) && server.session.c.session && server.session.c.unlocked
    modifies server, server.session, server.session.buffer, server.session.update, server.session.update.journal,
             server.session.flash, server.session.flash.mem
    ensures Entered(server) && server.session.flash.Onward() && server.session.Within()
    ensures old(server.session.refusals) <= server.session.refusals
    ensures server.session.DownloadOutcome(nrc, address, size)
    ensures nrc == POSITIVE ==> maximum == MAX_BLOCK
  {
    hide SystemOf, Unambiguous, Outside, Session.Valid, DownloadAnswer, Moves, Confined, Obeyed, Ordered;
    OrderedSession(server.session);
    AccessKnown(server.Now());
    var reading := Ask(server, RequestDownload(address, size));
    nrc := Code(reading);
    maximum := if reading.Done? then reading.value else 0;
  }

  method AskTransfer(server: Server, sequence: byte, data: seq<byte>) returns (nrc: byte)
    requires 0 < |data| <= MAX_BLOCK - 2
    requires Entered(server) && server.session.c.session && server.session.c.unlocked
    modifies server, server.session, server.session.buffer, server.session.update, server.session.update.journal,
             server.session.flash, server.session.flash.mem
    ensures Entered(server) && server.session.flash.Onward() && server.session.Within()
    ensures old(server.session.refusals) <= server.session.refusals
    ensures server.session.TransferOutcome(nrc, sequence, data)
  {
    hide SystemOf, Unambiguous, Outside, Session.Valid, TransferAnswer, Moves, Confined, Obeyed, Ordered;
    OrderedSession(server.session);
    AccessKnown(server.Now());
    var reading := Ask(server, TransferData(sequence, data));
    nrc := Code(reading);
  }

  method AskExit(server: Server) returns (nrc: byte)
    requires Entered(server) && server.session.c.session && server.session.c.unlocked
    modifies server, server.session, server.session.buffer, server.session.update, server.session.update.journal,
             server.session.flash, server.session.flash.mem
    ensures Entered(server) && server.session.flash.Onward() && server.session.Within()
    ensures old(server.session.refusals) <= server.session.refusals
    ensures server.session.ExitOutcome(nrc)
  {
    hide SystemOf, Unambiguous, Outside, Session.Valid, ExitAnswer, Moves, Confined, Obeyed, Ordered;
    OrderedSession(server.session);
    AccessKnown(server.Now());
    var reading := Ask(server, TransferExit);
    nrc := Code(reading);
  }

  method AskVerify(server: Server) returns (nrc: byte)
    requires Entered(server) && server.session.c.session && server.session.c.unlocked
    modifies server, server.session, server.session.buffer, server.session.update, server.session.update.journal,
             server.session.flash, server.session.flash.mem
    ensures Entered(server) && server.session.flash.Onward() && server.session.Within()
    ensures old(server.session.refusals) <= server.session.refusals
    ensures server.session.VerifyOutcome(nrc)
  {
    hide SystemOf, Unambiguous, Outside, Session.Valid, VerifyAnswer, Moves, Confined, Obeyed, Ordered;
    OrderedSession(server.session);
    AccessKnown(server.Now());
    var reading := Ask(server, VerifyImage);
    nrc := Code(reading);
  }

  /** The transfer requests of one download, with their counters. */
  method SendAll(server: Server, chunks: seq<seq<byte>>) returns (nrc: byte)
    requires Entered(server) && server.session.c.session && server.session.c.unlocked
    requires server.session.update.CanContinue() && server.session.c.downloadActive
    requires server.session.c.expected == 1 && server.session.stream == []
    requires Sendable(chunks) && |PackedImage.Concat(chunks)| <= SLOT_SIZE
    modifies server, server.session, server.session.buffer, server.session.update, server.session.update.journal,
             server.session.flash, server.session.flash.mem
    ensures Entered(server) && server.session.flash.Onward()
    ensures server.session.Within() && old(server.session.refusals) <= server.session.refusals
    ensures nrc == POSITIVE ==> Sent(server.session, PackedImage.Concat(chunks))
    ensures nrc == POSITIVE ==> SameUpdate(old(server.session.update.current), server.session.update.current)
    ensures server.session.flash.Uneventful() ==> (nrc == POSITIVE <==> TailErased(PackedImage.Concat(chunks)))
  {
    hide SystemOf, Unambiguous, Outside, InOrder, VersionRight, MayStart, Moves, Confined, TailErased;
    var session := server.session;
    ghost var d := session.flash.State();
    ghost var whole := PackedImage.Concat(chunks);
    MovesSelf(d);
    ConfinedSelf(d, session.c.target);
    NoTail();
    var i := 0;
    var sequence: byte := 1;
    while i < |chunks|
      invariant 0 <= i <= |chunks| && sequence == session.c.expected
      invariant Entered(server) && session.flash.Onward() && session.Within()
      invariant session.c.session && session.c.unlocked && session.update.CanContinue() && session.c.downloadActive
      invariant old(session.refusals) <= session.refusals
      invariant whole == session.stream + PackedImage.Concat(chunks[i..])
      invariant SameUpdate(old(session.update.current), session.update.current)
      invariant session.flash.Uneventful() ==> TailErased(session.stream)
    {
      ghost var e := session.flash.State();
      ghost var before := session.stream;
      assert chunks[i..][0] == chunks[i] && chunks[i..][1..] == chunks[i + 1..];
      SessionSize(session);
      nrc := AskTransfer(server, sequence, chunks[i]);
      MovesCompose(d, e, session.flash.State());
      ConfinedCompose(d, e, session.flash.State(), session.c.target);
      assert before + chunks[i] == whole[..|before + chunks[i]|];
      TailOnward(before + chunks[i], whole);
      if nrc != POSITIVE {
        return;
      }
      sequence := (sequence + 1) % 256;
      i := i + 1;
    }
    nrc := POSITIVE;
    assert session.stream == whole;
    SentNow(session);
  }

  /** The image is for the target and newer than what runs. */
  predicate Suits(data: seq<byte>, c: Context) {
    && PackedImage.Parse(data).Success? && PackedImage.Parse(data).value.slot == c.target
    && (IsSlot(c.active) ==> PackedImage.Parse(data).value.version > c.activeVersion)
  }

  /** The target holds `data`, it loads, and its activation is durable. */
  predicate Awaits(s: Snapshot, data: seq<byte>, transaction: word) {
    && |data| == SLOT_SIZE
    && s.durable.slots.At(s.c.target) == data && ImageFormat.LoadInfo(s.c.target, data) == Verdict.VALID
    && ResetOffered(s) && s.durable.journal == Present(s.current)
    && s.current.target == s.c.target && s.current.transaction == transaction
    && Installed(s.current, s.durable.slots)
  }

  ghost predicate Awaiting(session: Session, data: seq<byte>, transaction: word)
    reads session, session.update, session.flash, session.flash.mem
  {
    session.flash.mem.Length == FLASH_SIZE && Awaits(session.Now(), data, transaction)
  }

  /** A positive answer to the verify request at the end of the transfers of `data`. */
  lemma VerifyAwaits(was: Snapshot, now: Snapshot, told: bool, undisturbed: bool, data: seq<byte>)
    requires VerifyAnswer(was, now, told, undisturbed, POSITIVE) && Ordered(now) && was.stream == data
    requires |data| == SLOT_SIZE && ImageFormat.LoadInfo(was.c.target, data) == Verdict.VALID
    ensures Awaits(now, data, was.current.transaction)
  {
    hide Installed, J.BodyCrc, ImageFormat.LoadInfo, Written, Staged, TailErased, DecodeHeader, Judgement;
  }

  lemma ParsedStream(data: seq<byte>, c: Context)
    requires PackedImage.Parse(data).Success? && PackedImage.Parse(data).value.slot == c.target
    ensures |data| == SLOT_SIZE && TailErased(data)
    ensures c.staged == Staged(data) ==>
      |c.staged| == HEADER_SIZE && (Judgement(c, data) == POSITIVE <==> Suits(data, c))
    ensures ImageFormat.LoadInfo(c.target, data) == Verdict.VALID
  {
    hide DecodeHeader, Written, Staged, ImageFormat.Validate;
    PackedImage.ParseAgrees(data);
    var tail := data[HEADER_OFFSET + HEADER_SIZE..];
    forall i | HEADER_OFFSET + HEADER_SIZE <= i < SLOT_SIZE ensures data[i] == ERASED {
      assert tail[i - HEADER_OFFSET - HEADER_SIZE] == ERASED;
    }
    if c.staged == Staged(data) {
      PublishedStream(data);
      ValidateReadsPayload(c.target, DecodeHeader(c.staged), data, Written(data));
    }
  }

  lemma DownloadFlags(session: Session)
    requires session.Valid() && session.c.downloadActive
    ensures session.c.eraseComplete && !session.c.transferComplete && !session.c.imageVerified
  {
    hide SystemOf, Unambiguous, Outside, VersionRight, MayStart, Written, Staged, TailErased, Holds, Cached;
  }

  /** A download of all of `data` can be concluded. */
  lemma ExitAllowed(s: Snapshot)
    requires Ordered(s) && s.c.downloadActive && |s.stream| == SLOT_SIZE && s.can && s.c.session && s.c.unlocked
    ensures ExitRefusal(s.c, s.can) == POSITIVE
  {
    hide Written, Staged;
  }

  lemma ExitConcludes(was: Snapshot, now: Snapshot, undisturbed: bool)
    requires ExitAnswer(was, now, undisturbed, POSITIVE) && Ordered(was)
    ensures VerifyRefusal(now.c, now.can) == POSITIVE || was.c.imageVerified
    ensures now.current.state == J.TRANSFER_COMPLETE && now.current.transaction == was.current.transaction
    ensures now.stream == was.stream && now.c == was.c.(downloadActive := false, transferComplete := true)
  {
    hide J.BodyCrc, DecodeHeader, Written, Staged;
  }

  /** Exit and verify, after all of the image was sent. */
  method Finish(server: Server, data: seq<byte>) returns (nrc: byte)
    requires Entered(server) && Sent(server.session, data) && !server.session.c.imageVerified
    requires PackedImage.Parse(data).Success? && PackedImage.Parse(data).value.slot == server.session.c.target
    modifies server, server.session, server.session.buffer, server.session.update, server.session.update.journal,
             server.session.flash, server.session.flash.mem
    ensures Entered(server) && server.session.flash.Onward()
    ensures server.session.Within() && old(server.session.refusals) <= server.session.refusals
    ensures nrc == POSITIVE ==>
      Suits(data, server.session.c) && Awaiting(server.session, data, old(server.session.update.current).transaction)
    ensures server.session.flash.Uneventful() && server.session.refusals == old(server.session.refusals) ==>
      (nrc == POSITIVE <==> Suits(data, old(server.session.c)))
  {
    hide SystemOf, Unambiguous, Outside, Session.Valid, MayStart, Moves, Confined, TailErased, Written, Staged, Awaits,
         J.BodyCrc, Suits, PackedImage.Parse, Judgement, ImageFormat.LoadInfo, ExitAnswer, Ordered;
    var session := server.session;
    OrderedSession(session);
    ghost var d, was := session.flash.State(), session.Now();
    ParsedStream(data, session.c);
    ExitAllowed(was);
    nrc := AskExit(server);
    ExitAnswers(was, session.Now(), session.flash.Uneventful(), nrc);
    if nrc != POSITIVE {
      return;
    }
    ExitConcludes(was, session.Now(), session.flash.Uneventful());
    ghost var f, sent := session.flash.State(), session.Now();
    label verifying:
    ParsedStream(data, session.c);
    nrc := AskVerify(server);
    OrderedSession(session);
    MovesCompose(d, f, session.flash.State());
    ConfinedCompose(d, f, session.flash.State(), session.c.target);
    if nrc == POSITIVE {
      VerifyAwaits(sent, session.Now(), session.refusals == old@verifying(session.refusals),
                   session.flash.Uneventful@verifying(), data);
    }
    SuitsReads(data, sent.c, session.c);
    SuitsReads(data, sent.c, was.c);
  }

  lemma ExitAnswers(was: Snapshot, now: Snapshot, undisturbed: bool, nrc: byte)
    requires ExitAnswer(was, now, undisturbed, nrc) && ExitRefusal(was.c, was.can) == POSITIVE
    ensures undisturbed ==> nrc == POSITIVE
  {
    hide J.BodyCrc, DecodeHeader;
  }

  /** The end of the sequence for a download that was accepted. */
  method Deliver(server: Server, data: seq<byte>, maximum: nat) returns (nrc: byte)
    requires maximum == MAX_BLOCK
    requires Entered(server) && server.session.c.session && server.session.c.unlocked
    requires server.session.update.CanContinue() && server.session.c.downloadActive
    requires server.session.c.expected == 1 && server.session.stream == []
    requires PackedImage.Parse(data).Success? && PackedImage.Parse(data).value.slot == server.session.c.target
    modifies server, server.session, server.session.buffer, server.session.update, server.session.update.journal,
             server.session.flash, server.session.flash.mem
    ensures Entered(server) && server.session.flash.Onward()
    ensures server.session.Within() && old(server.session.refusals) <= server.session.refusals
    ensures nrc == POSITIVE ==>
      Suits(data, server.session.c) && Awaiting(server.session, data, old(server.session.update.current).transaction)
    ensures server.session.flash.Uneventful() && server.session.refusals == old(server.session.refusals) ==>
      (nrc == POSITIVE <==> Suits(data, old(server.session.c)))
  {
    hide SystemOf, Unambiguous, Outside, InOrder, VersionRight, MayStart, Moves, Confined, TailErased, Written, Staged,
         J.BodyCrc, Suits, PackedImage.Parse, PackedImage.Chunks, Judgement, DecodeHeader, ImageFormat.LoadInfo,
         J.FieldsValid, Installed, Awaits;
    var session := server.session;
    ghost var d := session.flash.State();
    ParsedStream(data, session.c);
    PackedImage.ChunksJoin(data, MAX_BLOCK - 2);
    DownloadFlags(session);
    var chunks := PackedImage.TransferChunks(data, maximum);
    nrc := SendAll(server, chunks.value);
    if nrc != POSITIVE {
      return;
    }
    ghost var e := session.flash.State();
    DownloadFlags(session);
    SuitsReads(data, session.c, old(session.c));
    nrc := Finish(server, data);
    MovesCompose(d, e, session.flash.State());
    ConfinedCompose(d, e, session.flash.State(), session.c.target);
  }

  lemma SuitsReads(data: seq<byte>, b: Context, c: Context)
    requires SameSlots(b, c)
    ensures Suits(data, b) == Suits(data, c)
  {
    hide PackedImage.Parse;
  }

  lemma EraseAllowed(session: Session)
    requires session.Valid() && session.c.session && session.c.unlocked && !session.c.downloadActive
    requires session.Permitted()
    ensures EraseRefusal(session.c, session.update.CanContinue(),
                         session.lifecycle.CanStartUpdate(session.c.active, session.c.target),
                         Base(session.c.target), SLOT_SIZE) == POSITIVE
  {
    hide SystemOf, Unambiguous, Outside, VersionRight, InOrder;
  }

  lemma EraseTransaction(b: Context, c: Context, was: J.Journal, r: J.Journal, can: bool)
    requires EraseDone(b, c, was, r, can)
    ensures r.transaction == Add(was.transaction, 1) && Advanced(r, J.PROGRAMMING).transaction == r.transaction
  {
    hide J.BodyCrc;
  }

  /** The gateway's sequence for an image that parse accepts: erase, download, the
    * transfers, exit, verify. It succeeds exactly when the image is newer than
    * the one running; then the slot is the file, and its activation is durable. */
  method Install(server: Server, data: seq<byte>) returns (nrc: byte)
    requires Entered(server) && server.session.c.session && server.session.c.unlocked
    requires !server.session.c.downloadActive
    requires PackedImage.Parse(data).Success? && PackedImage.Parse(data).value.slot == server.session.c.target
    modifies server, server.session, server.session.buffer, server.session.update, server.session.update.journal,
             server.session.flash, server.session.flash.mem
    ensures Entered(server) && server.session.flash.Onward()
    ensures server.session.Within() && old(server.session.refusals) <= server.session.refusals
    ensures nrc == POSITIVE ==>
      && Suits(data, server.session.c)
      && Awaiting(server.session, data, Add(old(server.session.update.current).transaction, 1))
    ensures (server.session.flash.Uneventful() && server.session.refusals == old(server.session.refusals)
             && old(Ready(server.session))) ==>
      (nrc == POSITIVE <==> Suits(data, old(server.session.c)))
  {
    hide SystemOf, Unambiguous, Outside, InOrder, VersionRight, MayStart, Moves, Confined, TailErased, Written, Staged,
         J.BodyCrc, Suits, PackedImage.Parse, EraseRefusal, Startable, Awaiting, EraseDone, J.FieldsValid;
    var session := server.session;
    ghost var d := session.flash.State();
    ghost var c := session.c;
    ghost var was := session.update.current;
    if session.Permitted() {
      EraseAllowed(session);
    }
    nrc := AskErase(server, Base(session.c.target), SLOT_SIZE);
    if nrc != POSITIVE {
      return;
    }
    ghost var e := session.flash.State();
    ErasedSession(c, session.c, was, session.update.current, session.update.CanContinue());
    EraseTransaction(c, session.c, was, session.update.current, session.update.CanContinue());
    var maximum;
    nrc, maximum := AskDownload(server, Base(session.c.target), SLOT_SIZE);
    MovesCompose(d, e, session.flash.State());
    ConfinedCompose(d, e, session.flash.State(), session.c.target);
    if nrc != POSITIVE {
      return;
    }
    ghost var f := session.flash.State();
    SuitsReads(data, c, session.c);
    nrc := Deliver(server, data, maximum);
    MovesCompose(d, f, session.flash.State());
    ConfinedCompose(d, f, session.flash.State(), session.c.target);
    SuitsReads(data, c, session.c);
  }

  /** Into the programming session, and unlocked. */
  method Unlock(server: Server) returns (ok: bool)
    requires server.session.Valid()
    modifies server, server.session, server.session.buffer, server.session.update, server.session.update.journal,
             server.session.flash, server.session.flash.mem
    ensures server.session.Valid() && server.session.flash.Onward() && server.session.Within()
    ensures old(server.session.refusals) <= server.session.refusals
    ensures ok && Entered(server) && server.session.c.session && server.session.c.unlocked
    ensures !server.session.c.downloadActive
    ensures server.session.flash.Uneventful() && old(server.session.update.CanContinue())
            && old(server.session.update.current).state in {J.IDLE, J.ABORTED} ==>
      server.session.update.CanContinue() && server.session.update.current == old(server.session.update.current)
  {
    hide SystemOf, Unambiguous, Outside, Session.Valid, Moves, Confined, Obeyed, EraseAnswer, DownloadAnswer,
         TransferAnswer, ExitAnswer, VerifyAnswer, Ordered, Security.KeyFor, Security.CalculateKey, Security.Seed;
    OrderedSession(server.session);
    ghost var d := server.session.flash.State();
    var reading := Ask(server, DiagnosticSession(PROGRAMMING_SESSION));
    ghost var e := server.session.flash.State();
    var drawn: word := *;
    reading := Ask(server, RequestSeed(drawn));
    ghost var f := server.session.flash.State();
    MovesCompose(d, e, f);
    ConfinedCompose(d, e, f, server.session.c.target);
    var seed: word := reading.value;
    Security.KeysAgree(seed);
    reading := Ask(server, SendKey(Security.CalculateKey(seed)));
    MovesCompose(d, f, server.session.flash.State());
    ConfinedCompose(d, f, server.session.flash.State(), server.session.c.target);
    ok := reading.Done?;
  }

  /** The whole conversation of an update: the session is entered and unlocked, the
    * image installed, and the reset asked for. */
  method Converse(server: Server, data: seq<byte>) returns (nrc: byte)
    requires server.session.Valid()
    requires PackedImage.Parse(data).Success? && PackedImage.Parse(data).value.slot == server.session.c.target
    modifies server, server.session, server.session.buffer, server.session.update, server.session.update.journal,
             server.session.flash, server.session.flash.mem
    ensures server.session.flash.Consistent() && server.session.flash.Onward() && server.session.Within()
    ensures old(server.session.refusals) <= server.session.refusals
    ensures nrc == POSITIVE ==> server.resetPending && Suits(data, old(server.session.c))
    ensures nrc == POSITIVE ==>
      && server.session.flash.State().journal.Present?
      && server.session.flash.State().journal.record.state == J.PENDING_ACTIVATION
      && server.session.flash.State().journal.record.target == server.session.c.target
      && server.session.flash.State().slots.At(server.session.c.target) == data
    ensures server.session.flash.Uneventful() && server.session.refusals == old(server.session.refusals)
            && old(Prepared(server.session)) ==>
      (nrc == POSITIVE <==> Suits(data, old(server.session.c)))
  {
    hide SystemOf, Unambiguous, Outside, InOrder, VersionRight, MayStart, Moves, Confined, Suits, PackedImage.Parse,
         Handled, Obeyed, Ordered, Awaits;
    var session := server.session;
    ghost var d, c, was := session.flash.State(), session.c, session.Now();
    var unlocked := Unlock(server);
    ghost var e, transaction := session.flash.State(), session.update.current.transaction;
    SuitsReads(data, c, session.c);
    if session.flash.Uneventful() && ReadyIn(was, session.lifecycle.CanStartUpdate(c.active, c.target)) {
      StillReady(session, was);
    }
    nrc := Install(server, data);
    MovesCompose(d, e, session.flash.State());
    ConfinedCompose(d, e, session.flash.State(), session.c.target);
    SuitsReads(data, c, session.c);
    if nrc == POSITIVE {
      AwaitingStart(session, data, Add(transaction, 1));
      nrc := AskReset(server);
    }
  }

  lemma StillReady(s: Session, was: Snapshot)
    requires s.Valid() && SameSlots(was.c, s.c)
    requires ReadyIn(was, s.lifecycle.CanStartUpdate(s.c.active, s.c.target))
    requires s.update.CanContinue() && s.update.current == was.current
    ensures Ready(s)
  {
    hide SystemOf, Unambiguous, Outside, Session.Valid, MayStart, Startable;
    OrderedSession(s);
    ReadyExactly(s);
  }

  /** The reset at the end. */
  method AskReset(server: Server) returns (nrc: byte)
    requires Entered(server) && server.session.CanReset()
    modifies server, server.session, server.session.buffer, server.session.update, server.session.update.journal,
             server.session.flash, server.session.flash.mem
    ensures Entered(server) && server.session.flash.Onward() && server.session.Within()
    ensures old(server.session.refusals) <= server.session.refusals
    ensures nrc == POSITIVE && server.resetPending && server.session.flash.State() == old(server.session.flash.State())
  {
    hide SystemOf, Unambiguous, Outside, Session.Valid, Moves, Confined, Obeyed, Ordered;
    OrderedSession(server.session);
    var reading := Ask(server, EcuReset);
    nrc := Code(reading);
  }

  /** An update can begin, as far as session, journal and metadata are concerned. */
  ghost predicate Prepared(session: Session)
    reads session, session.update, session.lifecycle, session.flash, session.flash.mem
  {
    && session.flash.mem.Length == FLASH_SIZE
    && ReadyIn(session.Now(), session.lifecycle.CanStartUpdate(session.c.active, session.c.target))
  }

  /** From the file to the jump: what was installed is what the next start runs, as
    * its first trial. */
  method InstallAndStart(server: Server, data: seq<byte>, reason: word) returns (nrc: byte, ending: Ending)
    requires Entered(server) && server.session.c.session && server.session.c.unlocked
    requires !server.session.c.downloadActive
    requires PackedImage.Parse(data).Success? && PackedImage.Parse(data).value.slot == server.session.c.target
    requires Safe(server.session.flash.State()) && reason <= M.RESET_DEBUG
    modifies server, server.session, server.session.buffer, server.session.update, server.session.update.journal,
             server.session.flash, server.session.flash.mem
    ensures server.session.flash.Consistent() && server.session.flash.KeptOutside()
    ensures Safe(server.session.flash.State())
    ensures nrc == POSITIVE ==> Suits(data, old(server.session.c))
    ensures (nrc == POSITIVE && server.session.flash.powered
             && server.session.flash.failures == old(server.session.flash.failures)) ==>
      RunsOnTrial(server.session.flash.State(), old(server.session.c).target, data, ending)
  {
    hide SystemOf, Unambiguous, Outside, InOrder, VersionRight, MayStart, Moves, Confined, TailErased, Written, Staged,
         J.BodyCrc, Suits, PackedImage.Parse, Startable, Awaiting, J.FieldsValid, Safe, Ended, Entitled, RunsOnTrial;
    var session := server.session;
    ghost var d, c := session.flash.State(), session.c;
    nrc := Install(server, data);
    ghost var e := session.flash.State();
    SuitsReads(data, c, session.c);
    ghost var awaiting := nrc == POSITIVE;
    if awaiting {
      AwaitingStart(session, data, Add(old(session.update.current).transaction, 1));
    }
    ghost var decided;
    ending, decided := PowerCycle(session.flash, Inputs(reason, true, false, false, false, 0), []);
    MovesSafely(d, e);
    MovesSafely(e, session.flash.State());
    if awaiting {
      InstalledStarts(e, session.flash.State(), c.target, data, reason,
                      session.flash.powered && session.flash.failures == old(session.flash.failures), ending);
    }
  }

  /** The slot was started with this file in it, on the first of its attempts. */
  predicate RunsOnTrial(d: System, target: slot, data: seq<byte>, ending: Ending) {
    && ending == Jump(target) && d.slots.At(target) == data
    && StateOf(d.metadata.At(target)) == M.TRIAL && AttemptsOf(d.metadata.At(target)) == 1
  }

  lemma AwaitingStart(session: Session, data: seq<byte>, transaction: word)
    requires Awaiting(session, data, transaction)
    ensures session.flash.mem.Length == FLASH_SIZE
    ensures var d := session.flash.State();
      && d.journal.Present?
      && d.journal.record.state == J.PENDING_ACTIVATION && d.journal.record.target == session.c.target
      && d.slots.At(session.c.target) == data && session.CanReset()
  {
    hide SystemOf, Installed;
  }

  lemma SafeIsRecoverable(d: System)
    requires Safe(d)
    ensures Recoverable(d) && Recoverable(d.(armed := None))
  {
    hide Bootable, Installed;
  }

  lemma MovesSafely(d: System, e: System)
    requires Moves(d, e) && Safe(d)
    ensures Safe(e)
  {
    hide Safe, Reaches;
    ReachableIsSafe(d, e);
  }

  lemma InstalledStarts(d: System, e: System, target: slot, data: seq<byte>, reason: word, uneventful: bool,
                        ending: Ending)
    requires Safe(d) && d.journal.record.state == J.PENDING_ACTIVATION && d.journal.record.target == target
    requires d.slots.At(target) == data && reason <= M.RESET_DEBUG
    requires uneventful ==> Ended(d.(armed := None), e, Inputs(reason, true, false, false, false, 0), true, ending)
    ensures uneventful ==> RunsOnTrial(e, target, data, ending)
  {
    hide Safe, BootCycle.Booted, BootCycle.Choice, M.BodyCrc, Bootable, Lifecycle.Starting;
    ResetKeepsSafe(d);
    ActivatedImageStarts(d.(armed := None), reason);
  }

  ghost predicate Ready(session: Session)
    reads session, session.update, session.lifecycle
  {
    session.Permitted() && Startable(session.update.current, session.c.active)
  }

  lemma ErasedSession(b: Context, c: Context, was: J.Journal, r: J.Journal, can: bool)
    requires EraseDone(b, c, was, r, can)
    ensures c.active == b.active && c.target == b.target && c.session == b.session && c.unlocked == b.unlocked
    ensures c.eraseComplete && !c.downloadActive && !c.transferComplete && c.received == 0 && c.expected == 1
    ensures c.address == Base(c.target) && c.size == SLOT_SIZE && can
  {
    hide J.BodyCrc;
  }

  // ------------------------------------------------------- from start to start

  /** In this state the device runs a confirmed slot, and the file is an image for
    * the other one with a higher version. */
  predicate Updates(c: System, data: seq<byte>) {
    && BootCycle.Choice(c).Some?
    && var s := BootCycle.Choice(c).value;
       && Confirmed(c, s) && PackedImage.Parse(data).Success?
       && PackedImage.Parse(data).value.slot == Other(s)
       && PackedImage.Parse(data).value.version > VersionOf(c.slots.At(s))
  }

  /** A settled start that captured the confirmed slot it would run lets an update
    * begin beside it. */
  lemma SettledMayUpdate(m: Manager, session: Session)
    requires m.Valid() && m.Settled() && session.Valid()
    requires session.update == m.update && session.lifecycle == m.lifecycle && session.flash == m.flash
    requires session.c == Initial(m.activeSlot, m.activeVersion)
    requires BootCycle.Choice(m.flash.State()) == Some(m.activeSlot) && Confirmed(m.flash.State(), m.activeSlot)
    ensures Prepared(session) && session.c.target == Other(m.activeSlot)
    ensures m.VersionCaptured() ==> m.activeVersion == VersionOf(m.flash.State().slots.At(m.activeSlot))
  {
    hide SystemOf, Unambiguous, Outside, Session.Valid, Bootable, VersionOf, J.FieldsValid, MayStart;
    ChosenIsReleased(m);
    assert m.flash.State().journal == Present(m.update.current);
  }

  lemma ChosenIsReleased(m: Manager)
    requires m.Valid() && m.Settled() && BootCycle.Choice(m.flash.State()) == Some(m.activeSlot)
    ensures m.Released(m.activeSlot) && Allowed(m.update.current, m.activeSlot)
  {
    hide SystemOf, Unambiguous, Outside, Bootable, VersionOf;
    SettledReleases(m, m.activeSlot);
  }

  /** The programming server after a start, in conversation with the gateway. */
  method ServeUpdate(manager: Manager, data: seq<byte>) returns (nrc: byte, ghost told: bool)
    requires manager.Valid() && manager.VersionCaptured() && manager.CapturedRight(false, UNKNOWN)
    requires IsSlot(manager.activeSlot) || manager.activeSlot == UNKNOWN
    modifies manager.update, manager.update.journal, manager.flash, manager.flash.mem
    ensures manager.flash.Consistent() && manager.flash.Onward()
    ensures Moves(old(manager.flash.State()), manager.flash.State())
    ensures nrc == POSITIVE ==>
      && manager.flash.State().journal.Present?
      && manager.flash.State().journal.record.state == J.PENDING_ACTIVATION
      && manager.flash.State().journal.record.target == TargetOf(manager.activeSlot)
      && manager.flash.State().slots.At(TargetOf(manager.activeSlot)) == data
    ensures manager.flash.Uneventful() && told && old(manager.Settled() && Updates(manager.flash.State(), data)) ==>
      nrc == POSITIVE && BootCycle.Choice(old(manager.flash.State())) == Some(manager.activeSlot)
  {
    hide SystemOf, Unambiguous, Outside, Moves, InOrder, VersionRight, MayStart, Bootable, BootCycle.Choice, Confined,
         PackedImage.Parse, Session.Valid, Prepared;
    ghost var d := manager.flash.State();
    MovesSelf(d);
    var session := new Session(manager.flash, manager.update, manager.lifecycle, manager.activeSlot,
                               manager.activeVersion);
    var server := new Server(session);
    ghost var sent := session.refusals;
    ghost var updates := manager.Settled() && Updates(d, data);
    told := true;
    if updates {
      SettledMayUpdate(manager, session);
    }
    var parsed := PackedImage.Parse(data);
    if parsed.Failure? || parsed.value.slot != session.c.target {
      return CONDITIONS_NOT_CORRECT, true;
    }
    nrc := Converse(server, data);
    told := session.refusals == sent;
  }

  lemma UpdateChosen(c: System, data: seq<byte>)
    ensures Updates(c, data) ==>
      BootCycle.Choice(c).Some? && TargetOf(BootCycle.Choice(c).value) == Other(BootCycle.Choice(c).value)
  {
    hide BootCycle.Choice, PackedImage.Parse;
  }

  /** With the request pin set the start ends in the server, and all it had to do is done. */
  lemma AskedForServer(d: System, e: System, reason: word, ending: Ending)
    requires Safe(d) && reason <= M.RESET_DEBUG
    requires Ended(d, e, Inputs(reason, false, false, true, false, UNKNOWN), true, ending)
    ensures ending == Server && Recoverable(d) && e == BootCycle.Booted(d, reason)
  {
    hide Safe, BootCycle.Choice, BootCycle.Booted;
  }

  /** An update awaits activation in `target`, which holds `data`. */
  predicate Delivered(d: System, target: slot, data: seq<byte>) {
    && d.journal.Present? && d.journal.record.state == J.PENDING_ACTIVATION && d.journal.record.target == target
    && d.slots.At(target) == data
  }

  /** A start with the request pin set, and the gateway's conversation with the server. */
  method StartAndServe(flash: Flash, reason: word, data: seq<byte>) returns (ghost told: bool)
    requires flash.Consistent() && Safe(flash.State()) && reason <= M.RESET_DEBUG
    modifies flash, flash.mem
    ensures flash.Consistent() && flash.KeptOutside() && Safe(flash.State())
    ensures old(flash.failures) <= flash.failures && Recoverable(old(flash.State()).(armed := None))
    ensures var c := BootCycle.Booted(old(flash.State()).(armed := None), reason);
      flash.failures == old(flash.failures) && flash.powered && told && Updates(c, data) ==>
        Delivered(flash.State(), Other(BootCycle.Choice(c).value), data)
  {
    hide SystemOf, Unambiguous, Outside, Moves, BootCycle.Choice, Safe, Ended, Entitled, Recoverable,
         BootCycle.Booted, Updates, BootCycle.AtRest;
    SafeIsRecoverable(flash.State());
    ResetKeepsSafe(flash.State());
    flash.PowerOn();
    ghost var e := flash.State();
    var journal := new JournalStore.JournalStore(flash);
    var store := new MetadataStore.MetadataStore(flash);
    var update := new Update(flash, journal);
    var lifecycle := new Lifecycle.Lifecycle(flash, update, store);
    var manager := new Manager(flash, update, lifecycle);
    label started:
    var ending := manager.Run(Inputs(reason, false, false, true, false, UNKNOWN));
    ghost var f := flash.State();
    MovesSafely(e, f);
    if flash.Uneventful@started() {
      AskedForServer(e, f, reason, ending);
    }
    told := true;
    if ending == Server {
      var nrc;
      nrc, told := ServeUpdate(manager, data);
      MovesSafely(f, flash.State());
      UpdateChosen(f, data);
    }
  }

  /** An update from start to start: the device is started with the request pin set,
    * the gateway holds its conversation with the server, and the device is started
    * again. If power and flash hold and every response-pending message is sent, a file
    * that is an image for the other slot, newer than the confirmed one that would have
    * run, is what runs in the end, on trial. */
  method UpdateDevice(flash: Flash, reason: word, data: seq<byte>, again: word)
      returns (ending: Ending, ghost undisturbed: bool)
    requires flash.Consistent() && Safe(flash.State()) && reason <= M.RESET_DEBUG && again <= M.RESET_DEBUG
    modifies flash, flash.mem
    ensures flash.Consistent() && flash.KeptOutside() && Safe(flash.State())
    ensures Recoverable(old(flash.State()).(armed := None))
    ensures var c := BootCycle.Booted(old(flash.State()).(armed := None), reason);
      flash.powered && flash.failures == old(flash.failures) && undisturbed && Updates(c, data) ==>
        RunsOnTrial(flash.State(), Other(BootCycle.Choice(c).value), data, ending)
  {
    hide SystemOf, Unambiguous, Outside, Moves, BootCycle.Choice, Safe, Ended, Entitled, RunsOnTrial,
         BootCycle.Booted, PackedImage.Parse;
    ghost var d := flash.State();
    undisturbed := StartAndServe(flash, reason, data);
    undisturbed := undisturbed && flash.powered;
    ghost var g := flash.State();
    ghost var decided;
    ending, decided := PowerCycle(flash, Inputs(again, true, false, false, false, 0), []);
    MovesSafely(g, flash.State());
    ghost var c := BootCycle.Booted(d.(armed := None), reason);
    if Updates(c, data) && Delivered(g, Other(BootCycle.Choice(c).value), data) {
      InstalledStarts(g, flash.State(), Other(BootCycle.Choice(c).value), data, again,
                      flash.powered && flash.failures == old(flash.failures), ending);
    }
  }
}
